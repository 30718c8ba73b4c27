/** str_replace of src/lib/string.c: a counting pass, then a building pass. */
module TextReplace {
  import opened Text
  import Bits

  // ----- What replacing means -----

  predicate MatchesAt(s: string, i: nat, w: string) {
    i + |w| <= |s| && s[i..i + |w|] == w
  }

  /** First index at or after `from` where w occurs; |s| + 1 when nowhere. */
  function FirstMatch(s: string, w: string, from: nat): (i: nat)
    requires from <= |s| + 1
    ensures from <= i <= |s| + 1
    ensures i <= |s| ==> i + |w| <= |s|
    decreases |s| + 1 - from
  {
    if from > |s| || MatchesAt(s, from, w) then from else FirstMatch(s, w, from + 1)
  }

  lemma {:induction false} FirstMatchIs(s: string, w: string, from: nat)
    requires from <= |s| + 1
    ensures var i := FirstMatch(s, w, from);
      (i <= |s| ==> MatchesAt(s, i, w)) && forall j :: from <= j < i && j <= |s| ==> !MatchesAt(s, j, w)
    decreases |s| + 1 - from
  {
    if from <= |s| && !MatchesAt(s, from, w) {
      FirstMatchIs(s, w, from + 1);
    }
  }

  /** Every occurrence of w, leftmost first and not overlapping, becomes r. */
  function Replaced(s: string, w: string, r: string): string
    requires w != ""
    decreases |s|
  {
    if s == "" then ""
    else if MatchesAt(s, 0, w) then r + Replaced(s[|w|..], w, r)
    else [s[0]] + Replaced(s[1..], w, r)
  }

  /** How often w occurs, so counted. */
  function Occurrences(s: string, w: string): nat
    requires w != ""
    decreases |s|
  {
    if s == "" then 0
    else if MatchesAt(s, 0, w) then 1 + Occurrences(s[|w|..], w)
    else Occurrences(s[1..], w)
  }

  /** What lies between the occurrences: up to the first match, then in what follows
      it. */
  function Pieces(s: string, w: string): (p: seq<string>)
    requires w != ""
    ensures p != []
    decreases |s|
  {
    var i := FirstMatch(s, w, 0);
    if i > |s| then [s] else [s[..i]] + Pieces(s[i + |w|..], w)
  }

  // ----- Replacing is cutting and joining -----

  /** A match, character by character. */
  lemma MatchesEach(s: string, i: nat, w: string)
    ensures MatchesAt(s, i, w) <==> i + |w| <= |s| && forall k :: 0 <= k < |w| ==> s[i + k] == w[k]
  {
    if i + |w| <= |s| {
      var here := s[i..i + |w|];
      assert forall k :: 0 <= k < |w| ==> here[k] == s[i + k];
    }
  }

  lemma MatchShift(s: string, w: string, i: nat)
    requires 1 <= i <= |s|
    ensures MatchesAt(s, i, w) <==> MatchesAt(s[1..], i - 1, w)
  {
    MatchesEach(s, i, w);
    MatchesEach(s[1..], i - 1, w);
    if i + |w| <= |s| {
      forall k | 0 <= k < |w|
        ensures s[1..][i - 1 + k] == w[k] <==> s[i + k] == w[k]
      {
      }
    }
  }

  /** No match before i. */
  ghost predicate NoneBefore(s: string, w: string, i: nat) {
    forall j: nat {:trigger MatchesAt(s, j, w)} :: j < i && j <= |s| ==> !MatchesAt(s, j, w)
  }

  lemma NoneBeforeTail(s: string, w: string, i: nat)
    requires s != "" && i > 0 && NoneBefore(s, w, i)
    ensures !MatchesAt(s, 0, w) && NoneBefore(s[1..], w, i - 1)
  {
    forall j: nat | j < i - 1 && j <= |s| - 1
      ensures !MatchesAt(s[1..], j, w)
    {
      MatchShift(s, w, j + 1);
    }
  }

  /** s with w between head and rest. */
  predicate Around(s: string, head: string, w: string, rest: string) {
    s == head + w + rest
  }

  lemma AroundFront(s: string, w: string, rest: string)
    requires Around(s, "", w, rest)
    ensures MatchesAt(s, 0, w) && s[|w|..] == rest
  {
    assert s == w + rest;
  }

  lemma AroundTail(s: string, head: string, w: string, rest: string)
    requires Around(s, head, w, rest) && head != ""
    ensures s != "" && s[0] == head[0] && Around(s[1..], head[1..], w, rest)
  {
  }

  lemma AroundMatch(s: string, i: nat, w: string)
    requires MatchesAt(s, i, w)
    ensures Around(s, s[..i], w, s[i + |w|..])
  {
    assert s == s[..i] + s[i..i + |w|] + s[i + |w|..];
  }

  lemma Prepend(head: string, r: string, t: string)
    requires head != ""
    ensures [head[0]] + (head[1..] + r + t) == head + r + t
  {
  }

  lemma {:induction false} UpToMatch(s: string, head: string, w: string, rest: string, r: string)
    requires w != "" && Around(s, head, w, rest) && NoneBefore(s, w, |head|)
    ensures Replaced(s, w, r) == head + r + Replaced(rest, w, r)
    decreases |head|
  {
    if head == "" {
      AroundFront(s, w, rest);
      assert "" + r == r;
    } else {
      AroundTail(s, head, w, rest);
      NoneBeforeTail(s, w, |head|);
      UpToMatch(s[1..], head[1..], w, rest, r);
      Prepend(head, r, Replaced(rest, w, r));
    }
  }

  lemma {:induction false} CountToMatch(s: string, head: string, w: string, rest: string)
    requires w != "" && Around(s, head, w, rest) && NoneBefore(s, w, |head|)
    ensures Occurrences(s, w) == 1 + Occurrences(rest, w)
    decreases |head|
  {
    if head == "" {
      AroundFront(s, w, rest);
    } else {
      AroundTail(s, head, w, rest);
      NoneBeforeTail(s, w, |head|);
      CountToMatch(s[1..], head[1..], w, rest);
    }
  }

  lemma {:induction false} NoMatch(s: string, w: string, r: string)
    requires w != "" && NoneBefore(s, w, |s| + 1)
    ensures Replaced(s, w, r) == s && Occurrences(s, w) == 0
    decreases |s|
  {
    if s != "" {
      NoneBeforeTail(s, w, |s| + 1);
      NoMatch(s[1..], w, r);
      assert s == [s[0]] + s[1..];
    }
  }

  /** Replacing cuts the string at the occurrences of w, each the first in what is
      left, and joins the pieces with r: no piece is altered. */
  lemma {:induction false} ReplacedJoins(s: string, w: string, r: string)
    requires w != ""
    ensures Replaced(s, w, r) == Join(Pieces(s, w), r) && |Pieces(s, w)| == Occurrences(s, w) + 1
    decreases |s|
  {
    var i := FirstMatch(s, w, 0);
    FirstMatchIs(s, w, 0);
    if i <= |s| {
      var rest := s[i + |w|..];
      ReplacedJoins(rest, w, r);
      AroundMatch(s, i, w);
      UpToMatch(s, s[..i], w, rest, r);
      CountToMatch(s, s[..i], w, rest);
      JoinCons(s[..i], Pieces(rest, w), r);
    } else {
      NoMatch(s, w, r);
    }
  }

  /** Replacing w by itself changes nothing. */
  lemma {:induction false} ReplaceBySelf(s: string, w: string)
    requires w != ""
    ensures Replaced(s, w, w) == s
    decreases |s|
  {
    if s != "" {
      if MatchesAt(s, 0, w) {
        ReplaceBySelf(s[|w|..], w);
        assert s == s[0..|w|] + s[|w|..];
      } else {
        ReplaceBySelf(s[1..], w);
        assert s == [s[0]] + s[1..];
      }
    }
  }

  /** The output length, from the number of occurrences. */
  lemma {:induction false} ReplacedLength(s: string, w: string, r: string)
    requires w != ""
    ensures |Replaced(s, w, r)| == |s| + Occurrences(s, w) * (|r| - |w|)
    decreases |s|
  {
    if s != "" {
      if MatchesAt(s, 0, w) {
        ReplacedLength(s[|w|..], w, r);
        Bits.Distribute(1, Occurrences(s[|w|..], w), |r| - |w|);
      } else {
        ReplacedLength(s[1..], w, r);
      }
    }
  }

  // ----- One step of either pass -----

  /** What a pass puts for position i, and where it goes on. */
  function Head(s: string, i: nat, w: string, r: string): string
    requires i < |s|
  {
    if MatchesAt(s, i, w) then r else [s[i]]
  }

  function Next(s: string, i: nat, w: string): nat
    requires i < |s|
  {
    if MatchesAt(s, i, w) then i + |w| else i + 1
  }

  /** One step of a pass at position i of s. */
  lemma StepAt(s: string, i: nat, w: string, r: string)
    requires w != "" && i < |s|
    ensures Next(s, i, w) <= |s| && Replaced(s[i..], w, r) == Head(s, i, w, r) + Replaced(s[Next(s, i, w)..], w, r)
    ensures Occurrences(s[i..], w) == Occurrences(s[Next(s, i, w)..], w) + if MatchesAt(s, i, w) then 1 else 0
  {
    if i + |w| <= |s| { assert s[i..][0..|w|] == s[i..i + |w|]; }
    assert s[i..][Next(s, i, w) - i..] == s[Next(s, i, w)..];
  }

  // ----- The code -----

  /** A string with its terminator and nothing behind it: any read past the
      terminator would be out of bounds. */
  predicate CString(m: seq<char>) {
    |m| > 0 && m[|m| - 1] == NUL && forall j :: 0 <= j < |m| - 1 ==> m[j] != NUL
  }

  function Chars(m: seq<char>): string
    requires CString(m)
  {
    m[..|m| - 1]
  }

  method Length(m: seq<char>) returns (n: nat)
    requires CString(m)
    ensures n == |m| - 1
  {
    n := 0;
    while m[n] != NUL
      invariant n <= |m| - 1
      decreases |m| - n
    {
      n := n + 1;
    }
  }

  /** Lines 127-133: compare, stopping at the first difference. */
  method Matches(begin: seq<char>, i: nat, what: seq<char>) returns (match_: bool)
    requires CString(begin) && CString(what) && i < |begin| - 1
    ensures match_ <==> MatchesAt(Chars(begin), i, Chars(what))
  {
    ghost var s, w := Chars(begin), Chars(what);
    MatchesEach(s, i, w);
    for j := 0 to |what| - 1
      invariant i + j <= |s| && forall k :: 0 <= k < j ==> s[i + k] == w[k]
    {
      if begin[i + j] != what[j] {
        return false;
      }
    }
    return true;
  }

  /** Occurrences from position i on. */
  function StillToCome(s: string, i: nat, w: string): nat
    requires w != "" && i <= |s|
  {
    Occurrences(s[i..], w)
  }

  lemma CountStep(s: string, i: nat, w: string)
    requires w != "" && i < |s|
    ensures Next(s, i, w) <= |s|
    ensures StillToCome(s, i, w) == StillToCome(s, Next(s, i, w), w) + if MatchesAt(s, i, w) then 1 else 0
  {
    StepAt(s, i, w, "");
  }

  method CountMatches(begin: seq<char>, what: seq<char>) returns (count: nat)
    requires CString(begin) && CString(what) && |what| > 1
    ensures count == Occurrences(Chars(begin), Chars(what))
  {
    ghost var s, w := Chars(begin), Chars(what);
    count := 0;
    var i := 0;
    assert s[0..] == s;
    while i < |begin| - 1
      invariant i <= |s|
      invariant StillToCome(s, i, w) + count == StillToCome(s, 0, w)
    {
      var hit := Matches(begin, i, what);
      CountStep(s, i, w);
      if hit {
        count := count + 1;
        i := i + |what| - 1;
      } else {
        i := i + 1;
      }
    }
  }

  /** The output is exactly the allocated outlen characters and a terminator. An
      empty pattern gives a copy. The lengths must fit a 32-bit int. */
  method StrReplace(begin: seq<char>, what: seq<char>, repl: seq<char>) returns (out: array<char>)
    requires CString(begin) && CString(what) && CString(repl)
    requires |begin| < 0x8000_0000 && |what| < 0x8000_0000 && |repl| < 0x8000_0000
    requires |what| > 1 ==> |Replaced(Chars(begin), Chars(what), Chars(repl))| < 0x7fff_ffff
    ensures fresh(out)
    ensures out[..] == (if |what| == 1 then Chars(begin) else Replaced(Chars(begin), Chars(what), Chars(repl))) + [NUL]
  {
    var blen: int := Length(begin);
    var wlen: int := Length(what);
    var rlen: int := Length(repl);
    if wlen == 0 {
      out := new char[blen + 1](i requires 0 <= i < |begin| => begin[i]);
      assert out[..] == begin == Chars(begin) + [NUL];
      return;
    }
    var count := CountMatches(begin, what);
    ghost var s, w, r := Chars(begin), Chars(what), Chars(repl);
    ReplacedLength(s, w, r);
    var outlen := blen + count * (rlen - wlen);
    out := new char[outlen + 1](_ => NUL);
    Build(begin, what, repl, out);
  }

  /** `for (j...) out[oi++] = repl[j];` */
  method Emit(out: array<char>, start: nat, repl: seq<char>) returns (oi: nat)
    requires CString(repl) && start + |repl| - 1 <= out.Length
    modifies out
    ensures oi == start + |repl| - 1
    ensures out[..oi] == old(out[..start]) + Chars(repl)
  {
    oi := start;
    for j := 0 to |repl| - 1
      invariant oi == start + j
      invariant out[..oi] == old(out[..start]) + repl[..j]
    {
      out[oi] := repl[j];
      oi := oi + 1;
    }
  }

  /** `out[oi++] = c;` */
  method EmitChar(out: array<char>, start: nat, c: char) returns (oi: nat)
    requires start < out.Length
    modifies out
    ensures oi == start + 1 && out[..oi] == old(out[..start]) + [c]
  {
    out[start] := c;
    oi := start + 1;
  }

  /** The body of the building pass. */
  method BuildAt(begin: seq<char>, i0: nat, what: seq<char>, repl: seq<char>, out: array<char>, oi0: nat)
    returns (i: nat, oi: nat)
    requires CString(begin) && CString(what) && CString(repl) && i0 < |begin| - 1
    requires oi0 + |Head(Chars(begin), i0, Chars(what), Chars(repl))| <= out.Length
    modifies out
    ensures i == Next(Chars(begin), i0, Chars(what))
    ensures oi <= out.Length
    ensures out[..oi] == old(out[..oi0]) + Head(Chars(begin), i0, Chars(what), Chars(repl))
  {
    var hit := Matches(begin, i0, what);
    if hit {
      oi := Emit(out, oi0, repl);
      i := i0 + |what| - 1;
    } else {
      oi := EmitChar(out, oi0, begin[i0]);
      i := i0 + 1;
    }
  }

  method Build(begin: seq<char>, what: seq<char>, repl: seq<char>, out: array<char>)
    requires CString(begin) && CString(what) && CString(repl) && |what| > 1
    requires out.Length == |Replaced(Chars(begin), Chars(what), Chars(repl))| + 1
    modifies out
    ensures out[..] == Replaced(Chars(begin), Chars(what), Chars(repl)) + [NUL]
  {
    ghost var s, w, r := Chars(begin), Chars(what), Chars(repl);
    ghost var all := Replaced(s, w, r);
    ghost var done, left := "", all;
    var oi: nat, i: nat := 0, 0;
    assert s[0..] == s;
    while i < |begin| - 1
      invariant i <= |s| && oi <= out.Length && out[..oi] == done
      invariant left == Replaced(s[i..], w, r)
      invariant all == done + left
    {
      ghost var head := Head(s, i, w, r);
      StepAt(s, i, w, r);
      left := Replaced(s[Next(s, i, w)..], w, r);
      Concat3(done, head, left);
      done := done + head;
      Fits(all, done, left);
      i, oi := BuildAt(begin, i, what, repl, out, oi);
    }
    assert s[i..] == "";
    out[oi] := NUL;
  }

  lemma Fits(all: string, done: string, left: string)
    requires all == done + left
    ensures |done| <= |all|
  {
  }

}
