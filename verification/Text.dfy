/** The string routines of src/lib/string.c. Pointers are indices into a buffer. */
module Text {

  const NUL: char := '\0'
  const NONE: int := -1  // the NULL pointer

  /** The C string at index i of buffer b is s: its characters, then a NUL. */
  predicate HasStr(b: seq<char>, i: nat, s: string) {
    && i + |s| < |b|
    && b[i + |s|] == NUL
    && forall j {:trigger s[j]} :: 0 <= j < |s| ==> s[j] != NUL && b[i + j] == s[j]
  }

  lemma FirstChar(b: seq<char>, i: nat, s: string)
    requires HasStr(b, i, s)
    ensures b[i] == NUL <==> s == ""
  {
    if s != "" {
      assert b[i] == s[0];
    }
  }

  lemma CharAt(b: seq<char>, i: nat, s: string, j: nat)
    requires HasStr(b, i, s) && j <= |s|
    ensures b[i + j] == NUL <==> j == |s|
    ensures j < |s| ==> b[i + j] == s[j]
  {
    if j < |s| {
      assert s[j] != NUL;
    }
  }

  /** A NUL written k characters into a string cuts it in two. */
  lemma StrCutAt(b: seq<char>, i: nat, s: string, k: nat)
    requires HasStr(b, i, s) && k < |s|
    ensures HasStr(b[i + k := NUL], i, s[..k])
    ensures HasStr(b[i + k := NUL], i + k + 1, s[k + 1..])
  {
  }

  /** A string is untouched by a write outside it and its terminator. */
  lemma StrKept(b: seq<char>, i: nat, s: string, at: nat, c: char)
    requires HasStr(b, i, s) && at < |b| && !(i <= at <= i + |s|)
    ensures HasStr(b[at := c], i, s)
  {
  }

  /** Index of the first c in s; |s| when there is none. */
  function Cut(s: string, c: char): (k: nat)
    ensures k <= |s|
    ensures forall j :: 0 <= j < k ==> s[j] != c
    ensures k < |s| ==> s[k] == c
  {
    if s == "" || s[0] == c then 0 else 1 + Cut(s[1..], c)
  }

  lemma CutIs(s: string, c: char, k: nat)
    requires k <= |s| && (k < |s| ==> s[k] == c)
    requires forall j :: 0 <= j < k ==> s[j] != c
    ensures Cut(s, c) == k
  {
  }

  // ----- Tokens: strtok and split_str -----

  /** What follows the first token and its separator. */
  function Rest(s: string, sep: char): string {
    var k := Cut(s, sep);
    if k < |s| then s[k + 1..] else ""
  }

  /** What the separators cut s into. A trailing separator adds no empty token. */
  function Tokens(s: string, sep: char): seq<string>
    decreases |s|
  {
    if s == "" then [] else [s[..Cut(s, sep)]] + Tokens(Rest(s, sep), sep)
  }

  function Join(parts: seq<string>, glue: string): string {
    if parts == [] then "" else if |parts| == 1 then parts[0]
    else parts[0] + glue + Join(parts[1..], glue)
  }

  predicate EndsWith(s: string, c: char) {
    s != "" && s[|s| - 1] == c
  }

  lemma JoinCons(first: string, rest: seq<string>, glue: string)
    requires rest != []
    ensures Join([first] + rest, glue) == first + glue + Join(rest, glue)
  {
    assert ([first] + rest)[1..] == rest;
  }

  function Trailing(s: string, c: char): string {
    if EndsWith(s, c) then [c] else ""
  }

  lemma {:induction false} LastToken(s: string, sep: char)
    requires s != "" && Rest(s, sep) == ""
    ensures Tokens(s, sep) == [s[..Cut(s, sep)]]
    ensures s == s[..Cut(s, sep)] + Trailing(s, sep)
  {
    var k := Cut(s, sep);
    assert Tokens("", sep) == [];
    if k < |s| {
      assert s == s[..k] + [s[k]] + s[k + 1..];
    } else {
      assert s[..k] == s;
    }
  }

  lemma TrailingOfRest(s: string, sep: char)
    requires Rest(s, sep) != ""
    ensures s == s[..Cut(s, sep)] + [sep] + Rest(s, sep)
    ensures Trailing(s, sep) == Trailing(Rest(s, sep), sep)
  {
  }

  lemma Concat3<T>(a: seq<T>, b: seq<T>, c: seq<T>)
    ensures a + (b + c) == (a + b) + c
  {
  }

  lemma Concat4(a: string, b: string, c: string, d: string)
    ensures ((a + b) + c) + d == a + ((b + c) + d)
  {
  }

  lemma Regroup(s: string, a: string, b: string, rest: string, c: string, d: string)
    requires s == a + b + rest && rest == c + d
    ensures s == a + b + c + d
  {
  }

  /** Joining the tokens restores the string but for one trailing separator. */
  lemma {:induction false} TokensJoin(s: string, sep: char)
    ensures s == Join(Tokens(s, sep), [sep]) + Trailing(s, sep)
    decreases |s|
  {
    if s == "" {
    } else if Rest(s, sep) == "" {
      LastToken(s, sep);
    } else {
      var first, rest := s[..Cut(s, sep)], Rest(s, sep);
      TokensJoin(rest, sep);
      JoinCons(first, Tokens(rest, sep), [sep]);
      TrailingOfRest(s, sep);
      Regroup(s, first, [sep], rest, Join(Tokens(rest, sep), [sep]), Trailing(rest, sep));
    }
  }

  lemma {:induction false} TokensClean(s: string, sep: char)
    ensures forall i :: 0 <= i < |Tokens(s, sep)| ==> sep !in Tokens(s, sep)[i]
    decreases |s|
  {
    if s != "" {
      TokensClean(Rest(s, sep), sep);
    }
  }

  /** `while (*p && *p != sep) p++;` */
  method Scan(b: array<char>, start: nat, sep: char, ghost s: string) returns (p: nat)
    requires HasStr(b[..], start, s)
    ensures p == start + Cut(s, sep)
  {
    p := start;
    while b[p] != NUL && b[p] != sep
      invariant start <= p <= start + |s|
      invariant forall j :: 0 <= j < p - start ==> s[j] != sep
      decreases b.Length - p
    {
      assert s[p - start] == b[p];
      p := p + 1;
    }
    assert p - start < |s| ==> s[p - start] == b[p];
    CutIs(s, sep, p - start);
  }

  /** The cursor ptr has still to deliver s. */
  predicate StillToDeliver(b: seq<char>, ptr: int, s: string) {
    if ptr == NONE then s == "" else ptr >= 0 && HasStr(b, ptr, s)
  }

  /** Successive calls hand out the tokens one by one: each returns the first token
      of what is left, terminated in place, and leaves the rest of the tokens. */
  method Strtok(b: array<char>, ptr: int, sep: char, ghost s: string) returns (tok: int, next: int)
    requires sep != NUL && StillToDeliver(b[..], ptr, s)
    modifies b
    ensures tok == NONE <==> s == ""
    ensures tok == NONE ==> next == ptr && b[..] == old(b[..])
    ensures tok != NONE ==> tok == ptr >= 0 && HasStr(b[..], tok, s[..Cut(s, sep)])
    ensures tok != NONE ==> StillToDeliver(b[..], next, Rest(s, sep))
    ensures tok != NONE ==> Tokens(s, sep) == [s[..Cut(s, sep)]] + Tokens(Rest(s, sep), sep)
    ensures tok != NONE ==> forall j :: 0 <= j < b.Length && j != tok + Cut(s, sep) ==> b[j] == old(b[j])
  {
    if ptr != NONE { FirstChar(b[..], ptr, s); }
    if ptr == NONE || b[ptr] == NUL {
      return NONE, ptr;
    }
    var p := Scan(b, ptr, sep, s);
    ghost var k := Cut(s, sep);
    assert k < |s| ==> b[p] == s[k];
    tok := ptr;
    if b[p] == sep {
      StrCutAt(b[..], ptr, s, k);
      ghost var m := b[..];
      b[p] := NUL;
      assert b[..] == m[p := NUL];
      next := p + 1;
    } else {
      assert s[..k] == s;
      next := NONE;
    }
  }

  /** The first `count` tokens stand terminated, ending at or before `limit`. */
  ghost predicate Delivered(b: seq<char>, starts: seq<nat>, toks: seq<string>, count: nat, limit: nat)
    requires count <= |toks| && count <= |starts|
  {
    forall i {:trigger starts[i]} :: 0 <= i < count ==> HasStr(b, starts[i], toks[i]) && starts[i] + |toks[i]| <= limit
  }

  /** Cutting one more token at `at` disturbs none of those before it. */
  lemma DeliverOne(b: seq<char>, starts: seq<nat>, toks: seq<string>, count: nat, at: nat, s: string, sep: char)
    requires count < |toks| && count < |starts| && starts[count] == at
    requires HasStr(b, at, s) && s != "" && Delivered(b, starts, toks, count, at)
    requires toks[count] == s[..Cut(s, sep)]
    ensures Cut(s, sep) == |s| ==> Delivered(b, starts, toks, count + 1, at + |s|)
    ensures Cut(s, sep) < |s| ==> Delivered(b[at + Cut(s, sep) := NUL], starts, toks, count + 1, at + Cut(s, sep) + 1)
  {
    var k := Cut(s, sep);
    assert b[at] == s[0];
    if k == |s| {
      assert s[..k] == s;
    } else {
      StrCutAt(b, at, s, k);
      forall i | 0 <= i < count
        ensures HasStr(b[at + k := NUL], starts[i], toks[i])
      {
        assert HasStr(b, starts[i], toks[i]);
        assert starts[i] + |toks[i]| != at;
        StrKept(b, starts[i], toks[i], at + k, NUL);
      }
    }
  }

  /** One round of the loop: to the end of the token, past its separator. */
  method TakeToken(b: array<char>, at: nat, sep: char, ghost s: string) returns (next: nat)
    requires sep != NUL && HasStr(b[..], at, s)
    modifies b
    ensures var k := Cut(s, sep);
      (k < |s| ==> next == at + k + 1 && b[..] == old(b[..])[at + k := NUL]) &&
      (k == |s| ==> next == at + k && b[..] == old(b[..]))
    ensures HasStr(b[..], next, Rest(s, sep))
  {
    next := Scan(b, at, sep, s);
    ghost var k := Cut(s, sep);
    assert k < |s| ==> b[next] == s[k];
    if b[next] == sep {
      StrCutAt(b[..], at, s, k);
      ghost var m := b[..];
      b[next] := NUL;
      assert b[..] == m[next := NUL];
      next := next + 1;
    }
  }

  lemma NextToken(toks: seq<string>, count: nat, left: string, sep: char)
    requires count <= |toks| && toks[count..] == Tokens(left, sep) && left != ""
    ensures count < |toks| && toks[count] == left[..Cut(left, sep)]
    ensures toks[count + 1..] == Tokens(Rest(left, sep), sep)
  {
    assert toks[count] == toks[count..][0];
    assert toks[count + 1..] == toks[count..][1..];
  }

  lemma DeliveredMore(b: seq<char>, starts: seq<nat>, toks: seq<string>, count: nat, limit: nat, at: nat)
    requires count <= |toks| && count < |starts| && Delivered(b, starts, toks, count, limit)
    ensures Delivered(b, starts[count := at], toks, count, limit)
  {
  }

  /** Splits in place: the tokens' start indices, or -1 when there are more tokens
      than slots. */
  method SplitStr(b: array<char>, sep: char, result: array<nat>, maxSplits: nat, ghost s: string) returns (count: int)
    requires sep != NUL && HasStr(b[..], 0, s) && maxSplits <= result.Length
    modifies b, result
    ensures count == if |Tokens(s, sep)| > maxSplits then -1 else |Tokens(s, sep)|
    ensures count >= 0 ==> Delivered(b[..], result[..], Tokens(s, sep), count, |s|)
  {
    ghost var toks, left := Tokens(s, sep), s;
    var str: nat := 0;
    count := 0;
    while b[str] != NUL
      invariant HasStr(b[..], str, left) && str + |left| == |s|
      invariant 0 <= count <= |toks| && count <= maxSplits
      invariant toks[count..] == Tokens(left, sep)
      invariant Delivered(b[..], result[..], toks, count, str)
      decreases |left|
    {
      FirstChar(b[..], str, left);
      NextToken(toks, count, left, sep);
      if count >= maxSplits {
        return -1;
      }
      str := SplitOne(b, sep, result, count, str, left, toks);
      left := Rest(left, sep);
      count := count + 1;
    }
    FirstChar(b[..], str, left);
  }

  /** `result[count++] = str;` and on to the next token. */
  method SplitOne(b: array<char>, sep: char, result: array<nat>, count: nat, at: nat,
                  ghost left: string, ghost toks: seq<string>)
    returns (next: nat)
    requires sep != NUL && HasStr(b[..], at, left) && left != ""
    requires count < |toks| && count < result.Length && toks[count] == left[..Cut(left, sep)]
    requires Delivered(b[..], result[..], toks, count, at)
    modifies b, result
    ensures HasStr(b[..], next, Rest(left, sep)) && next + |Rest(left, sep)| == at + |left|
    ensures Delivered(b[..], result[..], toks, count + 1, next)
  {
    ghost var starts := result[..][count := at];
    DeliveredMore(b[..], result[..], toks, count, at, at);
    DeliverOne(b[..], starts, toks, count, at, left, sep);
    result[count] := at;
    assert result[..] == starts;
    next := TakeToken(b, at, sep, left);
  }
}
