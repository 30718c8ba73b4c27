/** The hexdump printer and parser of src/apps/hexedit/hexedit.c. */
module Hexdump {
  import opened Bits
  import opened Text

  const HEX_CHARS: string := "0123456789ABCDEF"

  // ----- Single characters -----

  /** hex_char_to_value; 0xFF for anything that is not a hex digit. */
  function HexCharToValue(c: char): nat {
    if '0' <= c <= '9' then c as int - '0' as int
    else if 'A' <= c <= 'F' then c as int + 32 - 'a' as int + 10
    else if 'a' <= c <= 'f' then c as int - 'a' as int + 10
    else 0xFF
  }

  predicate IsHex(c: char) {
    '0' <= c <= '9' || 'a' <= c <= 'f' || 'A' <= c <= 'F'
  }

  lemma HexValues(c: char)
    ensures IsHex(c) <==> HexCharToValue(c) < 16
    ensures IsHex(c) <==> HexCharToValue(c) != 0xFF
  {
  }

  lemma HexCharOf(v: nat)
    requires v < 16
    ensures IsHex(HEX_CHARS[v]) && HexCharToValue(HEX_CHARS[v]) == v && HEX_CHARS[v] != NUL
  {
  }

  lemma Nibbles(b: byte)
    ensures And(Shr(b, 4), 0xF) == b / 16 && And(b, 0xF) == b % 16
  {
    assert Pow2(4) == 16;
    ShrFour(b);
    LowMask(b, 4);
    LowMask(b / 16, 4);
  }

  lemma ShrFour(b: nat)
    ensures Shr(b, 4) == b / 16
  {
    assert Shr(b, 4) == Shr(b / 2, 3) == Shr(b / 2 / 2, 2) == Shr(b / 2 / 2 / 2, 1) == Shr(b / 2 / 2 / 2 / 2, 0);
  }

  lemma JoinNibbles(hi: nat, lo: nat)
    requires hi < 16 && lo < 16
    ensures Or(hi * 16, lo) == 16 * hi + lo < 256
  {
    assert Pow2(4) == 16;
    OrDisjoint(hi * 16, lo, 4);
  }

  // ----- What is printed -----

  /** Two digits and a blank. */
  function Triple(v: byte): string {
    [HEX_CHARS[v / 16], HEX_CHARS[v % 16], ' ']
  }

  /** A triple per byte. */
  function Dump(bytes: seq<byte>): string {
    if bytes == [] then "" else Triple(bytes[0]) + Dump(bytes[1..])
  }

  /** One byte more at the end. */
  lemma {:induction false} DumpBack(init: seq<byte>, last: byte)
    ensures Dump(init + [last]) == Dump(init) + Triple(last)
  {
    if init == [] {
      assert Dump([last]) == Triple(last) + Dump([]);
    } else {
      assert (init + [last])[1..] == init[1..] + [last];
      DumpBack(init[1..], last);
      Concat3(Triple(init[0]), Dump(init[1..]), Triple(last));
    }
  }

  lemma {:induction false} DumpLength(bytes: seq<byte>)
    ensures |Dump(bytes)| == 3 * |bytes|
    ensures forall i :: 0 <= i < |Dump(bytes)| ==> Dump(bytes)[i] != NUL
    ensures bytes != [] ==> Dump(bytes)[3 * |bytes| - 1] == ' '
  {
    if bytes != [] {
      DumpLength(bytes[1..]);
      HexCharOf(bytes[0] / 16);
      HexCharOf(bytes[0] % 16);
    }
  }

  /** Byte k is two capital hex digits and a blank, the high one first. */
  lemma {:induction false} DumpAt(bytes: seq<byte>, k: nat)
    requires k < |bytes|
    ensures |Dump(bytes)| == 3 * |bytes| && var d := Dump(bytes);
      d[3 * k + 2] == ' ' && IsCapital(d[3 * k]) && IsCapital(d[3 * k + 1]) &&
      16 * HexCharToValue(d[3 * k]) + HexCharToValue(d[3 * k + 1]) == bytes[k]
  {
    DumpLength(bytes);
    HexCharOf(bytes[0] / 16);
    HexCharOf(bytes[0] % 16);
    if k > 0 {
      DumpLength(bytes[1..]);
      DumpAt(bytes[1..], k - 1);
    }
  }

  predicate IsCapital(c: char) {
    '0' <= c <= '9' || 'A' <= c <= 'F'
  }

  lemma OneDump()
    ensures Dump([0x0A, 0xF5]) == "0A F5 " && Pairs(HexOnly("0a, f5")) == [0x0A, 0xF5] && Pairs("7") == [0x70]
  {
    assert Triple(0x0A) == "0A " && Triple(0xF5) == "F5 ";
    assert Dump([0xF5]) == Triple(0xF5) + Dump([]);
    DigitsOnly();
    var h := "0af5";
    assert h[2..] == "f5" && "f5"[2..] == "";
    assert Pairs("f5") == [0xF5] + Pairs("");
  }

  lemma DigitsOnly()
    ensures HexOnly("0a, f5") == "0af5"
  {
    assert "0a, f5"[1..] == "a, f5" && "a, f5"[1..] == ", f5" && ", f5"[1..] == " f5";
    assert " f5"[1..] == "f5" && "f5"[1..] == "5" && "5"[1..] == "";
    assert HexOnly("5") == "5" && HexOnly("f5") == "f5" && HexOnly(", f5") == "f5";
  }

  /** The string left in the buffer: the last blank became the terminator. */
  function Printed(bytes: seq<byte>): string {
    if bytes == [] then "" else DumpLength(bytes); Dump(bytes)[..|Dump(bytes)| - 1]
  }

  function Min(a: nat, b: nat): nat {
    if a < b then a else b
  }

  method PutTriple(out: array<char>, at: nat, b: byte) returns (next: nat)
    requires at + 3 <= out.Length
    modifies out
    ensures next == at + 3
    ensures out[..next] == old(out[..at]) + Triple(b)
  {
    Nibbles(b);
    out[at] := HEX_CHARS[And(Shr(b, 4), 0xF)];
    out[at + 1] := HEX_CHARS[And(b, 0xF)];
    out[at + 2] := ' ';
    next := at + 3;
  }

  /** As many whole triples as fit; a buffer of at least one character always ends
      up holding a string. */
  method PrintHexdump(input: seq<byte>, out: array<char>)
    modifies out
    ensures out.Length > 0 ==> HasStr(out[..], 0, Printed(input[..Min(|input|, out.Length / 3)]))
  {
    var outIndex, i := 0, 0;
    while i < |input|
      invariant i <= |input| && outIndex == 3 * i <= out.Length
      invariant out[..outIndex] == Dump(input[..i])
    {
      if outIndex + 3 > out.Length { break; }
      DumpBack(input[..i], input[i]);
      assert input[..i + 1] == input[..i] + [input[i]];
      outIndex := PutTriple(out, outIndex, input[i]);
      i := i + 1;
    }
    assert i == Min(|input|, out.Length / 3);
    ghost var text := out[..outIndex];
    DumpLength(input[..i]);
    if outIndex > 0 && outIndex <= out.Length {
      out[outIndex - 1] := NUL;
      assert Printed(input[..i]) == text[..outIndex - 1];
    } else if outIndex < out.Length {
      out[outIndex] := NUL;
    }
  }

  // ----- What is parsed -----

  function KeepHex(c: char): string {
    if IsHex(c) then [c] else ""
  }

  function HexOnly(s: string): string {
    if s == "" then "" else KeepHex(s[0]) + HexOnly(s[1..])
  }

  lemma HexCons(c: char, s: string)
    ensures HexOnly([c] + s) == KeepHex(c) + HexOnly(s)
  {
    assert ([c] + s)[1..] == s;
  }

  /** Digits taken two by two, an odd last one followed by '0'. */
  function Pairs(h: string): seq<nat> {
    if h == "" then []
    else if |h| == 1 then [16 * HexCharToValue(h[0])]
    else [16 * HexCharToValue(h[0]) + HexCharToValue(h[1])] + Pairs(h[2..])
  }

  /** `while (hexdump[i] && !is_hex(hexdump[i])) i++;` */
  method SkipToHex(b: array<char>, from: nat, ghost s: string) returns (i: nat)
    requires HasStr(b[..], 0, s) && from <= |s|
    ensures from <= i <= |s| && (i < |s| ==> IsHex(s[i]))
    ensures HexOnly(s[i..]) == HexOnly(s[from..])
  {
    i := from;
    CharAt(b[..], 0, s, i);
    while b[i] != NUL && !IsHex(b[i])
      invariant from <= i <= |s| && HexOnly(s[i..]) == HexOnly(s[from..])
      invariant b[i] == NUL <==> i == |s|
      invariant i < |s| ==> b[i] == s[i]
      decreases |s| - i
    {
      assert s[i..][1..] == s[i + 1..];
      i := i + 1;
      CharAt(b[..], 0, s, i);
    }
  }

  lemma TakeHex(s: string, i: nat)
    requires i < |s| && IsHex(s[i])
    ensures HexOnly(s[i..]) == [s[i]] + HexOnly(s[i + 1..])
  {
    assert s[i..][1..] == s[i + 1..];
  }

  lemma PairUp(h: string, a: char, b: char, rest: string)
    requires h == [a] + ([b] + rest)
    ensures Pairs(h) == [16 * HexCharToValue(a) + HexCharToValue(b)] + Pairs(rest)
  {
    assert h[2..] == rest;
  }

  lemma PairLast(h: string, a: char)
    requires h == [a] + ""
    ensures Pairs(h) == [16 * HexCharToValue(a) + HexCharToValue('0')] + Pairs("")
  {
  }

  /** Lines 34-40: a character that is no hex digit would make the whole byte 0. */
  method Combine(high: char, low: char) returns (value: byte)
    ensures value == if IsHex(high) && IsHex(low) then 16 * HexCharToValue(high) + HexCharToValue(low) else 0
  {
    var hi, lo := HexCharToValue(high), HexCharToValue(low);
    HexValues(high);
    HexValues(low);
    if hi == 0xFF || lo == 0xFF { hi, lo := 0, 0; }
    JoinNibbles(hi, lo);
    value := Or(hi * 16, lo);
  }

  /** The rest of a byte whose first digit is known: its second, or '0'. */
  method TakeLow(b: array<char>, high: char, from: nat, ghost s: string) returns (value: nat, i: nat)
    requires HasStr(b[..], 0, s) && from <= |s| && IsHex(high)
    ensures from <= i <= |s| && value < 256
    ensures Pairs([high] + HexOnly(s[from..])) == [value] + Pairs(HexOnly(s[i..]))
  {
    i := SkipToHex(b, from, s);
    CharAt(b[..], 0, s, i);
    if b[i] == NUL {
      assert s[i..] == "";
      PairLast([high] + HexOnly(s[from..]), high);
      value := Combine(high, '0');
    } else {
      var low := b[i];
      TakeHex(s, i);
      i := i + 1;
      PairUp([high] + HexOnly(s[from..]), high, low, HexOnly(s[i..]));
      value := Combine(high, low);
    }
  }

  /** One byte of the text: its first hex digit and the second, or '0'. */
  method ParseByte(b: array<char>, from: nat, ghost s: string) returns (found: bool, value: nat, i: nat)
    requires HasStr(b[..], 0, s) && from <= |s|
    ensures from <= i <= |s|
    ensures found <==> HexOnly(s[from..]) != ""
    ensures found ==> from < i && value < 256 && Pairs(HexOnly(s[from..])) == [value] + Pairs(HexOnly(s[i..]))
  {
    i := SkipToHex(b, from, s);
    CharAt(b[..], 0, s, i);
    if b[i] == NUL {
      return false, 0, i;
    }
    TakeHex(s, i);
    value, i := TakeLow(b, b[i], i + 1, s);
    found := true;
  }

  method PutByte(out: array<nat>, at: nat, v: nat)
    requires at < out.Length
    modifies out
    ensures out[..at + 1] == old(out[..at]) + [v]
  {
    out[at] := v;
  }

  lemma MoveByte(done: seq<nat>, v: nat, rest: seq<nat>)
    ensures done + ([v] + rest) == (done + [v]) + rest
  {
  }

  /** The result depends only on the hex digits in the text, in order. */
  method ParseHexdumpToBytes(b: array<char>, out: array<nat>, maxBytes: nat, ghost s: string) returns (n: nat)
    requires HasStr(b[..], 0, s) && maxBytes <= out.Length
    modifies out
    ensures n == Min(|Pairs(HexOnly(s))|, maxBytes)
    ensures out[..n] == Pairs(HexOnly(s))[..n]
  {
    n := 0;
    var i: nat := 0;
    ghost var all := Pairs(HexOnly(s));
    ghost var rest := all;
    assert s[0..] == s;
    CharAt(b[..], 0, s, 0);
    while b[i] != NUL && n < maxBytes
      invariant i <= |s| && n <= maxBytes && HasStr(b[..], 0, s)
      invariant b[i] == NUL <==> i == |s|
      invariant rest == Pairs(HexOnly(s[i..])) && all == out[..n] + rest
      decreases |s| - i
    {
      var found, value, next := ParseByte(b, i, s);
      if !found { break; }
      rest := Pairs(HexOnly(s[next..]));
      MoveByte(out[..n], value, rest);
      PutByte(out, n, value);
      n := n + 1;
      i := next;
      CharAt(b[..], 0, s, i);
    }
    assert i == |s| ==> rest == [];
  }

  // ----- Printing and parsing -----

  lemma {:induction false} HexOnlyAppend(s: string, t: string)
    ensures HexOnly(s + t) == HexOnly(s) + HexOnly(t)
  {
    if s == "" {
      assert s + t == t;
    } else {
      assert s + t == [s[0]] + (s[1..] + t);
      HexCons(s[0], s[1..] + t);
      HexOnlyAppend(s[1..], t);
      Concat3(KeepHex(s[0]), HexOnly(s[1..]), HexOnly(t));
    }
  }

  /** Two digits, a blank and more. */
  lemma HexOnlyTriple(t: string, a: char, b: char, rest: string)
    requires t == [a, b, ' '] && IsHex(a) && IsHex(b)
    ensures HexOnly(t + rest) == [a, b] + HexOnly(rest)
  {
    var r2, r1 := [' '] + rest, [b] + ([' '] + rest);
    assert t + rest == [a] + r1;
    HexCons(a, r1);
    HexCons(b, r2);
    HexCons(' ', rest);
  }

  /** The digits printed for v. */
  lemma DigitsOf(v: byte) returns (a: char, b: char)
    ensures Triple(v) == [a, b, ' '] && IsHex(a) && IsHex(b)
    ensures 16 * HexCharToValue(a) + HexCharToValue(b) == v
  {
    a, b := HEX_CHARS[v / 16], HEX_CHARS[v % 16];
    HexCharOf(v / 16);
    HexCharOf(v % 16);
  }

  lemma {:induction false} DumpParses(bytes: seq<byte>)
    ensures Pairs(HexOnly(Dump(bytes))) == bytes
  {
    if bytes != [] {
      var v, rest := bytes[0], Dump(bytes[1..]);
      DumpParses(bytes[1..]);
      TripleParses(v, Triple(v), rest);
      assert bytes == [v] + bytes[1..];
    }
  }

  lemma TripleParses(v: byte, t: string, rest: string)
    requires t == Triple(v)
    ensures Pairs(HexOnly(t + rest)) == [v] + Pairs(HexOnly(rest))
  {
    var a, b := DigitsOf(v);
    HexOnlyTriple(t, a, b, rest);
    PairFront([a, b], a, b, HexOnly(rest));
  }

  lemma PairFront(two: string, a: char, b: char, h: string)
    requires two == [a, b]
    ensures Pairs(two + h) == [16 * HexCharToValue(a) + HexCharToValue(b)] + Pairs(h)
  {
    assert (two + h)[2..] == h;
  }

  /** The terminator took the place of a blank, no digit. */
  lemma PrintedDigits(bytes: seq<byte>)
    ensures HexOnly(Printed(bytes)) == HexOnly(Dump(bytes))
  {
    DumpLength(bytes);
    if bytes != [] {
      var d := Dump(bytes);
      assert d == d[..|d| - 1] + [' '];
      HexOnlyAppend(d[..|d| - 1], [' ']);
      HexCons(' ', "");
      assert [' '] + "" == [' '];
    }
  }

  /** Parsing the printed text gives the bytes back. */
  lemma {:induction false} PrintedParses(bytes: seq<byte>)
    ensures Pairs(HexOnly(Printed(bytes))) == bytes
  {
    DumpParses(bytes);
    PrintedDigits(bytes);
  }

  /** The hex digits in upper case, an odd last one followed by '0'. */
  function Tidied(h: string): string {
    if h == "" then ""
    else if |h| == 1 then [Upper(h[0]), '0']
    else [Upper(h[0]), Upper(h[1])] + Tidied(h[2..])
  }

  function Upper(c: char): char {
    if 'a' <= c <= 'f' then (c as int - 32) as char else c
  }

  lemma UpperIs(c: char)
    requires IsHex(c)
    ensures HexCharToValue(c) < 16 && HEX_CHARS[HexCharToValue(c)] == Upper(c) && IsHex(Upper(c))
  {
  }

  predicate AllHex(h: string) {
    forall i :: 0 <= i < |h| ==> IsHex(h[i])
  }

  lemma {:induction false} HexOnlyIsHex(s: string)
    ensures AllHex(HexOnly(s))
  {
    if s != "" {
      HexOnlyIsHex(s[1..]);
    }
  }

  lemma DigitsOfByte(v: byte, a: char, b: char)
    requires IsHex(a) && IsHex(b) && v == 16 * HexCharToValue(a) + HexCharToValue(b)
    ensures Triple(v) == [Upper(a), Upper(b), ' '] && IsHex(Upper(a)) && IsHex(Upper(b))
  {
    UpperIs(a);
    UpperIs(b);
    TripleOf(v, HexCharToValue(a), HexCharToValue(b));
  }

  lemma TripleOf(v: byte, hi: nat, lo: nat)
    requires hi < 16 && lo < 16 && v == 16 * hi + lo
    ensures Triple(v) == [HEX_CHARS[hi], HEX_CHARS[lo], ' ']
  {
    NibblesOf(v, hi, lo);
  }

  lemma NibblesOf(v: nat, hi: nat, lo: nat)
    requires hi < 16 && lo < 16 && v == 16 * hi + lo
    ensures v / 16 == hi && v % 16 == lo
  {
  }

  predicate AllBytes(p: seq<nat>) {
    forall i :: 0 <= i < |p| ==> p[i] < 256
  }

  lemma {:induction false} PairsAreBytes(h: string)
    requires AllHex(h)
    ensures AllBytes(Pairs(h))
    decreases |h|
  {
    if |h| > 1 {
      UpperIs(h[0]);
      UpperIs(h[1]);
      PairsAreBytes(h[2..]);
    }
  }

  lemma {:induction false} DigitsRestored(h: string, p: seq<byte>)
    requires AllHex(h) && p == Pairs(h)
    ensures HexOnly(Dump(p)) == Tidied(h)
    decreases |h|
  {
    if h != "" {
      var low, rest := if |h| == 1 then '0' else h[1], if |h| == 1 then "" else h[2..];
      FirstPair(h, p, low, rest);
      DigitsOfByte(p[0], h[0], low);
      DigitsRestored(rest, p[1..]);
      HexOnlyTriple(Triple(p[0]), Upper(h[0]), Upper(low), Dump(p[1..]));
    }
  }

  lemma FirstPair(h: string, p: seq<byte>, low: char, rest: string)
    requires AllHex(h) && p == Pairs(h) && h != ""
    requires if |h| == 1 then low == '0' && rest == "" else low == h[1] && rest == h[2..]
    ensures p != [] && p[0] == 16 * HexCharToValue(h[0]) + HexCharToValue(low) && p[1..] == Pairs(rest)
    ensures IsHex(h[0]) && IsHex(low) && AllHex(rest)
    ensures Tidied(h) == [Upper(h[0]), Upper(low)] + Tidied(rest)
  {
  }

  /** The other way round: printing what a text parses to gives back the text's own
      hex digits in order, tidied. Two texts parse alike exactly when these agree. */
  lemma {:induction false} ParseThenPrint(s: string, t: string)
    ensures AllBytes(Pairs(HexOnly(s)))
    ensures HexOnly(Printed(Pairs(HexOnly(s)))) == Tidied(HexOnly(s))
    ensures Pairs(HexOnly(s)) == Pairs(HexOnly(t)) <==> Tidied(HexOnly(s)) == Tidied(HexOnly(t))
  {
    HexOnlyIsHex(s);
    HexOnlyIsHex(t);
    PairsAreBytes(HexOnly(s));
    PairsAreBytes(HexOnly(t));
    DigitsRestored(HexOnly(s), Pairs(HexOnly(s)));
    DigitsRestored(HexOnly(t), Pairs(HexOnly(t)));
    PrintedDigits(Pairs(HexOnly(s)));
    PrintedDigits(Pairs(HexOnly(t)));
    PrintedParses(Pairs(HexOnly(s)));
    PrintedParses(Pairs(HexOnly(t)));
  }

  /** hexedit with nothing typed: dump a file into 3 * size + 1 characters, parse at
      most size bytes of it, and the same bytes are written back. */
  method SaveUnmodified(data: seq<byte>) returns (parsed: array<nat>, n: nat)
    ensures n == |data| && parsed.Length == |data| && parsed[..] == data
  {
    var hexdump := new char[3 * |data| + 1](_ => ' ');
    PrintHexdump(data, hexdump);
    assert Min(|data|, hexdump.Length / 3) == |data|;
    assert data[..|data|] == data;
    PrintedParses(data);
    ghost var text := Printed(data);
    parsed := new nat[|data|](_ => 0);
    n := ParseHexdumpToBytes(hexdump, parsed, |data|, text);
    assert parsed[..] == parsed[..n];
  }

}
