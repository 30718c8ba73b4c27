/** 64-bit division by shift and subtract (src/lib/number.c) and number text in any
    base from 2 to 36 (src/lib/conversions.c, src/lib/number.c). */
module Numbers {
  import opened Bits
  import opened Text

  // ----- Division -----

  /** `r << 1` on a 64-bit word. */
  function Shl64(r: nat): nat {
    (2 * r) % WORD
  }

  lemma {:induction false} ShrStep(n: nat, i: nat)
    ensures Shr(n, i) == 2 * Shr(n, i + 1) + And(Shr(n, i), 1)
    ensures And(Shr(n, i), 1) <= 1
  {
    if i == 0 {
      AndOne(n);
      assert Shr(n, 1) == Shr(n / 2, 0);
    } else {
      ShrStep(n / 2, i - 1);
    }
  }

  lemma {:induction false} ShrBound(n: nat, i: nat, w: nat)
    requires n < Pow2(w) && i <= w
    ensures Shr(n, i) < Pow2(w - i)
  {
    if i > 0 {
      ShrBound(n / 2, i - 1, w - 1);
    }
  }

  /** Doubling a remainder never drops a bit: it is no larger than the part of n
      already shifted in. */
  lemma ShiftKeepsBits(n: nat, i: nat, r: nat)
    requires n < WORD && i < 64 && r <= Shr(n, i + 1)
    ensures Shl64(r) == 2 * r && Or(Shl64(r), And(Shr(n, i), 1)) == 2 * r + And(Shr(n, i), 1)
  {
    WordIsPow2();
    ShrBound(n, i + 1, 64);
    Pow2Monotone(63 - i, 63);
    ShrStep(n, i);
    OrLowBit(r, And(Shr(n, i), 1));
  }

  lemma Below(q: nat, d: nat, h: nat, r: nat)
    requires d > 0 && q * d + r == h
    ensures r <= h
  {
  }

  /** quot and r divide the bits of n from i up. */
  ghost predicate Divided(n: nat, i: nat, quot: nat, d: nat, r: nat) {
    quot * d + r == Shr(n, i) && r < d
  }

  lemma DividedStart(n: nat, d: nat)
    requires n < WORD && d > 0
    ensures Divided(n, 64, 0, d, 0)
  {
    WordIsPow2();
    ShrBound(n, 64, 64);
  }

  lemma {:induction false} DividedEnd(n: nat, quot: nat, d: nat, r: nat)
    requires Divided(n, 0, quot, d, r)
    ensures quot == n / d && r == n % d
  {
    DivModUnique(n, d, quot, r);
  }

  /** The remainder with the next bit of n come in at the bottom. */
  function ShiftIn(n: nat, i: nat, r: nat): nat {
    Or(Shl64(r), And(Shr(n, i), 1))
  }

  lemma DoubleStep(quot: nat, d: nat, r: nat, h: nat, b: nat)
    requires quot * d + r == h
    ensures (2 * quot) * d + (2 * r + b) == 2 * h + b
    ensures (2 * quot + 1) * d + (2 * r + b - d) == 2 * h + b
  {
    Distribute(2 * quot, 1, d);
    MulAssoc(2, quot, d);
  }

  /** One round of either loop. */
  lemma RoundKeeps(n: nat, i: nat, quot: nat, d: nat, r: nat) returns (quot': nat)
    requires n < WORD && i < 64 && d > 0 && Divided(n, i + 1, quot, d, r)
    ensures quot' == 2 * quot + if ShiftIn(n, i, r) >= d then 1 else 0
    ensures Divided(n, i, quot', d, if ShiftIn(n, i, r) >= d then ShiftIn(n, i, r) - d else ShiftIn(n, i, r))
  {
    quot' := 2 * quot + if ShiftIn(n, i, r) >= d then 1 else 0;
    Below(quot, d, Shr(n, i + 1), r);
    ShiftKeepsBits(n, i, r);
    ShrStep(n, i);
    DoubleStep(quot, d, r, Shr(n, i + 1), And(Shr(n, i), 1));
  }

  /** q is quot, i bits up. */
  ghost predicate RaisedBy(q: nat, quot: nat, i: nat) {
    q == quot * Pow2(i)
  }

  /** The quotient bits so far stand above bit i, where the next one goes. */
  lemma {:induction false} QuotientBit(q: nat, quot: nat, i: nat)
    requires RaisedBy(q, quot, i + 1)
    ensures RaisedBy(q, 2 * quot, i) && RaisedBy(Or(q, Pow2(i)), 2 * quot + 1, i)
  {
    var p := Pow2(i);
    assert Pow2(i + 1) == 2 * p;
    NextBit(quot, p);
    DivModUnique(q, 2 * p, quot, 0);
    OrDisjoint(q, p, i + 1);
  }

  lemma NextBit(quot: nat, p: nat)
    ensures quot * (2 * p) == (2 * quot) * p && (2 * quot + 1) * p == (2 * quot) * p + p
  {
    Distribute(2 * quot, 1, p);
  }

  method UDiv64(n: nat, d: nat) returns (q: nat)
    requires n < WORD && 0 < d < WORD
    ensures q == n / d
  {
    q := 0;
    var r: nat := 0;
    var i: int := 63;
    ghost var quot: nat := 0;
    DividedStart(n, d);
    while i >= 0
      invariant -1 <= i <= 63
      invariant Divided(n, i + 1, quot, d, r) && RaisedBy(q, quot, i + 1)
      decreases i
    {
      QuotientBit(q, quot, i);
      quot := RoundKeeps(n, i, quot, d, r);
      r := Or(Shl64(r), And(Shr(n, i), 1));
      if r >= d {
        r := r - d;
        q := Or(q, Pow2(i));
      }
      i := i - 1;
    }
    DividedEnd(n, quot, d, r);
  }

  method UMod64(n: nat, d: nat) returns (r: nat)
    requires n < WORD && 0 < d < WORD
    ensures r == n % d
  {
    r := 0;
    var i: int := 63;
    ghost var quot: nat := 0;
    DividedStart(n, d);
    while i >= 0
      invariant -1 <= i <= 63
      invariant Divided(n, i + 1, quot, d, r)
      decreases i
    {
      quot := RoundKeeps(n, i, quot, d, r);
      r := Or(Shl64(r), And(Shr(n, i), 1));
      if r >= d { r := r - d; }
      i := i - 1;
    }
    DividedEnd(n, quot, d, r);
  }

  // ----- Digits -----

  const DIGITS: string := "0123456789ABCDEFGHIJKLMNOPQRSTUVWXYZ"

  predicate Base(b: int) {
    2 <= b <= 36
  }

  /** The value of a digit character; 36 for any other character. */
  function DigitValue(c: char): (v: nat)
    ensures v < 36 ==> DIGITS[v] == c
  {
    if '0' <= c <= '9' then c as int - '0' as int
    else if 'A' <= c <= 'Z' then c as int - 'A' as int + 10
    else 36
  }

  lemma DigitOf(v: nat)
    requires v < 36
    ensures DigitValue(DIGITS[v]) == v
  {
  }

  /** Digits, then capital letters. */
  lemma DigitIs(v: nat)
    requires v < 36
    ensures DIGITS[v] as int == if v < 10 then '0' as int + v else 'A' as int + (v - 10)
  {
  }

  /** Base 16, the one the shell prints, and the ends of the range. */
  lemma Numerals()
    ensures Numeral(0xBEEF, 16) == "BEEF" && Numeral(5, 2) == "101" && Numeral(35, 36) == "Z"
  {
    assert Numeral(0xB, 16) == "B" && Numeral(0xBE, 16) == "BE" && Numeral(0xBEE, 16) == "BEE";
    assert Numeral(1, 2) == "1" && Numeral(2, 2) == "10";
  }

  predicate IsNumeral(s: string, base: nat) {
    s != "" && forall i :: 0 <= i < |s| ==> DigitValue(s[i]) < base
  }

  /** No leading zero, except in "0" itself. */
  predicate Canonical(s: string, base: nat) {
    IsNumeral(s, base) && (s[0] == '0' ==> |s| == 1)
  }

  function Value(s: string, base: nat): nat {
    if s == "" then 0 else Value(s[..|s| - 1], base) * base + DigitValue(s[|s| - 1])
  }

  lemma QuotientShrinks(v: nat, base: nat)
    requires base >= 2
    ensures v / base <= v / 2 && v == (v / base) * base + v % base
    ensures v >= base ==> v / base > 0
    ensures v < base ==> v / base == 0 && v % base == v
  {
    var q, r := v / base, v % base;
    DivModIs(v, base);
    ScaleUp(q, base);
    if v < base { DivModUnique(v, base, 0, v); }
  }

  lemma ScaleUp(q: nat, base: nat)
    requires base >= 2
    ensures q * base >= 2 * q
  {
  }

  function Numeral(v: nat, base: nat): (s: string)
    requires Base(base)
    ensures s != ""
    decreases v
  {
    if v < base then [DIGITS[v]] else
    QuotientShrinks(v, base);
    Numeral(v / base, base) + [DIGITS[v % base]]
  }

  lemma {:induction false} AppendDigit(s: string, d: nat, base: nat)
    requires Base(base) && d < base
    ensures Value(s + [DIGITS[d]], base) == Value(s, base) * base + d
    ensures s != "" && IsNumeral(s, base) ==> IsNumeral(s + [DIGITS[d]], base)
  {
    DigitOf(d);
    assert (s + [DIGITS[d]])[..|s|] == s;
  }

  /** The numeral is canonical and denotes v, and is the only one that does. */
  lemma {:induction false} NumeralSound(v: nat, base: nat)
    requires Base(base)
    ensures Canonical(Numeral(v, base), base) && Value(Numeral(v, base), base) == v
    ensures Numeral(v, base)[0] == '0' ==> v == 0
    decreases v
  {
    if v < base {
      DigitOf(v);
      assert [DIGITS[v]][..0] == "";
    } else {
      QuotientShrinks(v, base);
      NumeralSound(v / base, base);
      AppendDigit(Numeral(v / base, base), v % base, base);
    }
  }

  lemma {:induction false} LeadingDigit(s: string, base: nat)
    requires Base(base) && Canonical(s, base) && s[0] != '0'
    ensures Value(s, base) > 0
    ensures |s| > 1 ==> Value(s, base) >= base
  {
    var init := s[..|s| - 1];
    if |s| == 1 {
      assert Value(init, base) == 0;
      assert DigitValue(s[0]) != 0;
    } else {
      assert init[0] == s[0];
      LeadingDigit(init, base);
      AtLeast(Value(init, base), base);
    }
  }

  lemma AtLeast(a: nat, b: nat)
    requires a > 0
    ensures a * b >= b
  {
  }

  lemma NumeralAppend(a: nat, d: nat, v: nat, init: string, last: char, base: nat)
    requires Base(base) && d < base && a > 0 && v == a * base + d
    requires Numeral(a, base) == init && DIGITS[d] == last
    ensures Numeral(v, base) == init + [last]
  {
    DivModUnique(v, base, a, d);
    AtLeast(a, base);
  }

  lemma OneDigit(s: string, base: nat)
    requires Base(base) && Canonical(s, base) && |s| == 1
    ensures Numeral(Value(s, base), base) == s
  {
    assert s == [s[0]] && s[..0] == "" && 0 * base == 0;
  }

  lemma CanonicalInit(s: string, base: nat)
    requires Base(base) && Canonical(s, base) && |s| > 1
    ensures var init, last := s[..|s| - 1], s[|s| - 1];
      s == init + [last] && Canonical(init, base) && init[0] != '0' && DigitValue(last) < base &&
      DIGITS[DigitValue(last)] == last && Value(s, base) == Value(init, base) * base + DigitValue(last)
  {
    assert s[..|s| - 1][0] == s[0];
  }

  lemma {:induction false} NumeralUnique(s: string, base: nat)
    requires Base(base) && Canonical(s, base)
    ensures Numeral(Value(s, base), base) == s
  {
    if |s| == 1 {
      OneDigit(s, base);
    } else {
      var init, last := s[..|s| - 1], s[|s| - 1];
      CanonicalInit(s, base);
      NumeralUnique(init, base);
      LeadingDigit(init, base);
      NumeralAppend(Value(init, base), DigitValue(last), Value(s, base), init, last, base);
    }
  }

  /** A 64-bit value has at most 64 digits. */
  lemma {:induction false} NumeralLength(v: nat, base: nat, k: nat)
    requires Base(base) && v < Pow2(k) && k > 0
    ensures |Numeral(v, base)| <= k
    decreases v
  {
    if v >= base {
      QuotientShrinks(v, base);
      NumeralLength(v / base, base, k - 1);
    }
  }

  // ----- utoa -----

  /** The digits from the last to the first, as the first loop emits them. */
  function Backwards(v: nat, base: nat): string
    requires Base(base)
    decreases v
  {
    if v == 0 then "" else
    QuotientShrinks(v, base);
    [DIGITS[v % base]] + Backwards(v / base, base)
  }

  function Reverse(s: string): string {
    if s == "" then "" else Reverse(s[1..]) + [s[0]]
  }

  lemma {:induction false} ReverseAt(s: string)
    ensures |Reverse(s)| == |s|
    ensures forall i :: 0 <= i < |s| ==> Reverse(s)[i] == s[|s| - 1 - i]
  {
    if s != "" {
      ReverseAt(s[1..]);
    }
  }

  lemma {:induction false} BackwardsReversed(v: nat, base: nat)
    requires Base(base) && v > 0
    ensures Reverse(Backwards(v, base)) == Numeral(v, base)
    decreases v
  {
    QuotientShrinks(v, base);
    assert Backwards(v, base)[1..] == Backwards(v / base, base);
    if v >= base {
      BackwardsReversed(v / base, base);
    } else {
      assert Reverse("") + [DIGITS[v]] == [DIGITS[v]];
    }
  }

  /** `while (ptr1 < ptr) swap` on the first n characters. */
  method ReverseInPlace(buffer: array<char>, n: nat)
    requires n <= buffer.Length
    modifies buffer
    ensures buffer[..n] == Reverse(old(buffer[..n]))
    ensures forall j :: n <= j < buffer.Length ==> buffer[j] == old(buffer[j])
  {
    var lo: int, hi: int := 0, n - 1;
    while lo < hi
      invariant 0 <= lo && hi == n - 1 - lo && lo <= hi + 2
      invariant forall j :: 0 <= j < lo ==> buffer[j] == old(buffer[n - 1 - j]) && buffer[n - 1 - j] == old(buffer[j])
      invariant forall j :: lo <= j <= hi ==> buffer[j] == old(buffer[j])
      invariant forall j :: n <= j < buffer.Length ==> buffer[j] == old(buffer[j])
    {
      var tmp := buffer[hi];
      buffer[hi] := buffer[lo];
      hi := hi - 1;
      buffer[lo] := tmp;
      lo := lo + 1;
    }
    ghost var was := old(buffer[..n]);
    ReverseAt(was);
    forall j | 0 <= j < n
      ensures buffer[..n][j] == Reverse(was)[j]
    {
      if j > hi {
        assert buffer[n - 1 - (n - 1 - j)] == old(buffer[n - 1 - j]);
      }
    }
  }

  method PutDigit(buffer: array<char>, at: nat, c: char) returns (n: nat)
    requires at < buffer.Length
    modifies buffer
    ensures n == at + 1 && buffer[..n] == old(buffer[..at]) + [c]
  {
    buffer[at] := c;
    n := at + 1;
  }

  lemma BitsLeft(v: nat, q: nat, k: nat)
    requires 0 < v < Pow2(k) && q <= v / 2
    ensures k > 0 && q < Pow2(k - 1)
  {
  }

  /** One digit out, one digit less to go. */
  lemma DigitMoves(done: string, v: nat, base: nat, all: string)
    requires Base(base) && v > 0 && all == done + Backwards(v, base)
    ensures all == (done + [DIGITS[v % base]]) + Backwards(v / base, base)
    ensures v / base <= v / 2
  {
    QuotientShrinks(v, base);
    Concat3(done, [DIGITS[v % base]], Backwards(v / base, base));
  }

  /** `*ptr++ = digits[value mod base]; value /= base;` */
  method EmitDigit(value: nat, buffer: array<char>, base: nat, at: nat) returns (rest: nat, n: nat)
    requires value < WORD && Base(base) && at < buffer.Length
    modifies buffer
    ensures n == at + 1 && rest == value / base
    ensures buffer[..n] == old(buffer[..at]) + [DIGITS[value % base]]
  {
    var remainder := UMod64(value, base);
    n := PutDigit(buffer, at, DIGITS[remainder]);
    rest := UDiv64(value, base);
  }

  method EmitDigits(v: nat, buffer: array<char>, base: nat) returns (n: nat)
    requires v < WORD && Base(base) && buffer.Length >= 65
    modifies buffer
    ensures n <= 64 && buffer[..n] == Backwards(v, base)
  {
    var value: nat := v;
    n := 0;
    WordIsPow2();
    ghost var all, left := Backwards(v, base), 64;
    while value != 0
      invariant value < WORD && n + left == 64 && left >= 0 && value < Pow2(left)
      invariant all == buffer[..n] + Backwards(value, base)
      decreases value
    {
      ghost var was := value;
      DigitMoves(buffer[..n], value, base, all);
      value, n := EmitDigit(value, buffer, base, n);
      BitsLeft(was, value, left);
      left := left - 1;
    }
  }

  method Utoa(value: nat, buffer: array<char>, base: int)
    requires value < WORD && buffer.Length >= 65
    modifies buffer
    ensures HasStr(buffer[..], 0, if 2 <= base <= 36 then Numeral(value, base) else "")
  {
    if base < 2 || base > 36 {
      buffer[0] := NUL;
      return;
    }
    NumeralSound(value, base);
    if value == 0 {
      buffer[0] := '0';
      buffer[1] := NUL;
      return;
    }
    var n := EmitDigits(value, buffer, base);
    buffer[n] := NUL;
    assert buffer[..n] == Backwards(value, base);
    ReverseInPlace(buffer, n);
    BackwardsReversed(value, base);
    ReverseAt(Backwards(value, base));
    HasNumeral(buffer[..], Numeral(value, base), base);
  }

  lemma HasNumeral(b: seq<char>, s: string, base: nat)
    requires Base(base) && IsNumeral(s, base) && |s| < |b| && b[..|s|] == s && b[|s|] == NUL
    ensures HasStr(b, 0, s)
  {
    forall j | 0 <= j < |s|
      ensures b[j] == s[j] != NUL
    {
      assert b[..|s|][j] == s[j];
    }
  }

  // ----- Reading decimal numbers -----

  predicate AllDigits(s: string) {
    forall i :: 0 <= i < |s| ==> '0' <= s[i] <= '9'
  }

  /** An optional minus sign, then at least one digit. */
  predicate IsInt(s: string) {
    if s != "" && s[0] == '-' then |s| > 1 && AllDigits(s[1..]) else s != "" && AllDigits(s)
  }

  /** Digits, at least one, with or without a minus sign in front: so neither the empty
      text nor a lone minus sign. */
  lemma IsIntIff(s: string)
    ensures IsInt(s) <==> exists d :: (s == d || s == "-" + d) && d != "" && forall k :: 0 <= k < |d| ==> '0' <= d[k] <= '9'
    ensures !IsInt("") && !IsInt("-") && !IsInt("--1")
  {
    if IsInt(s) {
      var d := if s[0] == '-' then s[1..] else s;
      assert s == d || s == "-" + d;
    }
    if d :| (s == d || s == "-" + d) && d != "" && forall k :: 0 <= k < |d| ==> '0' <= d[k] <= '9' {
      if s == "-" + d { assert s[1..] == d; }
    }
    assert "--1"[1..][0] == '-';
  }

  function IntValue(s: string): int {
    if s != "" && s[0] == '-' then -1 * Value(s[1..], 10) else Value(s, 10)
  }

  method IsValidInt(b: array<char>, ghost s: string) returns (valid: bool)
    requires HasStr(b[..], 0, s)
    ensures valid <==> IsInt(s)
  {
    CharAt(b[..], 0, s, 0);
    if b[0] == NUL { return false; }
    var i: nat := 0;
    if b[0] == '-' {
      CharAt(b[..], 0, s, 1);
      if b[1] == NUL { return false; }
      i := 1;
    }
    ghost var from := i;
    while b[i] != NUL
      invariant from <= i <= |s|
      invariant forall j :: from <= j < i ==> '0' <= s[j] <= '9'
      decreases b.Length - i
    {
      CharAt(b[..], 0, s, i);
      if b[i] < '0' || b[i] > '9' {
        assert from == 1 ==> s[1..][i - 1] == s[i];
        return false;
      }
      i := i + 1;
    }
    CharAt(b[..], 0, s, i);
    return true;
  }

  const INT64_LIMIT: nat := 0x8000_0000_0000_0000

  predicate Int64(n: int) {
    -1 * INT64_LIMIT <= n < INT64_LIMIT
  }

  /** The code of a byte as a signed char. */
  function CharCode(c: char): (n: int)
    ensures c as int < 256 ==> -128 <= n < 128 && (c as int - n) % 256 == 0
  {
    if c as int < 128 then c as int else c as int - 256
  }

  /** What the loop makes of any text, digits or not. */
  function Accumulated(s: string): int {
    if s == "" then 0 else Accumulated(s[..|s| - 1]) * 10 + (CharCode(s[|s| - 1]) - '0' as int)
  }

  /** No step of the loop leaves the signed 64-bit range. */
  predicate NoOverflow(s: string) {
    s == "" ||
    (NoOverflow(s[..|s| - 1]) && Int64(Accumulated(s[..|s| - 1]) * 10) && Int64(Accumulated(s)))
  }

  function Unsigned(s: string): string {
    if s != "" && s[0] == '-' then s[1..] else s
  }

  function Read(s: string): int {
    if s != "" && s[0] == '-' then -1 * Accumulated(s[1..]) else Accumulated(s)
  }

  predicate Readable(s: string) {
    NoOverflow(Unsigned(s)) && Int64(Read(s))
  }

  lemma {:induction false} PrefixSmaller(s: string, k: nat)
    requires k <= |s|
    ensures Value(s[..k], 10) <= Value(s, 10)
    decreases |s|
  {
    if k == |s| {
      assert s[..k] == s;
    } else {
      assert s[..|s| - 1][..k] == s[..k];
      PrefixSmaller(s[..|s| - 1], k);
    }
  }

  lemma {:induction false} PrefixSafe(s: string, k: nat)
    requires k <= |s| && NoOverflow(s)
    ensures NoOverflow(s[..k])
    decreases |s|
  {
    if k == |s| {
      assert s[..k] == s;
    } else {
      assert s[..|s| - 1][..k] == s[..k];
      PrefixSafe(s[..|s| - 1], k);
    }
  }

  /** One more character. */
  lemma {:induction false} AccumulateStep(s: string, k: nat)
    requires k < |s| && NoOverflow(s)
    ensures Accumulated(s[..k + 1]) == Accumulated(s[..k]) * 10 + (CharCode(s[k]) - '0' as int)
    ensures Int64(Accumulated(s[..k]) * 10) && Int64(Accumulated(s[..k + 1]))
  {
    PrefixSafe(s, k + 1);
    assert s[..k + 1][..k] == s[..k];
  }

  /** Signed overflow is undefined, so no step may leave the 64-bit range. */
  method StrToInt64(b: array<char>, ghost s: string) returns (n: int)
    requires HasStr(b[..], 0, s) && Readable(s)
    ensures n == Read(s) && Int64(n)
  {
    var result: int, sign: int := 0, 1;
    var i: nat := 0;
    CharAt(b[..], 0, s, 0);
    if b[0] == '-' {
      sign := -1;
      i := 1;
    }
    ghost var from, d := i, Unsigned(s);
    assert d[..0] == "";
    while b[i] != NUL
      invariant from <= i <= |s| && Int64(result)
      invariant result == Accumulated(d[..i - from])
      decreases b.Length - i
    {
      CharAt(b[..], 0, s, i);
      assert d[i - from] == s[i] == b[i];
      AccumulateStep(d, i - from);
      result := result * 10 + (CharCode(b[i]) - '0' as int);
      i := i + 1;
    }
    CharAt(b[..], 0, s, i);
    assert d[..i - from] == d;
    return result * sign;
  }

  lemma {:induction false} DigitsAccumulate(s: string)
    requires AllDigits(s)
    ensures Accumulated(s) == Value(s, 10)
    ensures NoOverflow(s) <==> Value(s, 10) < INT64_LIMIT
  {
    if s != "" {
      DigitsAccumulate(s[..|s| - 1]);
    }
  }

  /** A valid integer is read as what it says, and can be read exactly when its
      magnitude is below 2^63: the least 64-bit number is accepted but overflows. */
  lemma ReadsInt(s: string)
    requires IsInt(s)
    ensures Read(s) == IntValue(s)
    ensures Readable(s) <==> -1 * INT64_LIMIT < IntValue(s) < INT64_LIMIT
  {
    DigitsAccumulate(Unsigned(s));
  }

  // ----- Round trips -----

  /** -2^63, which a 64-bit number can hold. */
  lemma LeastOverflows()
    ensures var s := "-" + Numeral(INT64_LIMIT, 10); IsInt(s) && IntValue(s) == -1 * INT64_LIMIT && !Readable(s)
  {
    DecimalRoundTrip(INT64_LIMIT);
    ReadsInt("-" + Numeral(INT64_LIMIT, 10));
  }

  lemma NumeralIsInt(v: nat)
    ensures AllDigits(Numeral(v, 10)) && Numeral(v, 10)[0] != '-'
  {
    NumeralSound(v, 10);
  }

  /** What utoa writes in base 10 is accepted and read back, with or without a
      minus sign in front. */
  lemma DecimalRoundTrip(v: nat)
    ensures IsInt(Numeral(v, 10)) && IntValue(Numeral(v, 10)) == v
    ensures IsInt("-" + Numeral(v, 10)) && IntValue("-" + Numeral(v, 10)) == -1 * v
  {
    NumeralSound(v, 10);
    NumeralIsInt(v);
    assert ("-" + Numeral(v, 10))[1..] == Numeral(v, 10);
  }

  /** And back: an unsigned numeral without leading zeros is what utoa writes for
      the number it is read as. */
  lemma ReadThenWrite(s: string)
    requires IsInt(s) && Canonical(s, 10)
    ensures Numeral(IntValue(s), 10) == s
  {
    NumeralUnique(s, 10);
  }
}
