/** Machine-word operators on unsigned integers, written out on `nat`. A word of
    width w is a number below Pow2(w). */
module Bits {

  function Pow2(n: nat): (p: nat)
    ensures p > 0
  {
    if n == 0 then 1 else 2 * Pow2(n - 1)
  }

  function And(x: nat, y: nat): nat {
    if x == 0 || y == 0 then 0
    else 2 * And(x / 2, y / 2) + if x % 2 == 1 && y % 2 == 1 then 1 else 0
  }

  function Or(x: nat, y: nat): nat
    decreases x + y
  {
    if x == 0 then y else if y == 0 then x
    else 2 * Or(x / 2, y / 2) + if x % 2 == 1 || y % 2 == 1 then 1 else 0
  }

  /** x >> k */
  function Shr(x: nat, k: nat): nat {
    if k == 0 then x else Shr(x / 2, k - 1)
  }

  /** Bit i of x. */
  predicate Bit(x: nat, i: nat) {
    if i == 0 then x % 2 == 1 else Bit(x / 2, i - 1)
  }

  /** Complement within w bits. */
  function Not(w: nat, x: nat): nat
    requires x < Pow2(w)
  {
    Pow2(w) - 1 - x
  }

  type byte = n: nat | n < 256

  const WORD: nat := 0x1_0000_0000_0000_0000

  /** Addition of 64-bit words. */
  function Add64(x: nat, y: nat): nat {
    (x + y) % WORD
  }

  /** Subtraction of 64-bit words. */
  function Sub64(x: nat, y: nat): nat {
    (x - y) % WORD
  }

  lemma Sub64Is(x: nat)
    ensures 0 < x <= WORD ==> Sub64(x, 1) == x - 1
    ensures x == 0 ==> Sub64(x, 1) == WORD - 1
  {
  }

  lemma WordIsPow2()
    ensures Pow2(64) == WORD
  {
    assert Pow2(8) == 256;
    Pow2Add(8, 8);
    Pow2Add(16, 16);
    assert Pow2(32) == 0x1_0000_0000;
    Pow2Add(32, 32);
  }

  lemma ZeroBits(i: nat)
    ensures !Bit(0, i)
  {
  }

  lemma {:induction false} AndBit(x: nat, y: nat, i: nat)
    ensures Bit(And(x, y), i) <==> Bit(x, i) && Bit(y, i)
  {
    if x == 0 || y == 0 {
      ZeroBits(i);
    } else if i > 0 {
      AndBit(x / 2, y / 2, i - 1);
      assert And(x, y) / 2 == And(x / 2, y / 2);
    }
  }

  lemma {:induction false} OrBit(x: nat, y: nat, i: nat)
    ensures Bit(Or(x, y), i) <==> Bit(x, i) || Bit(y, i)
  {
    if x == 0 || y == 0 {
      ZeroBits(i);
    } else if i > 0 {
      OrHalf(x, y);
      OrBit(x / 2, y / 2, i - 1);
    } else {
      OrHalf(x, y);
    }
  }

  lemma OrHalf(x: nat, y: nat)
    requires x > 0 && y > 0
    ensures Or(x, y) / 2 == Or(x / 2, y / 2)
    ensures Or(x, y) % 2 == 1 <==> x % 2 == 1 || y % 2 == 1
  {
  }

  lemma {:induction false} NotBit(w: nat, x: nat, i: nat)
    requires x < Pow2(w) && i < w
    ensures Bit(Not(w, x), i) <==> !Bit(x, i)
  {
    if i > 0 {
      assert Not(w, x) / 2 == Not(w - 1, x / 2);
      NotBit(w - 1, x / 2, i - 1);
    }
  }

  lemma {:induction false} Pow2Bit(k: nat, i: nat)
    ensures Bit(Pow2(k), i) <==> i == k
  {
    if i > 0 {
      if k == 0 {
        ZeroBits(i - 1);
      } else {
        Pow2Bit(k - 1, i - 1);
      }
    }
  }

  lemma {:induction false} AndBound(x: nat, y: nat)
    ensures And(x, y) <= x && And(x, y) <= y
  {
    if x > 0 && y > 0 {
      AndBound(x / 2, y / 2);
    }
  }

  lemma {:induction false} OrBound(x: nat, y: nat, w: nat)
    requires x < Pow2(w) && y < Pow2(w)
    ensures Or(x, y) < Pow2(w)
  {
    if x > 0 && y > 0 {
      OrBound(x / 2, y / 2, w - 1);
    }
  }

  lemma {:induction false} Pow2Monotone(a: nat, b: nat)
    requires a <= b
    ensures Pow2(a) <= Pow2(b)
    ensures a < b ==> 2 * Pow2(a) <= Pow2(b)
    decreases b
  {
    if a < b {
      Pow2Monotone(a, b - 1);
    }
  }

  lemma {:induction false} Pow2Add(a: nat, b: nat)
    ensures Pow2(a + b) == Pow2(a) * Pow2(b)
  {
    if a > 0 {
      Pow2Add(a - 1, b);
      assert Pow2(a + b) == 2 * Pow2(a - 1 + b);
      MulAssoc(2, Pow2(a - 1), Pow2(b));
    }
  }

  lemma MulAssoc(x: int, y: int, z: int)
    ensures (x * y) * z == x * (y * z)
  {
  }

  lemma Distribute(a: int, b: int, d: int)
    ensures (a + b) * d == a * d + b * d
  {
  }

  /** Words with the same bits are the same number. */
  lemma {:induction false} SameBits(x: nat, y: nat, w: nat)
    requires x < Pow2(w) && y < Pow2(w)
    requires forall i :: 0 <= i < w ==> (Bit(x, i) <==> Bit(y, i))
    ensures x == y
  {
    if w > 0 {
      assert Bit(x, 0) <==> Bit(y, 0);
      forall i | 0 <= i < w - 1
        ensures Bit(x / 2, i) <==> Bit(y / 2, i)
      {
        assert Bit(x, i + 1) <==> Bit(y, i + 1);
      }
      SameBits(x / 2, y / 2, w - 1);
    }
  }

  /** The low k bits of x. */
  function Low(x: nat, k: nat): nat {
    if k == 0 then 0 else 2 * Low(x / 2, k - 1) + x % 2
  }

  lemma {:induction false} LowIsRemainder(x: nat, k: nat)
    ensures Low(x, k) == x % Pow2(k)
  {
    if k > 0 {
      LowIsRemainder(x / 2, k - 1);
      HalfMod(x, Pow2(k - 1));
    }
  }

  lemma {:induction false} AndLow(x: nat, k: nat)
    ensures And(x, Pow2(k) - 1) == Low(x, k)
  {
    if k > 0 {
      AndLow(x / 2, k - 1);
      AndOdd(x, Pow2(k - 1) - 1);
    }
  }

  lemma AndOdd(x: nat, n: nat)
    ensures And(x, 2 * n + 1) == 2 * And(x / 2, n) + x % 2
  {
    assert (2 * n + 1) / 2 == n && (2 * n + 1) % 2 == 1;
  }

  /** x & (2^k - 1) is the remainder. */
  lemma LowMask(x: nat, k: nat)
    ensures And(x, Pow2(k) - 1) == x % Pow2(k)
  {
    AndLow(x, k);
    LowIsRemainder(x, k);
  }

  lemma HalfMod(x: nat, m: nat)
    requires m > 0
    ensures x % (2 * m) == 2 * ((x / 2) % m) + x % 2
  {
    var q := (x / 2) / m;
    var r := 2 * ((x / 2) % m) + x % 2;
    assert x == 2 * (q * m + (x / 2) % m) + x % 2;
    assert x == q * (2 * m) + r by {
      assert 2 * (q * m) == q * (2 * m);
    }
    DivModUnique(x, 2 * m, q, r);
  }

  lemma HalfDiv(x: nat, m: nat)
    requires m > 0
    ensures x / (2 * m) == (x / 2) / m
  {
    var q, r := (x / 2) / m, 2 * ((x / 2) % m) + x % 2;
    DivModIs(x / 2, m);
    MulAssoc(2, q, m);
    MulAssoc(q, 2, m);
    DivModUnique(x, 2 * m, q, r);
  }

  /** Bit i of x, and a right shift, in arithmetic. */
  lemma {:induction false} BitIs(x: nat, i: nat)
    ensures Bit(x, i) <==> (x / Pow2(i)) % 2 == 1
    ensures Shr(x, i) == x / Pow2(i)
  {
    if i > 0 {
      BitIs(x / 2, i - 1);
      HalfDiv(x, Pow2(i - 1));
    }
  }

  lemma DivModUnique(x: int, d: int, q: int, r: int)
    requires d > 0 && x == q * d + r && 0 <= r < d
    ensures x / d == q && x % d == r
  {
    var k := x / d - q;
    assert k * d == r - x % d by {
      assert x == (x / d) * d + x % d;
      assert k * d == (x / d) * d - q * d;
    }
    MulSign(k, d);
  }

  lemma DivModIs(x: int, d: int)
    requires d > 0
    ensures x == (x / d) * d + x % d && 0 <= x % d < d
  {
  }

  lemma MulSign(k: int, d: int)
    requires d > 0
    ensures k >= 1 ==> k * d >= d
    ensures k <= -1 ==> k * d <= -d
  {
  }

  lemma AndDouble(x: nat, y: nat)
    ensures And(x, 2 * y) == 2 * And(x / 2, y)
  {
    if x != 0 && y != 0 {
      assert (2 * y) / 2 == y && (2 * y) % 2 == 0;
    }
  }

  lemma NotDouble(w: nat, k: nat)
    requires 0 < k <= w
    ensures Pow2(k) <= Pow2(w) && Pow2(k - 1) <= Pow2(w - 1)
    ensures Not(w, Pow2(k) - 1) == 2 * Not(w - 1, Pow2(k - 1) - 1)
  {
    Pow2Monotone(k - 1, w - 1);
  }

  lemma HighStep(x: nat, n: nat, low: nat)
    requires And(x / 2, n) == x / 2 - low
    ensures And(x, 2 * n) == x - (2 * low + x % 2)
  {
    AndDouble(x, n);
  }

  lemma AllOfIt(x: nat, w: nat)
    requires x < Pow2(w)
    ensures And(x, Not(w, 0)) == x
  {
    AndLow(x, w);
    LowIsAll(x, w);
  }

  lemma {:induction false} AndHigh(x: nat, k: nat, w: nat)
    requires x < Pow2(w) && k <= w
    ensures Pow2(k) <= Pow2(w)
    ensures And(x, Not(w, Pow2(k) - 1)) == x - Low(x, k)
    decreases w
  {
    if k == 0 {
      AllOfIt(x, w);
    } else {
      NotDouble(w, k);
      AndHigh(x / 2, k - 1, w - 1);
      HighStep(x, Not(w - 1, Pow2(k - 1) - 1), Low(x / 2, k - 1));
    }
  }

  lemma {:induction false} LowIsAll(x: nat, w: nat)
    requires x < Pow2(w)
    ensures Low(x, w) == x
  {
    if w > 0 {
      LowIsAll(x / 2, w - 1);
    }
  }

  /** x & ~(2^k - 1) in w bits clears the low k bits. */
  lemma HighMask(x: nat, k: nat, w: nat)
    requires x < Pow2(w) && k <= w
    ensures Pow2(k) - 1 < Pow2(w)
    ensures And(x, Not(w, Pow2(k) - 1)) == x - x % Pow2(k)
  {
    AndHigh(x, k, w);
    LowIsRemainder(x, k);
  }

  lemma AndStep(x: nat, y: nat)
    ensures And(x, y) == 2 * And(x / 2, y / 2) + if x % 2 == 1 && y % 2 == 1 then 1 else 0
  {
  }

  lemma NotStep(w: nat, m: nat)
    requires w > 0 && m < Pow2(w)
    ensures m / 2 < Pow2(w - 1) && Not(w, m) / 2 == Not(w - 1, m / 2)
    ensures Not(w, m) % 2 == 1 - m % 2
  {
  }

  /** A mask and its complement share out the bits of x. */
  lemma {:induction false} AndSplit(x: nat, m: nat, w: nat)
    requires x < Pow2(w) && m < Pow2(w)
    ensures And(x, m) + And(x, Not(w, m)) == x
  {
    if w > 0 {
      NotStep(w, m);
      AndStep(x, m);
      AndStep(x, Not(w, m));
      AndSplit(x / 2, m / 2, w - 1);
    }
  }

  lemma TwiceIsPow2(x: nat)
    requires IsPow2(x)
    ensures IsPow2(2 * x)
  {
    var k: nat :| x == Pow2(k);
    assert 2 * x == Pow2(k + 1);
  }

  /** A number that is not all ones below its top bit has a clear bit there. */
  lemma {:induction false} ClearBit(m: nat) returns (j: nat)
    requires m > 0 && !IsPow2(m + 1)
    ensures !Bit(m, j) && Pow2(j) <= m
  {
    if m % 2 == 0 {
      j := 0;
    } else {
      assert Pow2(0) == 1 && Pow2(1) == 2;
      if IsPow2(m / 2 + 1) { TwiceIsPow2(m / 2 + 1); }
      j := ClearBit(m / 2);
      j := j + 1;
    }
  }

  lemma {:induction false} AndPow2(j: nat, m: nat)
    requires !Bit(m, j)
    ensures And(Pow2(j), m) == 0
  {
    AndStep(Pow2(j), m);
    if j > 0 {
      AndPow2(j - 1, m / 2);
    } else {
      assert And(0, m / 2) == 0;
    }
  }

  ghost predicate IsPow2(x: nat) {
    exists k: nat :: x == Pow2(k)
  }

  /** The test `(x & (x - 1)) != 0` on a positive word finds the non-powers. */
  lemma {:induction false} Pow2Test(x: nat)
    requires x > 0
    ensures And(x, x - 1) == 0 <==> IsPow2(x)
  {
    if x == 1 {
      assert x == Pow2(0);
    } else if x % 2 == 0 {
      Pow2Test(x / 2);
      assert (x - 1) / 2 == x / 2 - 1;
      if IsPow2(x / 2) {
        var k: nat :| x / 2 == Pow2(k);
        assert x == Pow2(k + 1);
      }
      if IsPow2(x) {
        var k: nat :| x == Pow2(k);
        assert x / 2 == Pow2(k - 1);
      }
    } else {
      assert And(x, x - 1) == 2 * And(x / 2, x / 2);
      AndSelf(x / 2);
      OddNotPow2(x);
    }
  }

  lemma OddNotPow2(x: nat)
    requires x > 1 && x % 2 == 1
    ensures !IsPow2(x)
  {
    forall k: nat
      ensures x != Pow2(k)
    {
      if k > 0 { assert Pow2(k) == 2 * Pow2(k - 1); }
    }
  }

  lemma {:induction false} AndSelf(x: nat)
    ensures And(x, x) == x
  {
    if x > 0 {
      AndSelf(x / 2);
    }
  }

  /** A low bit and a multiple of two do not overlap. */
  lemma OrLowBit(x: nat, b: nat)
    requires b < 2
    ensures Or(2 * x, b) == 2 * x + b
  {
    if x > 0 && b > 0 {
      assert Or(x, 0) == x;
    }
  }

  /** Bits below k and a multiple of 2^k do not overlap. */
  lemma {:induction false} OrDisjoint(x: nat, y: nat, k: nat)
    requires y < Pow2(k) && x % Pow2(k) == 0
    ensures Or(x, y) == x + y
  {
    if x > 0 && y > 0 {
      var m := Pow2(k - 1);
      HalfMod(x, m);
      OrDisjoint(x / 2, y / 2, k - 1);
    }
  }

  /** (x >> k) & 1 is bit k. */
  lemma {:induction false} ShiftBit(x: nat, k: nat)
    ensures And(Shr(x, k), 1) == if Bit(x, k) then 1 else 0
  {
    if k == 0 {
      AndOne(x);
    } else {
      ShiftBit(x / 2, k - 1);
    }
  }

  lemma AndOne(x: nat)
    ensures And(x, 1) == x % 2
  {
    if x > 0 {
      assert And(x / 2, 0) == 0;
    }
  }
}
