/** Byte copies and aligned allocation from src/drivers/misc/memory.c. */
module RawMemory {
  import opened Bits

  /** mem with n bytes from src also at dst, all taken from before the copy. */
  function Copied(mem: seq<int>, dst: nat, src: nat, n: nat): (r: seq<int>)
    requires dst + n <= |mem| && src + n <= |mem|
    ensures |r| == |mem|
  {
    mem[..dst] + mem[src..src + n] + mem[dst + n..]
  }

  lemma CopiedAt(mem: seq<int>, dst: nat, src: nat, n: nat, k: nat)
    requires dst + n <= |mem| && src + n <= |mem| && k < |mem|
    ensures Copied(mem, dst, src, n)[k] == if dst <= k < dst + n then mem[k - dst + src] else mem[k]
  {
    if dst <= k < dst + n { assert mem[src..src + n][k - dst] == mem[k - dst + src]; }
  }

  /** The bytes from i up to n are copied and the others as they were. */
  ghost predicate CopiedFrom(now: seq<int>, was: seq<int>, dst: nat, src: nat, i: nat, n: nat)
    requires i <= n && dst + n <= |was| && src + n <= |was|
  {
    && |now| == |was|
    && (forall k {:trigger now[k]} :: dst + i <= k < dst + n ==> now[k] == was[k - dst + src])
    && (forall k {:trigger now[k]} :: 0 <= k < dst + i || dst + n <= k < |was| ==> now[k] == was[k])
  }

  lemma AllCopied(now: seq<int>, was: seq<int>, dst: nat, src: nat, n: nat)
    requires dst + n <= |was| && src + n <= |was| && CopiedFrom(now, was, dst, src, 0, n)
    ensures now == Copied(was, dst, src, n)
  {
    forall k | 0 <= k < |was| ensures now[k] == Copied(was, dst, src, n)[k] {
      CopiedAt(was, dst, src, n, k);
    }
  }

  /** Correct for every overlap: ascending when the target is below the source,
      descending when it is above. */
  method Memmove(mem: array<int>, dst: nat, src: nat, n: nat)
    requires dst + n <= mem.Length && src + n <= mem.Length
    modifies mem
    ensures mem[..] == Copied(old(mem[..]), dst, src, n)
  {
    if dst == src { return; }
    if dst < src {
      CopyUp(mem, dst, src, n);
    } else {
      CopyDown(mem, dst, src, n);
    }
  }

  /** `d[at] = s[from];` */
  method CopyByte(mem: array<int>, at: nat, from: nat)
    requires at < mem.Length && from < mem.Length
    modifies mem
    ensures mem[..] == old(mem[..])[at := old(mem[..])[from]]
  {
    mem[at] := mem[from];
  }

  method CopyDown(mem: array<int>, dst: nat, src: nat, n: nat)
    requires dst + n <= mem.Length && src + n <= mem.Length && src < dst
    modifies mem
    ensures mem[..] == Copied(old(mem[..]), dst, src, n)
  {
    var i := n;
    ghost var was := mem[..];
    while i > 0
      invariant 0 <= i <= n
      invariant CopiedFrom(mem[..], was, dst, src, i, n)
    {
      CopyByte(mem, dst + i - 1, src + i - 1);
      i := i - 1;
    }
    AllCopied(mem[..], was, dst, src, n);
  }

  /** The ascending loop, which is also all of memcpy. */
  method CopyUp(mem: array<int>, dst: nat, src: nat, n: nat)
    requires dst + n <= mem.Length && src + n <= mem.Length && dst < src
    modifies mem
    ensures mem[..] == Copied(old(mem[..]), dst, src, n)
  {
    ghost var was := mem[..];
    for i := 0 to n
      invariant CopiedFrom(mem[..], was, dst, src, 0, i)
    {
      CopyByte(mem, dst + i, src + i);
    }
    AllCopied(mem[..], was, dst, src, n);
  }

  /** One ascending byte at a time from a source below the target. */
  function Ascending(mem: seq<int>, dst: nat, src: nat, n: nat): (r: seq<int>)
    requires dst + n <= |mem| && src + n <= |mem|
    ensures |r| == |mem|
  {
    if n == 0 then mem else
    var r := Ascending(mem, dst, src, n - 1);
    r[dst + n - 1 := r[src + n - 1]]
  }

  method Memcpy(mem: array<int>, dst: nat, src: nat, n: nat)
    requires dst + n <= mem.Length && src + n <= mem.Length
    modifies mem
    ensures mem[..] == Ascending(old(mem[..]), dst, src, n)
  {
    for i := 0 to n
      invariant mem[..] == Ascending(old(mem[..]), dst, src, i)
    {
      mem[dst + i] := mem[src + i];
    }
  }

  /** Byte j of the endless repetition of the d bytes at src. */
  function Repeated(mem: seq<int>, src: nat, d: nat, j: nat): int
    requires 0 < d && src + d <= |mem|
  {
    ModBound(j, d);
    mem[src + j % d]
  }

  lemma ModBound(j: nat, d: nat)
    requires d > 0
    ensures 0 <= j % d < d
  {
  }

  lemma {:induction false} RepeatedStart(mem: seq<int>, src: nat, d: nat, j: nat)
    requires 0 < d && src + d <= |mem|
    ensures j < d ==> Repeated(mem, src, d, j) == mem[src + j]
    ensures j >= d ==> Repeated(mem, src, d, j) == Repeated(mem, src, d, j - d)
  {
    if j < d {
      DivModUnique(j, d, 0, j);
    } else {
      WrapMod(j, d);
    }
  }

  lemma WrapMod(j: nat, d: nat)
    requires 0 < d <= j
    ensures (j - d) % d == j % d
  {
    var q := j / d;
    assert (q - 1) * d == q * d - d;
    DivModUnique(j - d, d, q - 1, j % d);
  }

  /** An overlapping ascending copy repeats the first dst - src bytes. */
  lemma {:induction false} AscendingRepeats(mem: seq<int>, dst: nat, src: nat, n: nat, k: nat)
    requires src < dst && dst + n <= |mem| && k < |mem|
    ensures Ascending(mem, dst, src, n)[k] ==
      if dst <= k < dst + n then Repeated(mem, src, dst - src, k - dst) else mem[k]
    decreases n, k
  {
    if n > 0 {
      if k == dst + n - 1 {
        AscendingRepeats(mem, dst, src, n - 1, src + n - 1);
        RepeatedStart(mem, src, dst - src, n - 1);
      } else {
        AscendingRepeats(mem, dst, src, n - 1, k);
      }
    }
  }

  lemma {:induction false} AscendingDown(mem: seq<int>, dst: nat, src: nat, n: nat, k: nat)
    requires dst <= src && src + n <= |mem| && k < |mem|
    ensures Ascending(mem, dst, src, n)[k] == if dst <= k < dst + n then mem[k - dst + src] else mem[k]
    decreases n, k
  {
    if n > 0 {
      AscendingDown(mem, dst, src, n - 1, if k == dst + n - 1 then src + n - 1 else k);
    }
  }

  /** The bytes at src are already a repetition of their first d. */
  ghost predicate AlreadyRepeats(mem: seq<int>, src: nat, d: nat, n: nat)
    requires d > 0 && src + d <= |mem| && src + n <= |mem|
  {
    forall j: nat {:trigger Repeated(mem, src, d, j)} :: j < n ==> mem[src + j] == Repeated(mem, src, d, j)
  }

  /** A byte of the overlapping target, copied either way. */
  lemma {:induction false} OverlapAt(mem: seq<int>, dst: nat, src: nat, n: nat, k: nat)
    requires src < dst && dst + n <= |mem| && k < |mem|
    ensures Ascending(mem, dst, src, n)[k] == Copied(mem, dst, src, n)[k] <==>
      (dst <= k < dst + n ==> mem[src + (k - dst)] == Repeated(mem, src, dst - src, k - dst))
  {
    AscendingRepeats(mem, dst, src, n, k);
    CopiedAt(mem, dst, src, n, k);
  }

  /** memcpy copies like memmove exactly when the target is not above the source or
      the bytes it will overwrite too early repeat anyway. */
  lemma {:induction false} MemcpyExactIff(mem: seq<int>, dst: nat, src: nat, n: nat)
    requires dst + n <= |mem| && src + n <= |mem|
    ensures Ascending(mem, dst, src, n) == Copied(mem, dst, src, n) <==>
      dst <= src || AlreadyRepeats(mem, src, dst - src, n)
  {
    var r, c := Ascending(mem, dst, src, n), Copied(mem, dst, src, n);
    if dst <= src {
      forall k: nat | k < |mem| ensures r[k] == c[k] {
        AscendingDown(mem, dst, src, n, k);
        CopiedAt(mem, dst, src, n, k);
      }
    } else if AlreadyRepeats(mem, src, dst - src, n) {
      forall k: nat | k < |mem| ensures r[k] == c[k] {
        OverlapAt(mem, dst, src, n, k);
        if dst <= k < dst + n { assert mem[src + (k - dst)] == Repeated(mem, src, dst - src, k - dst); }
      }
    } else {
      var j: nat :| j < n && mem[src + j] != Repeated(mem, src, dst - src, j);
      OverlapAt(mem, dst, src, n, dst + j);
    }
  }

  /** Two bytes moved up by one: memcpy smears the first. */
  lemma OverlapByOne()
    ensures Ascending([1, 2, 3], 1, 0, 2) == [1, 1, 1] && Copied([1, 2, 3], 1, 0, 2) == [1, 1, 2]
  {
    assert Ascending([1, 2, 3], 1, 0, 1) == [1, 1, 3];
  }

  // ----- malloc_aligned -----

  /** sizeof(void*): 4 or 8. */
  type PointerBytes = n: nat | n == 4 || n == 8 witness 8

  /** `x & ~(alignment - 1)`; for alignment 0 the mask is 0. */
  function RoundedDown(x: nat, alignment: nat): nat {
    WordIsPow2();
    And(x, Not(64, Sub64(alignment, 1)))
  }

  /** `(raw + sizeof(void*) + alignment - 1) & ~(alignment - 1)` */
  function AlignedAddress(raw: nat, pointer: PointerBytes, alignment: nat): nat {
    RoundedDown(Sub64(raw + pointer + alignment, 1), alignment)
  }

  /** The guard `!(alignment & (alignment - 1))` of a power of two. */
  predicate MaskAligns(alignment: nat)
    requires alignment > 0
  {
    And(alignment, alignment - 1) == 0
  }

  /** Any alignment rounds down by less than itself. */
  lemma RoundsDown(x: nat, alignment: nat)
    requires x < WORD && 0 < alignment < WORD
    ensures RoundedDown(x, alignment) <= x < RoundedDown(x, alignment) + alignment
  {
    WordIsPow2();
    Sub64Is(alignment);
    AndSplit(x, alignment - 1, 64);
    AndBound(x, alignment - 1);
  }

  lemma RoundsToMultiple(x: nat, alignment: nat)
    requires x < WORD && 0 < alignment < WORD && MaskAligns(alignment)
    ensures AlignedTo(RoundedDown(x, alignment), alignment)
  {
    Pow2Test(alignment);
    var k: nat :| alignment == Pow2(k);
    WordIsPow2();
    Sub64Is(alignment);
    if k > 64 { Pow2Monotone(64, k); }
    HighMask(x, k, 64);
    MultipleBelow(x, alignment);
  }

  /** The mask aligns every address exactly for the powers of two. */
  lemma AlignsIff(alignment: nat)
    requires 0 < alignment < WORD
    ensures MaskAligns(alignment) <==>
      forall x: nat :: x < WORD ==> AlignedTo(RoundedDown(x, alignment), alignment)
  {
    Pow2Test(alignment);
    if IsPow2(alignment) {
      forall x: nat | x < WORD ensures AlignedTo(RoundedDown(x, alignment), alignment) {
        RoundsToMultiple(x, alignment);
      }
    } else {
      assert Pow2(0) == 1;
      var j := ClearBit(alignment - 1);
      AndPow2(j, alignment - 1);
      WordIsPow2();
      Sub64Is(alignment);
      AndSplit(Pow2(j), alignment - 1, 64);
      assert RoundedDown(Pow2(j), alignment) == Pow2(j);
      SmallNotMultiple(Pow2(j), alignment);
    }
  }

  lemma SmallNotMultiple(x: nat, d: nat)
    requires 0 < x < d
    ensures !AlignedTo(x, d)
  {
    DivModUnique(x, d, 0, x);
  }

  predicate AlignedTo(a: nat, d: nat)
    requires d > 0
  {
    a % d == 0
  }

  lemma MultipleBelow(x: nat, d: nat)
    requires d > 0
    ensures var r := x % d; 0 <= r < d && r <= x && AlignedTo(x - r, d)
  {
    DivModIs(x, d);
    DivModUnique(x - x % d, d, x / d, 0);
  }

  lemma RoundsUp(low: nat, alignment: nat, a: nat)
    requires 0 < alignment < WORD && low + alignment <= WORD
    requires a == RoundedDown(low + alignment - 1, alignment)
    ensures low <= a < low + alignment && (MaskAligns(alignment) ==> AlignedTo(a, alignment))
  {
    RoundsDown(low + alignment - 1, alignment);
    if MaskAligns(alignment) { RoundsToMultiple(low + alignment - 1, alignment); }
  }

  /** Without a wrap the address leaves room below it for the saved raw pointer, and
      `size` bytes from it stay inside the block asked for. */
  lemma AlignedFits(raw: nat, pointer: PointerBytes, size: nat, alignment: nat)
    requires 0 < alignment < WORD && raw + alignment + pointer <= WORD
    ensures var a := AlignedAddress(raw, pointer, alignment);
      raw + pointer <= a && a + size <= raw + (size + alignment + pointer) &&
      (MaskAligns(alignment) ==> AlignedTo(a, alignment))
  {
    Sub64Is(raw + pointer + alignment);
    RoundsUp(raw + pointer, alignment, AlignedAddress(raw, pointer, alignment));
  }

  /** Alignment 0 masks everything away. */
  lemma AlignedToNothing(raw: nat, pointer: PointerBytes)
    ensures AlignedAddress(raw, pointer, 0) == 0
  {
    WordIsPow2();
    Sub64Is(0);
  }
}
