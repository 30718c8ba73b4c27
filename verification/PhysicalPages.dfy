/** The physical page allocator of src/drivers/misc/memory.c: one bit per page,
    set when the page is in use, packed eight to a byte. */
module PhysicalPages {
  import opened Bits

  const PAGE: nat := 4096

  // ----- Packed bits -----

  /** The mark of page i: true when in use. */
  predicate Used(s: seq<byte>, i: nat)
    requires i < 8 * |s|
  {
    Bit(s[i / 8], i % 8)
  }

  /** Page i is bit i % 8, from the low end, of byte i / 8. */
  lemma UsedIs(s: seq<byte>, i: nat)
    requires i < 8 * |s|
    ensures Used(s, i) <==> (s[i / 8] / Pow2(i % 8)) % 2 == 1
  {
    BitIs(s[i / 8], i % 8);
  }

  /** `bitmap[i >> 3] |= 1u << (i & 7)` or `&= ~(1u << (i & 7))`. */
  function WithBit(s: seq<byte>, i: nat, used: bool): (r: seq<byte>)
    requires i < 8 * |s|
    ensures |r| == |s|
  {
    ByteWithBitBound(s[i / 8], i % 8);
    s[i / 8 := ByteWithBit(s[i / 8], i % 8, used)]
  }

  function ByteWithBit(b: byte, k: nat, used: bool): nat
    requires k < 8
  {
    MaskBound(k);
    if used then Or(b, Pow2(k)) else And(b, Not(32, Pow2(k)))
  }

  lemma {:induction false} MaskBound(k: nat)
    requires k < 8
    ensures Pow2(k) < Pow2(8) == 256
    ensures Pow2(k) < Pow2(32)
  {
    Pow2Monotone(k, 8);
    Pow2Monotone(k, 32);
    assert Pow2(8) == 2 * (2 * (2 * (2 * (2 * (2 * (2 * (2 * Pow2(0))))))));
  }

  lemma ByteWithBitBound(b: byte, k: nat)
    requires k < 8
    ensures ByteWithBit(b, k, true) < 256 && ByteWithBit(b, k, false) < 256
  {
    MaskBound(k);
    OrBound(b, Pow2(k), 8);
    AndBound(b, Not(32, Pow2(k)));
  }

  lemma ByteWithBitEffect(b: byte, k: nat, used: bool, j: nat)
    requires k < 8 && j < 8
    ensures Bit(ByteWithBit(b, k, used), j) <==> if j == k then used else Bit(b, j)
  {
    MaskBound(k);
    OrBit(b, Pow2(k), j);
    AndBit(b, Not(32, Pow2(k)), j);
    NotBit(32, Pow2(k), j);
    Pow2Bit(k, j);
  }

  /** The packed bytes refine a set of pages: a bit write changes that one mark. */
  lemma WithBitEffect(s: seq<byte>, i: nat, used: bool)
    requires i < 8 * |s|
    ensures forall j: nat :: j < 8 * |s| ==> (Used(WithBit(s, i, used), j) <==> if j == i then used else Used(s, j))
  {
    forall j: nat | j < 8 * |s|
      ensures Used(WithBit(s, i, used), j) <==> if j == i then used else Used(s, j)
    {
      ByteWithBitBound(s[i / 8], i % 8);
      ByteWithBitEffect(s[i / 8], i % 8, used, j % 8);
    }
  }

  /** Bitmaps with the same marks are the same bytes. */
  lemma SameMarks(s: seq<byte>, t: seq<byte>)
    requires |s| == |t|
    requires forall j: nat :: j < 8 * |s| ==> (Used(s, j) <==> Used(t, j))
    ensures s == t
  {
    forall n | 0 <= n < |s|
      ensures s[n] == t[n]
    {
      forall k | 0 <= k < 8
        ensures Bit(s[n], k) <==> Bit(t[n], k)
      {
        assert Used(s, 8 * n + k) <==> Used(t, 8 * n + k);
      }
      MaskBound(0);
      SameBits(s[n], t[n], 8);
    }
  }

  /** `n` pages from `first` marked, skipping any page at or past `total`. */
  function MarkPages(s: seq<byte>, total: nat, first: nat, n: nat, used: bool): (r: seq<byte>)
    requires total <= 8 * |s|
    ensures |r| == |s|
  {
    if n == 0 then s else
    var r := MarkPages(s, total, first, n - 1, used);
    if first + n - 1 < total then WithBit(r, first + n - 1, used) else r
  }

  lemma {:induction false} MarkPagesEffect(s: seq<byte>, total: nat, first: nat, n: nat, used: bool)
    requires total <= 8 * |s|
    ensures forall j: nat :: j < 8 * |s| ==>
      (Used(MarkPages(s, total, first, n, used), j) <==> if first <= j < first + n && j < total then used else Used(s, j))
  {
    if n > 0 {
      MarkPagesEffect(s, total, first, n - 1, used);
      if first + n - 1 < total {
        WithBitEffect(MarkPages(s, total, first, n - 1, used), first + n - 1, used);
      }
    }
  }

  // ----- What the allocator looks for -----

  predicate PageFree(s: seq<byte>, total: nat, i: nat)
    requires total <= 8 * |s|
  {
    i < total && !Used(s, i)
  }

  predicate RunFree(s: seq<byte>, total: nat, i: nat, pages: nat)
    requires total <= 8 * |s|
  {
    forall j: nat :: i <= j < i + pages ==> PageFree(s, total, j)
  }

  /** Pages needed for `size` bytes. */
  function Needed(size: nat): nat {
    (size + PAGE - 1) / PAGE
  }

  /** Alignment in pages; zero means one page, and so does anything smaller. */
  function AlignPages(alignment: nat): (a: nat)
    ensures a > 0
  {
    if alignment < PAGE then 1 else alignment / PAGE
  }

  predicate Candidate(s: seq<byte>, total: nat, pages: nat, align: nat, i: nat)
    requires total <= 8 * |s| && align > 0
  {
    i % align == 0 && i + pages <= total && RunFree(s, total, i, pages)
  }

  datatype Found = At(page: nat) | Nowhere

  /** The least candidate at or after `from`, trying every index. */
  function LeastRun(s: seq<byte>, total: nat, pages: nat, align: nat, from: nat): (r: Found)
    requires total <= 8 * |s| && align > 0
    ensures r.At? ==> from <= r.page && Candidate(s, total, pages, align, r.page)
    ensures r.At? ==> forall i: nat :: from <= i < r.page ==> !Candidate(s, total, pages, align, i)
    ensures r.Nowhere? ==> forall i: nat :: from <= i ==> !Candidate(s, total, pages, align, i)
    decreases total + 1 - from
  {
    if from > total then Nowhere
    else if Candidate(s, total, pages, align, from) then At(from)
    else LeastRun(s, total, pages, align, from + 1)
  }

  predicate GoodRequest(size: nat, alignment: nat) {
    size != 0 && (alignment == 0 || And(alignment, alignment - 1) == 0)
  }

  function AllocRun(s: seq<byte>, total: nat, size: nat, alignment: nat): Found
    requires total <= 8 * |s|
  {
    if GoodRequest(size, alignment) then LeastRun(s, total, Needed(size), AlignPages(alignment), 0) else Nowhere
  }

  function AllocAddr(s: seq<byte>, total: nat, size: nat, alignment: nat): nat
    requires total <= 8 * |s|
  {
    match AllocRun(s, total, size, alignment)
    case At(i) => i * PAGE
    case Nowhere => 0
  }

  function AllocBits(s: seq<byte>, total: nat, size: nat, alignment: nat): (r: seq<byte>)
    requires total <= 8 * |s|
    ensures |r| == |s|
  {
    match AllocRun(s, total, size, alignment)
    case At(i) => MarkPages(s, total, i, Needed(size), true)
    case Nowhere => s
  }

  /** The answer to a request and the bitmap after it, whatever phys_bitmap points
      at; 0 is the NULL pointer. */
  function Answer(bitmapAddr: nat, s: seq<byte>, total: nat, size: nat, alignment: nat): (nat, seq<byte>)
    requires total <= 8 * |s|
  {
    if bitmapAddr == 0 then (0, s) else (AllocAddr(s, total, size, alignment), AllocBits(s, total, size, alignment))
  }

  /** The page count as the code computes it, in 64-bit arithmetic. */
  function PageCount(size: nat): nat {
    Add64(size, PAGE - 1) / PAGE
  }

  function FreeBits(s: seq<byte>, total: nat, addr: nat, size: nat): (r: seq<byte>)
    requires total <= 8 * |s|
    ensures |r| == |s|
  {
    if addr == 0 || size == 0 then s else MarkPages(s, total, addr / PAGE, PageCount(size), false)
  }

  // ----- Word arithmetic of one request -----

  lemma PageIsPow2()
    ensures PAGE == Pow2(12) && WORD % PAGE == 0 && PAGE < WORD
  {
    assert Pow2(12) == 4096 by {
      MaskBound(0);
      assert Pow2(12) == 2 * (2 * (2 * (2 * Pow2(8))));
    }
  }

  lemma MulMod(a: nat, b: nat)
    requires b > 0
    ensures (a * b) % b == 0
  {
    DivModUnique(a * b, b, a, 0);
  }

  /** The sum wraps only for sizes no machine has pages for. */
  lemma CountWraps(size: nat, total: nat)
    requires size < WORD && total * PAGE < WORD
    ensures PageCount(size) == Needed(size) || (PageCount(size) == 0 && Needed(size) > total)
  {
  }

  lemma AlignPagesPow2(alignment: nat)
    requires alignment > 0 && And(alignment, alignment - 1) == 0
    ensures IsPow2(AlignPages(alignment))
    ensures alignment >= PAGE ==> alignment == AlignPages(alignment) * PAGE
  {
    Pow2Test(alignment);
    PageIsPow2();
    var k: nat :| alignment == Pow2(k);
    if k >= 12 {
      Pow2Add(k - 12, 12);
      DivModUnique(alignment, PAGE, Pow2(k - 12), 0);
      Pow2Monotone(12, k);
    } else {
      Pow2Monotone(k, 12);
      assert AlignPages(alignment) == Pow2(0);
    }
  }

  lemma MaskOfPow2(i: nat, align: nat)
    requires IsPow2(align)
    ensures align > 0 && And(i, align - 1) == i % align
  {
    var k: nat :| align == Pow2(k);
    LowMask(i, k);
  }

  /** Every start inside a failed run would need the used page that ended it. */
  lemma SkipIsSafe(s: seq<byte>, total: nat, pages: nat, align: nat, i: nat, count: nat)
    requires total <= 8 * |s| && align > 0
    requires pages > total || (count < pages && !PageFree(s, total, i + count))
    ensures forall j: nat :: i <= j <= i + count ==> !Candidate(s, total, pages, align, j)
  {
  }

  /** `(b >> k) & 1` */
  predicate TestBit(b: byte, k: nat)
    requires k < 8
    ensures TestBit(b, k) <==> Bit(b, k)
  {
    ShiftBit(b, k);
    And(Shr(b, k), 1) == 1
  }

  lemma LeastIs(s: seq<byte>, total: nat, pages: nat, align: nat, i: nat)
    requires total <= 8 * |s| && align > 0
    requires forall j: nat :: j < i ==> !Candidate(s, total, pages, align, j)
    ensures Candidate(s, total, pages, align, i) ==> LeastRun(s, total, pages, align, 0) == At(i)
    ensures i + pages > total ==> LeastRun(s, total, pages, align, 0) == Nowhere
  {
  }

  // ----- The allocator state -----

  class PageAllocator {
    var bitmap: array<byte>
    var bitmapAddr: nat     // phys_bitmap as an address; 0 is the NULL pointer
    var totalPages: nat

    ghost predicate Valid()
      reads this, bitmap
    {
      totalPages <= 8 * bitmap.Length && totalPages * PAGE < WORD
    }

    method SetBit(i: nat, used: bool)
      requires i < 8 * bitmap.Length
      modifies bitmap
      ensures bitmap[..] == WithBit(old(bitmap[..]), i, used)
    {
      ByteWithBitBound(bitmap[i / 8], i % 8);
      bitmap[i / 8] := ByteWithBit(bitmap[i / 8], i % 8, used);
    }

    method MarkPageUsed(i: nat)
      requires Valid()
      modifies bitmap
      ensures bitmap[..] == if i < totalPages then WithBit(old(bitmap[..]), i, true) else old(bitmap[..])
    {
      if i >= totalPages { return; }
      SetBit(i, true);
    }

    /** A page out of range is not free. */
    function PageIsFree(i: nat): (free: bool)
      requires Valid()
      reads this, bitmap
      ensures free <==> PageFree(bitmap[..], totalPages, i)
    {
      i < totalPages && !TestBit(bitmap[i / 8], i % 8)
    }

    /** The scan of lines 271-272: how many pages from i on are free, up to `pages`. */
    method CountFree(i: nat, pages: nat) returns (count: nat)
      requires Valid() && PageFree(bitmap[..], totalPages, i)
      ensures count >= 1 && RunFree(bitmap[..], totalPages, i, count)
      ensures pages > 0 ==> count <= pages
      ensures count < pages ==> !PageFree(bitmap[..], totalPages, i + count)
    {
      count := 1;
      while count < pages && PageIsFree(i + count)
        invariant 1 <= count && (pages > 0 ==> count <= pages)
        invariant RunFree(bitmap[..], totalPages, i, count)
      {
        count := count + 1;
      }
    }

    method MarkRun(i: nat, pages: nat)
      requires Valid()
      modifies bitmap
      ensures bitmap[..] == MarkPages(old(bitmap[..]), totalPages, i, pages, true)
    {
      var j := 0;
      while j < pages
        invariant j <= pages
        invariant bitmap[..] == MarkPages(old(bitmap[..]), totalPages, i, j, true)
      {
        MarkPageUsed(i + j);
        j := j + 1;
      }
    }

    /** The search of lines 268-278, exact although a failed run is skipped with
        `i += count`. */
    method FindRun(pages: nat, needed: nat, align: nat) returns (r: Found)
      requires Valid() && align > 0 && IsPow2(align) && needed > 0
      requires pages == needed || (pages == 0 && needed > totalPages)
      ensures r == LeastRun(bitmap[..], totalPages, needed, align, 0)
    {
      var i := 0;
      while i + pages <= totalPages
        invariant forall j: nat :: j < i ==> !Candidate(bitmap[..], totalPages, needed, align, j)
        decreases totalPages - i
      {
        MaskOfPow2(i, align);
        if And(i, align - 1) != 0 { i := i + 1; continue; }
        if !PageIsFree(i) {
          SkipIsSafe(bitmap[..], totalPages, needed, align, i, 0);
          i := i + 1;
          continue;
        }
        var count := CountFree(i, pages);
        if count == pages {
          LeastIs(bitmap[..], totalPages, needed, align, i);
          return At(i);
        }
        SkipIsSafe(bitmap[..], totalPages, needed, align, i, count);
        i := i + count;
        i := i + 1;
      }
      LeastIs(bitmap[..], totalPages, needed, align, i);
      return Nowhere;
    }

    /** An exact first fit: the least aligned index that starts a run of enough free
        pages, and 0 with nothing changed only when there is none. */
    method PhysAllocContiguous(size: nat, alignment: nat) returns (addr: nat)
      requires Valid() && size < WORD && alignment < WORD
      modifies bitmap
      ensures Valid()
      ensures (addr, bitmap[..]) == Answer(bitmapAddr, old(bitmap[..]), totalPages, size, alignment)
    {
      if bitmapAddr == 0 { return 0; }
      if size == 0 { return 0; }
      var align := if alignment == 0 then PAGE else alignment;
      PageIsPow2();
      Pow2Test(PAGE);
      if And(align, align - 1) != 0 { return 0; }
      var pages := PageCount(size);
      var alignPages := align / PAGE;
      if alignPages == 0 { alignPages := 1; }
      assert alignPages == AlignPages(align) == AlignPages(alignment);
      CountWraps(size, totalPages);
      AlignPagesPow2(align);
      NeededPositive(size);
      var r := FindRun(pages, Needed(size), alignPages);
      match r {
        case At(i) =>
          MarkRun(i, pages);
          return i * PAGE;
        case Nowhere =>
          return 0;
      }
    }

    method PhysFreeContiguous(addr: nat, size: nat)
      requires Valid() && addr < WORD && size < WORD
      modifies bitmap
      ensures Valid()
      ensures bitmap[..] == FreeBits(old(bitmap[..]), totalPages, addr, size)
    {
      if addr == 0 || size == 0 { return; }
      var first := addr / PAGE;
      var pages := PageCount(size);
      var i := 0;
      while i < pages
        invariant i <= pages
        invariant bitmap[..] == MarkPages(old(bitmap[..]), totalPages, first, i, false)
      {
        var idx := first + i;
        if idx < totalPages { SetBit(idx, false); }
        i := i + 1;
      }
    }
  }

  // ----- Whole runs of requests -----

  datatype Grant = Grant(size: nat, alignment: nat)
  datatype Pages = Pages(bits: seq<byte>, held: map<nat, Grant>)
  datatype Request = Alloc(size: nat, alignment: nat) | Free(addr: nat)

  predicate Legal(st: Pages, r: Request) {
    match r
    case Alloc(size, alignment) => size < WORD && alignment < WORD
    case Free(addr) => addr in st.held
  }

  /** One request; a granted range is remembered until it is freed with its size. */
  function Step(total: nat, st: Pages, r: Request): (st': Pages)
    requires total <= 8 * |st.bits| && Legal(st, r)
    ensures |st'.bits| == |st.bits|
  {
    match r
    case Alloc(size, alignment) =>
      var addr := AllocAddr(st.bits, total, size, alignment);
      Pages(AllocBits(st.bits, total, size, alignment),
            if addr == 0 then st.held else st.held[addr := Grant(size, alignment)])
    case Free(addr) =>
      Pages(FreeBits(st.bits, total, addr, st.held[addr].size), st.held - {addr})
  }

  predicate Covers(addr: nat, g: Grant, j: nat) {
    addr / PAGE <= j < addr / PAGE + Needed(g.size)
  }

  ghost predicate Held(held: map<nat, Grant>, j: nat) {
    exists a :: a in held && Covers(a, held[a], j)
  }

  /** A granted address: page-aligned, aligned as asked, inside memory, not NULL. */
  ghost predicate WellGranted(total: nat, addr: nat, g: Grant) {
    && addr > 0 && 0 < g.size < WORD
    && addr % PAGE == 0
    && (g.alignment > 0 ==> addr % g.alignment == 0)
    && addr / PAGE + Needed(g.size) <= total
  }

  ghost predicate Disjoint(held: map<nat, Grant>) {
    forall a, b, j: nat :: a in held && b in held && Covers(a, held[a], j) && Covers(b, held[b], j) ==> a == b
  }

  /** What every run keeps, from the bitmap s0 it started with: the marks are those
      of s0 plus exactly the pages held, and what is held was free in s0. */
  ghost predicate Invariant(total: nat, s0: seq<byte>, st: Pages) {
    && |st.bits| == |s0| && total <= 8 * |s0| && total * PAGE < WORD
    && (forall a :: a in st.held ==> WellGranted(total, a, st.held[a]))
    && Disjoint(st.held)
    && (forall j: nat :: j < 8 * |s0| ==> (Used(st.bits, j) <==> Used(s0, j) || Held(st.held, j)))
    && (forall j: nat :: j < 8 * |s0| && Held(st.held, j) ==> !Used(s0, j))
  }

  lemma NeededPositive(size: nat)
    requires size > 0
    ensures Needed(size) > 0
  {
  }

  lemma MultipleOf(i: nat, x: nat, y: nat)
    requires y > 0
    ensures (i * (x * y)) % y == 0
  {
    MulAssoc(i, x, y);
    MulMod(i * x, y);
  }

  lemma LargeAlignment(i: nat, a: nat)
    requires a > 0 && i % a == 0
    ensures (i * PAGE) % (a * PAGE) == 0
  {
    MulAssoc(i / a, a, PAGE);
    assert i == (i / a) * a;
    MulMod(i / a, a * PAGE);
  }

  lemma SmallAlignment(i: nat, alignment: nat)
    requires IsPow2(alignment) && alignment <= PAGE
    ensures (i * PAGE) % alignment == 0
  {
    var k: nat :| alignment == Pow2(k);
    PageIsPow2();
    if k > 12 { Pow2Monotone(12, k); }
    Pow2Add(12 - k, k);
    MultipleOf(i, Pow2(12 - k), Pow2(k));
  }

  /** Alignment in bytes follows from alignment in pages. */
  lemma AlignedAddress(i: nat, alignment: nat)
    requires alignment > 0 && And(alignment, alignment - 1) == 0
    requires i % AlignPages(alignment) == 0
    ensures (i * PAGE) % alignment == 0
  {
    if alignment >= PAGE {
      AlignPagesPow2(alignment);
      LargeAlignment(i, AlignPages(alignment));
    } else {
      Pow2Test(alignment);
      SmallAlignment(i, alignment);
    }
  }

  lemma GrantUsed(total: nat, s0: seq<byte>, st: Pages, addr: nat)
    requires Invariant(total, s0, st) && addr in st.held
    ensures addr / PAGE < total && Used(st.bits, addr / PAGE)
  {
    NeededPositive(st.held[addr].size);
    assert Covers(addr, st.held[addr], addr / PAGE);
    assert Held(st.held, addr / PAGE);
  }

  lemma HeldAfterGrant(held: map<nat, Grant>, addr: nat, g: Grant, j: nat)
    requires addr !in held
    ensures Held(held[addr := g], j) <==> Held(held, j) || Covers(addr, g, j)
  {
    var held' := held[addr := g];
    if Held(held, j) {
      var a :| a in held && Covers(a, held[a], j);
      assert a in held' && Covers(a, held'[a], j);
    }
    if Covers(addr, g, j) {
      assert addr in held' && Covers(addr, held'[addr], j);
    }
  }

  lemma HeldAfterFree(held: map<nat, Grant>, addr: nat, j: nat)
    requires addr in held && Disjoint(held)
    ensures Held(held - {addr}, j) <==> Held(held, j) && !Covers(addr, held[addr], j)
  {
    var held' := held - {addr};
    if Held(held', j) {
      var a :| a in held' && Covers(a, held'[a], j);
      assert a in held && Covers(a, held[a], j);
    }
    if Held(held, j) && !Covers(addr, held[addr], j) {
      var a :| a in held && Covers(a, held[a], j);
      assert a in held' && Covers(a, held'[a], j);
    }
  }

  /** A grant anywhere but at page 0. */
  lemma GrantKeeps(total: nat, s0: seq<byte>, st: Pages, i: nat, g: Grant)
    requires Invariant(total, s0, st) && i > 0 && WellGranted(total, i * PAGE, g)
    requires forall j: nat :: Covers(i * PAGE, g, j) ==> PageFree(st.bits, total, j)
    ensures Invariant(total, s0, Pages(MarkPages(st.bits, total, i, Needed(g.size), true), st.held[i * PAGE := g]))
  {
    var addr := i * PAGE;
    NeededPositive(g.size);
    assert addr / PAGE == i && Covers(addr, g, i);
    forall a | a in st.held
      ensures a != addr
    {
      GrantUsed(total, s0, st, a);
    }
    MarkPagesEffect(st.bits, total, i, Needed(g.size), true);
    forall j: nat | Covers(addr, g, j)
      ensures j < total && !Used(s0, j) && !Held(st.held, j)
    {
      assert PageFree(st.bits, total, j);
    }
    forall j: nat
      ensures Held(st.held[addr := g], j) <==> Held(st.held, j) || Covers(addr, g, j)
    {
      HeldAfterGrant(st.held, addr, g, j);
    }
    DisjointGrant(st.held, addr, g);
  }

  /** What a run found is good for the request, if it is not at page 0. */
  lemma FoundIsGranted(s: seq<byte>, total: nat, size: nat, alignment: nat, i: nat)
    requires total <= 8 * |s| && size < WORD && AllocRun(s, total, size, alignment) == At(i)
    ensures i > 0 ==> WellGranted(total, i * PAGE, Grant(size, alignment))
    ensures forall j: nat :: Covers(i * PAGE, Grant(size, alignment), j) ==> PageFree(s, total, j)
    ensures 0 < Needed(size) <= total
  {
    NeededPositive(size);
    assert (i * PAGE) / PAGE == i && (i * PAGE) % PAGE == 0;
    if alignment > 0 { AlignedAddress(i, alignment); }
  }

  lemma {:induction false} AllocKeeps(total: nat, s0: seq<byte>, st: Pages, size: nat, alignment: nat)
    requires Invariant(total, s0, st) && Legal(st, Alloc(size, alignment))
    requires AllocRun(st.bits, total, size, alignment) != At(0)
    ensures Invariant(total, s0, Step(total, st, Alloc(size, alignment)))
  {
    match AllocRun(st.bits, total, size, alignment)
    case Nowhere =>
    case At(i) =>
      FoundIsGranted(st.bits, total, size, alignment, i);
      GrantKeeps(total, s0, st, i, Grant(size, alignment));
  }

  lemma DisjointGrant(held: map<nat, Grant>, addr: nat, g: Grant)
    requires Disjoint(held) && addr !in held
    requires forall j: nat :: Covers(addr, g, j) ==> !Held(held, j)
    ensures Disjoint(held[addr := g])
  {
    var held' := held[addr := g];
    forall a, b, j: nat | a in held' && b in held' && Covers(a, held'[a], j) && Covers(b, held'[b], j)
      ensures a == b
    {
      if a != addr { assert Held(held, j); }
      if b != addr { assert Held(held, j); }
    }
  }

  lemma {:induction false} FreeKeeps(total: nat, s0: seq<byte>, st: Pages, addr: nat)
    requires Invariant(total, s0, st) && Legal(st, Free(addr))
    ensures Invariant(total, s0, Step(total, st, Free(addr)))
  {
    var g := st.held[addr];
    var st' := Step(total, st, Free(addr));
    CountWraps(g.size, total);
    MarkPagesEffect(st.bits, total, addr / PAGE, Needed(g.size), false);
    forall j: nat
      ensures Held(st'.held, j) <==> Held(st.held, j) && !Covers(addr, g, j)
    {
      HeldAfterFree(st.held, addr, j);
    }
    forall j: nat | Covers(addr, g, j)
      ensures j < total && Held(st.held, j)
    {
    }
  }

  /** The first n pages are free. */
  predicate FirstFree(s: seq<byte>, total: nat, n: nat)
    requires total <= 8 * |s|
  {
    n <= total && RunFree(s, total, 0, n)
  }

  /** A run found at page 0: the pages are marked, the caller holds nothing. From then
      on it is as if they had been in use at the start. */
  lemma LostAtZero(total: nat, s0: seq<byte>, st: Pages, n: nat)
    requires Invariant(total, s0, st) && FirstFree(st.bits, total, n)
    ensures FirstFree(s0, total, n)
    ensures Invariant(total, MarkPages(s0, total, 0, n, true), Pages(MarkPages(st.bits, total, 0, n, true), st.held))
  {
    MarkPagesEffect(s0, total, 0, n, true);
    MarkPagesEffect(st.bits, total, 0, n, true);
    forall j: nat | j < n
      ensures PageFree(s0, total, j) && !Held(st.held, j)
    {
      assert PageFree(st.bits, total, j);
    }
  }

  predicate LegalRun(total: nat, st: Pages, rs: seq<Request>)
    requires total <= 8 * |st.bits|
    decreases |rs|
  {
    rs == [] || (Legal(st, rs[0]) && LegalRun(total, Step(total, st, rs[0]), rs[1..]))
  }

  function Run(total: nat, st: Pages, rs: seq<Request>): Pages
    requires total <= 8 * |st.bits| && LegalRun(total, st, rs)
    decreases |rs|
  {
    if rs == [] then st else Run(total, Step(total, st, rs[0]), rs[1..])
  }

  /** The pages lost, none or those of one allocation. */
  ghost predicate LostBy(rs: seq<Request>, n: nat) {
    n == 0 || exists k :: 0 <= k < |rs| && rs[k].Alloc? && n == Needed(rs[k].size)
  }

  /** Over any run of allocations and matching frees the used pages are those used at
      the start, those held, and the first n, which were free: one allocation found
      them at page 0, whose address says it failed, and nobody holds them. With page
      0 in use n is 0. */
  lemma {:induction false} RunKeeps(total: nat, s0: seq<byte>, st: Pages, rs: seq<Request>) returns (n: nat)
    requires Invariant(total, s0, st) && LegalRun(total, st, rs)
    ensures FirstFree(s0, total, n) && LostBy(rs, n)
    ensures Invariant(total, MarkPages(s0, total, 0, n, true), Run(total, st, rs))
    ensures 0 < total && Used(s0, 0) ==> n == 0
    decreases |rs|
  {
    n := 0;
    if rs != [] {
      var r, st' := rs[0], Step(total, st, rs[0]);
      if r.Alloc? && AllocRun(st.bits, total, r.size, r.alignment) == At(0) {
        n := Needed(r.size);
        LostStep(total, s0, st, r.size, r.alignment);
        var s1 := MarkPages(s0, total, 0, n, true);
        var none := RunKeeps(total, s1, st', rs[1..]);
        assert MarkPages(s1, total, 0, none, true) == s1;
        assert rs[0].Alloc? && n == Needed(rs[0].size);
      } else {
        match r {
          case Alloc(size, alignment) => AllocKeeps(total, s0, st, size, alignment);
          case Free(addr) => FreeKeeps(total, s0, st, addr);
        }
        n := RunKeeps(total, s0, st', rs[1..]);
        LostLater(rs, n);
      }
    }
  }

  lemma LostStep(total: nat, s0: seq<byte>, st: Pages, size: nat, alignment: nat)
    requires Invariant(total, s0, st) && Legal(st, Alloc(size, alignment))
    requires AllocRun(st.bits, total, size, alignment) == At(0)
    ensures var n := Needed(size);
      FirstFree(s0, total, n) && !Used(s0, 0) && 0 < total && Used(MarkPages(s0, total, 0, n, true), 0) &&
      Invariant(total, MarkPages(s0, total, 0, n, true), Step(total, st, Alloc(size, alignment)))
  {
    var n := Needed(size);
    FoundIsGranted(st.bits, total, size, alignment, 0);
    assert FirstFree(st.bits, total, n) && PageFree(st.bits, total, 0);
    LostAtZero(total, s0, st, n);
    assert PageFree(s0, total, 0);
    MarkPagesEffect(s0, total, 0, n, true);
  }

  lemma LostLater(rs: seq<Request>, n: nat)
    requires rs != [] && LostBy(rs[1..], n)
    ensures LostBy(rs, n)
  {
    if n > 0 {
      var k :| 0 <= k < |rs[1..]| && rs[1..][k].Alloc? && n == Needed(rs[1..][k].size);
      assert rs[k + 1].Alloc? && n == Needed(rs[k + 1].size);
    }
  }

  lemma StartInvariant(total: nat, s0: seq<byte>)
    requires total <= 8 * |s0| && total * PAGE < WORD
    ensures Invariant(total, s0, Pages(s0, map[]))
  {
  }

  /** Any run, in any order, that hands back all it was granted leaves the bitmap as it
      found it, bit for bit, but for the pages lost. */
  lemma AllReturned(total: nat, s0: seq<byte>, rs: seq<Request>) returns (n: nat)
    requires total <= 8 * |s0| && total * PAGE < WORD
    requires LegalRun(total, Pages(s0, map[]), rs)
    requires Run(total, Pages(s0, map[]), rs).held == map[]
    ensures Run(total, Pages(s0, map[]), rs).bits == MarkPages(s0, total, 0, n, true)
    ensures FirstFree(s0, total, n) && LostBy(rs, n) && (0 < total && Used(s0, 0) ==> n == 0)
  {
    StartInvariant(total, s0);
    n := RunKeeps(total, s0, Pages(s0, map[]), rs);
    SameMarks(Run(total, Pages(s0, map[]), rs).bits, MarkPages(s0, total, 0, n, true));
  }

  /** A free right after its alloc undoes it, in any bitmap. */
  lemma FreeUndoesAlloc(s: seq<byte>, total: nat, size: nat, alignment: nat)
    requires total <= 8 * |s| && total * PAGE < WORD && size < WORD && alignment < WORD
    requires AllocAddr(s, total, size, alignment) != 0
    ensures FreeBits(AllocBits(s, total, size, alignment), total, AllocAddr(s, total, size, alignment), size) == s
  {
    var i := AllocRun(s, total, size, alignment).page;
    var t := AllocBits(s, total, size, alignment);
    assert (i * PAGE) / PAGE == i;
    CountWraps(size, total);
    MarkPagesEffect(s, total, i, Needed(size), true);
    MarkPagesEffect(t, total, i, Needed(size), false);
    forall j: nat | i <= j < i + Needed(size)
      ensures !Used(s, j)
    {
      assert PageFree(s, total, j);
    }
    SameMarks(FreeBits(t, total, i * PAGE, size), s);
  }

  /** The answer 0 means "unchanged" unless the run chosen starts at page 0: then
      the pages are taken although the caller is told the call failed. */
  lemma ZeroMeansUnchangedIff(s: seq<byte>, total: nat, size: nat, alignment: nat)
    requires total <= 8 * |s|
    requires AllocAddr(s, total, size, alignment) == 0
    ensures AllocBits(s, total, size, alignment) == s <==>
      !(GoodRequest(size, alignment) && Needed(size) <= total && RunFree(s, total, 0, Needed(size)))
  {
    if GoodRequest(size, alignment) {
      var n := Needed(size);
      NeededPositive(size);
      if n <= total && RunFree(s, total, 0, n) {
        assert Candidate(s, total, n, AlignPages(alignment), 0);
        assert AllocRun(s, total, size, alignment) == At(0);
        MarkPagesEffect(s, total, 0, n, true);
        assert PageFree(s, total, 0);
        assert Used(AllocBits(s, total, size, alignment), 0);
      }
    }
  }

  /** One free page, one byte asked for: the page is taken, the answer is 0. */
  lemma PageZeroLost()
    ensures AllocAddr([0], 1, 1, 0) == 0 && AllocBits([0], 1, 1, 0) != [0]
  {
    ZeroBits(0);
    assert RunFree([0], 1, 0, 1);
    assert AllocRun([0], 1, 1, 0) == At(0) by { assert Candidate([0], 1, 1, 1, 0); }
    ZeroMeansUnchangedIff([0], 1, 1, 0);
  }

  // ----- In bytes -----

  /** The page count is the least that holds the bytes. */
  lemma NeededIs(size: nat)
    ensures Needed(size) * PAGE >= size
    ensures size > 0 ==> (Needed(size) - 1) * PAGE < size
  {
  }

  /** Page j has a byte in the size bytes from addr on. */
  predicate Touches(addr: nat, size: nat, j: nat) {
    j * PAGE < addr + size && addr < (j + 1) * PAGE
  }

  /** For a range that starts on a page and is not empty, these are the pages counted. */
  lemma TouchedPages(i: nat, size: nat, j: nat)
    requires size > 0
    ensures Touches(i * PAGE, size, j) <==> i <= j < i + Needed(size)
  {
    NeededIs(size);
  }

  /** All size bytes from addr on lie in free pages of memory. */
  ghost predicate BytesFree(s: seq<byte>, total: nat, addr: nat, size: nat)
    requires total <= 8 * |s|
  {
    forall x: nat {:trigger x / PAGE} :: addr <= x < addr + size ==> PageFree(s, total, x / PAGE)
  }

  /** An address a request may be granted. */
  ghost predicate Suits(s: seq<byte>, total: nat, size: nat, alignment: nat, addr: nat)
    requires total <= 8 * |s|
  {
    addr % PAGE == 0 && (alignment > 0 ==> addr % alignment == 0) && BytesFree(s, total, addr, size)
  }

  lemma BytesFreeIff(s: seq<byte>, total: nat, i: nat, size: nat)
    requires total <= 8 * |s| && size > 0
    ensures BytesFree(s, total, i * PAGE, size) <==> RunFree(s, total, i, Needed(size))
  {
    if BytesFree(s, total, i * PAGE, size) {
      forall j: nat | i <= j < i + Needed(size)
        ensures PageFree(s, total, j)
      {
        TouchedPages(i, size, j);
        assert (j * PAGE) / PAGE == j;
      }
    }
    if RunFree(s, total, i, Needed(size)) {
      forall x: nat | i * PAGE <= x < i * PAGE + size
        ensures PageFree(s, total, x / PAGE)
      {
        TouchedPages(i, size, x / PAGE);
      }
    }
  }

  /** An address a multiple of the alignment is a page a multiple of it in pages. */
  lemma AlignedPage(i: nat, alignment: nat)
    requires alignment > 0 && IsPow2(alignment)
    ensures (i * PAGE) % alignment == 0 <==> i % AlignPages(alignment) == 0
  {
    Pow2Test(alignment);
    if i % AlignPages(alignment) == 0 {
      AlignedAddress(i, alignment);
    } else {
      AlignPagesPow2(alignment);
      NotAligned(i, AlignPages(alignment));
    }
  }

  lemma NotAligned(i: nat, a: nat)
    requires a > 0 && i % a != 0
    ensures (i * PAGE) % (a * PAGE) != 0
  {
    var q, r := i / a, i % a;
    DivModIs(i, a);
    assert i * PAGE == q * (a * PAGE) + r * PAGE by {
      MulAssoc(q, a, PAGE);
      Distribute(q * a, r, PAGE);
    }
    DivModUnique(i * PAGE, a * PAGE, q, r * PAGE);
  }

  lemma RunInMemory(s: seq<byte>, total: nat, i: nat, n: nat)
    requires total <= 8 * |s| && n > 0 && RunFree(s, total, i, n)
    ensures i + n <= total
  {
    assert PageFree(s, total, i + n - 1);
  }

  lemma SuitsIff(s: seq<byte>, total: nat, size: nat, alignment: nat, i: nat)
    requires total <= 8 * |s| && size > 0 && (alignment > 0 ==> IsPow2(alignment))
    ensures Suits(s, total, size, alignment, i * PAGE) <==> Candidate(s, total, Needed(size), AlignPages(alignment), i)
  {
    BytesFreeIff(s, total, i, size);
    NeededPositive(size);
    MulMod(i, PAGE);
    if alignment > 0 { AlignedPage(i, alignment); }
    if RunFree(s, total, i, Needed(size)) { RunInMemory(s, total, i, Needed(size)); }
  }

  /** No address below addr suits. */
  ghost predicate NoneBelow(s: seq<byte>, total: nat, size: nat, alignment: nat, addr: nat)
    requires total <= 8 * |s|
  {
    forall a: nat {:trigger Suits(s, total, size, alignment, a)} :: a < addr ==> !Suits(s, total, size, alignment, a)
  }

  /** Which requests are refused, on any bitmap. */
  ghost predicate Refused(bitmapAddr: nat, s: seq<byte>, total: nat, size: nat, alignment: nat)
    requires total <= 8 * |s|
  {
    || bitmapAddr == 0 || size == 0 || (alignment > 0 && !IsPow2(alignment))
    || forall a: nat {:trigger Suits(s, total, size, alignment, a)} :: !Suits(s, total, size, alignment, a)
  }

  /** The least address that suits, and the pages with a byte of the range marked. */
  ghost predicate Granted(s: seq<byte>, t: seq<byte>, total: nat, size: nat, alignment: nat, addr: nat)
    requires total <= 8 * |s|
  {
    && Suits(s, total, size, alignment, addr) && NoneBelow(s, total, size, alignment, addr) && |t| == |s|
    && forall j: nat :: j < 8 * |s| ==> (Used(t, j) <==> Used(s, j) || Touches(addr, size, j))
  }

  /** Exact first fit in bytes. A request is refused, with nothing changed, without a
      bitmap, for no bytes, for an alignment that is no power of two, or when no address
      suits; otherwise it is granted the least address that does. */
  lemma AnswerInBytes(bitmapAddr: nat, s: seq<byte>, total: nat, size: nat, alignment: nat)
    requires total <= 8 * |s|
    ensures var (addr, t) := Answer(bitmapAddr, s, total, size, alignment);
      (Refused(bitmapAddr, s, total, size, alignment) ==> addr == 0 && t == s) &&
      (!Refused(bitmapAddr, s, total, size, alignment) ==> Granted(s, t, total, size, alignment, addr))
  {
    if alignment > 0 { Pow2Test(alignment); }
    if bitmapAddr != 0 && GoodRequest(size, alignment) {
      match AllocRun(s, total, size, alignment)
      case At(i) => FoundSuits(s, total, size, alignment, i);
      case Nowhere => NothingSuits(s, total, size, alignment);
    }
  }

  lemma FoundSuits(s: seq<byte>, total: nat, size: nat, alignment: nat, i: nat)
    requires total <= 8 * |s| && GoodRequest(size, alignment) && AllocRun(s, total, size, alignment) == At(i)
    ensures Suits(s, total, size, alignment, i * PAGE) && NoneBelow(s, total, size, alignment, i * PAGE)
    ensures forall j: nat :: j < 8 * |s| ==>
      (Used(AllocBits(s, total, size, alignment), j) <==> Used(s, j) || Touches(i * PAGE, size, j))
  {
    if alignment > 0 { Pow2Test(alignment); }
    SuitsIff(s, total, size, alignment, i);
    forall a: nat | a < i * PAGE
      ensures !Suits(s, total, size, alignment, a)
    {
      if a % PAGE == 0 { SuitsIff(s, total, size, alignment, a / PAGE); }
    }
    MarkPagesEffect(s, total, i, Needed(size), true);
    forall j: nat | j < 8 * |s|
      ensures Touches(i * PAGE, size, j) <==> i <= j < i + Needed(size) && j < total
    {
      TouchedPages(i, size, j);
    }
  }

  lemma NothingSuits(s: seq<byte>, total: nat, size: nat, alignment: nat)
    requires total <= 8 * |s| && GoodRequest(size, alignment) && AllocRun(s, total, size, alignment) == Nowhere
    ensures forall a: nat {:trigger Suits(s, total, size, alignment, a)} :: !Suits(s, total, size, alignment, a)
  {
    if alignment > 0 { Pow2Test(alignment); }
    forall a: nat
      ensures !Suits(s, total, size, alignment, a)
    {
      if a % PAGE == 0 { SuitsIff(s, total, size, alignment, a / PAGE); }
    }
  }

  /** A free clears the pages of memory that have a byte of the range, counted from the
      start of the first page; nothing for address or size 0, or a size whose rounding
      up wraps. */
  lemma FreeInBytes(s: seq<byte>, total: nat, addr: nat, size: nat)
    requires total <= 8 * |s| && size < WORD
    ensures |FreeBits(s, total, addr, size)| == |s|
    ensures forall j: nat :: j < 8 * |s| ==>
      (Used(FreeBits(s, total, addr, size), j) <==>
        (Used(s, j) && !(addr > 0 && 0 < size <= WORD - PAGE && j < total && Touches(addr - addr % PAGE, size, j))))
  {
    var i := addr / PAGE;
    assert addr - addr % PAGE == i * PAGE;
    MarkPagesEffect(s, total, i, PageCount(size), false);
    if size > 0 {
      CountIs(size);
      forall j: nat
        ensures Touches(i * PAGE, size, j) <==> i <= j < i + Needed(size)
      {
        TouchedPages(i, size, j);
      }
    }
  }

  lemma CountIs(size: nat)
    requires 0 < size < WORD
    ensures PageCount(size) == if size <= WORD - PAGE then Needed(size) else 0
  {
  }

  /** What is held after any run from any bitmap: each range is aligned as asked, no two ranges share a byte, and each
      byte of a range lies below the end of memory, in a page that was free at the start
      and is in use now. */
  lemma HeldInBytes(total: nat, s0: seq<byte>, rs: seq<Request>, a: nat)
    requires total <= 8 * |s0| && total * PAGE < WORD && LegalRun(total, Pages(s0, map[]), rs)
    requires a in Run(total, Pages(s0, map[]), rs).held
    ensures var st := Run(total, Pages(s0, map[]), rs); var size := st.held[a].size;
      && (forall b :: b in st.held && b != a ==> a + size <= b || b + st.held[b].size <= a)
      && |st.bits| == |s0| && a % PAGE == 0 && (st.held[a].alignment > 0 ==> a % st.held[a].alignment == 0)
      && forall x: nat {:trigger x / PAGE} :: a <= x < a + size ==>
           x < total * PAGE && PageFree(s0, total, x / PAGE) && Used(st.bits, x / PAGE)
  {
    var st := Run(total, Pages(s0, map[]), rs);
    StartInvariant(total, s0);
    var n := RunKeeps(total, s0, Pages(s0, map[]), rs);
    var s1 := MarkPages(s0, total, 0, n, true);
    MarkPagesEffect(s0, total, 0, n, true);
    assert WellGranted(total, a, st.held[a]);
    forall b | b in st.held && b != a
      ensures a + st.held[a].size <= b || b + st.held[b].size <= a
    {
      GrantsApart(total, s1, st, a, b);
    }
    forall x: nat | a <= x < a + st.held[a].size
      ensures x < total * PAGE && PageFree(s0, total, x / PAGE) && Used(st.bits, x / PAGE)
    {
      ByteHeld(total, s1, st, a, x);
    }
  }

  /** Some held range has a byte in page j. */
  ghost predicate Occupied(held: map<nat, Grant>, j: nat) {
    exists a :: a in held && Touches(a, held[a].size, j)
  }

  /** And the marks after any run: the pages used at the start, those with a byte that
      is held, and the n lost to the request, if any, that was granted page 0. */
  lemma MarksInBytes(total: nat, s0: seq<byte>, rs: seq<Request>) returns (n: nat)
    requires total <= 8 * |s0| && total * PAGE < WORD && LegalRun(total, Pages(s0, map[]), rs)
    ensures var st := Run(total, Pages(s0, map[]), rs);
      |st.bits| == |s0| && forall j: nat {:trigger Used(st.bits, j)} :: j < 8 * |s0| ==>
        (Used(st.bits, j) <==> Used(s0, j) || Occupied(st.held, j) || j < n)
    ensures forall j: nat :: j < n ==> PageFree(s0, total, j)
    ensures n > 0 ==> exists k :: 0 <= k < |rs| && rs[k].Alloc? && (n - 1) * PAGE < rs[k].size <= n * PAGE
  {
    var st := Run(total, Pages(s0, map[]), rs);
    StartInvariant(total, s0);
    n := RunKeeps(total, s0, Pages(s0, map[]), rs);
    MarkPagesEffect(s0, total, 0, n, true);
    forall j: nat | j < 8 * |s0|
      ensures Held(st.held, j) <==> Occupied(st.held, j)
    {
      HeldIsOccupied(total, MarkPages(s0, total, 0, n, true), st, j);
    }
    if n > 0 {
      var k :| 0 <= k < |rs| && rs[k].Alloc? && n == Needed(rs[k].size);
      NeededIs(rs[k].size);
    }
  }

  lemma HeldIsOccupied(total: nat, s0: seq<byte>, st: Pages, j: nat)
    requires Invariant(total, s0, st)
    ensures Held(st.held, j) <==> Occupied(st.held, j)
  {
    forall a | a in st.held
      ensures Covers(a, st.held[a], j) <==> Touches(a, st.held[a].size, j)
    {
      assert WellGranted(total, a, st.held[a]);
      TouchedPages(a / PAGE, st.held[a].size, j);
    }
  }

  lemma GrantsApart(total: nat, s0: seq<byte>, st: Pages, a: nat, b: nat)
    requires Invariant(total, s0, st) && a in st.held && b in st.held && a != b
    ensures a + st.held[a].size <= b || b + st.held[b].size <= a
  {
    assert WellGranted(total, a, st.held[a]) && WellGranted(total, b, st.held[b]);
    var j := (if a < b then b else a) / PAGE;
    NeededPositive(st.held[a].size);
    NeededPositive(st.held[b].size);
    assert !(Covers(a, st.held[a], j) && Covers(b, st.held[b], j));
    NeededIs(st.held[a].size);
    NeededIs(st.held[b].size);
  }

  lemma ByteHeld(total: nat, s0: seq<byte>, st: Pages, a: nat, x: nat)
    requires Invariant(total, s0, st) && a in st.held && a <= x < a + st.held[a].size
    ensures x < total * PAGE && PageFree(s0, total, x / PAGE) && Used(st.bits, x / PAGE)
  {
    assert WellGranted(total, a, st.held[a]);
    TouchedPages(a / PAGE, st.held[a].size, x / PAGE);
    assert Covers(a, st.held[a], x / PAGE);
    assert Held(st.held, x / PAGE);
  }
}
