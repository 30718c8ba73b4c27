/** The kernel heap: a first-fit allocator whose doubly linked block list lives
    inside the pool it hands out (src/drivers/misc/memory.c). */
module KernelHeap {
  import Bits
  import RawMemory

  const MEMORY_POOL_SIZE: nat := 1024 * 1024

  type HeaderBytes = n: nat | 0 < n < 1024 witness 32
  type PoolAddress = n: nat | 0 < n <= Bits.WORD - MEMORY_POOL_SIZE witness 1

  // sizeof(memory_block_t): 16 on x86, 32 on x86_64. Left symbolic.
  const HEADER_SIZE: HeaderBytes
  // Where the linker puts the pool. Left symbolic: not NULL, and all of it in a
  // 64-bit address space.
  const POOL_BASE: PoolAddress
  const POOL_END: nat := POOL_BASE + MEMORY_POOL_SIZE
  const NULL: int := 0

  // ----- Memory: header records and payload bytes share the same addresses -----

  datatype Header = Header(size: nat, next: int, prev: int, free: bool)

  /** A header record stays readable only as long as nothing overlapping it is
      written, and a byte only as long as no header is written over it. */
  datatype Memory = Memory(headers: map<int, Header>, bytes: map<int, int>)

  function PutHeader(m: Memory, a: int, h: Header): Memory {
    Memory((map b | b in m.headers && (b + HEADER_SIZE <= a || a + HEADER_SIZE <= b) :: m.headers[b])[a := h],
           map x | x in m.bytes && !(a <= x < a + HEADER_SIZE) :: m.bytes[x])
  }

  function PutByte(m: Memory, x: int, v: int): Memory {
    Memory(map b | b in m.headers && !(b <= x < b + HEADER_SIZE) :: m.headers[b],
           m.bytes[x := v])
  }

  // ----- Layout: the block list as a sequence -----

  datatype Block = Block(addr: int, size: nat, free: bool) {
    function Start(): int { addr + HEADER_SIZE }
    function End(): int { addr + HEADER_SIZE + size }
  }

  function NextAddr(l: seq<Block>, i: nat): int
    requires i < |l|
  {
    if i + 1 < |l| then l[i + 1].addr else POOL_END
  }

  /** Blocks start at the pool base, in address order, none past its successor. */
  ghost predicate Chained(l: seq<Block>) {
    && |l| > 0
    && l[0].addr == POOL_BASE
    && forall i {:trigger NextAddr(l, i)} :: 0 <= i < |l| ==> l[i].End() <= NextAddr(l, i)
  }

  predicate BothFree(l: seq<Block>, i: nat)
    requires i + 1 < |l|
  {
    l[i].free && l[i + 1].free
  }

  /** No two neighbours are both free, except possibly a pair touching entry k. */
  ghost predicate CoalescedBut(l: seq<Block>, k: int) {
    forall i {:trigger BothFree(l, i)} :: 0 <= i < |l| - 1 && i != k && i + 1 != k ==> !BothFree(l, i)
  }

  ghost predicate WellFormed(l: seq<Block>) {
    Chained(l) && CoalescedBut(l, -1)
  }

  /** The header record that stands for entry i of the layout. */
  function HeaderOf(l: seq<Block>, i: nat): Header
    requires i < |l|
  {
    Header(l[i].size,
           if i + 1 < |l| then l[i + 1].addr else NULL,
           if i > 0 then l[i - 1].addr else NULL,
           l[i].free)
  }

  /** These header records are the block list l. */
  ghost predicate Describes(v: map<int, Header>, l: seq<Block>) {
    forall i {:trigger HeaderOf(l, i)} :: 0 <= i < |l| ==> l[i].addr in v && v[l[i].addr] == HeaderOf(l, i)
  }

  // ----- Specification of one operation -----

  predicate Fits(b: Block, size: nat) {
    b.free && b.size >= size
  }

  /** First index at or after `from` whose block fits; |l| when there is none. */
  function FirstFit(l: seq<Block>, size: nat, from: nat): (i: nat)
    requires from <= |l|
    ensures from <= i <= |l|
    ensures i < |l| ==> Fits(l[i], size)
    ensures forall j :: from <= j < i ==> !Fits(l[j], size)
    decreases |l| - from
  {
    if from == |l| then from
    else if Fits(l[from], size) then from
    else FirstFit(l, size, from + 1)
  }

  predicate Splits(b: Block, size: nat) {
    b.size > size + HEADER_SIZE
  }

  /** Entries i..j replaced by mid. */
  function Splice(l: seq<Block>, i: nat, j: nat, mid: seq<Block>): (r: seq<Block>)
    requires i <= j <= |l|
    ensures |r| == |l| - (j - i) + |mid|
    ensures forall k :: 0 <= k < i ==> r[k] == l[k]
    ensures forall k :: i <= k < i + |mid| ==> r[k] == mid[k - i]
    ensures forall k :: i + |mid| <= k < |r| ==> r[k] == l[k - |mid| + (j - i)]
  {
    l[..i] + mid + l[j..]
  }

  function Carve(l: seq<Block>, i: nat, size: nat): seq<Block>
    requires i < |l| && Fits(l[i], size)
  {
    var taken := Block(l[i].addr, size, false);
    if Splits(l[i], size) then
      Splice(l, i, i + 1, [taken, Block(taken.End(), l[i].size - size - HEADER_SIZE, true)])
    else
      Splice(l, i, i + 1, [taken])
  }

  function AllocLayout(l: seq<Block>, size: nat): seq<Block> {
    var i := FirstFit(l, size, 0);
    if size == 0 || i == |l| then l else Carve(l, i, size)
  }

  function AllocResult(l: seq<Block>, size: nat): int {
    var i := FirstFit(l, size, 0);
    if size == 0 || i == |l| then NULL else l[i].Start()
  }

  function Joined(b: Block, c: Block): Block {
    Block(b.addr, b.size + HEADER_SIZE + c.size, b.free)
  }

  /** Join entries i and i + 1: the survivor absorbs the other's header and size. */
  function Absorb(l: seq<Block>, i: nat): seq<Block>
    requires i + 1 < |l|
  {
    Splice(l, i, i + 2, [Joined(l[i], l[i + 1])])
  }

  function MarkFree(l: seq<Block>, i: nat): seq<Block>
    requires i < |l|
  {
    Splice(l, i, i + 1, [l[i].(free := true)])
  }

  function AbsorbNext(l: seq<Block>, i: nat): seq<Block>
    requires i < |l|
  {
    if i + 1 < |l| && l[i + 1].free then Absorb(l, i) else l
  }

  function AbsorbIntoPrev(l: seq<Block>, i: nat): seq<Block>
    requires i < |l|
  {
    if i > 0 && l[i - 1].free then Absorb(l, i - 1) else l
  }

  function ReleaseAt(l: seq<Block>, i: nat): seq<Block>
    requires i < |l|
  {
    if l[i].free then l else AbsorbIntoPrev(AbsorbNext(MarkFree(l, i), i), i)
  }

  /** Index of the block whose payload starts at p; |l| when there is none. */
  function IndexOf(l: seq<Block>, p: int, from: nat): (i: nat)
    requires from <= |l|
    ensures from <= i <= |l|
    ensures i < |l| ==> l[i].Start() == p
    ensures forall j :: from <= j < i ==> l[j].Start() != p
    decreases |l| - from
  {
    if from == |l| || l[from].Start() == p then from else IndexOf(l, p, from + 1)
  }

  function ReleaseLayout(l: seq<Block>, p: int): seq<Block> {
    var i := IndexOf(l, p, 0);
    if i == |l| then l else ReleaseAt(l, i)
  }

  // ----- Shape of a well-formed layout -----

  lemma {:induction false} Ordered(l: seq<Block>, i: nat, j: nat)
    requires Chained(l) && i < j < |l|
    ensures POOL_BASE <= l[i].addr
    ensures l[i].End() <= l[j].addr
    ensures l[j].End() <= POOL_END
    decreases |l| - i, |l| - j
  {
    InPool(l, i);
    InPool(l, j);
    assert l[i].End() <= NextAddr(l, i);
    if i + 1 < j {
      Ordered(l, i + 1, j);
    }
  }

  lemma {:induction false} InPool(l: seq<Block>, i: nat)
    requires Chained(l) && i < |l|
    ensures POOL_BASE <= l[i].addr && l[i].End() <= POOL_END
  {
    AboveBase(l, i);
    BelowEnd(l, i);
  }

  lemma {:induction false} AboveBase(l: seq<Block>, i: nat)
    requires Chained(l) && i < |l|
    ensures POOL_BASE <= l[i].addr
  {
    if i > 0 {
      AboveBase(l, i - 1);
      assert l[i - 1].End() <= NextAddr(l, i - 1);
    }
  }

  lemma {:induction false} BelowEnd(l: seq<Block>, i: nat)
    requires Chained(l) && i < |l|
    ensures l[i].End() <= POOL_END
    decreases |l| - i
  {
    assert l[i].End() <= NextAddr(l, i);
    if i + 1 < |l| {
      BelowEnd(l, i + 1);
    }
  }

  // ----- Every call keeps the layout well formed -----

  lemma SpliceChained(l: seq<Block>, i: nat, j: nat, mid: seq<Block>)
    requires Chained(l) && i < j <= |l| && |mid| > 0
    requires mid[0].addr == l[i].addr
    requires forall k :: 0 <= k < |mid| - 1 ==> mid[k].End() <= mid[k + 1].addr
    requires mid[|mid| - 1].End() <= NextAddr(l, j - 1)
    ensures Chained(Splice(l, i, j, mid))
  {
    var r := Splice(l, i, j, mid);
    forall k | 0 <= k < |r|
      ensures r[k].End() <= NextAddr(r, k)
    {
      if k < i {
        assert l[k].End() <= NextAddr(l, k);
      } else if k >= i + |mid| {
        var k' := k - |mid| + (j - i);
        assert l[k'].End() <= NextAddr(l, k');
      }
    }
  }

  lemma CarveKeeps(l: seq<Block>, i: nat, size: nat)
    requires WellFormed(l) && i < |l| && Fits(l[i], size)
    ensures WellFormed(Carve(l, i, size))
  {
    var taken := Block(l[i].addr, size, false);
    var mid := if Splits(l[i], size)
               then [taken, Block(taken.End(), l[i].size - size - HEADER_SIZE, true)]
               else [taken];
    assert l[i].End() <= NextAddr(l, i);
    SpliceChained(l, i, i + 1, mid);
    var r := Splice(l, i, i + 1, mid);
    forall k | 0 <= k < |r| - 1
      ensures !BothFree(r, k)
    {
      if k < i {
        assert !BothFree(l, k);
      } else if k >= i + |mid| - 1 {
        assert !BothFree(l, k - |mid| + 1);
      }
    }
  }

  lemma MarkFreeKeeps(l: seq<Block>, i: nat)
    requires WellFormed(l) && i < |l|
    ensures Chained(MarkFree(l, i)) && CoalescedBut(MarkFree(l, i), i)
  {
    assert l[i].End() <= NextAddr(l, i);
    SpliceChained(l, i, i + 1, [l[i].(free := true)]);
    var r := MarkFree(l, i);
    forall k | 0 <= k < |r| - 1 && k != i && k + 1 != i
      ensures !BothFree(r, k)
    {
      assert !BothFree(l, k);
    }
  }

  lemma AbsorbKeeps(l: seq<Block>, i: nat, k: int)
    requires Chained(l) && CoalescedBut(l, k) && i + 1 < |l| && (k == i || k == i + 1)
    ensures Chained(Absorb(l, i)) && CoalescedBut(Absorb(l, i), i)
  {
    assert l[i].End() <= NextAddr(l, i) && l[i + 1].End() <= NextAddr(l, i + 1);
    SpliceChained(l, i, i + 2, [Joined(l[i], l[i + 1])]);
    var r := Absorb(l, i);
    forall j | 0 <= j < |r| - 1 && j != i && j + 1 != i
      ensures !BothFree(r, j)
    {
      if j < i {
        assert !BothFree(l, j);
      } else {
        assert !BothFree(l, j + 1);
      }
    }
  }

  lemma {:induction false} ReleaseKeeps(l: seq<Block>, i: nat)
    requires WellFormed(l) && i < |l| && !l[i].free
    ensures WellFormed(ReleaseAt(l, i))
  {
    var l1 := MarkFree(l, i);
    MarkFreeKeeps(l, i);
    var l2 := AbsorbNext(l1, i);
    if i + 1 < |l1| && l1[i + 1].free {
      AbsorbKeeps(l1, i, i);
      if i + 2 < |l| {
        assert !BothFree(l, i + 1);
      }
    }
    assert i + 1 < |l2| ==> !l2[i + 1].free;
    AbsorbIntoPrevKeeps(l, l2, i);
  }

  lemma AbsorbIntoPrevKeeps(l: seq<Block>, l2: seq<Block>, i: nat)
    requires WellFormed(l) && i < |l|
    requires Chained(l2) && CoalescedBut(l2, i) && i < |l2| && l2[..i] == l[..i]
    requires i + 1 < |l2| ==> !l2[i + 1].free
    ensures WellFormed(AbsorbIntoPrev(l2, i))
  {
    if i > 0 {
      assert l2[i - 1] == l2[..i][i - 1] == l[i - 1];
    }
    if i > 1 {
      assert l2[i - 2] == l2[..i][i - 2] == l[i - 2];
      assert !BothFree(l, i - 2);
    }
    if i > 0 && l2[i - 1].free {
      AbsorbKeeps(l2, i - 1, i);
    }
  }

  // ----- What the callers own -----

  /** The live allocations: payload address and requested size. */
  ghost function Live(l: seq<Block>): set<(int, nat)> {
    set i | 0 <= i < |l| && !l[i].free :: (l[i].Start(), l[i].size)
  }

  lemma LiveIndex(l: seq<Block>, a: (int, nat)) returns (i: nat)
    requires a in Live(l)
    ensures i < |l| && !l[i].free && a == (l[i].Start(), l[i].size)
  {
    i :| 0 <= i < |l| && !l[i].free && a == (l[i].Start(), l[i].size);
  }

  /** Live payloads are inside the pool and pairwise disjoint, with room for a
      header between them. */
  lemma LivePayloadsDisjoint(l: seq<Block>, a: (int, nat), b: (int, nat))
    requires WellFormed(l) && a in Live(l) && b in Live(l)
    ensures POOL_BASE + HEADER_SIZE <= a.0 && a.0 + a.1 <= POOL_END
    ensures a != b ==> a.0 + a.1 + HEADER_SIZE <= b.0 || b.0 + b.1 + HEADER_SIZE <= a.0
  {
    var i := LiveIndex(l, a);
    var j := LiveIndex(l, b);
    InPool(l, i);
    if i < j {
      Ordered(l, i, j);
    } else if j < i {
      Ordered(l, j, i);
    }
  }

  /** The live allocations of a splice, when mid and the part it replaces are known. */
  lemma SpliceLive(l: seq<Block>, i: nat, j: nat, mid: seq<Block>)
    requires i <= j <= |l|
    ensures Live(Splice(l, i, j, mid)) == Live(l[..i]) + Live(mid) + Live(l[j..])
    ensures Live(l) == Live(l[..i]) + Live(l[i..j]) + Live(l[j..])
  {
    LiveAppend(l[..i] + mid, l[j..]);
    LiveAppend(l[..i], mid);
    LiveAppend(l[..i] + l[i..j], l[j..]);
    LiveAppend(l[..i], l[i..j]);
    assert l[..i] + l[i..j] + l[j..] == l;
  }

  lemma LiveAppend(a: seq<Block>, b: seq<Block>)
    ensures Live(a + b) == Live(a) + Live(b)
  {
    forall x | x in Live(a)
      ensures x in Live(a + b)
    {
      var i := LiveIndex(a, x);
      assert (a + b)[i] == a[i];
    }
    forall x | x in Live(b)
      ensures x in Live(a + b)
    {
      var i := LiveIndex(b, x);
      assert (a + b)[|a| + i] == b[i];
    }
  }

  lemma CarveLive(l: seq<Block>, i: nat, size: nat)
    requires i < |l| && Fits(l[i], size)
    ensures Live(Carve(l, i, size)) == Live(l) + {(l[i].Start(), size)}
  {
    var taken := Block(l[i].addr, size, false);
    var mid := if Splits(l[i], size)
               then [taken, Block(taken.End(), l[i].size - size - HEADER_SIZE, true)]
               else [taken];
    SpliceLive(l, i, i + 1, mid);
    assert Live(l[i..i + 1]) == {};
    FirstLive(mid);
  }

  lemma FirstLive(mid: seq<Block>)
    requires mid != [] && !mid[0].free && forall k :: 1 <= k < |mid| ==> mid[k].free
    ensures Live(mid) == {(mid[0].Start(), mid[0].size)}
  {
    assert (mid[0].Start(), mid[0].size) in Live(mid);
  }

  lemma FreshResult(l: seq<Block>, i: nat, n: nat)
    requires WellFormed(l) && i < |l| && l[i].free
    ensures (l[i].Start(), n) !in Live(l)
  {
    forall j | 0 <= j < |l| && !l[j].free
      ensures l[j].Start() != l[i].Start()
    {
      if i < j { Ordered(l, i, j); } else { Ordered(l, j, i); }
    }
  }

  lemma AbsorbLive(l: seq<Block>, i: nat)
    requires i + 1 < |l| && l[i].free && l[i + 1].free
    ensures Live(Absorb(l, i)) == Live(l)
  {
    SpliceLive(l, i, i + 2, [Joined(l[i], l[i + 1])]);
    assert Live(l[i..i + 2]) == {};
    assert Live([Joined(l[i], l[i + 1])]) == {};
  }

  lemma MarkFreeLive(l: seq<Block>, i: nat)
    requires WellFormed(l) && i < |l| && !l[i].free
    ensures Live(MarkFree(l, i)) == Live(l) - {(l[i].Start(), l[i].size)}
  {
    var gone := (l[i].Start(), l[i].size);
    SpliceLive(l, i, i + 1, [l[i].(free := true)]);
    assert Live([l[i].(free := true)]) == {};
    assert l[i..i + 1][0] == l[i];
    assert gone in Live(l[i..i + 1]);
    assert Live(l[i..i + 1]) == {gone};
    forall j | 0 <= j < |l| && j != i
      ensures l[j].Start() != l[i].Start()
    {
      if i < j { Ordered(l, i, j); } else { Ordered(l, j, i); }
    }
    assert gone !in Live(l[..i]);
    assert gone !in Live(l[i + 1..]);
  }

  /** Coalescing changes neither the live set nor the slack. */
  lemma {:induction false} CoalesceNeutral(l: seq<Block>, i: nat)
    requires i < |l| && l[i].free
    ensures Live(AbsorbNext(l, i)) == Live(AbsorbIntoPrev(l, i)) == Live(l)
    ensures Slack(AbsorbNext(l, i)) == Slack(AbsorbIntoPrev(l, i)) == Slack(l)
  {
    if i + 1 < |l| && l[i + 1].free {
      AbsorbLive(l, i);
      AbsorbSlack(l, i);
    }
    if i > 0 && l[i - 1].free {
      AbsorbLive(l, i - 1);
      AbsorbSlack(l, i - 1);
    }
  }

  lemma {:induction false} ReleaseLive(l: seq<Block>, i: nat)
    requires WellFormed(l) && i < |l| && !l[i].free
    ensures Live(ReleaseAt(l, i)) == Live(l) - {(l[i].Start(), l[i].size)}
    ensures Slack(ReleaseAt(l, i)) == Slack(l)
  {
    MarkFreeLive(l, i);
    MarkFreeSlack(l, i);
    var l1 := MarkFree(l, i);
    CoalesceNeutral(l1, i);
    var l2 := AbsorbNext(l1, i);
    CoalesceNeutral(l2, i);
  }

  // ----- Conservation -----

  /** Bytes of the pool accounted for by headers and payload sizes. */
  function Accounted(l: seq<Block>): nat {
    if l == [] then 0 else Accounted(l[..|l| - 1]) + HEADER_SIZE + l[|l| - 1].size
  }

  lemma {:induction false} AccountedAppend(a: seq<Block>, b: seq<Block>)
    ensures Accounted(a + b) == Accounted(a) + Accounted(b)
  {
    if b == [] {
      assert a + b == a;
    } else {
      assert (a + b)[..|a + b| - 1] == a + b[..|b| - 1];
      AccountedAppend(a, b[..|b| - 1]);
    }
  }

  lemma AccountedSplice(l: seq<Block>, i: nat, j: nat, mid: seq<Block>)
    requires i <= j <= |l|
    ensures Accounted(Splice(l, i, j, mid)) == Accounted(l) - Accounted(l[i..j]) + Accounted(mid)
  {
    AccountedAppend(l[..i] + mid, l[j..]);
    AccountedAppend(l[..i], mid);
    AccountedAppend(l[..i] + l[i..j], l[j..]);
    AccountedAppend(l[..i], l[i..j]);
    assert l[..i] + l[i..j] + l[j..] == l;
  }

  lemma AccountedOne(b: Block)
    ensures Accounted([b]) == HEADER_SIZE + b.size
  {
    assert [b][..0] == [];
  }

  lemma AccountedTwo(b: Block, c: Block)
    ensures Accounted([b, c]) == 2 * HEADER_SIZE + b.size + c.size
  {
    AccountedOne(b);
    AccountedOne(c);
    AccountedAppend([b], [c]);
    assert [b] + [c] == [b, c];
  }

  /** Pool bytes in no block: the permanent gaps. */
  function Slack(l: seq<Block>): int {
    MEMORY_POOL_SIZE - Accounted(l)
  }

  /** Slack really is the total length of the gaps between consecutive blocks. */
  function Gaps(l: seq<Block>, n: nat): int
    requires n <= |l|
  {
    if n == 0 then 0 else Gaps(l, n - 1) + NextAddr(l, n - 1) - l[n - 1].End()
  }

  lemma {:induction false} GapsPrefix(l: seq<Block>, n: nat)
    requires WellFormed(l) && 0 < n <= |l|
    ensures Gaps(l, n) >= 0
    ensures Gaps(l, n) + Accounted(l[..n]) == NextAddr(l, n - 1) - POOL_BASE
  {
    assert l[..n][..n - 1] == l[..n - 1];
    if n > 1 {
      GapsPrefix(l, n - 1);
    } else {
      assert l[..0] == [];
    }
  }

  lemma SlackIsGaps(l: seq<Block>)
    requires WellFormed(l)
    ensures Slack(l) == Gaps(l, |l|) >= 0
  {
    GapsPrefix(l, |l|);
    assert l[..|l|] == l;
  }

  /** What one malloc adds to the slack. */
  function Waste(l: seq<Block>, size: nat): nat {
    var i := FirstFit(l, size, 0);
    if size == 0 || i == |l| || Splits(l[i], size) then 0 else l[i].size - size
  }

  lemma CutSlack(l: seq<Block>, i: nat, taken: Block)
    requires i < |l|
    ensures Slack(Splice(l, i, i + 1, [taken])) == Slack(l) + l[i].size - taken.size
  {
    AccountedOne(taken);
    AccountedOne(l[i]);
    assert l[i..i + 1] == [l[i]];
    AccountedSplice(l, i, i + 1, [taken]);
  }

  lemma SplitSlack(l: seq<Block>, i: nat, taken: Block, rest: Block)
    requires i < |l| && taken.size + HEADER_SIZE + rest.size == l[i].size
    ensures Slack(Splice(l, i, i + 1, [taken, rest])) == Slack(l)
  {
    AccountedTwo(taken, rest);
    AccountedOne(l[i]);
    assert l[i..i + 1] == [l[i]];
    AccountedSplice(l, i, i + 1, [taken, rest]);
  }

  lemma CarveSlack(l: seq<Block>, i: nat, size: nat)
    requires i < |l| && Fits(l[i], size)
    ensures Slack(Carve(l, i, size)) == Slack(l) + if Splits(l[i], size) then 0 else l[i].size - size
  {
    var taken := Block(l[i].addr, size, false);
    if Splits(l[i], size) {
      SplitSlack(l, i, taken, Block(taken.End(), l[i].size - size - HEADER_SIZE, true));
    } else {
      CutSlack(l, i, taken);
    }
  }

  lemma AllocSlack(l: seq<Block>, size: nat)
    ensures Slack(AllocLayout(l, size)) == Slack(l) + Waste(l, size)
    ensures Waste(l, size) <= HEADER_SIZE
  {
    var i := FirstFit(l, size, 0);
    if size != 0 && i < |l| {
      CarveSlack(l, i, size);
    }
  }

  lemma AbsorbSlack(l: seq<Block>, i: nat)
    requires i + 1 < |l|
    ensures Slack(Absorb(l, i)) == Slack(l)
  {
    AccountedOne(Joined(l[i], l[i + 1]));
    AccountedTwo(l[i], l[i + 1]);
    assert l[i..i + 2] == [l[i], l[i + 1]];
    AccountedSplice(l, i, i + 2, [Joined(l[i], l[i + 1])]);
  }

  lemma MarkFreeSlack(l: seq<Block>, i: nat)
    requires i < |l|
    ensures Slack(MarkFree(l, i)) == Slack(l)
  {
    CutSlack(l, i, l[i].(free := true));
  }

  // ----- Whole runs -----

  datatype Call = Malloc(size: nat) | Free(ptr: int)

  function Initial(): seq<Block> {
    [Block(POOL_BASE, MEMORY_POOL_SIZE - HEADER_SIZE, true)]
  }

  function After(l: seq<Block>, c: Call): seq<Block> {
    match c
    case Malloc(size) => AllocLayout(l, size)
    case Free(ptr) => ReleaseLayout(l, ptr)
  }

  /** Only NULL or the payload address of a live block may be freed. */
  ghost predicate Legal(l: seq<Block>, c: Call) {
    c.Free? ==> c.ptr == NULL || exists n: nat :: (c.ptr, n) in Live(l)
  }

  function Run(calls: seq<Call>): seq<Block> {
    if calls == [] then Initial() else After(Run(calls[..|calls| - 1]), calls[|calls| - 1])
  }

  ghost predicate LegalRun(calls: seq<Call>) {
    calls == [] || (LegalRun(calls[..|calls| - 1]) && Legal(Run(calls[..|calls| - 1]), calls[|calls| - 1]))
  }

  /** The callers' own book-keeping: what they were given and have not returned. */
  ghost function Outstanding(calls: seq<Call>): set<(int, nat)> {
    if calls == [] then {} else
    var before := Outstanding(calls[..|calls| - 1]);
    match calls[|calls| - 1]
    case Malloc(size) =>
      var p := AllocResult(Run(calls[..|calls| - 1]), size);
      if p == NULL then before else before + {(p, size)}
    case Free(ptr) => set a | a in before && a.0 != ptr
  }

  function CallWaste(l: seq<Block>, c: Call): nat {
    match c
    case Malloc(size) => Waste(l, size)
    case Free(_) => 0
  }

  function TotalWaste(calls: seq<Call>): nat {
    if calls == [] then 0 else
    TotalWaste(calls[..|calls| - 1]) + CallWaste(Run(calls[..|calls| - 1]), calls[|calls| - 1])
  }

  function Mallocs(calls: seq<Call>): nat {
    if calls == [] then 0 else
    Mallocs(calls[..|calls| - 1]) + if calls[|calls| - 1].Malloc? then 1 else 0
  }

  lemma NullIsNoBlock(l: seq<Block>)
    requires WellFormed(l)
    ensures IndexOf(l, NULL, 0) == |l|
  {
    var i := IndexOf(l, NULL, 0);
    if i < |l| {
      AboveBase(l, i);
      assert false;
    }
  }

  lemma UniqueStart(l: seq<Block>, i: nat)
    requires WellFormed(l) && i < |l|
    ensures IndexOf(l, l[i].Start(), 0) == i
  {
    var j := IndexOf(l, l[i].Start(), 0);
    if j < i { Ordered(l, j, i); }
  }

  /** No free block has the bytes asked for. */
  predicate NoneLarge(l: seq<Block>, size: nat) {
    forall i :: 0 <= i < |l| ==> !l[i].free || l[i].size < size
  }

  /** Block i is the first that is free and has the bytes asked for. */
  predicate FirstLarge(l: seq<Block>, size: nat, i: nat) {
    && i < |l| && l[i].free && l[i].size >= size
    && forall j :: 0 <= j < i ==> !l[j].free || l[j].size < size
  }

  /** malloc takes the first free block with the bytes asked for, one of exactly that
      size included. The block is cut, and what is behind the cut stays free, only if
      more than a header is left; then the list is as before but for that block. */
  lemma MallocTakes(l: seq<Block>, size: nat, i: nat)
    requires size > 0 && FirstLarge(l, size, i)
    ensures AllocResult(l, size) == l[i].addr + HEADER_SIZE
    ensures l[i].size <= size + HEADER_SIZE ==>
      AllocLayout(l, size) == l[..i] + [Block(l[i].addr, size, false)] + l[i + 1..]
    ensures l[i].size > size + HEADER_SIZE ==>
      AllocLayout(l, size) == l[..i] + [Block(l[i].addr, size, false),
        Block(l[i].addr + HEADER_SIZE + size, l[i].size - size - HEADER_SIZE, true)] + l[i + 1..]
  {
    FirstLargeIs(l, size, i);
    if l[i].size <= size + HEADER_SIZE { TakenWhole(l, size, i); } else { TakenInPart(l, size, i); }
  }

  lemma TakenWhole(l: seq<Block>, size: nat, i: nat)
    requires i < |l| && Fits(l[i], size) && l[i].size <= size + HEADER_SIZE
    ensures Carve(l, i, size) == l[..i] + [Block(l[i].addr, size, false)] + l[i + 1..]
  {
  }

  lemma TakenInPart(l: seq<Block>, size: nat, i: nat)
    requires i < |l| && Fits(l[i], size) && l[i].size > size + HEADER_SIZE
    ensures Carve(l, i, size) == l[..i] + [Block(l[i].addr, size, false),
      Block(l[i].addr + HEADER_SIZE + size, l[i].size - size - HEADER_SIZE, true)] + l[i + 1..]
  {
  }

  lemma FirstLargeIs(l: seq<Block>, size: nat, i: nat)
    requires FirstLarge(l, size, i)
    ensures FirstFit(l, size, 0) == i
  {
    var k := FirstFit(l, size, 0);
    assert Fits(l[i], size);
    assert l[k].free && l[k].size >= size;
  }

  /** The whole pool less one header can be had at once, and no more. */
  lemma WholePool(size: nat)
    ensures AllocResult(Initial(), size) ==
      if 0 < size <= MEMORY_POOL_SIZE - HEADER_SIZE then POOL_BASE + HEADER_SIZE else NULL
  {
  }

  /** Free block k has n bytes and starts no later than p. */
  predicate RoomBy(l: seq<Block>, k: nat, p: int, n: nat) {
    k < |l| && l[k].free && l[k].Start() <= p && n <= l[k].size
  }

  lemma NextRoom(l: seq<Block>, i: nat, p: int, n: nat)
    requires RoomBy(l, i, p, n)
    ensures RoomBy(AbsorbNext(l, i), i, p, n)
  {
  }

  lemma PrevRoom(l: seq<Block>, i: nat, p: int, n: nat) returns (k: nat)
    requires Chained(l) && RoomBy(l, i, p, n)
    ensures RoomBy(AbsorbIntoPrev(l, i), k, p, n)
  {
    k := if i > 0 && l[i - 1].free then i - 1 else i;
    if i > 0 { assert l[i - 1].End() <= NextAddr(l, i - 1); }
  }

  lemma ReleasedRoom(l: seq<Block>, i: nat) returns (k: nat)
    requires WellFormed(l) && i < |l| && !l[i].free
    ensures RoomBy(ReleaseAt(l, i), k, l[i].Start(), l[i].size)
  {
    var l1 := MarkFree(l, i);
    MarkFreeKeeps(l, i);
    NextRoom(l1, i, l[i].Start(), l[i].size);
    if i + 1 < |l1| && l1[i + 1].free { AbsorbKeeps(l1, i, i); }
    k := PrevRoom(AbsorbNext(l1, i), i, l[i].Start(), l[i].size);
  }

  /** Memory given back can be had again at once: the same size asked for next is
      granted, at the freed address or below it. */
  lemma FreedIsReusable(l: seq<Block>, p: int, n: nat)
    requires WellFormed(l) && (p, n) in Live(l) && n > 0
    ensures NULL < AllocResult(ReleaseLayout(l, p), n) <= p
  {
    var i := LiveIndex(l, (p, n));
    FreeLiveBlock(l, i);
    var r := ReleaseLayout(l, p);
    var k := ReleasedRoom(l, i);
    var j := FirstFit(r, n, 0);
    assert Fits(r[k], n);
    AboveBase(r, j);
    if j < k { Ordered(r, j, k); }
  }

  /** Freeing NULL, or a listed block that is free already, leaves the list alone. */
  lemma FreeNothing(l: seq<Block>, ptr: int)
    requires WellFormed(l)
    requires ptr == NULL || exists i :: 0 <= i < |l| && l[i].addr + HEADER_SIZE == ptr && l[i].free
    ensures ReleaseLayout(l, ptr) == l
  {
    if ptr == NULL {
      NullIsNoBlock(l);
    } else {
      var i :| 0 <= i < |l| && l[i].addr + HEADER_SIZE == ptr && l[i].free;
      UniqueStart(l, i);
    }
  }

  lemma MallocEffect(l: seq<Block>, size: nat)
    requires WellFormed(l)
    ensures WellFormed(AllocLayout(l, size))
    ensures var p := AllocResult(l, size);
      if p == NULL then AllocLayout(l, size) == l
      else Live(AllocLayout(l, size)) == Live(l) + {(p, size)} && forall n: nat :: (p, n) !in Live(l)
    ensures AllocResult(l, size) == NULL <==> size == 0 || NoneLarge(l, size)
  {
    var i := FirstFit(l, size, 0);
    if size != 0 && i < |l| {
      CarveKeeps(l, i, size);
      CarveLive(l, i, size);
      AboveBase(l, i);
      forall n: nat ensures (l[i].Start(), n) !in Live(l) {
        FreshResult(l, i, n);
      }
    }
  }

  lemma {:induction false} FreeLiveBlock(l: seq<Block>, i: nat)
    requires WellFormed(l) && i < |l| && !l[i].free
    ensures ReleaseLayout(l, l[i].Start()) == ReleaseAt(l, i)
    ensures WellFormed(ReleaseAt(l, i))
    ensures Live(ReleaseAt(l, i)) == set a | a in Live(l) && a.0 != l[i].Start()
  {
    var gone := (l[i].Start(), l[i].size);
    UniqueStart(l, i);
    ReleaseKeeps(l, i);
    ReleaseLive(l, i);
    IsLive(l, i);
    forall a | a in Live(l) && a != gone ensures a.0 != gone.0 {
      LivePayloadsDisjoint(l, a, gone);
    }
  }

  lemma {:induction false} FreeEffect(l: seq<Block>, ptr: int)
    requires WellFormed(l) && Legal(l, Free(ptr))
    ensures WellFormed(ReleaseLayout(l, ptr))
    ensures Live(ReleaseLayout(l, ptr)) == set a | a in Live(l) && a.0 != ptr
    ensures Slack(ReleaseLayout(l, ptr)) == Slack(l)
  {
    if ptr == NULL {
      NullIsNoBlock(l);
      forall a | a in Live(l) ensures a.0 != NULL {
        LivePayloadsDisjoint(l, a, a);
      }
    } else {
      var n: nat :| (ptr, n) in Live(l);
      var i := LiveIndex(l, (ptr, n));
      FreeLiveBlock(l, i);
      ReleaseLive(l, i);
    }
  }

  /** Safety over every legal run: the list is well formed and its live blocks are
      exactly what the callers hold. */
  lemma {:induction false} RunSafe(calls: seq<Call>)
    requires LegalRun(calls)
    ensures WellFormed(Run(calls))
    ensures Live(Run(calls)) == Outstanding(calls)
  {
    if calls == [] {
      assert Live(Initial()) == {};
    } else {
      var before := Run(calls[..|calls| - 1]);
      RunSafe(calls[..|calls| - 1]);
      match calls[|calls| - 1]
      case Malloc(size) => MallocEffect(before, size);
      case Free(ptr) => FreeEffect(before, ptr);
    }
  }

  lemma CallSlack(l: seq<Block>, c: Call)
    requires WellFormed(l) && Legal(l, c)
    ensures Slack(After(l, c)) == Slack(l) + CallWaste(l, c)
    ensures CallWaste(l, c) <= if c.Malloc? then HEADER_SIZE else 0
  {
    match c
    case Malloc(size) => AllocSlack(l, size);
    case Free(ptr) => FreeEffect(l, ptr);
  }

  /** Conservation over every legal run: blocks and headers plus the accumulated
      slack fill the pool, and each malloc adds at most one header of slack. */
  lemma {:induction false} RunConserves(calls: seq<Call>)
    requires LegalRun(calls)
    ensures Slack(Run(calls)) == TotalWaste(calls) <= Mallocs(calls) * HEADER_SIZE
  {
    if calls == [] {
      AccountedOne(Initial()[0]);
    } else {
      var prefix := calls[..|calls| - 1];
      RunConserves(prefix);
      RunSafe(prefix);
      CallSlack(Run(prefix), calls[|calls| - 1]);
      assert Run(calls) == After(Run(prefix), calls[|calls| - 1]);
      MallocsStep(calls);
    }
  }

  lemma {:induction false} MallocsStep(calls: seq<Call>)
    requires calls != []
    ensures Mallocs(calls) * HEADER_SIZE ==
      Mallocs(calls[..|calls| - 1]) * HEADER_SIZE + if calls[|calls| - 1].Malloc? then HEADER_SIZE else 0
  {
    Bits.Distribute(Mallocs(calls[..|calls| - 1]), if calls[|calls| - 1].Malloc? then 1 else 0, HEADER_SIZE);
  }

  lemma IsLive(l: seq<Block>, i: nat)
    requires i < |l| && !l[i].free
    ensures (l[i].Start(), l[i].size) in Live(l)
  {
  }

  lemma SomeoneHolds(l: seq<Block>)
    requires WellFormed(l) && |l| > 1
    ensures Live(l) != {}
  {
    assert !BothFree(l, 0);
    IsLive(l, if l[0].free then 1 else 0);
  }

  /** No run leaves two neighbours free, so once everything handed out has been
      freed the list is one block covering all but the accumulated slack. */
  lemma {:induction false} EverythingFreed(calls: seq<Call>)
    requires LegalRun(calls)
    requires Outstanding(calls) == {}
    ensures TotalWaste(calls) + HEADER_SIZE <= MEMORY_POOL_SIZE
    ensures Run(calls) == SingleFree(TotalWaste(calls))
  {
    RunSafe(calls);
    RunConserves(calls);
    NothingLive(Run(calls));
  }

  /** One free block spanning the pool but for `slack` bytes at its end. */
  function SingleFree(slack: nat): seq<Block>
    requires slack + HEADER_SIZE <= MEMORY_POOL_SIZE
  {
    [Block(POOL_BASE, MEMORY_POOL_SIZE - HEADER_SIZE - slack, true)]
  }

  lemma NothingLive(l: seq<Block>)
    requires WellFormed(l) && Live(l) == {}
    ensures 0 <= Slack(l) <= MEMORY_POOL_SIZE - HEADER_SIZE
    ensures l == SingleFree(Slack(l))
  {
    SlackIsGaps(l);
    if |l| > 1 {
      SomeoneHolds(l);
    } else {
      if !l[0].free {
        IsLive(l, 0);
      }
      assert l == [l[0]];
      AccountedOne(l[0]);
    }
  }

  // ----- From memory to layout: what the header writes do -----

  ghost function Heads(l: seq<Block>): set<int> {
    set i | 0 <= i < |l| :: l[i].addr
  }

  /** Header records at these addresses do not overlap. */
  ghost predicate Apart(s: set<int>) {
    forall a, b :: a in s && b in s && a != b ==> a + HEADER_SIZE <= b || b + HEADER_SIZE <= a
  }

  lemma HeadsApart(l: seq<Block>)
    requires Chained(l)
    ensures Apart(Heads(l))
    ensures forall i, j :: 0 <= i < j < |l| ==> l[i].addr < l[j].addr
    ensures NULL !in Heads(l)
  {
    forall i, j | 0 <= i < j < |l|
      ensures l[i].addr + HEADER_SIZE <= l[j].addr
    {
      Ordered(l, i, j);
    }
    forall i | 0 <= i < |l| ensures l[i].addr != NULL {
      AboveBase(l, i);
    }
  }

  /** On s, memory m holds exactly the records of v. */
  ghost predicate Agree(m: Memory, v: map<int, Header>, s: set<int>) {
    forall b :: b in s ==> (b in m.headers <==> b in v) && (b in v ==> m.headers[b] == v[b])
  }

  /** On a set of non-overlapping records, a header write is a plain update. */
  lemma PutAgrees(m: Memory, v: map<int, Header>, s: set<int>, a: int, h: Header)
    requires Apart(s) && a in s && Agree(m, v, s)
    ensures Agree(PutHeader(m, a, h), v[a := h], s)
  {
  }

  lemma EntryAt(v: map<int, Header>, l: seq<Block>, i: nat)
    requires Describes(v, l) && i < |l|
    ensures l[i].addr in v && v[l[i].addr] == HeaderOf(l, i)
  {
    var _ := HeaderOf(l, i);
  }

  lemma AgreeDescribes(m: Memory, v: map<int, Header>, s: set<int>, l: seq<Block>)
    requires Agree(m, v, s) && Describes(v, l) && Heads(l) <= s
    ensures Describes(m.headers, l)
  {
    forall i | 0 <= i < |l|
      ensures l[i].addr in m.headers && m.headers[l[i].addr] == HeaderOf(l, i)
    {
      EntryAt(v, l, i);
      assert l[i].addr in Heads(l);
    }
  }

  function Remainder(h: Header, a: int, size: nat): Header
    requires h.size > size + HEADER_SIZE
  {
    Header(h.size - size - HEADER_SIZE, h.next, a, true)
  }

  /** The new header behind a split block (lines 38-42) and the back link of the
      old successor (43-44). */
  function SplitOff(m: Memory, a: int, size: nat): Memory
    requires a in m.headers && m.headers[a].size > size + HEADER_SIZE
  {
    var split := a + HEADER_SIZE + size;
    SetPrev(PutHeader(m, split, Remainder(m.headers[a], a, size)), m.headers[a].next, split)
  }

  /** A splitting malloc: split off the rest, then the block itself (45, 47-48). */
  function SplitWrites(m: Memory, a: int, size: nat): Memory
    requires a in m.headers && m.headers[a].size > size + HEADER_SIZE
  {
    PutHeader(SplitOff(m, a, size), a, Header(size, a + HEADER_SIZE + size, m.headers[a].prev, false))
  }

  /** `if (b) b->prev = to` */
  function SetPrev(m: Memory, b: int, to: int): Memory {
    if b != NULL && b in m.headers then PutHeader(m, b, m.headers[b].(prev := to)) else m
  }

  function SetPrevMap(v: map<int, Header>, b: int, to: int): map<int, Header> {
    if b != NULL && b in v then v[b := v[b].(prev := to)] else v
  }

  lemma SetPrevAgrees(m: Memory, v: map<int, Header>, s: set<int>, b: int, to: int)
    requires Apart(s) && b in s + {NULL} && Agree(m, v, s)
    ensures Agree(SetPrev(m, b, to), SetPrevMap(v, b, to), s)
  {
    if b != NULL && b in m.headers {
      PutAgrees(m, v, s, b, m.headers[b].(prev := to));
    }
  }

  function SplitOffMap(v: map<int, Header>, a: int, size: nat): map<int, Header>
    requires a in v && v[a].size > size + HEADER_SIZE
  {
    var split := a + HEADER_SIZE + size;
    SetPrevMap(v[split := Remainder(v[a], a, size)], v[a].next, split)
  }

  function SplitMap(v: map<int, Header>, a: int, size: nat): map<int, Header>
    requires a in v && v[a].size > size + HEADER_SIZE
  {
    SplitOffMap(v, a, size)[a := Header(size, a + HEADER_SIZE + size, v[a].prev, false)]
  }

  lemma SplitOffAgrees(m: Memory, s: set<int>, a: int, size: nat)
    requires Apart(s)
    requires a in s && a in m.headers && m.headers[a].size > size + HEADER_SIZE
    requires a + HEADER_SIZE + size in s
    requires m.headers[a].next in s + {NULL}
    ensures Agree(SplitOff(m, a, size), SplitOffMap(m.headers, a, size), s)
  {
    var split := a + HEADER_SIZE + size;
    var h1 := Remainder(m.headers[a], a, size);
    PutAgrees(m, m.headers, s, split, h1);
    SetPrevAgrees(PutHeader(m, split, h1), m.headers[split := h1], s, m.headers[a].next, split);
  }

  lemma SplitAgrees(m: Memory, s: set<int>, a: int, size: nat)
    requires Apart(s)
    requires a in s && a in m.headers && m.headers[a].size > size + HEADER_SIZE
    requires a + HEADER_SIZE + size in s
    requires m.headers[a].next in s + {NULL}
    ensures Agree(SplitWrites(m, a, size), SplitMap(m.headers, a, size), s)
  {
    SplitOffAgrees(m, s, a, size);
    PutAgrees(SplitOff(m, a, size), SplitOffMap(m.headers, a, size), s, a,
              Header(size, a + HEADER_SIZE + size, m.headers[a].prev, false));
  }

  /** r is l with entry i cut to `size` and a free remainder after it. */
  ghost predicate IsSplit(l: seq<Block>, r: seq<Block>, i: nat, size: nat) {
    && i < |l| && l[i].size > size + HEADER_SIZE
    && |r| == |l| + 1
    && (forall k :: 0 <= k < i ==> r[k] == l[k])
    && r[i] == Block(l[i].addr, size, false)
    && r[i + 1] == Block(r[i].End(), l[i].size - size - HEADER_SIZE, true)
    && (forall k :: i + 2 <= k < |r| ==> r[k] == l[k - 1])
  }

  lemma SplitDescribes(v: map<int, Header>, l: seq<Block>, r: seq<Block>, i: nat, size: nat)
    requires Describes(v, l)
    requires IsSplit(l, r, i, size) && Chained(r)
    requires l[i].addr in v && v[l[i].addr] == HeaderOf(l, i)
    ensures Describes(SplitMap(v, l[i].addr, size), r)
  {
    HeadsApart(r);
    assert r[i + 1].addr in Heads(r);
    var v' := SplitMap(v, l[i].addr, size);
    forall k | 0 <= k < |r|
      ensures r[k].addr in v' && v'[r[k].addr] == HeaderOf(r, k)
    {
      if k < i {
        EntryAt(v, l, k);
        assert r[k].addr < r[i].addr < r[i + 1].addr;
        assert v'[r[k].addr] == HeaderOf(r, k);
      } else if k == i {
        assert v'[r[k].addr] == HeaderOf(r, k);
      } else if k == i + 1 {
        assert r[i].addr < r[i + 1].addr;
        assert v'[r[k].addr] == HeaderOf(r, k);
      } else if k == i + 2 {
        EntryAt(v, l, k - 1);
        assert r[i].addr < r[i + 1].addr < r[k].addr;
        assert v'[r[k].addr] == HeaderOf(r, k);
      } else if k > i + 2 {
        EntryAt(v, l, k - 1);
        assert r[i].addr < r[i + 1].addr < r[i + 2].addr < r[k].addr;
        assert r[k - 1] == l[k - 2];
        assert v'[r[k].addr] == v[l[k - 1].addr];
        assert v'[r[k].addr] == HeaderOf(r, k);
      }
    }
  }

  lemma CarveIsSplit(l: seq<Block>, i: nat, size: nat)
    requires i < |l| && Fits(l[i], size) && Splits(l[i], size)
    ensures IsSplit(l, Carve(l, i, size), i, size)
  {
    var taken := Block(l[i].addr, size, false);
    SpliceIsSplit(l, Carve(l, i, size), i, taken, Block(taken.End(), l[i].size - size - HEADER_SIZE, true));
  }

  lemma SpliceIsSplit(l: seq<Block>, r: seq<Block>, i: nat, taken: Block, rest: Block)
    requires i < |l| && taken == Block(l[i].addr, taken.size, false) && l[i].size > taken.size + HEADER_SIZE
    requires rest == Block(taken.End(), l[i].size - taken.size - HEADER_SIZE, true)
    requires r == Splice(l, i, i + 1, [taken, rest])
    ensures IsSplit(l, r, i, taken.size)
  {
  }

  lemma SplitSound(m: Memory, l: seq<Block>, i: nat, size: nat)
    requires WellFormed(l) && Describes(m.headers, l)
    requires i < |l| && Fits(l[i], size) && Splits(l[i], size)
    requires l[i].addr in m.headers && m.headers[l[i].addr] == HeaderOf(l, i)
    ensures Describes(SplitWrites(m, l[i].addr, size).headers, Carve(l, i, size))
    ensures PayloadsKept(m, SplitWrites(m, l[i].addr, size), Carve(l, i, size))
  {
    var r := Carve(l, i, size);
    CarveKeeps(l, i, size);
    CarveIsSplit(l, i, size);
    HeadsApart(r);
    var s := Heads(r);
    assert r[i].addr in s && r[i + 1].addr in s;
    if i + 1 < |l| { assert r[i + 2].addr in s; }
    SplitAgrees(m, s, l[i].addr, size);
    SplitDescribes(m.headers, l, r, i, size);
    AgreeDescribes(SplitWrites(m, l[i].addr, size), SplitMap(m.headers, l[i].addr, size), s, r);
    SplitSpares(m, r, i, size);
  }

  /** Same bytes on every payload of l that is live. */
  ghost predicate PayloadsKept(m: Memory, m': Memory, l: seq<Block>) {
    forall i, x :: 0 <= i < |l| && !l[i].free && l[i].Start() <= x < l[i].End() ==> SameByte(m, m', x)
  }

  ghost predicate SameByte(m: Memory, m': Memory, x: int) {
    (x in m.bytes <==> x in m'.bytes) && (x in m.bytes ==> m.bytes[x] == m'.bytes[x])
  }

  /** Headers written at entries of the list touch no payload of the list. */
  lemma HeaderWriteSpares(m: Memory, l: seq<Block>, a: int, h: Header)
    requires Chained(l) && a in Heads(l)
    ensures PayloadsKept(m, PutHeader(m, a, h), l)
  {
    var k :| 0 <= k < |l| && l[k].addr == a;
    forall i, x | 0 <= i < |l| && !l[i].free && l[i].Start() <= x < l[i].End()
      ensures SameByte(m, PutHeader(m, a, h), x)
    {
      if i < k { Ordered(l, i, k); } else if k < i { Ordered(l, k, i); }
    }
  }

  lemma KeptTrans(m: Memory, m1: Memory, m2: Memory, l: seq<Block>)
    requires PayloadsKept(m, m1, l) && PayloadsKept(m1, m2, l)
    ensures PayloadsKept(m, m2, l)
  {
    forall i, x | 0 <= i < |l| && !l[i].free && l[i].Start() <= x < l[i].End()
      ensures SameByte(m, m2, x)
    {
      assert SameByte(m, m1, x) && SameByte(m1, m2, x);
    }
  }

  lemma SetPrevSpares(m: Memory, l: seq<Block>, b: int, to: int)
    requires Chained(l) && b in Heads(l) + {NULL}
    ensures PayloadsKept(m, SetPrev(m, b, to), l)
  {
    if b != NULL && b in m.headers {
      HeaderWriteSpares(m, l, b, m.headers[b].(prev := to));
    }
  }

  lemma SplitSpares(m: Memory, r: seq<Block>, i: nat, size: nat)
    requires Chained(r) && i + 1 < |r|
    requires r[i].addr in m.headers && m.headers[r[i].addr].size > size + HEADER_SIZE
    requires r[i + 1].addr == r[i].addr + HEADER_SIZE + size
    requires m.headers[r[i].addr].next in Heads(r) + {NULL}
    ensures PayloadsKept(m, SplitWrites(m, r[i].addr, size), r)
  {
    var a, split := r[i].addr, r[i + 1].addr;
    var h1 := Remainder(m.headers[a], a, size);
    assert a in Heads(r) && split in Heads(r);
    HeaderWriteSpares(m, r, split, h1);
    SetPrevSpares(PutHeader(m, split, h1), r, m.headers[a].next, split);
    KeptTrans(m, PutHeader(m, split, h1), SplitOff(m, a, size), r);
    HeaderWriteSpares(SplitOff(m, a, size), r, a, Header(size, split, m.headers[a].prev, false));
    KeptTrans(m, SplitOff(m, a, size), SplitWrites(m, a, size), r);
  }

  // ----- Edits that keep the block addresses -----

  ghost predicate SameAddrs(l: seq<Block>, r: seq<Block>, i: nat) {
    && i < |l| == |r|
    && r[i].addr == l[i].addr
    && forall k :: 0 <= k < |l| && k != i ==> r[k] == l[k]
  }

  lemma EditSound(m: Memory, l: seq<Block>, r: seq<Block>, i: nat)
    requires Chained(l) && Describes(m.headers, l) && SameAddrs(l, r, i) && Chained(r)
    ensures Describes(PutHeader(m, r[i].addr, HeaderOf(r, i)).headers, r)
    ensures PayloadsKept(m, PutHeader(m, r[i].addr, HeaderOf(r, i)), r)
  {
    HeadsApart(r);
    assert r[i].addr in Heads(r);
    HeaderWriteSpares(m, r, r[i].addr, HeaderOf(r, i));
    var m' := PutHeader(m, r[i].addr, HeaderOf(r, i));
    PutAgrees(m, m.headers, Heads(r), r[i].addr, HeaderOf(r, i));
    forall k | 0 <= k < |r|
      ensures r[k].addr in m'.headers && m'.headers[r[k].addr] == HeaderOf(r, k)
    {
      EntryAt(m.headers, l, k);
      assert r[k].addr in Heads(r);
      if k < i { assert r[k].addr < r[i].addr; } else if i < k { assert r[i].addr < r[k].addr; }
    }
  }

  // ----- Coalescing -----

  function Grown(h: Header, n: Header): Header {
    h.(size := h.size + HEADER_SIZE + n.size, next := n.next)
  }

  /** `b->size += header + b->next->size; b->next = b->next->next;
      if (b->next) b->next->prev = b;` */
  function AbsorbWrites(m: Memory, b: int): Memory
    requires b in m.headers && m.headers[b].next in m.headers
  {
    var n := m.headers[m.headers[b].next];
    SetPrev(PutHeader(m, b, Grown(m.headers[b], n)), n.next, b)
  }

  function AbsorbMap(v: map<int, Header>, b: int): map<int, Header>
    requires b in v && v[b].next in v
  {
    var n := v[v[b].next];
    SetPrevMap(v[b := Grown(v[b], n)], n.next, b)
  }

  /** r is l with entry i + 1 joined into entry i. */
  ghost predicate IsAbsorbed(l: seq<Block>, r: seq<Block>, i: nat) {
    && i + 1 < |l| && |r| == |l| - 1
    && (forall k :: 0 <= k < i ==> r[k] == l[k])
    && r[i] == Joined(l[i], l[i + 1])
    && (forall k :: i < k < |r| ==> r[k] == l[k + 1])
  }

  lemma AbsorbDescribes(v: map<int, Header>, l: seq<Block>, r: seq<Block>, i: nat)
    requires Describes(v, l)
    requires IsAbsorbed(l, r, i) && Chained(l)
    requires l[i].addr in v && v[l[i].addr] == HeaderOf(l, i)
    requires l[i + 1].addr in v && v[l[i + 1].addr] == HeaderOf(l, i + 1)
    ensures Describes(AbsorbMap(v, l[i].addr), r)
  {
    HeadsApart(l);
    var v' := AbsorbMap(v, l[i].addr);
    forall k | 0 <= k < |r|
      ensures r[k].addr in v' && v'[r[k].addr] == HeaderOf(r, k)
    {
      if k < i {
        EntryAt(v, l, k);
        assert l[k].addr < l[i].addr < l[i + 1].addr;
        assert v'[r[k].addr] == HeaderOf(r, k);
      } else if k == i {
        assert v'[r[k].addr] == HeaderOf(r, k);
      } else if k == i + 1 {
        EntryAt(v, l, k + 1);
        assert l[i].addr < l[i + 1].addr < l[k + 1].addr;
        assert v'[r[k].addr] == HeaderOf(r, k);
      } else {
        EntryAt(v, l, k + 1);
        assert l[i].addr < l[i + 1].addr < l[i + 2].addr < l[k + 1].addr;
        assert r[k - 1] == l[k];
        assert v'[r[k].addr] == HeaderOf(r, k);
      }
    }
  }

  lemma AbsorbAgrees(m: Memory, s: set<int>, b: int)
    requires Apart(s) && b in s && b in m.headers
    requires m.headers[b].next in s && m.headers[b].next in m.headers
    requires m.headers[m.headers[b].next].next in s + {NULL}
    ensures Agree(AbsorbWrites(m, b), AbsorbMap(m.headers, b), s)
  {
    var n := m.headers[m.headers[b].next];
    var h' := Grown(m.headers[b], n);
    PutAgrees(m, m.headers, s, b, h');
    SetPrevAgrees(PutHeader(m, b, h'), m.headers[b := h'], s, n.next, b);
  }

  lemma AbsorbSound(m: Memory, l: seq<Block>, i: nat)
    requires Chained(l) && Describes(m.headers, l) && i + 1 < |l|
    requires l[i].addr in m.headers && m.headers[l[i].addr].next in m.headers
    ensures Describes(AbsorbWrites(m, l[i].addr).headers, Absorb(l, i))
    ensures PayloadsKept(m, AbsorbWrites(m, l[i].addr), l)
  {
    HeadsApart(l);
    var s := Heads(l);
    EntryAt(m.headers, l, i);
    EntryAt(m.headers, l, i + 1);
    assert l[i].addr in s && l[i + 1].addr in s && m.headers[l[i + 1].addr].next in s + {NULL};
    AbsorbAgrees(m, s, l[i].addr);
    AbsorbIsAbsorbed(l, i);
    AbsorbDescribes(m.headers, l, Absorb(l, i), i);
    assert Heads(Absorb(l, i)) <= s;
    AgreeDescribes(AbsorbWrites(m, l[i].addr), AbsorbMap(m.headers, l[i].addr), s, Absorb(l, i));
    AbsorbSpares(m, l, l[i].addr);
  }

  lemma AbsorbIsAbsorbed(l: seq<Block>, i: nat)
    requires i + 1 < |l|
    ensures IsAbsorbed(l, Absorb(l, i), i)
  {
  }

  lemma AbsorbSpares(m: Memory, l: seq<Block>, b: int)
    requires Chained(l) && b in Heads(l) && b in m.headers && m.headers[b].next in m.headers
    requires m.headers[m.headers[b].next].next in Heads(l) + {NULL}
    ensures PayloadsKept(m, AbsorbWrites(m, b), l)
  {
    var n := m.headers[m.headers[b].next];
    var m1 := PutHeader(m, b, Grown(m.headers[b], n));
    HeaderWriteSpares(m, l, b, Grown(m.headers[b], n));
    SetPrevSpares(m1, l, n.next, b);
    KeptTrans(m, m1, AbsorbWrites(m, b), l);
  }

  /** What was kept for a layout is kept for one with no more live blocks. */
  lemma KeptFewer(m: Memory, m': Memory, l: seq<Block>, l': seq<Block>)
    requires PayloadsKept(m, m', l) && Live(l') <= Live(l)
    ensures PayloadsKept(m, m', l')
  {
    forall i, x | 0 <= i < |l'| && !l'[i].free && l'[i].Start() <= x < l'[i].End()
      ensures SameByte(m, m', x)
    {
      IsLive(l', i);
      var j := LiveIndex(l, (l'[i].Start(), l'[i].size));
      assert l[j].Start() <= x < l[j].End();
    }
  }

  // Lines 62-66 of free.
  function AbsorbNextWrites(m: Memory, b: int): Memory
    requires b in m.headers
  {
    var next := m.headers[b].next;
    if next != NULL && next in m.headers && m.headers[next].free then AbsorbWrites(m, b) else m
  }

  // Lines 67-71 of free: the predecessor absorbs the block.
  function AbsorbIntoPrevWrites(m: Memory, b: int): Memory
    requires b in m.headers
  {
    var prev := m.headers[b].prev;
    if prev != NULL && prev in m.headers && m.headers[prev].free && m.headers[prev].next in m.headers
    then AbsorbWrites(m, prev) else m
  }

  lemma AbsorbNextSound(m: Memory, l: seq<Block>, i: nat)
    requires Chained(l) && CoalescedBut(l, i) && Describes(m.headers, l) && i < |l| && l[i].free
    requires l[i].addr in m.headers
    ensures var l' := AbsorbNext(l, i); var m' := AbsorbNextWrites(m, l[i].addr);
      Chained(l') && i < |l'| && l'[i].addr == l[i].addr && l'[i].free &&
      Describes(m'.headers, l') && PayloadsKept(m, m', l')
  {
    EntryAt(m.headers, l, i);
    if i + 1 < |l| {
      EntryAt(m.headers, l, i + 1);
      AboveBase(l, i + 1);
      if l[i + 1].free {
        AbsorbSound(m, l, i);
        AbsorbKeeps(l, i, i);
        CoalesceNeutral(l, i);
        KeptFewer(m, AbsorbNextWrites(m, l[i].addr), l, AbsorbNext(l, i));
      }
    }
  }

  lemma AbsorbIntoPrevSound(m: Memory, l: seq<Block>, i: nat)
    requires Chained(l) && Describes(m.headers, l) && i < |l| && l[i].free
    requires l[i].addr in m.headers
    ensures var l' := AbsorbIntoPrev(l, i); var m' := AbsorbIntoPrevWrites(m, l[i].addr);
      Describes(m'.headers, l') && PayloadsKept(m, m', l')
  {
    EntryAt(m.headers, l, i);
    if i > 0 {
      EntryAt(m.headers, l, i - 1);
      AboveBase(l, i - 1);
      if l[i - 1].free {
        AbsorbSound(m, l, i - 1);
        CoalesceNeutral(l, i);
        KeptFewer(m, AbsorbIntoPrevWrites(m, l[i].addr), l, AbsorbIntoPrev(l, i));
      }
    }
  }

  function FreeWrites(m: Memory, b: int): Memory
    requires b in m.headers
  {
    AbsorbIntoPrevWrites(AbsorbNextWrites(PutHeader(m, b, m.headers[b].(free := true)), b), b)
  }

  lemma {:induction false} ReleaseSound(m: Memory, l: seq<Block>, i: nat)
    requires WellFormed(l) && Describes(m.headers, l) && i < |l| && !l[i].free
    requires l[i].addr in m.headers
    ensures Describes(FreeWrites(m, l[i].addr).headers, ReleaseAt(l, i))
    ensures PayloadsKept(m, FreeWrites(m, l[i].addr), ReleaseAt(l, i))
  {
    var b := l[i].addr;
    EntryAt(m.headers, l, i);
    var l1 := MarkFree(l, i);
    MarkFreeKeeps(l, i);
    EditSound(m, l, l1, i);
    var m1 := PutHeader(m, b, m.headers[b].(free := true));
    AbsorbNextSound(m1, l1, i);
    var l2, m2 := AbsorbNext(l1, i), AbsorbNextWrites(m1, b);
    EntryAt(m2.headers, l2, i);
    AbsorbIntoPrevSound(m2, l2, i);
    var l3, m3 := AbsorbIntoPrev(l2, i), AbsorbIntoPrevWrites(m2, b);
    CoalesceNeutral(l1, i);
    CoalesceNeutral(l2, i);
    KeptFewer(m, m1, l1, l3);
    KeptFewer(m1, m2, l2, l3);
    KeptTrans(m, m1, m2, l3);
    KeptTrans(m, m2, m3, l3);
  }

  // Lines 37-48.
  function MallocWrites(m: Memory, a: int, size: nat): Memory
    requires a in m.headers
  {
    if m.headers[a].size > size + HEADER_SIZE then SplitWrites(m, a, size)
    else PutHeader(m, a, m.headers[a].(size := size, free := false))
  }

  lemma MallocSound(m: Memory, l: seq<Block>, i: nat, size: nat)
    requires WellFormed(l) && Describes(m.headers, l)
    requires i < |l| && Fits(l[i], size) && l[i].addr in m.headers
    ensures WellFormed(Carve(l, i, size))
    ensures Describes(MallocWrites(m, l[i].addr, size).headers, Carve(l, i, size))
    ensures PayloadsKept(m, MallocWrites(m, l[i].addr, size), l)
  {
    EntryAt(m.headers, l, i);
    CarveKeeps(l, i, size);
    CarveLive(l, i, size);
    if Splits(l[i], size) {
      SplitSound(m, l, i, size);
    } else {
      EditSound(m, l, Carve(l, i, size), i);
    }
    KeptFewer(m, MallocWrites(m, l[i].addr, size), Carve(l, i, size), l);
  }

  // ----- Whole runs over memory -----

  datatype State = State(mem: Memory, layout: seq<Block>)

  /** A call of the allocator, or a client storing v at address x. */
  datatype Op = Do(call: Call) | Put(x: int, v: int)

  function MallocMem(m: Memory, l: seq<Block>, size: nat): Memory {
    var i := FirstFit(l, size, 0);
    if size == 0 || i == |l| || l[i].addr !in m.headers then m else MallocWrites(m, l[i].addr, size)
  }

  function FreeMem(m: Memory, ptr: int): Memory {
    var b := ptr - HEADER_SIZE;
    if ptr == NULL || b !in m.headers || m.headers[b].free then m else FreeWrites(m, b)
  }

  function Next(s: State, op: Op): State {
    match op
    case Do(Malloc(size)) => State(MallocMem(s.mem, s.layout, size), AllocLayout(s.layout, size))
    case Do(Free(ptr)) => State(FreeMem(s.mem, ptr), ReleaseLayout(s.layout, ptr))
    case Put(x, v) => State(PutByte(s.mem, x, v), s.layout)
  }

  /** What init_memory_heap makes of memory m. */
  function Booted(m: Memory): State {
    State(PutHeader(m, POOL_BASE, Header(MEMORY_POOL_SIZE - HEADER_SIZE, NULL, NULL, true)), Initial())
  }

  function RunOps(m: Memory, ops: seq<Op>): State {
    if ops == [] then Booted(m) else Next(RunOps(m, ops[..|ops| - 1]), ops[|ops| - 1])
  }

  predicate In(a: (int, nat), x: int) {
    a.0 <= x < a.0 + a.1
  }

  /** Byte x lies in a live payload. */
  ghost predicate Owned(l: seq<Block>, x: int) {
    exists a :: a in Live(l) && In(a, x)
  }

  /** Clients free what is live, or NULL, and store inside live payloads only. */
  ghost predicate LegalOp(l: seq<Block>, op: Op) {
    match op
    case Do(call) => Legal(l, call)
    case Put(x, _) => Owned(l, x)
  }

  ghost predicate LegalOps(m: Memory, ops: seq<Op>) {
    ops == [] ||
    (LegalOps(m, ops[..|ops| - 1]) && LegalOp(RunOps(m, ops[..|ops| - 1]).layout, ops[|ops| - 1]))
  }

  ghost predicate Freed(l: seq<Block>, ptr: int, x: int) {
    exists a :: a in Live(l) && a.0 == ptr && In(a, x)
  }

  /** The clients' own record: what each last stored where, less what they freed. */
  ghost function Stored(m: Memory, ops: seq<Op>): map<int, int> {
    if ops == [] then map[] else
    var before := Stored(m, ops[..|ops| - 1]);
    match ops[|ops| - 1]
    case Do(Malloc(_)) => before
    case Do(Free(ptr)) => Unfreed(before, RunOps(m, ops[..|ops| - 1]).layout, ptr)
    case Put(x, v) => before[x := v]
  }

  ghost function Unfreed(before: map<int, int>, l: seq<Block>, ptr: int): map<int, int> {
    map x | x in before && !Freed(l, ptr, x) :: before[x]
  }

  ghost predicate Sound(s: State) {
    WellFormed(s.layout) && Describes(s.mem.headers, s.layout)
  }

  /** Every byte of the record lies in a live payload and stands in memory. */
  ghost predicate Holds(s: State, record: map<int, int>) {
    forall x :: x in record ==> Owned(s.layout, x) && x in s.mem.bytes && s.mem.bytes[x] == record[x]
  }

  lemma BootedSound(m: Memory)
    ensures Sound(Booted(m))
  {
  }

  lemma KeptByte(m: Memory, m': Memory, l: seq<Block>, x: int)
    requires PayloadsKept(m, m', l) && Owned(l, x)
    ensures SameByte(m, m', x)
  {
    var a :| a in Live(l) && In(a, x);
    var i := LiveIndex(l, a);
    assert l[i].Start() <= x < l[i].End();
  }

  lemma MallocMemSound(m: Memory, l: seq<Block>, size: nat)
    requires WellFormed(l) && Describes(m.headers, l)
    ensures Sound(Next(State(m, l), Do(Malloc(size))))
    ensures PayloadsKept(m, MallocMem(m, l, size), l)
  {
    var i := FirstFit(l, size, 0);
    if size != 0 && i < |l| {
      EntryAt(m.headers, l, i);
      MallocSound(m, l, i, size);
    }
  }

  lemma FreeMemIs(m: Memory, l: seq<Block>, i: nat)
    requires WellFormed(l) && Describes(m.headers, l) && i < |l| && !l[i].free
    ensures l[i].addr in m.headers && FreeMem(m, l[i].Start()) == FreeWrites(m, l[i].addr)
  {
    EntryAt(m.headers, l, i);
    AboveBase(l, i);
  }

  lemma {:induction false} FreeMemSound(m: Memory, l: seq<Block>, ptr: int)
    requires WellFormed(l) && Describes(m.headers, l) && Legal(l, Free(ptr))
    ensures Sound(Next(State(m, l), Do(Free(ptr))))
    ensures PayloadsKept(m, FreeMem(m, ptr), ReleaseLayout(l, ptr))
  {
    if ptr == NULL {
      NullIsNoBlock(l);
      assert ReleaseLayout(l, ptr) == l && FreeMem(m, ptr) == m;
    } else {
      var n: nat :| (ptr, n) in Live(l);
      var i := LiveIndex(l, (ptr, n));
      FreeBlockSound(m, l, i);
    }
  }

  lemma {:induction false} FreeBlockSound(m: Memory, l: seq<Block>, i: nat)
    requires WellFormed(l) && Describes(m.headers, l) && i < |l| && !l[i].free
    ensures var s' := Next(State(m, l), Do(Free(l[i].Start())));
      Sound(s') && PayloadsKept(m, s'.mem, s'.layout)
  {
    FreeMemIs(m, l, i);
    FreeLiveBlock(l, i);
    ReleaseSound(m, l, i);
  }

  lemma MallocHolds(s: State, size: nat, record: map<int, int>)
    requires Sound(s) && Holds(s, record)
    ensures Holds(Next(s, Do(Malloc(size))), record)
  {
    MallocMemSound(s.mem, s.layout, size);
    MallocEffect(s.layout, size);
    var s' := Next(s, Do(Malloc(size)));
    forall x | x in record
      ensures Owned(s'.layout, x) && x in s'.mem.bytes && s'.mem.bytes[x] == record[x]
    {
      KeptByte(s.mem, s'.mem, s.layout, x);
      var a :| a in Live(s.layout) && In(a, x);
      assert a in Live(s'.layout);
    }
  }

  lemma FreeHolds(s: State, ptr: int, record: map<int, int>)
    requires Sound(s) && Holds(s, record) && Legal(s.layout, Free(ptr))
    ensures Holds(Next(s, Do(Free(ptr))), Unfreed(record, s.layout, ptr))
  {
    FreeMemSound(s.mem, s.layout, ptr);
    FreeEffect(s.layout, ptr);
    var s' := Next(s, Do(Free(ptr)));
    forall x | x in record && !Freed(s.layout, ptr, x)
      ensures Owned(s'.layout, x) && x in s'.mem.bytes && s'.mem.bytes[x] == record[x]
    {
      var a :| a in Live(s.layout) && In(a, x);
      assert a in Live(s'.layout);
      KeptByte(s.mem, s'.mem, s'.layout, x);
    }
  }

  lemma PutSound(s: State, x: int, v: int)
    requires Sound(s) && Owned(s.layout, x)
    ensures Sound(Next(s, Put(x, v)))
  {
    var a :| a in Live(s.layout) && In(a, x);
    var i := LiveIndex(s.layout, a);
    StoreKeeps(s.mem, s.layout, i, x, v);
  }

  /** Safety of memory over every legal run of malloc, free and stores inside live
      payloads: the headers describe a well-formed list, and each byte a client has
      stored and not freed is still in a live payload with the value last stored. */
  lemma {:induction false} BytesKept(m: Memory, ops: seq<Op>)
    requires LegalOps(m, ops)
    ensures Sound(RunOps(m, ops)) && Holds(RunOps(m, ops), Stored(m, ops))
  {
    if ops == [] {
      BootedSound(m);
    } else {
      var before := ops[..|ops| - 1];
      var s, record := RunOps(m, before), Stored(m, before);
      BytesKept(m, before);
      match ops[|ops| - 1]
      case Do(Malloc(size)) =>
        MallocMemSound(s.mem, s.layout, size);
        MallocHolds(s, size, record);
      case Do(Free(ptr)) =>
        FreeMemSound(s.mem, s.layout, ptr);
        FreeHolds(s, ptr, record);
      case Put(x, v) =>
        PutSound(s, x, v);
    }
  }

  /** The layout of such a run is that of its calls alone. */
  function Calls(ops: seq<Op>): seq<Call> {
    if ops == [] then [] else
    var before := Calls(ops[..|ops| - 1]);
    if ops[|ops| - 1].Do? then before + [ops[|ops| - 1].call] else before
  }

  lemma {:induction false} StoresMoveNothing(m: Memory, ops: seq<Op>)
    requires LegalOps(m, ops)
    ensures RunOps(m, ops).layout == Run(Calls(ops)) && LegalRun(Calls(ops))
  {
    if ops != [] {
      var before := ops[..|ops| - 1];
      StoresMoveNothing(m, before);
      if ops[|ops| - 1].Do? {
        assert Calls(ops)[..|Calls(ops)| - 1] == Calls(before);
      }
    }
  }

  // ----- The allocator -----

  class Heap {
    var mem: Memory
    var initialized: bool
    ghost var layout: seq<Block>

    ghost predicate Valid()
      reads this
    {
      initialized ==> Sound(Now())
    }

    ghost function Now(): State
      reads this
    {
      State(mem, layout)
    }

    constructor ()
      ensures Valid() && !initialized
    {
      mem, initialized, layout := Memory(map[], map[]), false, [];
    }

    method InitMemoryHeap()
      modifies this
      ensures Valid() && initialized && Now() == Booted(old(mem))
    {
      mem := PutHeader(mem, POOL_BASE, Header(MEMORY_POOL_SIZE - HEADER_SIZE, NULL, NULL, true));
      initialized := true;
      layout := Initial();
    }

    /** First fit. A request that fits nowhere ends in kernelpanic, which halts;
        `panicked` marks that outcome. The block written is the first in the list
        that fits, the result is its payload, and no payload that was live before
        loses a byte. */
    method Malloc(size: nat) returns (p: int, panicked: bool)
      requires Valid()
      modifies this
      ensures Valid() && initialized == old(initialized)
      ensures !old(initialized) ==> p == NULL && !panicked && mem == old(mem) && layout == old(layout)
      ensures old(initialized) ==> Now() == Next(old(Now()), Do(Call.Malloc(size))) && p == AllocResult(old(layout), size)
      ensures old(initialized) ==> (panicked <==> size != 0 && NoneLarge(old(layout), size))
      ensures old(initialized) ==> PayloadsKept(old(mem), mem, old(layout))
    {
      p, panicked := NULL, false;
      if !initialized { return; }
      if size == 0 { return; }
      var current := POOL_BASE;
      ghost var i: nat := 0;
      while current != NULL
        invariant mem == old(mem) && layout == old(layout) && initialized
        invariant i <= |layout| && current == if i < |layout| then layout[i].addr else NULL
        invariant i < |layout| ==> current != NULL
        invariant FirstFit(layout, size, 0) == FirstFit(layout, size, i)
        invariant forall j :: 0 <= j < i ==> !layout[j].free || layout[j].size < size
        decreases |layout| - i
      {
        EntryAt(mem.headers, layout, i);
        var cur := mem.headers[current];
        if cur.free && cur.size >= size {
          Take(i, current, size);
          p := current + HEADER_SIZE;
          return;
        }
        if i + 1 < |layout| { AboveBase(layout, i + 1); }
        current := cur.next;
        i := i + 1;
      }
      panicked := true;
    }

    /** Lines 37-48 for the block that fits. */
    method Take(ghost i: nat, current: int, size: nat)
      requires Valid() && initialized && i < |layout| && layout[i].addr == current && Fits(layout[i], size)
      requires current in mem.headers
      modifies this
      ensures Valid() && initialized && layout == Carve(old(layout), i, size)
      ensures mem == MallocWrites(old(mem), current, size)
      ensures PayloadsKept(old(mem), mem, old(layout))
    {
      EntryAt(mem.headers, layout, i);
      MallocSound(mem, layout, i, size);
      mem := MallocWrites(mem, current, size);
      layout := Carve(layout, i, size);
    }

    /** `ptr` must be NULL or the payload address of a listed block; freeing a
        listed block that is already free changes nothing. No payload that stays
        live loses a byte. */
    method Free(ptr: int)
      requires Valid()
      requires initialized && ptr != NULL ==> IndexOf(layout, ptr, 0) < |layout|
      modifies this
      ensures Valid() && initialized == old(initialized)
      ensures !initialized ==> mem == old(mem) && layout == old(layout)
      ensures initialized ==> Now() == Next(old(Now()), Do(Call.Free(ptr)))
      ensures initialized ==> PayloadsKept(old(mem), mem, layout)
    {
      if ptr == NULL || !initialized {
        if initialized { NullIsNoBlock(layout); }
        return;
      }
      var block := ptr - HEADER_SIZE;
      ghost var i := IndexOf(layout, ptr, 0);
      EntryAt(mem.headers, layout, i);
      if mem.headers[block].free { return; }
      ReleaseKeeps(layout, i);
      ReleaseSound(mem, layout, i);
      mem := PutHeader(mem, block, mem.headers[block].(free := true));
      mem := AbsorbNextWrites(mem, block);
      mem := AbsorbIntoPrevWrites(mem, block);
      layout := ReleaseAt(layout, i);
    }

    /** Allocates enough to move up to an aligned address with the original one saved
        in front of it. `stray` marks an address that is not inside the block with
        room for the saved pointer below it, where the store goes elsewhere. */
    method MallocAligned(size: nat, alignment: nat, pointer: RawMemory.PointerBytes)
      returns (p: nat, raw: nat, panicked: bool, stray: bool)
      requires Valid() && size < Bits.WORD && alignment < Bits.WORD
      modifies this
      ensures Valid() && initialized == old(initialized)
      ensures !initialized ==> raw == NULL && mem == old(mem) && layout == old(layout)
      ensures initialized ==> layout == AllocLayout(old(layout), Request(size, alignment, pointer))
      ensures initialized ==> raw == AllocResult(old(layout), Request(size, alignment, pointer))
      ensures initialized ==> PayloadsKept(old(mem), mem, old(layout))
      ensures raw == NULL ==> p == NULL && !stray
      ensures raw != NULL ==> p == RawMemory.AlignedAddress(raw, pointer, alignment)
      ensures raw != NULL && Unwrapped(size, alignment, pointer) ==>
        !stray && AlignedBlock(mem, p, raw, size, alignment, pointer)
      ensures raw != NULL && !stray ==> Saved(mem, p - pointer, raw, pointer)
      ensures raw != NULL ==> stray == !(raw + pointer <= p <= raw + Request(size, alignment, pointer))
    {
      var total := Request(size, alignment, pointer);
      ghost var before := layout;
      var block, full := Malloc(total);
      if block == NULL { return NULL, 0, full, false; }
      ghost var after := mem;
      ResultIsLive(before, total);
      InPool(layout, IndexOf(layout, block, 0));
      panicked, raw, p := false, block, RawMemory.AlignedAddress(block, pointer, alignment);
      AlignedFitsIff(raw, size, alignment, pointer, total);
      stray := SaveInside(IndexOf(layout, block, 0), p, raw, total, pointer, before);
      KeptTrans(old(mem), after, mem, before);
    }

    /** Lines 79-80, unless the store is not inside the block of payload address raw. */
    method SaveInside(ghost i: nat, p: nat, raw: nat, total: nat, pointer: RawMemory.PointerBytes,
                      ghost others: seq<Block>)
      returns (stray: bool)
      requires Valid() && initialized && i < |layout|
      requires IsBlock(layout[i], raw, total) && Clear(others, layout[i].Start(), layout[i].End())
      modifies this
      ensures Valid() && initialized && layout == old(layout) && PayloadsKept(old(mem), mem, others)
      ensures stray == !(raw + pointer <= p <= raw + total)
      ensures !stray ==> Saved(mem, p - pointer, raw, pointer)
    {
      stray := !(raw + pointer <= p <= raw + total);
      if !stray { SavePointer(i, p - pointer, raw, pointer, others); }
    }

    /** `*store = raw;` */
    method SavePointer(ghost i: nat, x: int, raw: nat, n: nat, ghost others: seq<Block>)
      requires Valid() && initialized && i < |layout| && !layout[i].free
      requires layout[i].Start() <= x && x + n <= layout[i].End()
      requires Clear(others, x, x + n)
      modifies this
      ensures Valid() && initialized && layout == old(layout)
      ensures Saved(mem, x, raw, n) && PayloadsKept(old(mem), mem, others)
    {
      var k := 0;
      while k < n
        invariant k <= n && Valid() && initialized && layout == old(layout)
        invariant Saved(mem, x, raw, k) && PayloadsKept(old(mem), mem, others)
      {
        ghost var m := mem;
        Store(i, x + k, ByteOf(raw, k));
        SavedMore(m, mem, x, raw, k);
        ClearStore(m, mem, others, x + k, ByteOf(raw, k));
        KeptTrans(old(mem), m, mem, others);
        k := k + 1;
      }
    }

    /** A client store inside its own live payload: the block list survives it. */
    method Store(ghost i: nat, x: int, v: int)
      requires Valid() && initialized
      requires i < |layout| && !layout[i].free && layout[i].Start() <= x < layout[i].End()
      modifies this
      ensures Valid() && initialized && Now() == Next(old(Now()), Put(x, v))
    {
      StoreKeeps(mem, layout, i, x, v);
      mem := PutByte(mem, x, v);
    }
  }

  // ----- malloc_aligned -----

  /** No live payload of l has a byte in lo..hi. */
  ghost predicate Clear(l: seq<Block>, lo: int, hi: int) {
    forall k :: 0 <= k < |l| && !l[k].free ==> l[k].End() <= lo || hi <= l[k].Start()
  }

  /** The block malloc returned, and none of its bytes in a payload live before. */
  lemma ResultIsLive(l: seq<Block>, size: nat)
    requires WellFormed(l) && AllocResult(l, size) != NULL
    ensures var r := AllocLayout(l, size); var i := IndexOf(r, AllocResult(l, size), 0);
      WellFormed(r) && i < |r| && IsBlock(r[i], AllocResult(l, size), size) &&
      Clear(l, r[i].Start(), r[i].End())
  {
    var r, p := AllocLayout(l, size), AllocResult(l, size);
    MallocEffect(l, size);
    var i := LiveIndex(r, (p, size));
    UniqueStart(r, i);
    AboveBase(r, i);
    forall k | 0 <= k < |l| && !l[k].free
      ensures l[k].End() <= r[i].Start() || r[i].End() <= l[k].Start()
    {
      IsLive(l, k);
      assert (l[k].Start(), l[k].size) in Live(r);
      LivePayloadsDisjoint(r, (l[k].Start(), l[k].size), (p, size));
    }
  }

  predicate IsBlock(b: Block, p: int, size: nat) {
    !b.free && b.Start() == p > 0 && b.size == size
  }

  /** p is aligned if it can be, with the bytes asked for behind it inside the block at
      raw and raw itself saved in front of it. */
  ghost predicate AlignedBlock(m: Memory, p: int, raw: nat, size: nat, alignment: nat, pointer: RawMemory.PointerBytes)
    requires alignment > 0
  {
    && p >= raw + pointer && (RawMemory.MaskAligns(alignment) ==> RawMemory.AlignedTo(p, alignment))
    && p + size <= raw + (size + alignment + pointer)
    && Saved(m, p - pointer, raw, pointer)
  }

  /** Byte k of a pointer, low byte first. */
  function ByteOf(raw: nat, k: nat): nat {
    Bits.Shr(raw, 8 * k) % 256
  }

  ghost predicate ByteSaved(m: Memory, x: int, raw: nat, k: nat) {
    x + k in m.bytes && m.bytes[x + k] == ByteOf(raw, k)
  }

  /** The first n bytes of the pointer value raw stand from x on. */
  ghost predicate Saved(m: Memory, x: int, raw: nat, n: nat) {
    forall k: nat :: k < n ==> ByteSaved(m, x, raw, k)
  }

  lemma SavedMore(m: Memory, m': Memory, x: int, raw: nat, k: nat)
    requires Saved(m, x, raw, k) && m'.bytes == m.bytes[x + k := ByteOf(raw, k)]
    ensures Saved(m', x, raw, k + 1)
  {
    forall j: nat | j < k + 1
      ensures ByteSaved(m', x, raw, j)
    {
      if j < k { assert ByteSaved(m, x, raw, j); }
    }
  }

  lemma ClearStore(m: Memory, m': Memory, l: seq<Block>, x: int, v: int)
    requires Clear(l, x, x + 1) && m'.bytes == m.bytes[x := v]
    ensures PayloadsKept(m, m', l)
  {
    forall i, y | 0 <= i < |l| && !l[i].free && l[i].Start() <= y < l[i].End()
      ensures SameByte(m, m', y)
    {
      assert l[i].End() <= x || x + 1 <= l[i].Start();
    }
  }

  /** `size + alignment + sizeof(void*)` in 64 bits. */
  function Request(size: nat, alignment: nat, pointer: RawMemory.PointerBytes): nat {
    (size + alignment + pointer) % Bits.WORD
  }

  predicate Unwrapped(size: nat, alignment: nat, pointer: RawMemory.PointerBytes) {
    0 < alignment && size + alignment + pointer < Bits.WORD
  }

  /** In the n bytes at raw: the saved pointer fits below a and size bytes behind it. */
  predicate FitsAligned(a: nat, raw: nat, n: nat, size: nat, pointer: RawMemory.PointerBytes) {
    raw + pointer <= a && a + size <= raw + n
  }

  /** In a block of the size malloc_aligned asks for, the saved pointer fits below the
      aligned address and the bytes asked for behind it exactly when the alignment is
      not 0 and the sum does not wrap. */
  lemma AlignedFitsIff(raw: nat, size: nat, alignment: nat, pointer: RawMemory.PointerBytes, n: nat)
    requires size < Bits.WORD && alignment < Bits.WORD
    requires n == Request(size, alignment, pointer) && raw > 0 && raw + n <= Bits.WORD
    ensures FitsAligned(RawMemory.AlignedAddress(raw, pointer, alignment), raw, n, size, pointer) <==>
      Unwrapped(size, alignment, pointer)
    ensures Unwrapped(size, alignment, pointer) && RawMemory.MaskAligns(alignment) ==>
      RawMemory.AlignedTo(RawMemory.AlignedAddress(raw, pointer, alignment), alignment)
    ensures Unwrapped(size, alignment, pointer) ==> n == size + alignment + pointer
  {
    WrappedSum(size + alignment + pointer);
    if alignment == 0 {
      RawMemory.AlignedToNothing(raw, pointer);
    } else if size + alignment + pointer < Bits.WORD {
      RawMemory.AlignedFits(raw, pointer, size, alignment);
    }
  }

  /** 2^64 - 8 bytes at alignment 8 come out as a request for 8. */
  lemma WrappedRequest(raw: nat)
    requires raw + 16 <= Bits.WORD
    ensures var size: nat := Bits.WORD - 8;
      Request(size, 8, 8) == 8 && RawMemory.AlignedAddress(raw, 8, 8) + size > raw + 8
  {
    var size: nat, n: nat := Bits.WORD - 8, 8;
    Overruns(raw, size, n, 8);
  }

  lemma Overruns(raw: nat, size: nat, alignment: nat, pointer: RawMemory.PointerBytes)
    requires 0 < alignment < Bits.WORD && raw + alignment + pointer <= Bits.WORD && size >= alignment
    ensures RawMemory.AlignedAddress(raw, pointer, alignment) + size > raw + alignment
  {
    RawMemory.AlignedFits(raw, pointer, size, alignment);
  }

  lemma WrappedSum(x: nat)
    requires x < 3 * Bits.WORD
    ensures var r := x % Bits.WORD;
      (x < Bits.WORD ==> r == x) && (x >= Bits.WORD ==> r <= x - Bits.WORD)
  {
  }

  lemma StoreKeeps(m: Memory, l: seq<Block>, i: nat, x: int, v: int)
    requires Chained(l) && Describes(m.headers, l)
    requires i < |l| && l[i].Start() <= x < l[i].End()
    ensures Describes(PutByte(m, x, v).headers, l)
  {
    forall k | 0 <= k < |l|
      ensures l[k].addr in PutByte(m, x, v).headers
      ensures PutByte(m, x, v).headers[l[k].addr] == HeaderOf(l, k)
    {
      EntryAt(m.headers, l, k);
      if i < k { Ordered(l, i, k); } else if k < i { Ordered(l, k, i); }
    }
  }
}
