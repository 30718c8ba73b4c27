/** Building the page bitmap from the Multiboot memory map: the first call of
    physmem_init_from_multiboot (src/drivers/misc/memory.c). */
module BootMemoryMap {
  import opened Bits
  import opened PhysicalPages

  type Word = n: nat | n < WORD witness 0

  /** One map entry; `kind` 1 is available memory. */
  datatype Entry = Entry(addr: Word, len: Word, kind: nat)

  // ----- Page rounding, in 64-bit arithmetic -----

  function RoundDownToPage(x: nat): nat
    requires x < WORD
  {
    WordIsPow2();
    And(x, Not(64, PAGE - 1))
  }

  function RoundUpToPage(x: nat): nat {
    RoundDownToPage(Add64(x, PAGE - 1))
  }

  lemma RoundDownIs(x: nat)
    requires x < WORD
    ensures RoundDownToPage(x) == x - x % PAGE
  {
    PageIsPow2();
    WordIsPow2();
    HighMask(x, 12, 64);
  }

  /** Rounding up is exact except in the last page of the address space, where it
      wraps to 0. */
  lemma RoundUpIs(x: nat)
    requires x < WORD
    ensures x + PAGE <= WORD ==>
      RoundUpToPage(x) % PAGE == 0 && x <= RoundUpToPage(x) < x + PAGE && RoundUpToPage(x) + PAGE <= WORD
    ensures x + PAGE > WORD ==> RoundUpToPage(x) == 0
  {
    RoundDownIs(Add64(x, PAGE - 1));
  }

  function Start(e: Entry): nat {
    RoundUpToPage(e.addr)
  }

  function End(e: Entry): nat {
    RoundDownToPage(Limit(e))
  }

  // ----- What the boot code computes -----

  /** Where an entry ends, in 64-bit arithmetic. */
  function Limit(e: Entry): nat {
    Add64(e.addr, e.len)
  }

  /** The largest of those, 0 for no entries. */
  function Highest(entries: seq<Entry>): (h: nat)
    ensures h < WORD
    ensures forall k :: 0 <= k < |entries| ==> Limit(entries[k]) <= h
    ensures h == 0 || exists k :: 0 <= k < |entries| && h == Limit(entries[k])
  {
    if entries == [] then 0 else
    var h := Highest(entries[..|entries| - 1]);
    var e := entries[|entries| - 1];
    if Limit(e) > h then Limit(e) else h
  }

  function TotalPages(entries: seq<Entry>): nat {
    RoundUpToPage(Highest(entries)) / PAGE
  }

  function BitmapBytes(total: nat): nat {
    (total + 7) / 8
  }

  function BitmapPages(bytes: nat): nat {
    (bytes + PAGE - 1) / PAGE
  }

  predicate HasRoom(e: Entry, bytes: nat) {
    e.kind == 1 && (if End(e) > Start(e) then End(e) - Start(e) else 0) >= bytes + PAGE
  }

  /** Index of the first available region with room for the bitmap and a page. */
  function FirstRoomy(entries: seq<Entry>, bytes: nat, from: nat): (i: nat)
    requires from <= |entries|
    ensures from <= i <= |entries|
    ensures i < |entries| ==> HasRoom(entries[i], bytes)
    ensures forall j :: from <= j < i ==> !HasRoom(entries[j], bytes)
    decreases |entries| - from
  {
    if from == |entries| || HasRoom(entries[from], bytes) then from else FirstRoomy(entries, bytes, from + 1)
  }

  datatype Placement = Placed(addr: nat) | NoRoom

  /** Where the bitmap goes: the first roomy region, else just below the end of
      memory, else nowhere. */
  function Place(entries: seq<Entry>): Placement {
    var bytes := BitmapBytes(TotalPages(entries));
    var size := RoundUpToPage(Highest(entries));
    var i := FirstRoomy(entries, bytes, 0);
    if i < |entries| then Placed(Start(entries[i]))
    else if size > bytes + PAGE then Placed(size - bytes - PAGE)
    else NoRoom
  }

  predicate InEntry(e: Entry, j: nat) {
    e.kind == 1 && Start(e) <= j * PAGE < End(e)
  }

  predicate InBitmap(place: nat, bytes: nat, j: nat) {
    place <= j * PAGE < place + BitmapPages(bytes) * PAGE
  }

  ghost predicate InSome(entries: seq<Entry>, n: nat, j: nat)
    requires n <= |entries|
  {
    exists k :: 0 <= k < n && InEntry(entries[k], j)
  }

  /** The marks once the first n entries have been dealt with. */
  ghost predicate Marks(s: seq<byte>, entries: seq<Entry>, place: nat, n: nat)
    requires n <= |entries|
  {
    var total := TotalPages(entries);
    |s| == BitmapBytes(total) &&
    forall j: nat :: j < 8 * |s| ==>
      (Used(s, j) <==> !(j < total && InSome(entries, n, j) && !InBitmap(place, |s|, j)))
  }

  /** The marks after boot. */
  ghost predicate BootMarks(s: seq<byte>, entries: seq<Entry>, place: nat) {
    Marks(s, entries, place, |entries|)
  }

  /** s is s0 with the pages at byte addresses lo..hi cleared, the bitmap's kept. */
  ghost predicate Cleared(s0: seq<byte>, s: seq<byte>, total: nat, place: nat, lo: nat, hi: nat) {
    |s| == |s0| &&
    forall j: nat :: j < 8 * |s| ==>
      (Used(s, j) <==> Used(s0, j) && !(j < total && lo <= j * PAGE < hi && !InBitmap(place, |s|, j)))
  }

  lemma {:induction false} AllOnes(k: nat)
    requires k < 8
    ensures Bit(255, k)
  {
    MaskBound(0);
    ZeroBits(k);
    NotBit(8, 0, k);
  }

  lemma PageCleared(s0: seq<byte>, s: seq<byte>, total: nat, place: nat, lo: nat, p: nat)
    requires total <= 8 * |s| && Cleared(s0, s, total, place, lo, p)
    requires p % PAGE == 0 && lo <= p && p / PAGE < total
    ensures Cleared(s0, if place <= p < place + BitmapPages(|s|) * PAGE then s else WithBit(s, p / PAGE, false),
                    total, place, lo, p + PAGE)
  {
    WithBitEffect(s, p / PAGE, false);
    assert (p / PAGE) * PAGE == p;
    forall j: nat
      ensures j * PAGE < p + PAGE <==> j * PAGE < p || j == p / PAGE
    {
    }
  }

  /** Past the end of the entry, or past the last page, there is nothing to clear. */
  lemma ClearedEnough(s0: seq<byte>, s: seq<byte>, total: nat, place: nat, lo: nat, p: nat, hi: nat)
    requires Cleared(s0, s, total, place, lo, p) && p % PAGE == 0 && lo <= p
    requires hi <= p < hi + PAGE || (p < hi && p / PAGE >= total) || (p == lo && hi <= p)
    ensures Cleared(s0, s, total, place, lo, hi)
  {
    forall j: nat | j < total && lo <= j * PAGE
      ensures j * PAGE < p <==> j * PAGE < hi
    {
      PageBelow(j, p);
    }
  }

  lemma PageBelow(j: nat, p: nat)
    requires p % PAGE == 0
    ensures j * PAGE < p <==> j < p / PAGE
  {
  }

  /** Lines 229-234 for one available entry. */
  method ClearRange(pa: PageAllocator, place: nat, start: nat, end: nat)
    requires pa.Valid() && start % PAGE == 0
    modifies pa.bitmap
    ensures Cleared(old(pa.bitmap[..]), pa.bitmap[..], pa.totalPages, place, start, end)
  {
    ghost var was := pa.bitmap[..];
    var p := start;
    while p < end
      invariant p % PAGE == 0 && start <= p && (p == start || p < end + PAGE)
      invariant Cleared(was, pa.bitmap[..], pa.totalPages, place, start, p)
    {
      if p / PAGE >= pa.totalPages { break; }
      PageCleared(was, pa.bitmap[..], pa.totalPages, place, start, p);
      ClearPage(pa, place, p);
      p := p + PAGE;
    }
    ClearedEnough(was, pa.bitmap[..], pa.totalPages, place, start, p, end);
  }

  /** Clears the page at byte address p unless it is one of the bitmap's own. */
  method ClearPage(pa: PageAllocator, place: nat, p: nat)
    requires pa.Valid() && p / PAGE < pa.totalPages
    modifies pa.bitmap
    ensures pa.bitmap[..] == if place <= p < place + BitmapPages(pa.bitmap.Length) * PAGE
                             then old(pa.bitmap[..]) else WithBit(old(pa.bitmap[..]), p / PAGE, false)
  {
    if !(place <= p < place + BitmapPages(pa.bitmap.Length) * PAGE) {
      pa.SetBit(p / PAGE, false);
    }
  }

  lemma EntryDone(s0: seq<byte>, s: seq<byte>, entries: seq<Entry>, place: nat, n: nat)
    requires n < |entries| && Marks(s0, entries, place, n)
    requires if entries[n].kind == 1
      then Cleared(s0, s, TotalPages(entries), place, Start(entries[n]), End(entries[n])) else s == s0
    ensures Marks(s, entries, place, n + 1)
  {
    forall j: nat
      ensures InSome(entries, n + 1, j) <==> InSome(entries, n, j) || InEntry(entries[n], j)
    {
      if InSome(entries, n, j) {
        var k :| 0 <= k < n && InEntry(entries[k], j);
        assert 0 <= k < n + 1 && InEntry(entries[k], j);
      }
    }
  }

  lemma StartAligned(e: Entry)
    ensures Start(e) % PAGE == 0
  {
    RoundUpIs(e.addr);
  }

  method HighestEnd(entries: seq<Entry>) returns (highest: nat)
    ensures highest == Highest(entries)
    ensures forall k :: 0 <= k < |entries| ==> Limit(entries[k]) <= highest
  {
    highest := 0;
    for n := 0 to |entries|
      invariant highest == Highest(entries[..n])
    {
      assert entries[..n + 1][..n] == entries[..n];
      var end := Limit(entries[n]);
      if end > highest { highest := end; }
    }
    assert entries[..|entries|] == entries;
  }

  method FindRoom(entries: seq<Entry>, bytes: nat) returns (found: bool, place: nat)
    ensures var i := FirstRoomy(entries, bytes, 0);
      if i < |entries| then found && place == Start(entries[i]) else !found
    ensures if found then exists k :: FirstOffer(entries, k, place, bytes) else NoOffer(entries, bytes)
  {
    RoomIs(entries, bytes);
    place, found := 0, false;
    for i := 0 to |entries|
      invariant !found && FirstRoomy(entries, bytes, 0) == FirstRoomy(entries, bytes, i)
    {
      var e := entries[i];
      if e.kind == 1 {
        var start, end := Start(e), End(e);
        var region := if end > start then end - start else 0;
        if region >= bytes + PAGE {
          return true, start;
        }
      }
    }
  }

  /** Lines 219-222: every bit set, the bitmap's own pages set once more. */
  method FillBitmap(pa: PageAllocator, place: nat)
    requires pa.Valid()
    modifies pa.bitmap
    ensures forall j: nat :: j < 8 * pa.bitmap.Length ==> Used(pa.bitmap[..], j)
  {
    for i := 0 to pa.bitmap.Length
      invariant forall k :: 0 <= k < i ==> pa.bitmap[k] == 255
    {
      pa.bitmap[i] := 255;
    }
    forall j: nat | j < 8 * pa.bitmap.Length
      ensures Used(pa.bitmap[..], j)
    {
      AllOnes(j % 8);
    }
    for p := 0 to BitmapPages(pa.bitmap.Length)
      invariant forall j: nat :: j < 8 * pa.bitmap.Length ==> Used(pa.bitmap[..], j)
    {
      var page := place / PAGE + p;
      if page < pa.totalPages { WithBitEffect(pa.bitmap[..], page, true); }
      pa.MarkPageUsed(page);
    }
  }

  /** The bitmap marks a page free exactly when some available entry covers it and
      it is not one of the bitmap's own; all bits past the last page stay set. */
  method PhysmemInit(pa: PageAllocator, entries: seq<Entry>)
    modifies pa
    ensures entries == [] ==>
      pa.totalPages == old(pa.totalPages) && pa.bitmapAddr == old(pa.bitmapAddr) && pa.bitmap == old(pa.bitmap)
    ensures entries != [] ==> fresh(pa.bitmap) && pa.Valid()
    ensures entries != [] && Place(entries).NoRoom? ==>
      pa.totalPages == 0 && pa.bitmapAddr == 0 && pa.bitmap.Length == 0
    ensures entries != [] && Place(entries).Placed? ==>
      pa.totalPages == TotalPages(entries) && pa.bitmapAddr == Place(entries).addr &&
      BootMarks(pa.bitmap[..], entries, pa.bitmapAddr)
  {
    if entries == [] { return; }
    var highest := HighestEnd(entries);
    var size := RoundUpToPage(highest);
    var total := size / PAGE;
    var bytes := (total + 7) / 8;
    BelowWord(entries);
    var found, place := ChoosePlace(entries, size, bytes);
    if !found {
      pa.bitmap, pa.bitmapAddr, pa.totalPages := new byte[0], 0, 0;
      return;
    }
    InstallBitmap(pa, entries, place, total);
  }

  lemma BelowWord(entries: seq<Entry>)
    ensures TotalPages(entries) * PAGE < WORD
  {
    RoundUpIs(Highest(entries));
  }

  /** Lines 193-215. */
  method ChoosePlace(entries: seq<Entry>, size: nat, bytes: nat) returns (found: bool, place: nat)
    requires size == RoundUpToPage(Highest(entries)) && bytes == BitmapBytes(TotalPages(entries))
    ensures Place(entries) == if found then Placed(place) else NoRoom
  {
    found, place := FindRoom(entries, bytes);
    if !found && size > bytes + PAGE {
      place, found := size - bytes - PAGE, true;
    }
  }

  /** Lines 217-237. */
  method InstallBitmap(pa: PageAllocator, entries: seq<Entry>, place: nat, total: nat)
    requires total == TotalPages(entries) && total * PAGE < WORD
    modifies pa
    ensures fresh(pa.bitmap) && pa.Valid() && pa.totalPages == total && pa.bitmapAddr == place
    ensures BootMarks(pa.bitmap[..], entries, place)
  {
    pa.bitmap, pa.bitmapAddr, pa.totalPages := new byte[BitmapBytes(total)], place, total;
    FillBitmap(pa, place);
    ClearAvailable(pa, entries, place);
  }

  /** Lines 223-237. */
  method ClearAvailable(pa: PageAllocator, entries: seq<Entry>, place: nat)
    requires pa.Valid() && pa.totalPages == TotalPages(entries)
    requires Marks(pa.bitmap[..], entries, place, 0)
    modifies pa.bitmap
    ensures BootMarks(pa.bitmap[..], entries, place)
  {
    for n := 0 to |entries|
      invariant Marks(pa.bitmap[..], entries, place, n)
    {
      ghost var s := pa.bitmap[..];
      if entries[n].kind == 1 {
        StartAligned(entries[n]);
        ClearRange(pa, place, Start(entries[n]), End(entries[n]));
      }
      EntryDone(s, pa.bitmap[..], entries, place, n);
    }
  }

  // ----- Where the bitmap goes -----

  /** One bit per page, and no byte more than that takes. */
  lemma BitmapBytesIs(total: nat)
    ensures total <= 8 * BitmapBytes(total) && (total > 0 ==> 8 * (BitmapBytes(total) - 1) < total)
  {
  }

  /** Memory ends with the page the highest entry ends in, unless that is the last of
      the address space. */
  lemma TotalPagesIs(entries: seq<Entry>)
    ensures Highest(entries) + PAGE <= WORD ==>
      Highest(entries) <= TotalPages(entries) * PAGE < Highest(entries) + PAGE
    ensures RoundUpToPage(Highest(entries)) == TotalPages(entries) * PAGE
  {
    RoundUpIs(Highest(entries));
  }

  /** start is the first page boundary of the entry, 0 in the last page. */
  predicate StartsAt(e: Entry, start: nat) {
    start % PAGE == 0 && if e.addr + PAGE <= WORD then e.addr <= start < e.addr + PAGE else start == 0
  }

  /** The last page boundary of the entry, its end taken in 64 bits, is at or behind p. */
  predicate ReachesTo(e: Entry, p: nat) {
    p <= (if e.addr + e.len < WORD then e.addr + e.len else e.addr + e.len - WORD) / PAGE * PAGE
  }

  /** An available entry with room, between its page boundaries, for the bitmap from
      `start` on and a page more. */
  predicate Offers(e: Entry, start: nat, bytes: nat) {
    e.kind == 1 && StartsAt(e, start) && ReachesTo(e, start + bytes + PAGE)
  }

  lemma LimitIs(e: Entry)
    ensures Limit(e) == if e.addr + e.len < WORD then e.addr + e.len else e.addr + e.len - WORD
  {
  }

  lemma StartsAtIs(e: Entry, start: nat)
    ensures StartsAt(e, start) <==> start == Start(e)
  {
    RoundUpIs(e.addr);
  }

  lemma EndIs(e: Entry, p: nat)
    ensures ReachesTo(e, p) <==> p <= End(e)
  {
    LimitIs(e);
    RoundDownIs(Limit(e));
  }

  lemma OffersIff(e: Entry, start: nat, bytes: nat)
    ensures Offers(e, start, bytes) <==> start == Start(e) && HasRoom(e, bytes)
  {
    StartsAtIs(e, start);
    EndIs(e, start + bytes + PAGE);
  }

  /** The bitmap starts where the first entry with room offers it. */
  ghost predicate FirstOffer(entries: seq<Entry>, k: nat, place: nat, bytes: nat) {
    && k < |entries| && Offers(entries[k], place, bytes)
    && forall j, p: nat {:trigger Offers(entries[j], p, bytes)} :: 0 <= j < k ==> !Offers(entries[j], p, bytes)
  }

  ghost predicate NoOffer(entries: seq<Entry>, bytes: nat) {
    forall k, p: nat {:trigger Offers(entries[k], p, bytes)} :: 0 <= k < |entries| ==> !Offers(entries[k], p, bytes)
  }

  /** Where the bitmap goes, on the map's own fields: into the first available entry
      with room; only if there is none, a page and its own length below the end of
      memory, or nowhere if memory is no larger than that. */
  lemma PlaceIs(entries: seq<Entry>)
    ensures var bytes, size := BitmapBytes(TotalPages(entries)), TotalPages(entries) * PAGE;
      || (Place(entries).Placed? && exists k :: FirstOffer(entries, k, Place(entries).addr, bytes))
      || (NoOffer(entries, bytes) && size > bytes + PAGE && Place(entries) == Placed(size - bytes - PAGE))
      || (NoOffer(entries, bytes) && size <= bytes + PAGE && Place(entries) == NoRoom)
  {
    var bytes := BitmapBytes(TotalPages(entries));
    TotalPagesIs(entries);
    RoomIs(entries, bytes);
  }

  lemma RoomIs(entries: seq<Entry>, bytes: nat)
    ensures var i := FirstRoomy(entries, bytes, 0);
      if i < |entries| then FirstOffer(entries, i, Start(entries[i]), bytes) else NoOffer(entries, bytes)
  {
    var i := FirstRoomy(entries, bytes, 0);
    forall j, p: nat | 0 <= j < i
      ensures !Offers(entries[j], p, bytes)
    {
      OffersIff(entries[j], p, bytes);
    }
    if i < |entries| { OffersIff(entries[i], Start(entries[i]), bytes); }
  }

  /** In an entry that does not wrap all of the bitmap is available memory, and so is a
      page behind it. */
  lemma OfferInside(e: Entry, place: nat, bytes: nat)
    requires Offers(e, place, bytes) && e.addr + e.len < WORD && e.addr + PAGE <= WORD
    ensures e.kind == 1 && e.addr <= place && place + bytes + PAGE <= e.addr + e.len
  {
  }

  const BIOS_FIRST: seq<Entry> := [Entry(0xF_0000, 0x1_0000, 2), Entry(0x10_0000, 0x7EE_0000, 1)]

  /** A reserved area in front of memory, large enough, is passed over. */
  lemma ReservedSkipped()
    ensures Place(BIOS_FIRST) == Placed(0x10_0000)
  {
    assert Limit(BIOS_FIRST[1]) == 0x7FE_0000 <= Highest(BIOS_FIRST);
    RoundUpIs(0x7FE_0000);
    assert BitmapBytes(TotalPages(BIOS_FIRST)) == 0xFFC;
    OffersIff(BIOS_FIRST[1], 0x10_0000, 0xFFC);
    PlaceIs(BIOS_FIRST);
    assert !Offers(BIOS_FIRST[0], Place(BIOS_FIRST).addr, 0xFFC);
  }

  /** The pages kept for a bitmap that starts on a page are those it has a byte in. For
      any other the first of these is not kept, and the only page that may be kept
      without need is the one behind the last. */
  lemma BitmapPagesIff(place: nat, bytes: nat, j: nat)
    requires bytes > 0
    ensures place % PAGE == 0 ==> (InBitmap(place, bytes, j) <==> Touches(place, bytes, j))
    ensures place % PAGE != 0 && Touches(place, bytes, j) ==> (InBitmap(place, bytes, j) <==> j != place / PAGE)
    ensures InBitmap(place, bytes, j) && !Touches(place, bytes, j) ==> (j - 1) * PAGE < place + bytes <= j * PAGE
  {
  }

  // ----- What that means for a map -----

  /** All of page j lies in the entry's byte range, and the entry is available. */
  predicate WhollyInside(e: Entry, j: nat) {
    e.kind == 1 && e.addr <= j * PAGE && (j + 1) * PAGE <= e.addr + e.len
  }

  /** The entry's byte range neither wraps nor begins in the last page of the
      address space. */
  predicate Plain(e: Entry) {
    e.addr + PAGE <= WORD && e.addr + e.len < WORD
  }

  lemma PlainEntry(e: Entry, j: nat)
    requires Plain(e)
    ensures InEntry(e, j) <==> WhollyInside(e, j)
  {
    RoundDownIs(e.addr + e.len);
    EarlyStart(e, j);
    Floor(e.addr + e.len, j);
  }

  lemma Ceiling(x: nat, up: nat, j: nat)
    requires up % PAGE == 0 && x <= up < x + PAGE
    ensures up <= j * PAGE <==> x <= j * PAGE
  {
  }

  lemma Floor(x: nat, j: nat)
    ensures j * PAGE < x - x % PAGE <==> (j + 1) * PAGE <= x
  {
  }

  /** Page j lies wholly inside some available entry. */
  ghost predicate InsideSome(entries: seq<Entry>, j: nat) {
    exists k :: 0 <= k < |entries| && WhollyInside(entries[k], j)
  }

  /** An entry that ends in the last page of the address space, available or not, makes
      the end of memory round to 0: there is no page at all. */
  lemma LastPageLosesAll(entries: seq<Entry>, k: nat)
    requires k < |entries| && Limit(entries[k]) + PAGE > WORD
    ensures TotalPages(entries) == 0
  {
    RoundUpIs(Highest(entries));
  }

  /** There is none exactly if that happens, or no entry ends above 0. */
  lemma NoMemoryIff(entries: seq<Entry>)
    ensures TotalPages(entries) == 0 <==>
      (exists k :: 0 <= k < |entries| && Limit(entries[k]) + PAGE > WORD) ||
      (forall k :: 0 <= k < |entries| ==> Limit(entries[k]) == 0)
  {
    RoundUpIs(Highest(entries));
    if k :| 0 <= k < |entries| && Limit(entries[k]) + PAGE > WORD {
      LastPageLosesAll(entries, k);
    }
  }

  /** The start rounds to 0. */
  predicate Late(e: Entry) {
    e.addr + PAGE > WORD
  }

  /** An available entry whose end wraps. */
  predicate Wraps(e: Entry) {
    e.kind == 1 && e.addr + e.len >= WORD
  }

  /** Page j counts as covered though the entry begins behind it. */
  predicate Gained(e: Entry, j: nat) {
    Wraps(e) && Late(e) && (j + 1) * PAGE <= e.addr + e.len - WORD
  }

  /** Page j lies inside but does not count. */
  predicate Missed(e: Entry, j: nat) {
    Wraps(e) && e.addr <= j * PAGE
  }

  /** On pages of memory an entry that does not wrap is handled as it should be. */
  lemma UnwrappedEntry(entries: seq<Entry>, k: nat, j: nat)
    requires k < |entries| && j < TotalPages(entries) && !Wraps(entries[k])
    ensures InEntry(entries[k], j) <==> WhollyInside(entries[k], j)
  {
    var e := entries[k];
    if e.kind == 1 {
      if Late(e) { LastPageLosesAll(entries, k); }
      PlainEntry(e, j);
    }
  }

  lemma WrappedEntry(entries: seq<Entry>, k: nat, j: nat)
    requires k < |entries| && j < TotalPages(entries) && Wraps(entries[k])
    ensures InEntry(entries[k], j) <==> Gained(entries[k], j)
    ensures WhollyInside(entries[k], j) <==> Missed(entries[k], j)
  {
    BelowWord(entries);
    WrappedEnd(entries[k], j);
    if Late(entries[k]) { RoundUpIs(entries[k].addr); } else { EarlyStart(entries[k], j); }
  }

  lemma WrappedEnd(e: Entry, j: nat)
    requires Wraps(e)
    ensures j * PAGE < End(e) <==> (j + 1) * PAGE <= e.addr + e.len - WORD
  {
    RoundDownIs(e.addr + e.len - WORD);
    Floor(e.addr + e.len - WORD, j);
  }

  lemma EarlyStart(e: Entry, j: nat)
    requires !Late(e)
    ensures Start(e) <= j * PAGE <==> e.addr <= j * PAGE
  {
    RoundUpIs(e.addr);
    Ceiling(e.addr, Start(e), j);
  }

  /** Inside some available entry that does not wrap. */
  ghost predicate InsideUnwrapped(entries: seq<Entry>, j: nat) {
    exists k :: 0 <= k < |entries| && !Wraps(entries[k]) && WhollyInside(entries[k], j)
  }

  ghost predicate SomeGained(entries: seq<Entry>, j: nat) {
    exists k :: 0 <= k < |entries| && Gained(entries[k], j)
  }

  ghost predicate SomeMissed(entries: seq<Entry>, j: nat) {
    exists k :: 0 <= k < |entries| && Missed(entries[k], j)
  }

  lemma CoveredIs(entries: seq<Entry>, j: nat)
    requires j < TotalPages(entries)
    ensures InSome(entries, |entries|, j) <==> InsideUnwrapped(entries, j) || SomeGained(entries, j)
  {
    if InSome(entries, |entries|, j) {
      var k :| 0 <= k < |entries| && InEntry(entries[k], j);
      if Wraps(entries[k]) { WrappedEntry(entries, k, j); } else { UnwrappedEntry(entries, k, j); }
    }
    if InsideUnwrapped(entries, j) {
      var k :| 0 <= k < |entries| && !Wraps(entries[k]) && WhollyInside(entries[k], j);
      UnwrappedEntry(entries, k, j);
    }
    if SomeGained(entries, j) {
      var k :| 0 <= k < |entries| && Gained(entries[k], j);
      WrappedEntry(entries, k, j);
    }
  }

  lemma InsideIs(entries: seq<Entry>, j: nat)
    requires j < TotalPages(entries)
    ensures InsideSome(entries, j) <==> InsideUnwrapped(entries, j) || SomeMissed(entries, j)
  {
    if InsideSome(entries, j) {
      var k :| 0 <= k < |entries| && WhollyInside(entries[k], j);
      if Wraps(entries[k]) { WrappedEntry(entries, k, j); }
    }
    if SomeMissed(entries, j) {
      var k :| 0 <= k < |entries| && Missed(entries[k], j);
      WrappedEntry(entries, k, j);
    }
  }

  /** For every map: the mark of a page of memory is right, free if and only if the
      page lies wholly inside some available entry and is none of the bitmap's, if
      and only if it is one of the bitmap's, or lies inside an available entry that
      does not wrap, or the wrapping entries gain it exactly if they miss it. */
  lemma FreeIffInside(s: seq<byte>, entries: seq<Entry>, place: nat, j: nat)
    requires BootMarks(s, entries, place) && j < TotalPages(entries)
    ensures (PageFree(s, TotalPages(entries), j) <==> InsideSome(entries, j) && !InBitmap(place, |s|, j)) <==>
      InBitmap(place, |s|, j) || InsideUnwrapped(entries, j) || (SomeGained(entries, j) <==> SomeMissed(entries, j))
  {
    CoveredIs(entries, j);
    InsideIs(entries, j);
  }

  /** So on a map without wrapping entries every mark is right. */
  lemma NoneWrapsAllRight(s: seq<byte>, entries: seq<Entry>, place: nat, j: nat)
    requires forall k :: 0 <= k < |entries| ==> !Wraps(entries[k])
    requires BootMarks(s, entries, place) && j < TotalPages(entries)
    ensures PageFree(s, TotalPages(entries), j) <==> InsideSome(entries, j) && !InBitmap(place, |s|, j)
  {
    FreeIffInside(s, entries, place, j);
  }

  /** From boot through any legal run, on any map: a page held was free after boot. It
      shares no byte with the bitmap, unless the bitmap starts inside it, and lies
      wholly inside an available entry, unless only a wrapping entry gained it. */
  lemma {:induction false} BootThenRun(s: seq<byte>, entries: seq<Entry>, place: nat, rs: seq<Request>, j: nat)
    requires BootMarks(s, entries, place) && LegalRun(TotalPages(entries), Pages(s, map[]), rs)
    requires Held(Run(TotalPages(entries), Pages(s, map[]), rs).held, j)
    ensures j < TotalPages(entries) && PageFree(s, TotalPages(entries), j)
    ensures j * PAGE >= place + |s| || place >= (j + 1) * PAGE || (place % PAGE != 0 && j == place / PAGE)
    ensures InsideSome(entries, j) || SomeGained(entries, j)
  {
    var total := TotalPages(entries);
    BelowWord(entries);
    StartInvariant(total, s);
    var n := RunKeeps(total, s, Pages(s, map[]), rs);
    MarkPagesEffect(s, total, 0, n, true);
    HeldBelowTotal(total, MarkPages(s, total, 0, n, true), Run(total, Pages(s, map[]), rs), j);
    CoveredIs(entries, j);
    InsideIs(entries, j);
    if j * PAGE < place + |s| && place < (j + 1) * PAGE {
      BitmapPageFreeIff(s, entries, place, j);
    }
  }

  lemma HeldBelowTotal(total: nat, s0: seq<byte>, st: Pages, j: nat)
    requires Invariant(total, s0, st) && Held(st.held, j)
    ensures j < total && PageFree(s0, total, j)
  {
    var a :| a in st.held && Covers(a, st.held[a], j);
    assert WellGranted(total, a, st.held[a]);
  }

  /** The allocator never hands out a page under its own bitmap, except one: when the
      bitmap starts in the middle of a page (as the fallback places it), that first
      page is free if the map says so. */
  lemma BitmapPageFreeIff(s: seq<byte>, entries: seq<Entry>, place: nat, j: nat)
    requires BootMarks(s, entries, place) && j < TotalPages(entries)
    requires j * PAGE < place + |s| && place < (j + 1) * PAGE
    ensures PageFree(s, TotalPages(entries), j) <==>
      place % PAGE != 0 && j == place / PAGE && InSome(entries, |entries|, j)
  {
  }

  /** A roomy region starts on a page boundary, so there the bitmap is safe. */
  lemma {:induction false} RoomyIsAligned(entries: seq<Entry>)
    ensures var i := FirstRoomy(entries, BitmapBytes(TotalPages(entries)), 0);
      i < |entries| ==> Place(entries) == Placed(Start(entries[i])) && Start(entries[i]) % PAGE == 0
  {
    var i := FirstRoomy(entries, BitmapBytes(TotalPages(entries)), 0);
    if i < |entries| { StartAligned(entries[i]); }
  }

  /** The entry counts on exactly the pages of memory wholly inside it. */
  ghost predicate Exact(e: Entry, total: nat) {
    forall j: nat :: j < total ==> (InEntry(e, j) <==> WhollyInside(e, j))
  }

  lemma LateExactIff(entries: seq<Entry>, k: nat)
    requires k < |entries| && Wraps(entries[k]) && Late(entries[k]) && TotalPages(entries) > 0
    ensures Exact(entries[k], TotalPages(entries)) <==> entries[k].addr + entries[k].len < WORD + PAGE
  {
    var e, total := entries[k], TotalPages(entries);
    BelowWord(entries);
    forall j: nat | j < total
      ensures (InEntry(e, j) <==> Gained(e, j)) && !WhollyInside(e, j)
    {
      WrappedEntry(entries, k, j);
    }
    assert Gained(e, 0) <==> e.addr + e.len >= WORD + PAGE;
  }

  lemma EarlyExactIff(entries: seq<Entry>, k: nat)
    requires k < |entries| && Wraps(entries[k]) && !Late(entries[k])
    ensures Exact(entries[k], TotalPages(entries)) <==> TotalPages(entries) * PAGE <= Start(entries[k])
  {
    var e, total := entries[k], TotalPages(entries);
    forall j: nat | j < total
      ensures !InEntry(e, j) && (WhollyInside(e, j) <==> e.addr <= j * PAGE)
    {
      WrappedEntry(entries, k, j);
    }
    RoundUpIs(e.addr);
    var j := Start(e) / PAGE;
    assert j * PAGE == Start(e);
    if j < total { assert WhollyInside(e, j); }
    if exists i: nat :: i < total && WhollyInside(e, i) {
      var i: nat :| i < total && WhollyInside(e, i);
      Ceiling(e.addr, Start(e), i);
    }
  }

  /** An available entry of a map with memory is handled exactly if and only if it does
      not wrap, or begins in the last page of the address space and wraps by less than
      a page, or begins elsewhere and behind all memory. */
  lemma EntryExactIff(entries: seq<Entry>, k: nat)
    requires k < |entries| && entries[k].kind == 1 && TotalPages(entries) > 0
    ensures var e := entries[k];
      Exact(e, TotalPages(entries)) <==>
      !Wraps(e) ||
      if Late(e) then e.addr + e.len < WORD + PAGE else TotalPages(entries) * PAGE <= Start(e)
  {
    if !Wraps(entries[k]) {
      forall j: nat | j < TotalPages(entries)
        ensures InEntry(entries[k], j) <==> WhollyInside(entries[k], j)
      {
        UnwrappedEntry(entries, k, j);
      }
    } else if Late(entries[k]) {
      LateExactIff(entries, k);
    } else {
      EarlyExactIff(entries, k);
    }
  }

  /** A bitmap placed at address 0 is indistinguishable from none: every request is
      refused from then on, however much memory is free. This happens exactly when
      the first roomy region starts at (or rounds to) 0. */
  lemma PlacedAtZeroIff(entries: seq<Entry>)
    ensures var i := FirstRoomy(entries, BitmapBytes(TotalPages(entries)), 0);
      Place(entries) == Placed(0) <==> i < |entries| && Start(entries[i]) == 0
    ensures Place(entries) == Placed(0) ==> forall s: seq<byte>, size: nat, alignment: nat ::
      TotalPages(entries) <= 8 * |s| ==>
      Answer(Place(entries).addr, s, TotalPages(entries), size, alignment) == (0, s)
  {
  }

  // ----- Maps that go wrong -----

  const GAINING: seq<Entry> := [Entry(0x10_0000, 0x1_0000, 1), Entry(0xFFFF_FFFF_FFFF_F800, 0x2800, 1)]
  const MISSING: seq<Entry> := [Entry(0x10_0000, 0x1_0000, 1), Entry(0x1000, 0xFFFF_FFFF_FFFF_F000, 1)]

  /** 64 KiB at 1 MiB, and an entry that ends no higher. */
  lemma SmallMap(entries: seq<Entry>)
    requires |entries| == 2 && entries[0] == Entry(0x10_0000, 0x1_0000, 1) && Limit(entries[1]) <= 0x11_0000
    ensures TotalPages(entries) == 0x110 && Place(entries) == Placed(0x10_0000)
  {
    assert Limit(entries[0]) <= Highest(entries);
    RoundUpIs(0x11_0000);
    RoundUpIs(0x10_0000);
    RoundDownIs(0x11_0000);
    assert HasRoom(entries[0], BitmapBytes(0x110));
  }

  /** Page 1 is free after boot though no entry holds it. */
  lemma PageGained(s: seq<byte>)
    requires BootMarks(s, GAINING, 0x10_0000)
    ensures Place(GAINING) == Placed(0x10_0000)
    ensures PageFree(s, TotalPages(GAINING), 1) && !InsideSome(GAINING, 1)
  {
    SmallMap(GAINING);
    assert Gained(GAINING[1], 1);
    CoveredIs(GAINING, 1);
  }

  /** Page 1 lies inside an available entry, and away from the bitmap, yet stays used. */
  lemma PageMissed(s: seq<byte>)
    requires BootMarks(s, MISSING, 0x10_0000)
    ensures Place(MISSING) == Placed(0x10_0000)
    ensures !PageFree(s, TotalPages(MISSING), 1) && InsideSome(MISSING, 1) && !InBitmap(0x10_0000, |s|, 1)
  {
    SmallMap(MISSING);
    assert WhollyInside(MISSING[1], 1);
    CoveredIs(MISSING, 1);
  }

  /** An entry within the last page, reserved or not, leaves no memory at all. */
  lemma NoMemoryLeft()
    ensures TotalPages([Entry(0x10_0000, 0x7EE_0000, 1), Entry(0xFFFF_FFFF_FFFF_F800, 0x400, 2)]) == 0
  {
    LastPageLosesAll([Entry(0x10_0000, 0x7EE_0000, 1), Entry(0xFFFF_FFFF_FFFF_F800, 0x400, 2)], 1);
  }

  const TWO_REGIONS: seq<Entry> := [Entry(0, 0x9FC00, 1), Entry(0x10_0000, 0x7EE_0000, 1)]

  lemma TwoRegions()
    ensures TotalPages(TWO_REGIONS) == 0x7FE0
  {
    assert Limit(TWO_REGIONS[0]) == 0x9FC00 && Limit(TWO_REGIONS[1]) == 0x7FE_0000;
    assert Highest(TWO_REGIONS) == 0x7FE_0000;
    RoundUpIs(0x7FE_0000);
  }

  lemma FirstRegion(e: Entry)
    requires e == Entry(0, 0x9FC00, 1)
    ensures Start(e) == 0 && End(e) == 0x9F000
  {
    RoundUpIs(0);
    RoundDownIs(0x9FC00);
  }

  /** An ordinary PC with 128 MiB: conventional memory from 0 and the rest from 1 MiB
      up. The bitmap goes to 0, so nothing is ever granted, though page 1 is free. */
  lemma OrdinaryMapRefused(s: seq<byte>, size: nat, alignment: nat)
    requires BootMarks(s, TWO_REGIONS, 0)
    ensures Place(TWO_REGIONS) == Placed(0) && PageFree(s, TotalPages(TWO_REGIONS), 1)
    ensures Answer(0, s, TotalPages(TWO_REGIONS), size, alignment) == (0, s)
  {
    TwoRegions();
    FirstRegion(TWO_REGIONS[0]);
    assert HasRoom(TWO_REGIONS[0], BitmapBytes(0x7FE0));
    PlacedAtZeroIff(TWO_REGIONS);
    assert InEntry(TWO_REGIONS[0], 1);
    assert InSome(TWO_REGIONS, 2, 1);
  }

  const TWO_PAGES: seq<Entry> := [Entry(0x1000, 0x1000, 1), Entry(0x2000, 0x1000, 2)]

  /** No region has room, so the one-byte bitmap goes to 0x1FFF, the last byte of
      page 1; that page is free after boot. */
  lemma {:induction false} FallbackExposed(s: seq<byte>)
    requires BootMarks(s, TWO_PAGES, 0x1FFF)
    ensures Place(TWO_PAGES) == Placed(0x1FFF) && PageFree(s, TotalPages(TWO_PAGES), 1)
  {
    assert TWO_PAGES[..1] == [TWO_PAGES[0]] && TWO_PAGES[..1][..0] == [];
    assert Highest(TWO_PAGES) == 0x3000;
    RoundUpIs(0x3000);
    RoundUpIs(0x1000);
    RoundDownIs(0x2000);
    assert InEntry(TWO_PAGES[0], 1);
    assert InSome(TWO_PAGES, 2, 1);
    BitmapPageFreeIff(s, TWO_PAGES, 0x1FFF, 1);
  }
}
