/** The physical frame allocator: two bitmaps, first-fit contiguous allocation, checked
    freeing and a running count of free frames. */
module PhysicalMemory {
  import opened Outcomes
  import opened Sets
  import opened Bitmap
  import opened Frames
  import opened BootMap
  import opened BootExact

  class PhysicalMemoryManager {
    var reservedBitmap: array<bv8>
    var allocatableBitmap: array<bv8>
    var bitmapSize: nat
    var frameCount: nat
    var usableFrames: nat

    constructor ()
      ensures fresh(reservedBitmap) && fresh(allocatableBitmap)
    {
      reservedBitmap := new bv8[0];
      allocatableBitmap := new bv8[0];
      bitmapSize, frameCount, usableFrames := 0, 0, 0;
    }

    /** Both bitmaps have the recorded size. */
    predicate Shaped()
      reads this
    {
      && reservedBitmap.Length == allocatableBitmap.Length == bitmapSize
      && reservedBitmap != allocatableBitmap
      && frameCount == 8 * bitmapSize
      && frameCount * PAGE_SIZE <= WORD
    }

    /** The abstract value: which frames exist, are reserved, are handed out. */
    ghost function View(): Pool
      reads this, reservedBitmap, allocatableBitmap
    {
      Pool(frameCount, Marked(reservedBitmap[..]), Marked(allocatableBitmap[..]))
    }

    /** The count of free frames is exact and every bitmap bit is consistent. */
    ghost predicate Valid()
      reads this, reservedBitmap, allocatableBitmap
    {
      && Shaped()
      && View().Valid()
      && usableFrames == |View().FreeSet()|
    }

    function IsPageReserved(page: nat): bool
      requires Shaped() && page < frameCount
      reads this, reservedBitmap
    {
      ByteBit(reservedBitmap[page / 8], page % 8)
    }

    function IsPageAllocated(page: nat): bool
      requires Shaped() && page < frameCount
      reads this, allocatableBitmap
    {
      ByteBit(allocatableBitmap[page / 8], page % 8)
    }

    lemma FreeMeansBothClear(page: nat)
      requires Shaped() && page < frameCount
      ensures IsPageReserved(page) == (page in View().reserved)
      ensures IsPageAllocated(page) == (page in View().taken)
      ensures View().Free(page) == (!IsPageReserved(page) && !IsPageAllocated(page))
    {
      assert BitAt(reservedBitmap[..], page) == IsPageReserved(page);
      assert BitAt(allocatableBitmap[..], page) == IsPageAllocated(page);
    }

    /** The scan of AllocatePages: the lowest free run of pageCount frames. */
    method FindRun(pageCount: nat) returns (run: Option<nat>)
      requires Valid() && pageCount > 0
      ensures run == FirstFit(View(), pageCount, 0)
    {
      var totalPages := frameCount;
      var runStart, runLength, page := 0, 0, 0;
      while page < totalPages
        invariant page <= totalPages
        invariant runLength < pageCount && runLength <= page
        invariant runLength > 0 ==> runStart == page - runLength
        invariant forall p | page - runLength <= p < page :: View().Free(p)
        invariant forall s | 0 <= s < page - runLength :: !FreeRun(View(), s, pageCount)
      {
        FreeMeansBothClear(page);
        if !IsPageReserved(page) && !IsPageAllocated(page) {
          if runLength == 0 {
            runStart := page;
          }
          runLength := runLength + 1;
          if runLength == pageCount {
            break;
          }
        } else {
          forall s: nat | page - runLength <= s <= page ensures !FreeRun(View(), s, pageCount) {
            assert s <= page < s + pageCount;
          }
          runLength := 0;
        }
        page := page + 1;
      }
      FirstFitExact(View(), pageCount, 0);
      if runLength < pageCount {
        forall s: nat ensures !FreeRun(View(), s, pageCount) {
          if s >= page - runLength {
            assert !View().Free(s + pageCount - 1);
          }
        }
        return None;
      }
      assert FreeRun(View(), runStart, pageCount);
      return Some(runStart);
    }

    /** The marking loop of AllocatePages. */
    method MarkRun(runStart: nat, pageCount: nat)
      requires Shaped() && runStart + pageCount <= frameCount
      modifies allocatableBitmap
      ensures Marked(allocatableBitmap[..]) == old(Marked(allocatableBitmap[..])) + Span(runStart, pageCount)
    {
      ghost var was := Marked(allocatableBitmap[..]);
      var page := runStart;
      while page < runStart + pageCount
        invariant runStart <= page <= runStart + pageCount
        invariant Marked(allocatableBitmap[..]) == was + Span(runStart, page - runStart)
      {
        SetBit(allocatableBitmap, page);
        SpanStep(runStart, page - runStart);
        page := page + 1;
      }
    }

    method AllocatePages(pageCount: nat) returns (address: nat)
      requires Valid()
      modifies this`usableFrames, allocatableBitmap
      ensures Valid()
      ensures View() == Allocate(old(View()), pageCount).after
      ensures address == Address(Allocate(old(View()), pageCount).run)
      ensures address < WORD
    {
      if pageCount == 0 {
        return 0;
      }
      var run := FindRun(pageCount);
      AllocateKeeps(View(), pageCount);
      if run.None? {
        return 0;
      }
      RunFits(View(), run.value, pageCount);
      MarkRun(run.value, pageCount);
      usableFrames := usableFrames - pageCount;
      return run.value * PAGE_SIZE;
    }

    /** The checking and clearing loop of FreePages. */
    method ClearRun(startPage: nat, endPage: nat) returns (r: Outcome)
      requires Shaped() && View().Valid()
      modifies allocatableBitmap
      ensures var n := if startPage <= endPage then endPage - startPage else 0;
              && (r.Done? <==> Span(startPage, n) <= old(View()).taken)
              && (r.Done? ==> View() == Release(old(View()), startPage, n))
    {
      ghost var was := View();
      ghost var n := if startPage <= endPage then endPage - startPage else 0;
      var page := startPage;
      while page < endPage
        invariant startPage <= page <= startPage + n
        invariant Span(startPage, page - startPage) <= was.taken
        invariant View() == Release(was, startPage, page - startPage)
        decreases startPage + n - page
      {
        assert page in Span(startPage, n) && page !in Span(startPage, page - startPage);
        if page / 8 >= bitmapSize {
          assert page !in was.taken;
          return Panic("Page index out of bounds");
        }
        FreeMeansBothClear(page);
        if IsPageReserved(page) {
          return Panic("Attempted to free a reserved page");
        }
        if !IsPageAllocated(page) {
          return Panic("Attempted to free a page that is not allocated");
        }
        ClearBit(allocatableBitmap, page);
        SpanStep(startPage, page - startPage);
        page := page + 1;
      }
      return Done;
    }

    /** FreePages once the start is known to be aligned. */
    method FreeFrames(startPage: nat, pageCount: nat) returns (r: Outcome)
      requires Valid() && startPage < WORD && pageCount < WORD
      modifies this`usableFrames, allocatableBitmap
      ensures startPage + pageCount < WORD ==>
                && (r.Done? <==> Span(startPage, pageCount) <= old(View()).taken)
                && (r.Done? ==> Valid() && View() == Release(old(View()), startPage, pageCount))
      ensures startPage + pageCount >= WORD ==> r.Done? && View() == old(View()) && !Valid()
    {
      ghost var was := View();
      FreeBound(was);
      r := ClearRun(startPage, WrapAdd(startPage, pageCount));
      if r.Panic? {
        return;
      }
      if startPage + pageCount < WORD {
        GiveRun(was, startPage, pageCount);
        FreeBound(View());
      } else {
        assert was.taken - Span(startPage, 0) == was.taken;
      }
      usableFrames := WrapAdd(usableFrames, pageCount);
    }

    /** Freeing panics on a misaligned start or on any frame that is not handed out. The end
        of the range is computed modulo 2^64: a page count that wraps it frees nothing but
        is still added to the count, and only then does the count go wrong. */
    method FreePages(start: nat, pageCount: nat) returns (r: Outcome)
      requires Valid() && start < WORD && pageCount < WORD
      modifies this`usableFrames, allocatableBitmap
      ensures start % PAGE_SIZE != 0 ==> r.Panic?
      ensures start % PAGE_SIZE == 0 && start / PAGE_SIZE + pageCount < WORD ==>
                && (r.Done? <==> Span(start / PAGE_SIZE, pageCount) <= old(View()).taken)
                && (r.Done? ==> Valid() && View() == Release(old(View()), start / PAGE_SIZE, pageCount))
      ensures start % PAGE_SIZE == 0 && start / PAGE_SIZE + pageCount >= WORD ==>
                r.Done? && View() == old(View()) && !Valid()
    {
      if start % PAGE_SIZE != 0 {
        return Panic("Invalid page start address");
      }
      r := FreeFrames(start / PAGE_SIZE, pageCount);
    }

    /** Sets up the allocator from the memory map. It ends well exactly when some region has
        room for the bitmaps, the first such region does not start at address 0 (which the
        source takes for "none found"), and the self-test's requests can be granted; the
        frames left unreserved are then exactly the available ones. */
    method Initialize(memmap: seq<MemoryEntry>) returns (r: Outcome)
      requires WellFormed(memmap)
      modifies this
      ensures r.Done? <==>
              && Placement(memmap).Some? && Placement(memmap).value.start != 0
              && GetAll(BootPool(memmap, Placement(memmap).value), SELF_TEST).Some?
      ensures r.Done? ==>
                && Valid() && fresh(reservedBitmap) && fresh(allocatableBitmap)
                && View() == BootPool(memmap, Placement(memmap).value)
      ensures r.Done? <==> exists f :: BootedFrom(memmap, f) && GetAll(f, [1, 2, 2560]).Some?
      ensures r.Done? ==> BootedFrom(memmap, View())
    {
      BootsExactly(memmap, [1, 2, 2560]);
      var layout, carved := PlaceBitmaps(memmap);
      if layout.None? {
        return Panic("No valid memory region found for the bitmaps");
      }
      SetUp(memmap, carved, layout.value);
      BootPoolExact(memmap);
      var same;
      r, same := TestAllocationAndFreeing();
    }

    /** Initialize after the bitmaps have a place and before the self-test. */
    method SetUp(ghost memmap: seq<MemoryEntry>, carved: seq<Region>, layout: Layout)
      requires Ready(memmap, carved, layout)
      modifies this
      ensures fresh(reservedBitmap) && fresh(allocatableBitmap)
      ensures Valid() && View() == BootPool(memmap, layout)
    {
      bitmapSize := layout.bytes;
      reservedBitmap := MarkReserved(memmap, carved, layout);
      allocatableBitmap := new bv8[bitmapSize](_ => 0x00);
      AllZeros(allocatableBitmap[..]);
      frameCount := bitmapSize * 8;
      usableFrames := CountClear(reservedBitmap);
      assert View() == BootPool(memmap, layout);
      assert View().FreeSet() == ClearBelow(reservedBitmap[..], 8 * reservedBitmap.Length);
      assert !Available(memmap, layout, 0);
    }

    /** The three requests of the self-test: 1 page, 2 pages and 10 MiB. */
    method AllocateThree() returns (one: nat, two: nat, many: nat)
      requires Valid()
      modifies this`usableFrames, allocatableBitmap
      ensures Valid() && one < WORD && two < WORD && many < WORD
      ensures one == 0 || two == 0 || many == 0 <==> GetAll(old(View()), SELF_TEST).None?
      ensures one != 0 && two != 0 && many != 0 ==>
                GetAll(old(View()), SELF_TEST) == Some((TestBlocks(one, two, many), View()))
      ensures one % PAGE_SIZE == two % PAGE_SIZE == many % PAGE_SIZE == 0
    {
      GetThree(View(), 1, 2, 2560);
      AddressExact(View(), 1);
      one := AllocatePages(1);
      AddressExact(View(), 2);
      two := AllocatePages(2);
      AddressExact(View(), 2560);
      many := AllocatePages(2560);
    }

    method FreeThree(one: nat, two: nat, many: nat) returns (r: Outcome)
      requires Valid() && one < WORD && two < WORD && many < WORD
      requires one % PAGE_SIZE == two % PAGE_SIZE == many % PAGE_SIZE == 0
      modifies this`usableFrames, allocatableBitmap
      ensures r.Done? <==> PutAll(old(View()), TestBlocks(one, two, many)).Some?
      ensures r.Done? ==> Valid() && Some(View()) == PutAll(old(View()), TestBlocks(one, two, many))
    {
      ghost var f := View();
      PutThree(f, Block(one / PAGE_SIZE, 1), Block(two / PAGE_SIZE, 2), Block(many / PAGE_SIZE, 2560));
      r := FreePages(one, 1);
      if r.Panic? { return; }
      r := FreePages(two, 2);
      if r.Panic? { return; }
      r := FreePages(many, 2560);
    }

    /** The boot self-test passes exactly when its three requests can be granted; it then
        reallocates the same addresses and leaves the allocator as it was. A refused request
        is answered 0, and freeing address 0 panics because frame 0 is reserved. */
    method TestAllocationAndFreeing() returns (r: Outcome, same: bool)
      requires Valid()
      modifies this`usableFrames, allocatableBitmap
      ensures r.Done? <==> GetAll(old(View()), SELF_TEST).Some?
      ensures r.Done? ==> Valid() && View() == old(View()) && same
    {
      same := true;
      ghost var f := View();
      var one, two, many := AllocateThree();
      ghost var g := View();
      if one != 0 && two != 0 && many != 0 {
        Replay(f, SELF_TEST, TestBlocks(one, two, many));
      } else {
        ZeroBlockStops(g, TestBlocks(one, two, many));
      }
      r := FreeThree(one, two, many);
      if r.Panic? { return; }
      var one', two', many' := AllocateThree();
      same := one' == one && two' == two && many' == many;
      BlocksDetermineAddresses(one, two, many, one', two', many');
      r := FreeThree(one', two', many');
    }
  }

  // ---- The loops of Initialize -----------------------------------------------------

  lemma CollectedStep(m: seq<MemoryEntry>, i: nat)
    requires i < |m|
    ensures Collected(m[..i + 1]) == Collected(m[..i]) + if Kept(m[i]) then [Region(m[i].base, m[i].length)] else []
  {
    assert m[..i + 1][..i] == m[..i];
  }

  lemma HighestStep(rs: seq<Region>, r: Region)
    ensures Highest(rs + [r]) == if Highest(rs) < r.End() then r.End() else Highest(rs)
  {
    assert (rs + [r])[..|rs|] == rs;
  }

  method Collect(m: seq<MemoryEntry>) returns (regions: seq<Region>, endAddr: nat)
    ensures regions == Collected(m) && endAddr == Highest(regions)
  {
    regions, endAddr := [], 0;
    for i := 0 to |m|
      invariant regions == Collected(m[..i]) && endAddr == Highest(regions)
    {
      CollectedStep(m, i);
      var e := m[i];
      if !e.usable || e.base + e.length <= MIB {
        continue;
      }
      HighestStep(regions, Region(e.base, e.length));
      regions := regions + [Region(e.base, e.length)];
      if endAddr < e.base + e.length {
        endAddr := e.base + e.length;
      }
    }
    assert m[..|m|] == m;
  }

  method FindRoom(regions: seq<Region>, required: nat) returns (room: Option<nat>)
    requires required % PAGE_SIZE == 0
    ensures room == FirstRoom(regions, required / PAGE_SIZE, 0)
  {
    var k := 0;
    while k < |regions|
      invariant k <= |regions|
      invariant FirstRoom(regions, required / PAGE_SIZE, 0) == FirstRoom(regions, required / PAGE_SIZE, k)
    {
      var start, end := AlignUp(regions[k].addr), AlignDown(regions[k].End());
      var size := if end > start then end - start else 0;
      if size >= required {
        return Some(k);
      }
      k := k + 1;
    }
    return None;
  }

  /** The reserved bitmap: everything but the regions, then the first megabyte and the
      bitmaps again. */
  method MarkReserved(ghost m: seq<MemoryEntry>, regions: seq<Region>, layout: Layout) returns (a: array<bv8>)
    requires Ready(m, regions, layout)
    ensures fresh(a) && a.Length == layout.bytes
    ensures Marked(a[..]) == BootPool(m, layout).reserved
  {
    a := new bv8[layout.bytes](_ => 0xFF);
    Unreserve(a, regions);
    ReserveRange(a, 0, MIB / PAGE_SIZE);
    ReserveRange(a, layout.start, ExtraEnd(layout));
    forall p: nat ensures p in Marked(a[..]) <==> p in BootPool(m, layout).reserved {
      ExtraRangeIsRedundant(layout, p);
    }
  }

  method Unreserve(a: array<bv8>, regions: seq<Region>)
    requires forall i | 0 <= i < a.Length :: a[i] == 0xFF
    requires forall j | 0 <= j < |regions| :: FrameDown(regions[j].End()) <= 8 * a.Length
    modifies a
    ensures forall p: nat :: p in Marked(a[..]) <==> p < 8 * a.Length && !InSome(regions, p)
  {
    forall p: nat ensures p in Marked(a[..]) <==> p < 8 * a.Length { AllOnes(a[..], p); }
    for j := 0 to |regions|
      invariant forall p: nat :: p in Marked(a[..]) <==> p < 8 * a.Length && !InSome(regions[..j], p)
    {
      UnreserveRegion(a, regions[j]);
      forall p: nat ensures InSome(regions[..j + 1], p) <==> InSome(regions[..j], p) || regions[j].Holds(p) {
        InSomeStep(regions, j, p);
      }
    }
    assert regions[..|regions|] == regions;
  }

  lemma InSomeStep(rs: seq<Region>, j: nat, p: nat)
    requires j < |rs|
    ensures InSome(rs[..j + 1], p) <==> InSome(rs[..j], p) || rs[j].Holds(p)
  {
    if InSome(rs[..j], p) {
      var i :| 0 <= i < j && rs[..j][i].Holds(p);
      assert rs[..j + 1][i].Holds(p);
    }
    if rs[j].Holds(p) {
      assert rs[..j + 1][j].Holds(p);
    }
  }

  method UnreserveRegion(a: array<bv8>, region: Region)
    requires FrameDown(region.End()) <= 8 * a.Length
    modifies a
    ensures forall p: nat :: p in Marked(a[..]) <==> p in old(Marked(a[..])) && !region.Holds(p)
  {
    ghost var was := Marked(a[..]);
    var addr, end := AlignUp(region.addr), AlignDown(region.End());
    ghost var first, last := FrameUp(region.addr), FrameDown(region.End());
    ghost var next := first;
    while addr < end
      invariant addr == next * PAGE_SIZE && first <= next && (next <= last || next == first)
      invariant forall p: nat :: p in Marked(a[..]) <==> p in was && !(first <= p < next)
      decreases end - addr
    {
      var frameIndex := addr / PAGE_SIZE;
      assert frameIndex == next;
      ClearBit(a, frameIndex);
      addr := addr + PAGE_SIZE;
      next := next + 1;
    }
    forall p: nat ensures region.Holds(p) <==> first <= p < next {
      RoundedEnds(region, p);
    }
  }

  method ReserveRange(a: array<bv8>, from: nat, to: nat)
    requires to <= 8 * a.Length
    modifies a
    ensures forall p: nat :: p in Marked(a[..]) <==> p in old(Marked(a[..])) || from <= p < to
  {
    var page := from;
    while page < to
      invariant from <= page && (page <= to || page == from)
      invariant forall p: nat :: p in Marked(a[..]) <==> p in old(Marked(a[..])) || from <= p < page
    {
      SetBit(a, page);
      page := page + 1;
    }
  }

  ghost function ClearBelow(s: seq<bv8>, n: nat): set<nat>
    requires n <= 8 * |s|
  {
    set p | 0 <= p < n && !BitAt(s, p)
  }

  lemma ClearBelowStep(s: seq<bv8>, n: nat)
    requires n < 8 * |s|
    ensures |ClearBelow(s, n + 1)| == |ClearBelow(s, n)| + if BitAt(s, n) then 0 else 1
  {
    assert ClearBelow(s, n + 1) == ClearBelow(s, n) + if BitAt(s, n) then {} else {n};
  }

  method CountClear(a: array<bv8>) returns (n: nat)
    ensures n == |ClearBelow(a[..], 8 * a.Length)|
  {
    n := 0;
    var i := 0;
    assert ClearBelow(a[..], 0) == {};
    while i < 8 * a.Length
      invariant 0 <= i <= 8 * a.Length
      invariant n == |ClearBelow(a[..], i)|
    {
      ClearBelowStep(a[..], i);
      if !ByteBit(a[i / 8], i % 8) {
        n := n + 1;
      }
      i := i + 1;
    }
  }

  /** What the placement leaves the marking loops to rely on. */
  ghost predicate Ready(m: seq<MemoryEntry>, regions: seq<Region>, l: Layout) {
    && l.start > 0 && l.bytes % PAGE_SIZE == 0 && l.bytes >= PAGE_SIZE
    && l.start <= 8 * l.bytes && 8 * l.bytes * PAGE_SIZE <= WORD
    && (forall j | 0 <= j < |regions| :: FrameDown(regions[j].End()) <= 8 * l.bytes)
    && (forall p: nat :: InSome(regions, p) && p >= MIB / PAGE_SIZE <==> Available(m, l, p))
  }

  /** The first region with room gives up its front to the bitmaps. A region that starts at
      address 0 is mistaken for none. */
  method PlaceBitmaps(m: seq<MemoryEntry>) returns (layout: Option<Layout>, carved: seq<Region>)
    requires WellFormed(m)
    ensures layout.None? <==> Placement(m).None? || Placement(m).value.start == 0
    ensures layout.Some? ==> layout == Placement(m) && Ready(m, carved, layout.value)
  {
    var regions, endAddr := Collect(m);
    var bytes := BitmapBytes(endAddr);
    BitmapLargeEnough(endAddr);
    WholeBytes(bytes);
    var required := 2 * bytes;
    var room := FindRoom(regions, required);
    PlacementFound(m, bytes, room);
    if room.None? || AlignUp(regions[room.value].addr) == 0 {
      return None, regions;
    }
    PlacementReady(m);
    carved := Carve(regions, room.value, required);
    layout := Some(Layout(AlignUp(regions[room.value].addr) / PAGE_SIZE, bytes));
  }

  lemma PlacementReady(m: seq<MemoryEntry>)
    requires WellFormed(m) && Placement(m).Some? && Placement(m).value.start > 0
    ensures var l := Placement(m).value;
            var k := FirstRoom(Collected(m), l.Pages(), 0);
            && k.Some? && 2 * l.bytes <= Collected(m)[k.value].length
            && Ready(m, Carve(Collected(m), k.value, 2 * l.bytes), l)
  {
    PlacementFacts(m);
  }

  lemma PlacementFound(m: seq<MemoryEntry>, bytes: nat, room: Option<nat>)
    requires bytes == BitmapBytes(Highest(Collected(m))) && room == FirstRoom(Collected(m), 2 * bytes / PAGE_SIZE, 0)
    ensures Placement(m).Some? <==> room.Some?
    ensures room.Some? ==>
              && room.value < |Collected(m)|
              && Placement(m) == Some(Layout(AlignUp(Collected(m)[room.value].addr) / PAGE_SIZE, bytes))
              && (AlignUp(Collected(m)[room.value].addr) == 0 <==> Placement(m).value.start == 0)
  {
    if room.Some? {
      FirstRoomFits(Collected(m), 2 * bytes / PAGE_SIZE, 0);
      WholeFrames(FrameUp(Collected(m)[room.value].addr));
    }
  }

  lemma WholeFrames(n: nat)
    ensures n * PAGE_SIZE / PAGE_SIZE == n && n * PAGE_SIZE % PAGE_SIZE == 0 && (n * PAGE_SIZE == 0 <==> n == 0)
  {
  }

  /** Everything the loops need to know about the chosen placement. */
  lemma PlacementFacts(m: seq<MemoryEntry>)
    requires WellFormed(m) && Placement(m).Some?
    ensures var rs, l := Collected(m), Placement(m).value;
            var k := FirstRoom(rs, l.Pages(), 0).value;
            && FirstRoom(rs, l.Pages(), 0).Some? && 2 * l.bytes <= rs[k].length
            && l.bytes % PAGE_SIZE == 0 && l.bytes >= PAGE_SIZE
            && l.start <= 8 * l.bytes && 8 * l.bytes * PAGE_SIZE <= WORD
            && (forall j | 0 <= j < |rs| :: FrameDown(Carve(rs, k, 2 * l.bytes)[j].End()) <= 8 * l.bytes)
            && (forall p: nat :: InSome(Carve(rs, k, 2 * l.bytes), p) && p >= MIB / PAGE_SIZE <==> Available(m, l, p))
  {
    var rs, l := Collected(m), Placement(m).value;
    var k := PlacementRoom(m);
    FramesCovered(m, l, k);
    forall p: nat
      ensures InSome(Carve(rs, k, 2 * l.bytes), p) && p >= MIB / PAGE_SIZE <==> Available(m, l, p)
    {
      CarvedAvailable(m, l, k, p);
    }
  }

  /** The region chosen, and the sizes. */
  lemma PlacementRoom(m: seq<MemoryEntry>) returns (k: nat)
    requires WellFormed(m) && Placement(m).Some?
    ensures var rs, l := Collected(m), Placement(m).value;
            && FirstRoom(rs, l.Pages(), 0) == Some(k) && k < |rs| && l.start == FrameUp(rs[k].addr)
            && WholePages(rs[k]) >= l.Pages() > 0 && l.Pages() * PAGE_SIZE == 2 * l.bytes <= rs[k].length
            && l.bytes == BitmapBytes(Highest(rs)) && l.bytes % PAGE_SIZE == 0 && l.bytes >= PAGE_SIZE
            && 8 * l.bytes * PAGE_SIZE <= WORD
  {
    var rs, l := Collected(m), Placement(m).value;
    FirstRoomFits(rs, l.Pages(), 0);
    k := FirstRoom(rs, l.Pages(), 0).value;
    RegionsBounded(m, k);
    BitmapLargeEnough(Highest(rs));
    WholeBytes(l.bytes);
    WholePagesFit(rs[k], l.Pages());
  }

  lemma WholeBytes(b: nat)
    requires b % PAGE_SIZE == 0
    ensures 2 * b / PAGE_SIZE * PAGE_SIZE == 2 * b && (b > 0 ==> 2 * b / PAGE_SIZE > 0) && 2 * b % PAGE_SIZE == 0
  {
    var k := b / PAGE_SIZE;
    assert b == k * PAGE_SIZE;
    assert 2 * b == (2 * k) * PAGE_SIZE;
    WholeFrames(2 * k);
  }

  /** The bitmaps have a bit for every frame of every region. */
  lemma FramesCovered(m: seq<MemoryEntry>, l: Layout, k: nat)
    requires k < |Collected(m)| && l.bytes == BitmapBytes(Highest(Collected(m))) && l.start == FrameUp(Collected(m)[k].addr)
    requires WholePages(Collected(m)[k]) > 0 && 2 * l.bytes <= Collected(m)[k].length
    ensures forall j | 0 <= j < |Collected(m)| :: FrameDown(Carve(Collected(m), k, 2 * l.bytes)[j].End()) <= 8 * l.bytes
    ensures l.start <= 8 * l.bytes
  {
    var rs := Collected(m);
    BitmapLargeEnough(Highest(rs));
    forall j | 0 <= j < |rs| ensures FrameDown(rs[j].End()) <= 8 * l.bytes {
      HighestBounds(rs, j);
      FrameDownMonotone(rs[j].End(), Highest(rs));
    }
  }

  lemma FrameDownMonotone(a: nat, b: nat)
    requires a <= b
    ensures FrameDown(a) <= FrameDown(b)
  {
  }

  lemma CarvedAvailable(m: seq<MemoryEntry>, l: Layout, k: nat, p: nat)
    requires WellFormed(m) && k < |Collected(m)| && l.start == FrameUp(Collected(m)[k].addr)
    requires WholePages(Collected(m)[k]) >= l.Pages() > 0
    requires l.Pages() * PAGE_SIZE == 2 * l.bytes <= Collected(m)[k].length
    ensures InSome(Carve(Collected(m), k, 2 * l.bytes), p) && p >= MIB / PAGE_SIZE <==> Available(m, l, p)
  {
    var rs := Collected(m);
    forall i, j | 0 <= i < j < |rs| ensures Disjoint(rs[i], rs[j]) {
      RegionsApart(m, i, j);
    }
    CarvingExact(rs, k, l.Pages(), p);
    if p >= MIB / PAGE_SIZE {
      SomeRegionIffEntry(m, p);
    }
  }

  const SELF_TEST: seq<nat> := [1, 2, 2560]

  function TestBlocks(one: nat, two: nat, many: nat): seq<Block> {
    [Block(one / PAGE_SIZE, 1), Block(two / PAGE_SIZE, 2), Block(many / PAGE_SIZE, 2560)]
  }

  lemma BlocksDetermineAddresses(a: nat, b: nat, c: nat, a': nat, b': nat, c': nat)
    requires a % PAGE_SIZE == b % PAGE_SIZE == c % PAGE_SIZE == 0
    requires a' % PAGE_SIZE == b' % PAGE_SIZE == c' % PAGE_SIZE == 0
    requires TestBlocks(a, b, c) == TestBlocks(a', b', c')
    ensures a == a' && b == b' && c == c'
  {
    assert TestBlocks(a, b, c)[0] == TestBlocks(a', b', c')[0];
    assert TestBlocks(a, b, c)[1] == TestBlocks(a', b', c')[1];
    assert TestBlocks(a, b, c)[2] == TestBlocks(a', b', c')[2];
  }

  lemma AddressExact(f: Pool, n: nat)
    requires f.Valid()
    ensures var run := Allocate(f, n).run;
            && Address(run) % PAGE_SIZE == 0
            && (Address(run) == 0 <==> run.None?)
            && (run.Some? ==> Address(run) / PAGE_SIZE == run.value)
  {
    AllocateKeeps(f, n);
  }

  lemma GetCons(f: Pool, n: nat, rest: seq<nat>)
    ensures var a := Allocate(f, n);
            GetAll(f, [n] + rest) ==
            if a.run.None? || GetAll(a.after, rest).None? then None
            else Some(([Block(a.run.value, n)] + GetAll(a.after, rest).value.0, GetAll(a.after, rest).value.1))
  {
    assert ([n] + rest)[1..] == rest;
  }

  lemma GetThree(f: Pool, i: nat, j: nat, k: nat)
    ensures var a := Allocate(f, i); var b := Allocate(a.after, j); var c := Allocate(b.after, k);
            GetAll(f, [i, j, k]) ==
            if a.run.None? || b.run.None? || c.run.None? then None
            else Some(([Block(a.run.value, i), Block(b.run.value, j), Block(c.run.value, k)], c.after))
  {
    var a := Allocate(f, i);
    var b := Allocate(a.after, j);
    assert [i] + [j, k] == [i, j, k] && [j] + [k] == [j, k] && [k] + [] == [k];
    GetCons(f, i, [j, k]);
    GetCons(a.after, j, [k]);
    GetCons(b.after, k, []);
    var c := Allocate(b.after, k);
    if a.run.Some? && b.run.Some? && c.run.Some? {
      var x, y, z := Block(a.run.value, i), Block(b.run.value, j), Block(c.run.value, k);
      assert [x] + ([y] + ([z] + [])) == [x, y, z];
    }
  }

  lemma PutCons(f: Pool, a: Block, rest: seq<Block>)
    ensures PutAll(f, [a] + rest) ==
            if a.Frames() <= f.taken && a.Frames() !! f.reserved
            then PutAll(Release(f, a.start, a.pages), rest) else None
  {
    assert ([a] + rest)[1..] == rest;
  }

  lemma PutThree(f: Pool, a: Block, b: Block, c: Block)
    requires f.Valid()
    ensures PutAll(f, [a, b, c]) ==
            if !(a.Frames() <= f.taken) then None else
            var g := Release(f, a.start, a.pages);
            if !(b.Frames() <= g.taken) then None else
            var h := Release(g, b.start, b.pages);
            if !(c.Frames() <= h.taken) then None
            else Some(Release(h, c.start, c.pages))
  {
    var g := Release(f, a.start, a.pages);
    assert [a] + [b, c] == [a, b, c] && [b] + [c] == [b, c] && [c] + [] == [c];
    PutCons(f, a, [b, c]);
    PutCons(g, b, [c]);
    PutCons(Release(g, b.start, b.pages), c, []);
  }

  lemma {:induction false} ZeroBlockStops(f: Pool, order: seq<Block>)
    requires f.Valid() && exists b :: b in order && b.start == 0 && b.pages > 0
    ensures PutAll(f, order).None?
    decreases order
  {
    var b :| b in order && b.start == 0 && b.pages > 0;
    assert 0 in b.Frames();
    if order[0] != b && order[0].Frames() <= f.taken {
      ZeroBlockStops(Release(f, order[0].start, order[0].pages), order[1..]);
    }
  }

  lemma SpanStep(start: nat, k: nat)
    ensures Span(start, k + 1) == Span(start, k) + {start + k}
  {
  }

  lemma FreeBound(f: Pool)
    ensures |f.FreeSet()| <= f.count
  {
    SpanSize(0, f.count);
    SubsetSize(f.FreeSet(), Span(0, f.count));
  }

  lemma RunFits(f: Pool, s: nat, n: nat)
    requires n > 0 && FreeRun(f, s, n)
    ensures s + n <= f.count
  {
    assert f.Free(s + n - 1);
  }
}
