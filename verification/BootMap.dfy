/** What the firmware memory map means for the frame allocator: which frames are usable,
    how large the bitmaps are and where they go. */
module BootMap {
  import opened Outcomes
  import opened Frames

  const MIB: nat := 0x10_0000

  datatype MemoryEntry = MemoryEntry(base: nat, length: nat, usable: bool)

  datatype Region = Region(addr: nat, length: nat) {
    function End(): nat { addr + length }

    /** Frame p lies wholly inside the region. */
    predicate Holds(p: nat) {
      addr <= p * PAGE_SIZE && p * PAGE_SIZE + PAGE_SIZE <= End()
    }
  }

  /** Entries neither wrap nor overlap. */
  ghost predicate WellFormed(m: seq<MemoryEntry>) {
    && (forall i | 0 <= i < |m| && m[i].usable :: m[i].base + m[i].length + PAGE_SIZE <= WORD)
    && (forall i, j | 0 <= i < j < |m| && m[i].usable && m[j].usable ::
          Disjoint(Region(m[i].base, m[i].length), Region(m[j].base, m[j].length)))
  }

  predicate Disjoint(a: Region, b: Region) {
    a.End() <= b.addr || b.End() <= a.addr
  }

  // ---- Page rounding; see the module Bits for the mask form ------------------------

  function FrameUp(v: nat): nat { (v + PAGE_SIZE - 1) / PAGE_SIZE }

  function FrameDown(v: nat): nat { v / PAGE_SIZE }

  function AlignUp(v: nat): nat { FrameUp(v) * PAGE_SIZE }

  function AlignDown(v: nat): nat { FrameDown(v) * PAGE_SIZE }

  /** The frames between the rounded ends of a region are those lying wholly inside it. */
  lemma RoundedEnds(r: Region, p: nat)
    ensures r.Holds(p) <==> FrameUp(r.addr) <= p < FrameDown(r.End())
  {
  }

  // ---- The regions considered ------------------------------------------------------

  predicate Kept(e: MemoryEntry) {
    e.usable && e.base + e.length > MIB
  }

  /** The usable entries that end above 1 MiB, in order. */
  function Collected(m: seq<MemoryEntry>): seq<Region> {
    if m == [] then []
    else
      var e := m[|m| - 1];
      Collected(m[..|m| - 1]) + if Kept(e) then [Region(e.base, e.length)] else []
  }

  /** The highest end of a region. */
  function Highest(rs: seq<Region>): nat {
    if rs == [] then 0
    else
      var h, e := Highest(rs[..|rs| - 1]), rs[|rs| - 1].End();
      if h < e then e else h
  }

  /** Bytes in one bitmap: a bit per frame, rounded up to whole pages. */
  function BitmapBytes(end: nat): nat {
    AlignUp((end / PAGE_SIZE + 7) / 8)
  }

  /** Whole pages inside a region. */
  function WholePages(r: Region): nat {
    if FrameUp(r.addr) < FrameDown(r.End()) then FrameDown(r.End()) - FrameUp(r.addr) else 0
  }

  /** The first region at or after k with room for so many pages. */
  function FirstRoom(rs: seq<Region>, pages: nat, k: nat): (room: Option<nat>)
    requires k <= |rs|
    ensures room.Some? ==> k <= room.value < |rs|
    decreases |rs| - k
  {
    if k == |rs| then None
    else if WholePages(rs[k]) >= pages then Some(k)
    else FirstRoom(rs, pages, k + 1)
  }

  /** Where the bitmaps go: the first frame of their storage and the bytes of each. */
  datatype Layout = Layout(start: nat, bytes: nat) {
    function Pages(): nat { 2 * bytes / PAGE_SIZE }

    predicate Stores(p: nat) { start <= p < start + Pages() }
  }

  function Placement(m: seq<MemoryEntry>): Option<Layout> {
    var rs := Collected(m);
    var bytes := BitmapBytes(Highest(rs));
    match FirstRoom(rs, 2 * bytes / PAGE_SIZE, 0)
    case None => None
    case Some(k) => Some(Layout(FrameUp(rs[k].addr), bytes))
  }

  /** Frame p lies wholly inside a usable entry of the memory map. */
  predicate InUsableEntry(m: seq<MemoryEntry>, p: nat) {
    exists i :: 0 <= i < |m| && m[i].usable && Region(m[i].base, m[i].length).Holds(p)
  }

  /** The frames that may be handed out: inside a usable entry, at or above 1 MiB, and
      outside the storage of the bitmaps. */
  predicate Available(m: seq<MemoryEntry>, l: Layout, p: nat) {
    InUsableEntry(m, p) && p >= MIB / PAGE_SIZE && !l.Stores(p)
  }

  /** The allocator a boot must end with. */
  function BootPool(m: seq<MemoryEntry>, l: Layout): Pool {
    Pool(8 * l.bytes, set p | 0 <= p < 8 * l.bytes && !Available(m, l, p), {})
  }

  /** A usable entry that starts at address 0 sends the bitmaps there. */
  lemma RegionAtZero(m: seq<MemoryEntry>)
    requires m == [MemoryEntry(0, 0x1000_0000, true)]
    ensures WellFormed(m) && Placement(m) == Some(Layout(0, 8192))
  {
    assert m[..0] == [] && Collected(m[..0]) == [];
    var rs := Collected(m);
    assert rs == [Region(0, 0x1000_0000)];
    assert Highest(rs[..0]) == 0;
    assert Highest(rs) == 0x1000_0000;
    assert WholePages(rs[0]) == 0x1_0000;
  }

  // ---- Facts -----------------------------------------------------------------------

  predicate InSome(rs: seq<Region>, p: nat) {
    exists j :: 0 <= j < |rs| && rs[j].Holds(p)
  }

  lemma {:induction false} HighestBounds(rs: seq<Region>, j: nat)
    requires j < |rs|
    ensures rs[j].End() <= Highest(rs)
  {
    if j < |rs| - 1 {
      HighestBounds(rs[..|rs| - 1], j);
    }
  }

  lemma {:induction false} HighestAttained(rs: seq<Region>)
    requires rs != []
    ensures Highest(rs) == 0 || exists j :: 0 <= j < |rs| && rs[j].End() == Highest(rs)
  {
    var front := rs[..|rs| - 1];
    if front != [] && Highest(rs) != rs[|rs| - 1].End() {
      HighestAttained(front);
      if Highest(front) != 0 {
        var j :| 0 <= j < |front| && front[j].End() == Highest(front);
        assert rs[j].End() == Highest(rs);
      }
    }
  }

  /** The collected regions are exactly the kept entries, each once and in order. */
  lemma {:induction false} CollectedFrom(m: seq<MemoryEntry>, j: nat) returns (i: nat)
    requires j < |Collected(m)|
    ensures i < |m| && Kept(m[i]) && Collected(m)[j] == Region(m[i].base, m[i].length)
    ensures j == |Collected(m[..i])|
  {
    var front := m[..|m| - 1];
    if j < |Collected(front)| {
      i := CollectedFrom(front, j);
      assert front[..i] == m[..i];
    } else {
      i := |m| - 1;
    }
  }

  lemma {:induction false} CollectedHas(m: seq<MemoryEntry>, i: nat)
    requires i < |m| && Kept(m[i])
    ensures Region(m[i].base, m[i].length) in Collected(m)
  {
    if i < |m| - 1 {
      CollectedHas(m[..|m| - 1], i);
    }
  }

  lemma {:induction false} CollectedPrefix(m: seq<MemoryEntry>, a: nat, b: nat)
    requires a <= b <= |m|
    ensures |Collected(m[..a])| <= |Collected(m[..b])|
    ensures a < b && Kept(m[a]) ==> |Collected(m[..a])| < |Collected(m[..b])|
    decreases b - a
  {
    if a < b {
      assert m[..b][..b - 1] == m[..b - 1];
      if a < b - 1 {
        CollectedPrefix(m, a, b - 1);
      }
    }
  }

  lemma RegionsApart(m: seq<MemoryEntry>, j: nat, k: nat)
    requires WellFormed(m) && j < k < |Collected(m)|
    ensures Disjoint(Collected(m)[j], Collected(m)[k])
  {
    var a := CollectedFrom(m, j);
    var b := CollectedFrom(m, k);
    if b <= a {
      CollectedPrefix(m, b, a);
    }
  }

  lemma RegionsBounded(m: seq<MemoryEntry>, j: nat)
    requires WellFormed(m) && j < |Collected(m)|
    ensures MIB < Collected(m)[j].End() && Collected(m)[j].End() + PAGE_SIZE <= WORD
    ensures Highest(Collected(m)) > MIB && Highest(Collected(m)) + PAGE_SIZE <= WORD
  {
    var i := CollectedFrom(m, j);
    HighestBounds(Collected(m), j);
    HighestAttained(Collected(m));
    var k :| 0 <= k < |Collected(m)| && Collected(m)[k].End() == Highest(Collected(m));
    var i' := CollectedFrom(m, k);
  }

  /** At or above 1 MiB, being inside a collected region and inside a usable entry agree. */
  lemma SomeRegionIffEntry(m: seq<MemoryEntry>, p: nat)
    requires p >= MIB / PAGE_SIZE
    ensures InSome(Collected(m), p) <==> InUsableEntry(m, p)
  {
    var rs := Collected(m);
    if InSome(rs, p) {
      var j :| 0 <= j < |rs| && rs[j].Holds(p);
      var i := CollectedFrom(m, j);
      assert m[i].usable && Region(m[i].base, m[i].length).Holds(p);
    }
    if InUsableEntry(m, p) {
      var i :| 0 <= i < |m| && m[i].usable && Region(m[i].base, m[i].length).Holds(p);
      CollectedHas(m, i);
      var j :| 0 <= j < |rs| && rs[j] == Region(m[i].base, m[i].length);
      assert rs[j].Holds(p);
    }
  }

  lemma {:induction false} FirstRoomFits(rs: seq<Region>, pages: nat, k: nat)
    requires k <= |rs|
    ensures match FirstRoom(rs, pages, k)
            case None => forall j | k <= j < |rs| :: WholePages(rs[j]) < pages
            case Some(j) => k <= j < |rs| && WholePages(rs[j]) >= pages &&
                            forall i | k <= i < j :: WholePages(rs[i]) < pages
    decreases |rs| - k
  {
    if k < |rs| && WholePages(rs[k]) < pages {
      FirstRoomFits(rs, pages, k + 1);
    }
  }

  /** The chosen region with the bitmaps' bytes taken off its front. */
  function Carve(rs: seq<Region>, k: nat, bytes: nat): seq<Region>
    requires k < |rs| && bytes <= rs[k].length
  {
    rs[k := Region(rs[k].addr + bytes, rs[k].length - bytes)]
  }

  lemma CarvedHolds(r: Region, pages: nat, p: nat)
    requires pages * PAGE_SIZE <= r.length
    ensures Region(r.addr + pages * PAGE_SIZE, r.length - pages * PAGE_SIZE).Holds(p)
            <==> r.Holds(p) && !(FrameUp(r.addr) <= p < FrameUp(r.addr) + pages)
  {
    RoundedEnds(r, p);
    RoundedEnds(Region(r.addr + pages * PAGE_SIZE, r.length - pages * PAGE_SIZE), p);
  }

  lemma WholePagesFit(r: Region, pages: nat)
    requires WholePages(r) >= pages > 0
    ensures pages * PAGE_SIZE <= r.length
    ensures FrameUp(r.addr) + pages <= FrameDown(r.End())
  {
  }

  /** Carving keeps the bitmaps' storage out of every region, and nothing else. */
  lemma CarvingExact(rs: seq<Region>, k: nat, pages: nat, p: nat)
    requires k < |rs| && WholePages(rs[k]) >= pages > 0 && pages * PAGE_SIZE <= rs[k].length
    requires forall i, j | 0 <= i < j < |rs| :: Disjoint(rs[i], rs[j])
    ensures InSome(Carve(rs, k, pages * PAGE_SIZE), p)
            <==> InSome(rs, p) && !(FrameUp(rs[k].addr) <= p < FrameUp(rs[k].addr) + pages)
  {
    var cs := Carve(rs, k, pages * PAGE_SIZE);
    var s := FrameUp(rs[k].addr);
    CarvedHolds(rs[k], pages, p);
    WholePagesFit(rs[k], pages);
    RoundedEnds(rs[k], p);
    if InSome(cs, p) {
      var j :| 0 <= j < |cs| && cs[j].Holds(p);
      assert rs[j].Holds(p);
      assert s <= p < s + pages ==> rs[k].Holds(p);
      assert j == k || Disjoint(rs[j], rs[k]) || Disjoint(rs[k], rs[j]);
    }
    if InSome(rs, p) && !(s <= p < s + pages) {
      var j :| 0 <= j < |rs| && rs[j].Holds(p);
      assert cs[j].Holds(p);
    }
  }

  /** The frame range of the later reservation loop, computed as the source computes it:
      a page index plus a byte count, rounded up to a page and divided by the page size. */
  function ExtraEnd(l: Layout): nat {
    AlignUp(l.start + 2 * l.bytes) / PAGE_SIZE
  }

  /** That range never reaches past the bitmaps' own storage, so reserving it again changes
      nothing once the storage has been carved out. */
  lemma ExtraRangeIsRedundant(l: Layout, p: nat)
    requires l.start > 0 && l.bytes % PAGE_SIZE == 0
    ensures l.start <= p < ExtraEnd(l) ==> l.Stores(p)
  {
    var b := l.bytes / PAGE_SIZE;
    assert l.bytes == b * PAGE_SIZE;
    assert l.Pages() == 2 * b;
    assert ExtraEnd(l) == (l.start + 2 * b * PAGE_SIZE + PAGE_SIZE - 1) / PAGE_SIZE;
  }

  /** One bit per frame below the highest address, and room for the first megabyte. */
  lemma BitmapLargeEnough(end: nat)
    ensures BitmapBytes(end) % PAGE_SIZE == 0
    ensures end / PAGE_SIZE <= 8 * BitmapBytes(end)
    ensures end > MIB ==> BitmapBytes(end) >= PAGE_SIZE
    ensures end + PAGE_SIZE <= WORD ==> 8 * BitmapBytes(end) * PAGE_SIZE <= WORD
  {
  }
}
