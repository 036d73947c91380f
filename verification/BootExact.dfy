/** The outcome of the allocator's initialization said of the memory map alone, in addresses:
    how many frames there are, where the bitmaps go and which frames are free. */
module BootExact {
  import opened Outcomes
  import opened Frames
  import opened BootMap

  /** A usable entry that ends above 1 MiB. */
  predicate Counts(e: MemoryEntry) {
    e.usable && e.base + e.length > 0x10_0000
  }

  /** The highest address that such an entry ends at. */
  ghost predicate TopOf(m: seq<MemoryEntry>, end: nat) {
    && (exists i :: 0 <= i < |m| && Counts(m[i]) && m[i].base + m[i].length == end)
    && (forall i | 0 <= i < |m| && Counts(m[i]) :: m[i].base + m[i].length <= end)
  }

  /** The bytes of a bitmap: the least number of whole pages with a bit for every frame. */
  predicate Sized(end: nat, bytes: nat) {
    bytes % 0x1000 == 0 && end / 0x1000 <= 8 * bytes && bytes > 0 && 8 * (bytes - 0x1000) < end / 0x1000
  }

  /** n frames from first on lie wholly inside an entry. */
  predicate Fits(e: MemoryEntry, first: nat, n: nat) {
    e.base <= first * 0x1000 && (first + n) * 0x1000 <= e.base + e.length
  }

  /** Entry i is the first with room for n frames, and start its lowest frame. */
  ghost predicate FirstFits(m: seq<MemoryEntry>, i: nat, start: nat, n: nat) {
    && i < |m| && Counts(m[i]) && Fits(m[i], start, n) && (forall f: nat | f < start :: !Fits(m[i], f, n))
    && (forall j: nat, f: nat | j < i && Counts(m[j]) :: !Fits(m[j], f, n))
  }

  /** Two bitmaps of so many bytes go to the frames from start on. */
  ghost predicate Chosen(m: seq<MemoryEntry>, start: nat, bytes: nat) {
    exists end: nat, i: nat :: TopOf(m, end) && Sized(end, bytes) && FirstFits(m, i, start, 2 * bytes / 0x1000)
  }

  /** What the allocator is after it has been set up from a memory map: a frame for every bit
      of the bitmaps, and free are the frames that lie wholly inside a usable entry, at or above
      1 MiB, and outside the two bitmaps. */
  ghost predicate BootedFrom(m: seq<MemoryEntry>, f: Pool) {
    exists start: nat, bytes: nat ::
      && Chosen(m, start, bytes) && start > 0 && f.count == 8 * bytes && f.taken == {} && f.Valid()
      && forall p: nat :: f.Free(p) <==> FreeAtBoot(m, start, bytes, p)
  }

  predicate FreeAtBoot(m: seq<MemoryEntry>, start: nat, bytes: nat, p: nat) {
    && (exists i :: 0 <= i < |m| && m[i].usable && Fits(m[i], p, 1))
    && p * 0x1000 >= 0x10_0000 && !(start <= p < start + 2 * bytes / 0x1000)
  }

  // ---- The size ----------------------------------------------------------------------

  lemma BitmapSized(end: nat)
    requires end > 0x10_0000
    ensures Sized(end, BitmapBytes(end))
  {
    BitmapLargeEnough(end);
    var frames := end / 0x1000;
    var needed := (frames + 7) / 8;
    assert BitmapBytes(end) == (needed + 4095) / 4096 * 4096;
    assert 8 * needed < frames + 8;
    assert BitmapBytes(end) < needed + 4096;
  }

  lemma SizedOnce(end: nat, a: nat, b: nat)
    requires Sized(end, a) && Sized(end, b)
    ensures a == b
  {
    var x, y := a / 0x1000, b / 0x1000;
    assert a == x * 0x1000 && b == y * 0x1000;
  }

  // ---- The regions -------------------------------------------------------------------

  /** Where an entry that counts is among the regions. */
  lemma {:induction false} RegionOf(m: seq<MemoryEntry>, i: nat)
    requires i < |m| && Counts(m[i])
    ensures var k := |Collected(m[..i])|; k < |Collected(m)| && Collected(m)[k] == Region(m[i].base, m[i].length)
  {
    var front := m[..|m| - 1];
    if i == |m| - 1 {
      assert m[..i] == front;
    } else {
      RegionOf(front, i);
      assert front[..i] == m[..i];
    }
  }

  lemma TopIsHighest(m: seq<MemoryEntry>, end: nat)
    requires TopOf(m, end)
    ensures Highest(Collected(m)) == end && end > 0x10_0000
  {
    var rs := Collected(m);
    var i: nat :| i < |m| && Counts(m[i]) && m[i].base + m[i].length == end;
    RegionOf(m, i);
    HighestBounds(rs, |Collected(m[..i])|);
    HighestAttained(rs);
    var k: nat :| k < |rs| && rs[k].End() == Highest(rs);
    var j := CollectedFrom(m, k);
    assert Counts(m[j]);
  }

  lemma HighestIsTop(m: seq<MemoryEntry>)
    requires Collected(m) != []
    ensures TopOf(m, Highest(Collected(m)))
  {
    var rs := Collected(m);
    HighestAttained(rs);
    forall i | 0 <= i < |m| && Counts(m[i]) ensures m[i].base + m[i].length <= Highest(rs) {
      RegionOf(m, i);
      HighestBounds(rs, |Collected(m[..i])|);
    }
    var first := CollectedFrom(m, 0);
    assert Counts(m[first]) && m[first].base + m[first].length <= Highest(rs);
    var k: nat :| k < |rs| && rs[k].End() == Highest(rs);
    var i := CollectedFrom(m, k);
    assert Counts(m[i]) && m[i].base + m[i].length == Highest(rs);
  }

  /** An entry has room for n frames exactly when so many whole pages are counted, and then
      from its first page boundary on. */
  lemma RoomExact(e: MemoryEntry, n: nat, f: nat)
    requires n > 0
    ensures var r := Region(e.base, e.length);
            && (Fits(e, f, n) ==> WholePages(r) >= n && FrameUp(r.addr) <= f)
            && (WholePages(r) >= n ==> Fits(e, FrameUp(r.addr), n))
  {
  }

  // ---- The choice --------------------------------------------------------------------

  lemma PlacedIsChosen(m: seq<MemoryEntry>, l: Layout)
    requires WellFormed(m) && Placement(m) == Some(l)
    ensures Chosen(m, l.start, l.bytes)
  {
    var rs, n := Collected(m), l.Pages();
    FirstRoomFits(rs, n, 0);
    var k := FirstRoom(rs, n, 0).value;
    HighestIsTop(m);
    TopIsHighest(m, Highest(rs));
    BitmapSized(Highest(rs));
    var i := CollectedFrom(m, k);
    PagesPositive(l.bytes);
    RoomExact(m[i], n, l.start);
    forall f: nat | f < l.start ensures !Fits(m[i], f, n) {
      RoomExact(m[i], n, f);
    }
    forall j: nat, f: nat | j < i && Counts(m[j]) ensures !Fits(m[j], f, n) {
      EarlierRegion(m, j, i);
      RoomExact(m[j], n, f);
    }
    assert FirstFits(m, i, l.start, 2 * l.bytes / 0x1000);
  }

  lemma PagesPositive(bytes: nat)
    requires bytes % 0x1000 == 0 && bytes > 0
    ensures 2 * bytes / 0x1000 > 0
  {
  }

  lemma EarlierRegion(m: seq<MemoryEntry>, j: nat, i: nat)
    requires j < i < |m| && Counts(m[j])
    ensures var k := |Collected(m[..j])|;
            k < |Collected(m[..i])| && k < |Collected(m)| && Collected(m)[k] == Region(m[j].base, m[j].length)
  {
    RegionOf(m, j);
    CollectedPrefix(m, j, i);
  }

  lemma ChosenIsPlaced(m: seq<MemoryEntry>, start: nat, bytes: nat)
    requires WellFormed(m) && Chosen(m, start, bytes)
    ensures Placement(m) == Some(Layout(start, bytes))
  {
    var rs, n := Collected(m), 2 * bytes / 0x1000;
    var end: nat, i: nat :| TopOf(m, end) && Sized(end, bytes) && FirstFits(m, i, start, n);
    TopIsHighest(m, end);
    BitmapSized(end);
    SizedOnce(end, bytes, BitmapBytes(end));
    PagesPositive(bytes);
    RegionOf(m, i);
    RoomExact(m[i], n, start);
    RoomExact(m[i], n, FrameUp(m[i].base));
    FirstRoomFits(rs, n, 0);
    var k := FirstRoom(rs, n, 0).value;
    if k < |Collected(m[..i])| {
      NoEarlierRoom(m, i, start, n, k);
    }
  }

  lemma NoEarlierRoom(m: seq<MemoryEntry>, i: nat, start: nat, n: nat, k: nat)
    requires n > 0 && FirstFits(m, i, start, n) && k < |Collected(m[..i])| && k < |Collected(m)|
    ensures WholePages(Collected(m)[k]) < n
  {
    var j := CollectedFrom(m, k);
    if j >= i {
      CollectedPrefix(m, i, j);
    }
    RoomExact(m[j], n, FrameUp(m[j].base));
  }

  /** The placement is the one that the memory map determines. */
  lemma PlacementExact(m: seq<MemoryEntry>, start: nat, bytes: nat)
    requires WellFormed(m)
    ensures Placement(m) == Some(Layout(start, bytes)) <==> Chosen(m, start, bytes)
  {
    if Placement(m) == Some(Layout(start, bytes)) {
      PlacedIsChosen(m, Layout(start, bytes));
    }
    if Chosen(m, start, bytes) {
      ChosenIsPlaced(m, start, bytes);
    }
  }

  // ---- The free frames ---------------------------------------------------------------

  lemma FreeExact(m: seq<MemoryEntry>, l: Layout, p: nat)
    requires WellFormed(m) && Placement(m) == Some(l)
    ensures BootPool(m, l).Free(p) <==> FreeAtBoot(m, l.start, l.bytes, p)
  {
    forall i | 0 <= i < |m| ensures Fits(m[i], p, 1) <==> Region(m[i].base, m[i].length).Holds(p) {
    }
    if FreeAtBoot(m, l.start, l.bytes, p) {
      var i: nat :| i < |m| && m[i].usable && Fits(m[i], p, 1);
      assert Counts(m[i]);
      RegionOf(m, i);
      HighestBounds(Collected(m), |Collected(m[..i])|);
      BitmapLargeEnough(Highest(Collected(m)));
      BelowTop(p, m[i].base + m[i].length, Highest(Collected(m)));
    }
  }

  lemma BelowTop(p: nat, a: nat, b: nat)
    requires (p + 1) * 0x1000 <= a <= b
    ensures p < b / 0x1000
  {
  }

  /** The pool of a boot is the one that the memory map determines. */
  lemma BootPoolExact(m: seq<MemoryEntry>)
    requires WellFormed(m) && Placement(m).Some? && Placement(m).value.start > 0
    ensures BootedFrom(m, BootPool(m, Placement(m).value))
  {
    var l := Placement(m).value;
    PlacementExact(m, l.start, l.bytes);
    forall p: nat ensures BootPool(m, l).Free(p) <==> FreeAtBoot(m, l.start, l.bytes, p) {
      FreeExact(m, l, p);
    }
  }

  lemma SamePool(f: Pool, g: Pool)
    requires f.Valid() && g.Valid() && f.count == g.count && f.taken == g.taken == {}
    requires forall p: nat :: f.Free(p) <==> g.Free(p)
    ensures f == g
  {
    forall p: nat ensures p in f.reserved <==> p in g.reserved {
      assert f.Free(p) <==> g.Free(p);
    }
  }

  /** No other pool is. */
  lemma BootedOnce(m: seq<MemoryEntry>, f: Pool)
    requires WellFormed(m) && BootedFrom(m, f)
    ensures Placement(m).Some? && Placement(m).value.start > 0 && f == BootPool(m, Placement(m).value)
  {
    var start: nat, bytes: nat :|
      && Chosen(m, start, bytes) && start > 0 && f.count == 8 * bytes && f.taken == {} && f.Valid()
      && forall p: nat :: f.Free(p) <==> FreeAtBoot(m, start, bytes, p);
    PlacementExact(m, start, bytes);
    var g := BootPool(m, Layout(start, bytes));
    forall p: nat ensures f.Free(p) <==> g.Free(p) {
      FreeExact(m, Layout(start, bytes), p);
    }
    SamePool(f, g);
  }

  /** A boot can succeed exactly when the memory map leaves a pool at all, and one that grants
      what the self-test asks for. */
  lemma BootsExactly(m: seq<MemoryEntry>, sizes: seq<nat>)
    requires WellFormed(m)
    ensures (exists f :: BootedFrom(m, f) && GetAll(f, sizes).Some?) <==>
            Placement(m).Some? && Placement(m).value.start > 0 && GetAll(BootPool(m, Placement(m).value), sizes).Some?
  {
    if Placement(m).Some? && Placement(m).value.start > 0 {
      BootPoolExact(m);
    }
    if f :| BootedFrom(m, f) && GetAll(f, sizes).Some? {
      BootedOnce(m, f);
    }
  }
}
