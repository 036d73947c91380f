/** Whole histories of MapPage, UnmapPage and GetPhysicalAddress: an address space behaves
    like a partial map from virtual pages to page-table entries. */
module PageRuns {
  import opened Outcomes
  import opened Frames
  import opened PageTables
  import opened PageOps
  import opened PageMapping

  datatype Op = Map(spot: Spot, entry: Entry) | Unmap(spot: Spot)

  /** What callers owe: a present entry, and no 1 GiB or 2 MiB page on the page's path. */
  predicate Proper(w: World, op: Op) {
    op.spot.Valid() && ClearPath(w, op.spot) && (op.Map? ==> op.entry.flags.present)
  }

  /** One call; None stands for a panic. */
  function Perform(w: World, op: Op): Option<World>
    requires op.spot.Valid()
  {
    match op
    case Map(s, e) => MapPage(w, s, e)
    case Unmap(s) => UnmapPage(w, s)
  }

  predicate ValidSpots(ops: seq<Op>) {
    forall i | 0 <= i < |ops| :: ops[i].spot.Valid()
  }

  ghost predicate AllProper(w: World, ops: seq<Op>) {
    ValidSpots(ops) && forall i | 0 <= i < |ops| :: Proper(w, ops[i])
  }

  function PerformAll(w: World, ops: seq<Op>): Option<World>
    requires ValidSpots(ops)
    decreases ops
  {
    if ops == [] then Some(w)
    else match Perform(w, ops[0])
         case None => None
         case Some(v) => PerformAll(v, ops[1..])
  }

  // ---- The simple form -------------------------------------------------------------

  /** The pages an address space maps, each with its entry. */
  ghost function Pages(w: World): imap<Spot, Entry> {
    imap s: Spot | s.Valid() && Lookup(w, s).Some? && Lookup(w, s).value.depth == 3 :: Lookup(w, s).value.leaf
  }

  ghost function Simple(m: imap<Spot, Entry>, op: Op): Option<imap<Spot, Entry>> {
    match op
    case Map(s, e) => if s in m then None else Some(m[s := e])
    case Unmap(s) => if s in m then Some(m - {s}) else None
  }

  ghost function SimpleAll(m: imap<Spot, Entry>, ops: seq<Op>): Option<imap<Spot, Entry>>
    decreases ops
  {
    if ops == [] then Some(m)
    else match Simple(m, ops[0])
         case None => None
         case Some(n) => SimpleAll(n, ops[1..])
  }

  // ---- One call --------------------------------------------------------------------

  /** The pages translated at a level above the page tables. */
  predicate Large(w: World, s: Spot)
    requires s.Valid()
  {
    Lookup(w, s).Some? && Lookup(w, s).value.depth < 3
  }

  /** A path is clear exactly when the page does not belong to a large page. */
  lemma ClearIffNotLarge(w: World, root: nat, s: Spot)
    requires Tree(w, root) && s.Valid()
    ensures ClearPath(w, s) <==> !Large(w, s)
  {
    if ClearPath(w, s) {
      LookupIffMapped(w, root, s);
    } else {
      PathPrefix(w, root, s);
      PathAtDepth(s, 1);
      PathAtDepth(s, 2);
      if P1(s) in w.at && w.Entries(P1(s))[s.i3].flags.huge {
        assert Settled(w, P1(s), s.i3);
      } else {
        assert Settled(w, P2(s), s.i2);
      }
    }
  }

  /** Large pages stay what they are, so clear paths stay clear. */
  lemma StaysClear(w: World, v: World, root: nat, s: Spot, t: Spot)
    requires Tree(w, root) && Tree(v, root) && s.Valid() && t.Valid() && ClearPath(w, t)
    requires t != s ==> Lookup(v, t) == Lookup(w, t)
    requires t == s ==> !Large(v, t)
    ensures ClearPath(v, t)
  {
    ClearIffNotLarge(w, root, t);
    ClearIffNotLarge(v, root, t);
  }

  lemma PagesIffMapped(w: World, root: nat, s: Spot)
    requires Tree(w, root) && s.Valid() && ClearPath(w, s)
    ensures s in Pages(w) <==> Mapped(w, s)
  {
    LookupIffMapped(w, root, s);
  }

  lemma AllStayClear(w: World, v: World, root: nat, s: Spot)
    requires Tree(w, root) && Tree(v, root) && s.Valid() && !Large(v, s)
    requires forall t: Spot | t.Valid() && t != s :: Lookup(v, t) == Lookup(w, t)
    ensures forall t: Spot | t.Valid() && ClearPath(w, t) :: ClearPath(v, t)
  {
    forall t: Spot | t.Valid() && ClearPath(w, t) ensures ClearPath(v, t) {
      StaysClear(w, v, root, s, t);
    }
  }

  lemma PagesAfterAdd(w: World, v: World, s: Spot)
    requires s.Valid() && Lookup(v, s).Some? && Lookup(v, s).value.depth == 3
    requires forall t: Spot | t.Valid() && t != s :: Lookup(v, t) == Lookup(w, t)
    ensures Pages(v) == Pages(w)[s := Lookup(v, s).value.leaf]
  {
  }

  lemma PagesAfterRemove(w: World, v: World, s: Spot)
    requires s.Valid() && Lookup(v, s).None?
    requires forall t: Spot | t.Valid() && t != s :: Lookup(v, t) == Lookup(w, t)
    ensures Pages(v) == Pages(w) - {s}
  {
    forall t: Spot ensures t in Pages(v) <==> t in Pages(w) && t != s
    {
      if t.Valid() && t != s {
        assert Lookup(v, t) == Lookup(w, t);
      }
    }
  }

  /** MapPage adds exactly one key to the map of pages. */
  lemma MapAddsPage(w: World, root: nat, base: set<nat>, s: Spot, e: Entry)
    requires Good(w, root, base) && Proper(w, Map(s, e))
    ensures MapPage(w, s, e).Some? <==> s !in Pages(w) && Missing(w, s) <= |w.pool.FreeSet()|
    ensures MapPage(w, s, e).Some? ==>
              var v := MapPage(w, s, e).value;
              && Good(v, root, base) && NoNewEmpty(w, v)
              && Pages(v) == Pages(w)[s := e]
              && forall t: Spot | t.Valid() && ClearPath(w, t) :: ClearPath(v, t)
  {
    MapPageExact(w, root, base, s, e);
    PagesIffMapped(w, root, s);
    if MapPage(w, s, e).Some? {
      var v := MapPage(w, s, e).value;
      PagesAfterAdd(w, v, s);
      AllStayClear(w, v, root, s);
    }
  }

  /** UnmapPage removes exactly one key from the map of pages. */
  lemma UnmapRemovesPage(w: World, root: nat, base: set<nat>, s: Spot)
    requires Good(w, root, base) && Proper(w, Unmap(s))
    ensures UnmapPage(w, s).Some? <==> s in Pages(w)
    ensures UnmapPage(w, s).Some? ==>
              var v := UnmapPage(w, s).value;
              && Good(v, root, base) && NoNewEmpty(w, v)
              && Pages(v) == Pages(w) - {s}
              && forall t: Spot | t.Valid() && ClearPath(w, t) :: ClearPath(v, t)
  {
    PagesIffMapped(w, root, s);
    if Mapped(w, s) {
      UnmapPageExact(w, root, base, s);
      var v := UnmapPage(w, s).value;
      PagesAfterRemove(w, v, s);
      AllStayClear(w, v, root, s);
    }
  }

  // ---- Every history ---------------------------------------------------------------

  lemma PerformRefines(w: World, root: nat, base: set<nat>, op: Op)
    requires Good(w, root, base) && Proper(w, op)
    ensures Perform(w, op).Some? ==>
              var v := Perform(w, op).value;
              && Good(v, root, base) && NoNewEmpty(w, v)
              && Simple(Pages(w), op) == Some(Pages(v))
              && forall t: Spot | t.Valid() && ClearPath(w, t) :: ClearPath(v, t)
    ensures Perform(w, op).None? <==>
            Simple(Pages(w), op).None? || (op.Map? && Missing(w, op.spot) > |w.pool.FreeSet()|)
  {
    match op
    case Map(s, e) => MapAddsPage(w, root, base, s, e);
    case Unmap(s) => UnmapRemovesPage(w, root, base, s);
  }

  lemma StillProper(w: World, v: World, ops: seq<Op>)
    requires ops != [] && AllProper(w, ops)
    requires forall t: Spot | t.Valid() && ClearPath(w, t) :: ClearPath(v, t)
    ensures AllProper(v, ops[1..])
  {
    forall i | 0 <= i < |ops[1..]| ensures Proper(v, ops[1..][i]) {
      assert Proper(w, ops[i + 1]);
    }
  }

  /** Somewhere in the history a page to be mapped lacks more tables than frames are free. */
  predicate RunsOut(w: World, ops: seq<Op>)
    requires ValidSpots(ops)
    decreases ops
  {
    && ops != []
    && (|| (ops[0].Map? && Missing(w, ops[0].spot) > |w.pool.FreeSet()|)
        || (Perform(w, ops[0]).Some? && RunsOut(Perform(w, ops[0]).value, ops[1..])))
  }

  /** Refinement over every history: a history that does not panic does to the tables what
      the simple form does to the map of pages, and afterwards the tree is sound, no table
      is newly empty, and the frames handed out are exactly the tables and whatever else was
      handed out before. A history panics exactly when the simple form refuses one of its
      calls or the frames run out. */
  lemma {:induction false} HistoryRefines(w: World, root: nat, base: set<nat>, ops: seq<Op>)
    requires Good(w, root, base) && AllProper(w, ops)
    ensures PerformAll(w, ops).Some? ==>
              var v := PerformAll(w, ops).value;
              && SimpleAll(Pages(w), ops) == Some(Pages(v))
              && Good(v, root, base) && NoNewEmpty(w, v)
              && v.pool.taken == base + v.at.Values
    ensures PerformAll(w, ops).None? <==> SimpleAll(Pages(w), ops).None? || RunsOut(w, ops)
    decreases ops
  {
    if ops != [] {
      PerformRefines(w, root, base, ops[0]);
      if Perform(w, ops[0]).Some? {
        var v := Perform(w, ops[0]).value;
        StillProper(w, v, ops);
        HistoryRefines(v, root, base, ops[1..]);
        if PerformAll(w, ops).Some? {
          NoNewTransitive(w, v, PerformAll(w, ops).value, Root, Root);
        }
      }
    }
  }

  // ---- The higher half of the root -------------------------------------------------

  /** All root entries of the higher half lead to tables. */
  predicate HighSlotsFilled(w: World) {
    forall i | 256 <= i < 512 :: w.Entries(Root)[i] != ZERO
  }

  predicate SameHighSlots(v: World, w: World) {
    forall i | 256 <= i < 512 :: v.Entries(Root)[i] == w.Entries(Root)[i]
  }

  lemma MapKeepsHigh(w: World, root: nat, base: set<nat>, s: Spot, e: Entry)
    requires Good(w, root, base) && Proper(w, Map(s, e)) && HighSlotsFilled(w)
    requires MapPage(w, s, e).Some?
    ensures SameHighSlots(MapPage(w, s, e).value, w)
  {
    EnsurePathKeeps(w, root, base, s);
    var u := EnsurePath(w, s).value;
    PutOther(u, root, base, P3(s), s.i1, e, Root);
  }

  lemma CutKeepsHigh(w: World, root: nat, base: set<nat>, p: Path, i: nat)
    requires Good(w, root, base) && i < 512 && Child(p, i) in w.at && (p == Root ==> i < 256)
    ensures SameHighSlots(Cut(w, p, i), w)
  {
    CutEffect(w, root, base, p, i);
    assert Root in Cut(w, p, i).at;
  }

  lemma PruneKeepsHigh(u: World, root: nat, base: set<nat>, s: Spot)
    requires Good(u, root, base) && s.Valid() && P3(s) in u.at
    ensures SameHighSlots(Prune(u, s), u)
  {
    PathPrefix(u, root, s);
    if TableEmpty(u.Entries(P3(s))) {
      CutStep(u, root, base, P2(s), s.i2);
      CutKeepsHigh(u, root, base, P2(s), s.i2);
      PruneAboveKeepsHigh(Cut(u, P2(s), s.i2), root, base, s);
    }
  }

  lemma PruneAboveKeepsHigh(u: World, root: nat, base: set<nat>, s: Spot)
    requires Good(u, root, base) && s.Valid() && P2(s) in u.at
    ensures SameHighSlots(PruneAbove(u, s), u)
  {
    if TableEmpty(u.Entries(P2(s))) {
      CutStep(u, root, base, P1(s), s.i3);
      CutKeepsHigh(u, root, base, P1(s), s.i3);
      var v := Cut(u, P1(s), s.i3);
      if s.i4 < 256 {
        CutKeepsHigh(v, root, base, Root, s.i4);
      }
    }
  }

  lemma UnmapKeepsHigh(w: World, root: nat, base: set<nat>, s: Spot)
    requires Good(w, root, base) && s.Valid() && Mapped(w, s)
    ensures SameHighSlots(UnmapPage(w, s).value, w)
  {
    var u := ClearLeaf(w, s);
    PathAtDepth(s, 3);
    PutLeafKeeps(w, root, base, P3(s), s.i1, ZERO);
    PruneKeepsHigh(u, root, base, s);
    PutOther(w, root, base, P3(s), s.i1, ZERO, Root);
  }

  lemma PerformKeepsHigh(w: World, root: nat, base: set<nat>, op: Op)
    requires Good(w, root, base) && Proper(w, op) && HighSlotsFilled(w) && Perform(w, op).Some?
    ensures SameHighSlots(Perform(w, op).value, w)
  {
    match op
    case Map(s, e) => MapKeepsHigh(w, root, base, s, e);
    case Unmap(s) => UnmapKeepsHigh(w, root, base, s);
  }

  /** Once filled, the higher-half root entries keep their values through every history,
      so other address spaces may share them. */
  lemma {:induction false} HighSlotsStable(w: World, root: nat, base: set<nat>, ops: seq<Op>)
    requires Good(w, root, base) && HighSlotsFilled(w)
    requires AllProper(w, ops)
    ensures PerformAll(w, ops).Some? ==> SameHighSlots(PerformAll(w, ops).value, w)
    decreases ops
  {
    if ops != [] {
      PerformRefines(w, root, base, ops[0]);
      if Perform(w, ops[0]).Some? {
        var v := Perform(w, ops[0]).value;
        PerformKeepsHigh(w, root, base, ops[0]);
        StillProper(w, v, ops);
        HighSlotsStable(v, root, base, ops[1..]);
      }
    }
  }

  // ---- Independence ----------------------------------------------------------------

  /** A frame that this address space neither owns nor can be given. */
  predicate Foreign(w: World, base: set<nat>, f: nat) {
    f in base || f in w.pool.reserved || f >= w.pool.count
  }

  lemma ForeignNotTable(w: World, base: set<nat>, f: nat)
    requires Owns(w, base) && Foreign(w, base, f)
    ensures f !in w.at.Values
  {
    assert f in w.at.Values ==> f in w.pool.taken;
  }

  lemma PerformSparesForeign(w: World, root: nat, base: set<nat>, op: Op, f: nat)
    requires Good(w, root, base) && Proper(w, op) && Perform(w, op).Some? && Foreign(w, base, f)
    ensures var v := Perform(w, op).value; Read(v.mem, f) == Read(w.mem, f) && Foreign(v, base, f)
  {
    PerformRefines(w, root, base, op);
    ForeignNotTable(w, base, f);
    match op {
      case Map(s, e) =>
        MapPageExact(w, root, base, s, e);
        var v := MapPage(w, s, e).value;
        assert v.pool.reserved == w.pool.reserved && v.pool.count == w.pool.count;
        ForeignNotTable(v, base, f);
      case Unmap(s) =>
        PagesIffMapped(w, root, s);
        UnmapRemovesPage(w, root, base, s);
        UnmapPageExact(w, root, base, s);
    }
  }

  /** No history writes a frame outside the address space's own tables. */
  lemma {:induction false} HistorySparesForeign(w: World, root: nat, base: set<nat>, ops: seq<Op>, f: nat)
    requires Good(w, root, base) && AllProper(w, ops) && Foreign(w, base, f)
    ensures PerformAll(w, ops).Some? ==> Read(PerformAll(w, ops).value.mem, f) == Read(w.mem, f)
    decreases ops
  {
    if ops != [] {
      PerformRefines(w, root, base, ops[0]);
      if Perform(w, ops[0]).Some? {
        PerformSparesForeign(w, root, base, ops[0], f);
        StillProper(w, Perform(w, ops[0]).value, ops);
        HistorySparesForeign(Perform(w, ops[0]).value, root, base, ops[1..], f);
      }
    }
  }

  /** The same places and frames, in the memory another world has. */
  lemma {:induction false} SameTables(mem: Memory, mem': Memory, at: map<Path, nat>, pool: Pool, root: nat, d: nat, s: Spot, met: seq<Flags>)
    requires Tree(World(mem, at, pool), root) && s.Valid() && d <= 3 && PathAt(s, d) in at
    requires forall p | p in at :: Read(mem', at[p]) == Read(mem, at[p])
    ensures Translate(mem', at[PathAt(s, d)], d, s, met) == Translate(mem, at[PathAt(s, d)], d, s, met)
    decreases 3 - d
  {
    var w, p, i := World(mem, at, pool), PathAt(s, d), IndexAt(s, d);
    var e := w.Entries(p)[i];
    PathAtDepth(s, d);
    assert Settled(w, p, i);
    if e.flags.present && !LeafAt(d, e) {
      assert Child(p, i) in at && PointsTo(w, p, i);
      SameTables(mem, mem', at, pool, root, d + 1, s, met + [e.flags]);
    }
  }

  /** Address spaces are independent: nothing one does changes what another, whose tables
      are among the frames held elsewhere, translates any page to. */
  lemma SpacesIndependent(w: World, root: nat, base: set<nat>, ops: seq<Op>, other: map<Path, nat>, otherRoot: nat, s: Spot)
    requires Good(w, root, base) && AllProper(w, ops) && PerformAll(w, ops).Some?
    requires Tree(World(w.mem, other, w.pool), otherRoot) && s.Valid()
    requires forall p | p in other :: Foreign(w, base, other[p])
    ensures Translate(PerformAll(w, ops).value.mem, otherRoot, 0, s, []) == Translate(w.mem, otherRoot, 0, s, [])
  {
    var v := PerformAll(w, ops).value;
    forall p | p in other ensures Read(v.mem, other[p]) == Read(w.mem, other[p]) {
      HistorySparesForeign(w, root, base, ops, other[p]);
    }
    SameTables(w.mem, v.mem, other, w.pool, otherRoot, 0, s, []);
  }
}
