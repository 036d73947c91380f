/** What MapPage and UnmapPage do to an address space as a whole: they change exactly one
    translation, keep the tree sound and account for every frame; and one undoes the other. */
module PageMapping {
  import opened Outcomes
  import opened Frames
  import opened PageTables
  import opened PageOps

  // ---- Mapping ---------------------------------------------------------------------

  /** Writing one entry leaves every other table alone. */
  lemma PutOther(w: World, root: nat, base: set<nat>, p: Path, i: nat, e: Entry, q: Path)
    requires Good(w, root, base) && p in w.at && i < 512 && q != p
    ensures w.Put(p, i, e).Entries(q) == w.Entries(q)
  {
    assert w.at[p] in w.at.Values;
    assert w.at[p] != 0;
  }

  /** Writing a page's entry changes the translation of no other page. */
  lemma PutLeafWalk(w: World, root: nat, base: set<nat>, s: Spot, e: Entry, t: Spot)
    requires Good(w, root, base) && s.Valid() && t.Valid() && P3(s) in w.at && t != s
    ensures Lookup(w.Put(P3(s), s.i1, e), t) == Lookup(w, t)
  {
    var v := w.Put(P3(s), s.i1, e);
    forall k | 0 <= k <= 3
      ensures v.Entries(PathAt(t, k))[IndexAt(t, k)] == w.Entries(PathAt(t, k))[IndexAt(t, k)]
    {
      PathAtDepth(t, k);
      PathAtDepth(s, 3);
      if PathAt(t, k) == P3(s) {
        PutEffect(w, P3(s), s.i1, e);
      } else {
        PutOther(w, root, base, P3(s), s.i1, e, PathAt(t, k));
      }
    }
    SameWalk(v, w, 0, t, []);
  }

  /** After a page's entry is written, that page translates to it. */
  lemma PutLeafSeen(w: World, root: nat, base: set<nat>, s: Spot, e: Entry)
    requires Good(w, root, base) && s.Valid() && P3(s) in w.at && (e == ZERO || e.flags.present)
    ensures Lookup(w.Put(P3(s), s.i1, e), s).Some? <==> e.flags.present
    ensures e.flags.present ==>
              var h := Lookup(w.Put(P3(s), s.i1, e), s).value; h.depth == 3 && h.leaf == e
  {
    var v := w.Put(P3(s), s.i1, e);
    PathAtDepth(s, 1);
    PathAtDepth(s, 2);
    PathAtDepth(s, 3);
    PutEffect(w, P3(s), s.i1, e);
    PutLeafKeeps(w, root, base, P3(s), s.i1, e);
    PathPrefix(v, root, s);
    assert ClearPath(v, s);
    LookupIffMapped(v, root, s);
  }

  lemma PutLeafNoneEmpty(u: World, w: World, root: nat, base: set<nat>, s: Spot, e: Entry)
    requires Good(w, root, base) && s.Valid() && P3(s) in w.at && e.flags.present && NoNewEmptyBut(u, w, P3(s))
    ensures NoNewEmpty(u, w.Put(P3(s), s.i1, e))
  {
    var v := w.Put(P3(s), s.i1, e);
    PutEffect(w, P3(s), s.i1, e);
    SomeEntryPresent(v, P3(s), s.i1);
  }

  /** A page counts as mapped before and after its missing tables are added alike. */
  lemma MappedAfterEnsure(w: World, v: World, root: nat, base: set<nat>, s: Spot)
    requires Good(w, root, base) && s.Valid() && PathEnsured(w, v, root, base, s)
    ensures v.Entries(P3(s))[s.i1].flags.present <==> Mapped(w, s)
  {
    if P3(s) in w.at {
      PathAtDepth(s, 3);
      assert Settled(w, P3(s), s.i1);
      if w.Entries(P3(s))[s.i1] == ZERO {
        assert Settled(v, P3(s), s.i1);
        LookupAtLeaf(w, root, s);
        LookupAtLeaf(v, root, s);
      }
    }
  }

  lemma LookupAtLeaf(w: World, root: nat, s: Spot)
    requires Tree(w, root) && s.Valid() && P3(s) in w.at
    ensures Lookup(w, s).Some? <==> w.Entries(P3(s))[s.i1].flags.present
  {
    PathPrefix(w, root, s);
    PathAtDepth(s, 1);
    PathAtDepth(s, 2);
    assert ClearPath(w, s);
    LookupIffMapped(w, root, s);
  }

  /** What a successful MapPage leaves behind. */
  ghost predicate PageAdded(w: World, v: World, root: nat, base: set<nat>, s: Spot, e: Entry)
    requires s.Valid()
  {
    && Good(v, root, base) && NoNewEmpty(w, v)
    && (forall t: Spot | t.Valid() && t != s :: Lookup(v, t) == Lookup(w, t))
    && Lookup(v, s).Some? && Lookup(v, s).value.depth == 3 && Lookup(v, s).value.leaf == e
    && |v.pool.FreeSet()| == |w.pool.FreeSet()| - Missing(w, s)
    && (forall f: nat | f !in v.at.Values :: Read(v.mem, f) == Read(w.mem, f))
    && v.pool.reserved == w.pool.reserved && v.pool.count == w.pool.count
    && v.at.Keys == w.at.Keys + {P1(s), P2(s), P3(s)}
    && PathOnly(w, v, s)
  }

  /** The tables that were there keep their frames, and their entries except the one on the
      page's path where a table or the page itself was missing. */
  ghost predicate PathOnly(w: World, v: World, s: Spot) {
    && (forall q | q in w.at :: q in v.at && v.at[q] == w.at[q])
    && (forall q, j: nat | q in w.at && j < 512 && (!OnPath(s, q, j) || Child(q, j) in w.at) ::
          v.Entries(q)[j] == w.Entries(q)[j])
  }

  /** Entry j of the table at q is one that the walk to the page goes through. */
  predicate OnPath(s: Spot, q: Path, j: nat) {
    || (q == Root && j == s.i4) || (q == P1(s) && j == s.i3)
    || (q == P2(s) && j == s.i2) || (q == P3(s) && j == s.i1)
  }

  /** MapPage succeeds exactly when the page is unmapped and enough frames are free for the
      tables it lacks; it then adds that one translation and nothing else. */
  lemma MapPageExact(w: World, root: nat, base: set<nat>, s: Spot, e: Entry)
    requires Good(w, root, base) && s.Valid() && ClearPath(w, s) && e.flags.present
    ensures MapPage(w, s, e).Some? <==> !Mapped(w, s) && Missing(w, s) <= |w.pool.FreeSet()|
    ensures MapPage(w, s, e).Some? ==> PageAdded(w, MapPage(w, s, e).value, root, base, s, e)
  {
    EnsurePathKeeps(w, root, base, s);
    if EnsurePath(w, s).Some? {
      var v := EnsurePath(w, s).value;
      MappedAfterEnsure(w, v, root, base, s);
      if !Mapped(w, s) {
        PageIsAdded(w, root, base, s, e);
      }
    }
  }

  lemma PageIsAdded(w: World, root: nat, base: set<nat>, s: Spot, e: Entry)
    requires Good(w, root, base) && s.Valid() && ClearPath(w, s) && e.flags.present && EnsurePath(w, s).Some?
    ensures PageAdded(w, EnsurePath(w, s).value.Put(P3(s), s.i1, e), root, base, s, e)
  {
    var v := EnsurePath(w, s).value;
    EnsurePathKeeps(w, root, base, s);
    EnsurePathOnly(w, root, base, s);
    LeafPathOnly(w, v, root, base, s, e);
    LeafAdded(w, v, root, base, s, e);
  }

  /** MapPage's table work touches only the page's path. */
  lemma EnsurePathOnly(w: World, root: nat, base: set<nat>, s: Spot)
    requires Good(w, root, base) && s.Valid() && ClearPath(w, s) && EnsurePath(w, s).Some?
    ensures PathOnly(w, EnsurePath(w, s).value, s)
  {
    var a, b := Chain(w, root, base, s);
    var v := EnsurePath(w, s).value;
    StepPathOnly(w, a, root, base, Root, s.i4, s);
    StepPathOnly(a, b, root, base, P1(s), s.i3, s);
    StepPathOnly(b, v, root, base, P2(s), s.i2, s);
    PathOnlyTransitive(w, a, b, s);
    PathOnlyTransitive(w, b, v, s);
  }

  lemma StepPathOnly(w: World, v: World, root: nat, base: set<nat>, p: Path, i: nat, s: Spot)
    requires Ensured(w, v, root, base, p, i) && OnPath(s, p, i)
    requires forall q, j: nat | q in w.at && Child(q, j) in w.at :: j < 512 && w.Entries(q)[j] != ZERO
    ensures PathOnly(w, v, s)
    ensures forall q, j: nat | q in v.at && Child(q, j) in v.at :: j < 512 && v.Entries(q)[j] != ZERO
  {
    forall q, j: nat | q in w.at && j < 512 && (!OnPath(s, q, j) || Child(q, j) in w.at)
      ensures v.Entries(q)[j] == w.Entries(q)[j]
    {
      if q != p {
        assert q in v.at;
      }
    }
    forall q, j: nat | q in v.at && Child(q, j) in v.at ensures j < 512 && v.Entries(q)[j] != ZERO {
      assert PointsTo(v, q, j);
    }
  }

  lemma PathOnlyTransitive(u: World, v: World, w: World, s: Spot)
    requires PathOnly(u, v, s) && PathOnly(v, w, s)
    ensures PathOnly(u, w, s)
  {
    forall q, j: nat | q in u.at && j < 512 && (!OnPath(s, q, j) || Child(q, j) in u.at)
      ensures w.Entries(q)[j] == u.Entries(q)[j]
    {
      assert v.Entries(q)[j] == u.Entries(q)[j];
    }
  }

  lemma LeafPathOnly(w: World, v: World, root: nat, base: set<nat>, s: Spot, e: Entry)
    requires Tree(w, root) && Good(v, root, base) && s.Valid() && P3(s) in v.at && PathOnly(w, v, s)
    ensures PathOnly(w, v.Put(P3(s), s.i1, e), s)
  {
    PathAtDepth(s, 3);
    PutEffect(v, P3(s), s.i1, e);
    var x := v.Put(P3(s), s.i1, e);
    forall q, j: nat | q in w.at && j < 512 && (!OnPath(s, q, j) || Child(q, j) in w.at)
      ensures x.Entries(q)[j] == w.Entries(q)[j]
    {
      assert v.Entries(q)[j] == w.Entries(q)[j];
      assert Child(q, j) in w.at ==> Depth(Child(q, j)) <= 3;
    }
  }

  lemma LeafLookups(w: World, v: World, root: nat, base: set<nat>, s: Spot, e: Entry)
    requires Good(v, root, base) && s.Valid() && P3(s) in v.at
    requires forall t: Spot | t.Valid() :: Lookup(v, t) == Lookup(w, t)
    ensures forall t: Spot | t.Valid() && t != s :: Lookup(v.Put(P3(s), s.i1, e), t) == Lookup(w, t)
  {
    forall t: Spot | t.Valid() && t != s ensures Lookup(v.Put(P3(s), s.i1, e), t) == Lookup(w, t) {
      PutLeafWalk(v, root, base, s, e, t);
    }
  }

  lemma LeafFrames(w: World, v: World, s: Spot, e: Entry)
    requires s.Valid() && P3(s) in v.at
    requires forall f: nat | f !in v.at.Values :: Read(v.mem, f) == Read(w.mem, f)
    ensures forall f: nat | f !in v.at.Values :: Read(v.Put(P3(s), s.i1, e).mem, f) == Read(w.mem, f)
  {
    assert v.at[P3(s)] in v.at.Values;
  }

  lemma LeafAdded(w: World, v: World, root: nat, base: set<nat>, s: Spot, e: Entry)
    requires s.Valid() && PathEnsured(w, v, root, base, s) && e.flags.present && PathOnly(w, v.Put(P3(s), s.i1, e), s)
    ensures PageAdded(w, v.Put(P3(s), s.i1, e), root, base, s, e)
  {
    LeafAddedTree(w, v, root, base, s, e);
    LeafLookups(w, v, root, base, s, e);
    LeafFrames(w, v, s, e);
  }

  lemma LeafAddedTree(w: World, v: World, root: nat, base: set<nat>, s: Spot, e: Entry)
    requires Good(v, root, base) && s.Valid() && P3(s) in v.at && NoNewEmptyBut(w, v, P3(s)) && e.flags.present
    ensures Good(v.Put(P3(s), s.i1, e), root, base) && NoNewEmpty(w, v.Put(P3(s), s.i1, e))
    ensures Lookup(v.Put(P3(s), s.i1, e), s).Some?
    ensures Lookup(v.Put(P3(s), s.i1, e), s).value.depth == 3 && Lookup(v.Put(P3(s), s.i1, e), s).value.leaf == e
  {
    PathAtDepth(s, 3);
    PutLeafKeeps(v, root, base, P3(s), s.i1, e);
    PutLeafSeen(v, root, base, s, e);
    PutLeafNoneEmpty(w, v, root, base, s, e);
  }

  // ---- Unmapping -------------------------------------------------------------------

  /** What pruning leaves behind: the same translations from fewer tables, none newly empty. */
  ghost predicate Pruned(w: World, v: World, root: nat, base: set<nat>, s: Spot)
    requires s.Valid()
  {
    && Good(v, root, base) && Grown(v, w)
    && NoNewEmpty(w, v) && (P3(s) in v.at ==> !TableEmpty(v.Entries(P3(s))))
    && v.at.Keys == w.at.Keys - Dropped(w, s)
    && |v.pool.FreeSet()| == |w.pool.FreeSet()| + |Dropped(w, s)|
  }

  /** Apart from the entry leading to the table at index i, the table at p is empty. */
  predicate OnlyEntry(w: World, p: Path, i: nat) {
    forall j | 0 <= j < 512 && j != i :: !w.Entries(p)[j].flags.present
  }

  /** The tables pruning frees. */
  function Dropped(w: World, s: Spot): set<Path>
    requires s.Valid()
  {
    if !TableEmpty(w.Entries(P3(s))) then {}
    else if !OnlyEntry(w, P2(s), s.i2) then {P3(s)}
    else if !OnlyEntry(w, P1(s), s.i3) || s.i4 >= 256 then {P3(s), P2(s)}
    else {P3(s), P2(s), P1(s)}
  }

  lemma EmptyAfterCut(w: World, root: nat, base: set<nat>, p: Path, i: nat)
    requires Good(w, root, base) && i < 512 && Child(p, i) in w.at
    ensures TableEmpty(Cut(w, p, i).Entries(p)) <==> OnlyEntry(w, p, i)
  {
    CutEffect(w, root, base, p, i);
    var t := Cut(w, p, i).Entries(p);
    if OnlyEntry(w, p, i) {
      assert TableEmpty(t);
    }
    if TableEmpty(t) {
      forall j | 0 <= j < 512 && j != i ensures !w.Entries(p)[j].flags.present {
        assert !t[j].flags.present;
      }
    }
  }

  lemma GrownReflexive(w: World)
    ensures Grown(w, w)
  {
  }

  /** Seen from u, some tables in drop are gone and the rest is as before; p may be empty. */
  ghost predicate CutFrom(u: World, v: World, root: nat, base: set<nat>, p: Path, drop: set<Path>) {
    && Good(v, root, base) && NoNewEmptyBut(u, v, p) && Grown(v, u) && p in v.at
    && v.at.Keys == u.at.Keys - drop
    && |v.pool.FreeSet()| == |u.pool.FreeSet()| + |drop|
  }

  lemma CutAgain(u: World, v: World, root: nat, base: set<nat>, p: Path, i: nat, drop: set<Path>)
    requires i < 512 && CutFrom(u, v, root, base, Child(p, i), drop) && TableEmpty(v.Entries(Child(p, i)))
    ensures CutFrom(u, Cut(v, p, i), root, base, p, drop + {Child(p, i)})
  {
    CutStep(v, root, base, p, i);
    GrownTransitive(Cut(v, p, i), v, u);
    NoNewTransitive(u, v, Cut(v, p, i), Child(p, i), p);
    assert Child(p, i) !in drop;
    assert u.at.Keys - drop - {Child(p, i)} == u.at.Keys - (drop + {Child(p, i)});
  }

  /** Cutting below P2 leaves the entries of P1 alone. */
  lemma OnlyEntryKept(u: World, root: nat, base: set<nat>, s: Spot)
    requires Good(u, root, base) && s.Valid() && P3(s) in u.at
    ensures P1(s) in u.at && P2(s) in u.at
    ensures OnlyEntry(Cut(u, P2(s), s.i2), P1(s), s.i3) <==> OnlyEntry(u, P1(s), s.i3)
  {
    PathPrefix(u, root, s);
    CutEffect(u, root, base, P2(s), s.i2);
    assert P1(s) != P2(s) && P1(s) != P3(s);
    assert P1(s) in Cut(u, P2(s), s.i2).at.Keys;
    assert Cut(u, P2(s), s.i2).Entries(P1(s)) == u.Entries(P1(s));
  }

  /** Pruning frees exactly the emptied tables, keeps every translation, and leaves no
      table newly empty except a higher-half level-3 table. */
  lemma PruneKeeps(u: World, root: nat, base: set<nat>, s: Spot)
    requires Good(u, root, base) && s.Valid() && P3(s) in u.at
    ensures Pruned(u, Prune(u, s), root, base, s)
  {
    GrownReflexive(u);
    PathPrefix(u, root, s);
    if !TableEmpty(u.Entries(P3(s))) {
      assert u.at.Keys - {} == u.at.Keys;
    } else {
      assert CutFrom(u, u, root, base, P3(s), {}) by { assert u.at.Keys - {} == u.at.Keys; }
      CutAgain(u, u, root, base, P2(s), s.i2, {});
      EmptyAfterCut(u, root, base, P2(s), s.i2);
      assert {} + {P3(s)} == {P3(s)};
      PruneUpper(u, root, base, s);
    }
  }

  lemma PruneUpper(u: World, root: nat, base: set<nat>, s: Spot)
    requires Good(u, root, base) && s.Valid() && P3(s) in u.at && TableEmpty(u.Entries(P3(s)))
    requires CutFrom(u, Cut(u, P2(s), s.i2), root, base, P2(s), {P3(s)})
    ensures Pruned(u, Prune(u, s), root, base, s)
  {
    var w2 := Cut(u, P2(s), s.i2);
    EmptyAfterCut(u, root, base, P2(s), s.i2);
    if !TableEmpty(w2.Entries(P2(s))) {
      NoNewAtAll(u, w2, P2(s));
    } else {
      PruneTwo(u, w2, root, base, s);
    }
  }

  /** Both the page table and the table above it have become empty. */
  lemma PruneTwo(u: World, w2: World, root: nat, base: set<nat>, s: Spot)
    requires Good(u, root, base) && s.Valid() && P3(s) in u.at && w2 == Cut(u, P2(s), s.i2)
    requires CutFrom(u, w2, root, base, P2(s), {P3(s)}) && TableEmpty(w2.Entries(P2(s)))
    requires TableEmpty(u.Entries(P3(s))) && OnlyEntry(u, P2(s), s.i2)
    ensures Pruned(u, PruneAbove(w2, s), root, base, s)
  {
    CutAgain(u, w2, root, base, P1(s), s.i3, {P3(s)});
    EmptyAfterCut(w2, root, base, P1(s), s.i3);
    OnlyEntryKept(u, root, base, s);
    var w1 := Cut(w2, P1(s), s.i3);
    assert {P3(s)} + {P2(s)} == {P3(s), P2(s)};
    PruneTop(u, w1, root, base, s);
  }

  lemma PruneTop(u: World, w1: World, root: nat, base: set<nat>, s: Spot)
    requires s.Valid() && CutFrom(u, w1, root, base, P1(s), {P3(s), P2(s)})
    ensures !TableEmpty(w1.Entries(P1(s))) || s.i4 >= 256 ==>
              Good(w1, root, base) && NoNewEmpty(u, w1) && Grown(w1, u)
    ensures TableEmpty(w1.Entries(P1(s))) && s.i4 < 256 ==>
              CutFrom(u, Cut(w1, Root, s.i4), root, base, Root, {P3(s), P2(s), P1(s)})
  {
    if !TableEmpty(w1.Entries(P1(s))) || s.i4 >= 256 {
      NoNewAtAll(u, w1, P1(s));
    } else {
      CutAgain(u, w1, root, base, Root, s.i4, {P3(s), P2(s)});
      assert {P3(s), P2(s)} + {P1(s)} == {P3(s), P2(s), P1(s)};
    }
  }

  /** What a successful UnmapPage leaves behind. */
  ghost predicate PageRemoved(w: World, v: World, root: nat, base: set<nat>, s: Spot)
    requires s.Valid()
  {
    && Good(v, root, base) && NoNewEmpty(w, v)
    && (forall t: Spot | t.Valid() && t != s :: Lookup(v, t) == Lookup(w, t))
    && Lookup(v, s).None?
    && v.at.Keys <= w.at.Keys && (forall q | q in v.at :: v.at[q] == w.at[q])
    && |v.pool.FreeSet()| == |w.pool.FreeSet()| + |w.at.Keys - v.at.Keys|
    && (forall f: nat | f !in w.at.Values :: Read(v.mem, f) == Read(w.mem, f))
    && v.pool.reserved == w.pool.reserved && v.pool.count == w.pool.count
  }

  /** UnmapPage removes that one translation and nothing else, and gives back exactly the
      frames of the tables it drops. */
  lemma UnmapPageExact(w: World, root: nat, base: set<nat>, s: Spot)
    requires Good(w, root, base) && s.Valid() && Mapped(w, s)
    ensures UnmapPage(w, s).Some? && PageRemoved(w, UnmapPage(w, s).value, root, base, s)
  {
    var u := ClearLeaf(w, s);
    PathAtDepth(s, 3);
    PutLeafKeeps(w, root, base, P3(s), s.i1, ZERO);
    assert NoNewEmptyBut(w, u, P3(s)) by { PutEffect(w, P3(s), s.i1, ZERO); }
    PruneKeeps(u, root, base, s);
    PutLeafSeen(w, root, base, s, ZERO);
    LeafFrames(w, w, s, ZERO);
    LeafLookups(w, w, root, base, s, ZERO);
    AfterPrune(w, u, Prune(u, s), root, base, s);
  }

  lemma DroppedKeys(w: World, root: nat, s: Spot)
    requires Tree(w, root) && s.Valid() && P3(s) in w.at
    ensures Dropped(w, s) <= w.at.Keys
  {
    PathPrefix(w, root, s);
  }

  lemma AfterPrune(w: World, u: World, v: World, root: nat, base: set<nat>, s: Spot)
    requires s.Valid() && Tree(u, root) && P3(s) in u.at && Pruned(u, v, root, base, s)
    requires u.at == w.at && u.pool == w.pool && Lookup(u, s).None? && NoNewEmptyBut(w, u, P3(s))
    requires forall t: Spot | t.Valid() && t != s :: Lookup(u, t) == Lookup(w, t)
    requires forall f: nat | f !in w.at.Values :: Read(u.mem, f) == Read(w.mem, f)
    ensures PageRemoved(w, v, root, base, s)
  {
    DroppedKeys(u, root, s);
    NoNewTransitive(w, u, v, P3(s), Root);
    assert w.at.Keys - v.at.Keys == Dropped(u, s);
  }

  // ---- One undoes the other --------------------------------------------------------

  /** The same tables with the same entries, and the same allocator. */
  ghost predicate SameSpace(v: World, w: World) {
    v.at == w.at && v.pool == w.pool && forall q | q in w.at :: v.Entries(q) == w.Entries(q)
  }

  lemma CutUndoesGrow(w: World, root: nat, base: set<nat>, p: Path, i: nat, f: nat, x: World)
    requires Good(w, root, base) && p in w.at && i < 512 && w.pool.Free(f) && w.Entries(p)[i] == ZERO
    requires SameSpace(x, Grow(w, p, i, f)) && Distinct(x.at)
    ensures SameSpace(Cut(x, p, i), w)
  {
    var g, v, c := Grow(w, p, i, f), Cut(x, p, i), Child(p, i);
    assert f !in w.at.Values;
    GrowEffect(w, root, base, p, i, f);
    assert v.at == w.at;
    SpanOne(f);
    assert w.pool.taken + {f} - {f} == w.pool.taken;
    assert v.pool == w.pool;
    forall q | q in w.at ensures v.Entries(q) == w.Entries(q) {
      if q == p {
        assert v.Entries(p) == w.Entries(p)[i := Entry(f, DIRECTORY)][i := ZERO];
      } else {
        assert x.at[q] != x.at[p];
      }
    }
  }

  /** EnsureTable either finds the table or adds it. */
  ghost predicate FoundOrAdded(w: World, v: World, p: Path, i: nat)
    requires i < 512
  {
    if Child(p, i) in w.at then v == w
    else w.Entries(p)[i] == ZERO && exists f :: w.pool.Free(f) && v == Grow(w, p, i, f)
  }

  lemma EnsureFindsOrAdds(w: World, root: nat, base: set<nat>, p: Path, i: nat)
    requires Good(w, root, base) && p in w.at && Depth(p) < 3 && i < 512
    requires !LeafAt(Depth(p), w.Entries(p)[i])
    ensures EnsureTable(w, p, i).Some? ==> FoundOrAdded(w, EnsureTable(w, p, i).value, p, i)
  {
    EnsureTableKeeps(w, root, base, p, i);
    assert Settled(w, p, i);
    assert Child(p, i) in w.at ==> PointsTo(w, p, i);
  }

  /** The chain of worlds inside MapPage. */
  lemma Levels(w: World, root: nat, base: set<nat>, s: Spot) returns (a: World, b: World)
    requires Good(w, root, base) && s.Valid() && ClearPath(w, s) && EnsurePath(w, s).Some?
    ensures Good(a, root, base) && Good(b, root, base)
    ensures P1(s) in a.at && P2(s) in b.at
    ensures FoundOrAdded(w, a, Root, s.i4) && FoundOrAdded(a, b, P1(s), s.i3)
    ensures FoundOrAdded(b, EnsurePath(w, s).value, P2(s), s.i2)
    ensures P2(s) in a.at <==> P2(s) in w.at
    ensures P3(s) in b.at <==> P3(s) in w.at
  {
    EnsureTwo(w, root, base, s);
    PathAtDepth(s, 1);
    PathAtDepth(s, 2);
    a := EnsureTable(w, Root, s.i4).value;
    b := EnsureTable(a, P1(s), s.i3).value;
    EnsureFindsOrAdds(w, root, base, Root, s.i4);
    EnsureFindsOrAdds(a, root, base, P1(s), s.i3);
    AfterTwo(w, a, b, root, base, s);
    EnsureFindsOrAdds(b, root, base, P2(s), s.i2);
    KeysTwo(w.at, a.at, b.at, s);
    KeyP3(w.at, b.at, s);
  }

  /** The table added last is empty again once the page's entry is cleared. */
  lemma AddedIsEmpty(w: World, v: World, root: nat, base: set<nat>, p: Path, i: nat, x: World)
    requires Good(w, root, base) && p in w.at && i < 512 && Child(p, i) !in w.at && FoundOrAdded(w, v, p, i)
    requires SameSpace(x, v) && Distinct(x.at)
    ensures TableEmpty(x.Entries(Child(p, i)))
    ensures SameSpace(Cut(x, p, i), w)
  {
    var f :| w.pool.Free(f) && v == Grow(w, p, i, f);
    assert f !in w.at.Values;
    GrowEffect(w, root, base, p, i, f);
    CutUndoesGrow(w, root, base, p, i, f, x);
  }

  /** What is already on the page's path survives being mapped and unmapped, and nothing else
      stays: if only the root is there, the page lies in the lower half; otherwise the lowest
      table there has an entry, or is a level-3 table of the higher half. */
  predicate Rooted(w: World, s: Spot)
    requires s.Valid()
  {
    if P3(s) in w.at then !TableEmpty(w.Entries(P3(s)))
    else if P2(s) in w.at then !TableEmpty(w.Entries(P2(s)))
    else if P1(s) in w.at then s.i4 >= 256 || !TableEmpty(w.Entries(P1(s)))
    else s.i4 < 256
  }

  /** Pruning an address space that MapPage's table work produced undoes that work. */
  lemma PruneUndoesEnsure(w: World, root: nat, base: set<nat>, s: Spot, x: World)
    requires Good(w, root, base) && s.Valid() && Rooted(w, s) && ClearPath(w, s) && EnsurePath(w, s).Some?
    requires SameSpace(x, EnsurePath(w, s).value) && Distinct(x.at)
    ensures SameSpace(Prune(x, s), w)
  {
    var a, b := Levels(w, root, base, s);
    PathPrefix(w, root, s);
    if P3(s) in w.at {
      assert !TableEmpty(w.Entries(P3(s)));
    } else {
      AddedIsEmpty(b, EnsurePath(w, s).value, root, base, P2(s), s.i2, x);
      if P2(s) in w.at {
        assert !TableEmpty(w.Entries(P2(s)));
      } else {
        UndoLower(w, a, b, root, base, s, Cut(x, P2(s), s.i2));
        PruneCases(x, s);
      }
    }
  }

  ghost predicate LowerUndone(w: World, a: World, z: World, s: Spot)
    requires s.Valid()
  {
    && SameSpace(z, a)
    && (if P1(s) in w.at then SameSpace(z, w) && (s.i4 >= 256 || !TableEmpty(z.Entries(P1(s))))
        else TableEmpty(z.Entries(P1(s))) && SameSpace(Cut(z, Root, s.i4), w))
  }

  lemma PruneCases(x: World, s: Spot)
    requires s.Valid() && TableEmpty(x.Entries(P3(s))) && TableEmpty(Cut(x, P2(s), s.i2).Entries(P2(s)))
    ensures var z := Cut(Cut(x, P2(s), s.i2), P1(s), s.i3);
            Prune(x, s) == if !TableEmpty(z.Entries(P1(s))) || s.i4 >= 256 then z else Cut(z, Root, s.i4)
  {
  }

  lemma UndoLower(w: World, a: World, b: World, root: nat, base: set<nat>, s: Spot, y: World)
    requires Good(w, root, base) && Good(a, root, base) && Good(b, root, base) && s.Valid()
    requires P1(s) in w.at ==> s.i4 >= 256 || !TableEmpty(w.Entries(P1(s)))
    requires P1(s) in a.at && P2(s) !in a.at && FoundOrAdded(w, a, Root, s.i4) && FoundOrAdded(a, b, P1(s), s.i3)
    requires SameSpace(y, b)
    ensures TableEmpty(y.Entries(P2(s)))
    ensures LowerUndone(w, a, Cut(y, P1(s), s.i3), s)
  {
    AddedIsEmpty(a, b, root, base, P1(s), s.i3, y);
    var z := Cut(y, P1(s), s.i3);
    if P1(s) !in w.at {
      AddedIsEmpty(w, a, root, base, Root, s.i4, z);
    }
  }

  /** Otherwise the tables differ afterwards. */
  lemma PruneMissesEnsure(w: World, root: nat, base: set<nat>, s: Spot, x: World)
    requires Good(w, root, base) && s.Valid() && !Rooted(w, s) && ClearPath(w, s) && EnsurePath(w, s).Some?
    requires SameSpace(x, EnsurePath(w, s).value) && Good(x, root, base)
    ensures Prune(x, s).at.Keys != w.at.Keys
  {
    var v := EnsurePath(w, s).value;
    EnsurePathKeeps(w, root, base, s);
    PruneKeeps(x, root, base, s);
    PathPrefix(w, root, s);
    var a, b := Chain(w, root, base, s);
    LowestIsDropped(w, a, b, v, root, base, s);
    DroppedSame(x, v, s);
    KeysDiffer(w.at.Keys, Prune(x, s).at.Keys, Dropped(v, s), s);
  }

  /** The worlds inside MapPage, one level apart each. */
  ghost predicate ThreeSteps(w: World, a: World, b: World, v: World, root: nat, base: set<nat>, s: Spot)
    requires s.Valid()
  {
    && Ensured(w, a, root, base, Root, s.i4) && Ensured(a, b, root, base, P1(s), s.i3)
    && Ensured(b, v, root, base, P2(s), s.i2)
    && (P2(s) in a.at <==> P2(s) in w.at) && (P3(s) in b.at <==> P3(s) in w.at)
  }

  lemma Chain(w: World, root: nat, base: set<nat>, s: Spot) returns (a: World, b: World)
    requires Good(w, root, base) && s.Valid() && ClearPath(w, s) && EnsurePath(w, s).Some?
    ensures ThreeSteps(w, a, b, EnsurePath(w, s).value, root, base, s)
  {
    EnsureTwo(w, root, base, s);
    PathAtDepth(s, 2);
    a := EnsureTable(w, Root, s.i4).value;
    b := EnsureTable(a, P1(s), s.i3).value;
    AfterTwo(w, a, b, root, base, s);
    EnsureStep(b, root, base, P2(s), s.i2);
    KeysTwo(w.at, a.at, b.at, s);
    KeyP3(w.at, b.at, s);
  }

  lemma OnlyP2(w: World, a: World, b: World, v: World, root: nat, base: set<nat>, s: Spot)
    requires s.Valid() && ThreeSteps(w, a, b, v, root, base, s) && P3(s) !in w.at
    requires P2(s) in w.at ==> TableEmpty(w.Entries(P2(s)))
    ensures OnlyEntry(v, P2(s), s.i2) && TableEmpty(v.Entries(P3(s)))
  {
    if P2(s) in w.at {
      assert a.Entries(P2(s)) == w.Entries(P2(s));
      assert b.Entries(P2(s)) == a.Entries(P2(s));
    }
    assert TableEmpty(b.Entries(P2(s)));
  }

  lemma OnlyP1(w: World, a: World, b: World, v: World, root: nat, base: set<nat>, s: Spot)
    requires s.Valid() && ThreeSteps(w, a, b, v, root, base, s) && P2(s) !in w.at
    requires P1(s) in w.at && TableEmpty(w.Entries(P1(s)))
    ensures OnlyEntry(v, P1(s), s.i3)
  {
    assert a.Entries(P1(s)) == w.Entries(P1(s));
    assert P1(s) != P2(s) && P1(s) in b.at.Keys && P1(s) in v.at.Keys;
    assert v.Entries(P1(s)) == b.Entries(P1(s));
  }

  lemma KeptP3(w: World, a: World, b: World, v: World, root: nat, base: set<nat>, s: Spot)
    requires s.Valid() && ThreeSteps(w, a, b, v, root, base, s) && P3(s) in w.at
    ensures v.Entries(P3(s)) == w.Entries(P3(s))
  {
    assert P3(s) != P2(s) && P3(s) != P1(s) && P3(s) != Root;
    assert P3(s) in a.at.Keys && P3(s) in b.at.Keys && P3(s) in v.at.Keys;
    assert a.Entries(P3(s)) == w.Entries(P3(s));
    assert b.Entries(P3(s)) == a.Entries(P3(s));
  }

  /** If not, pruning drops the lowest table that was there, or keeps one that was not. */
  lemma LowestIsDropped(w: World, a: World, b: World, v: World, root: nat, base: set<nat>, s: Spot)
    requires Tree(w, root) && s.Valid() && ThreeSteps(w, a, b, v, root, base, s) && !Rooted(w, s)
    ensures (exists q :: q in w.at && q in Dropped(v, s)) || (P1(s) !in w.at && P1(s) !in Dropped(v, s))
  {
    PathPrefix(w, root, s);
    if P3(s) in w.at {
      KeptP3(w, a, b, v, root, base, s);
      assert P3(s) in Dropped(v, s);
    } else if P2(s) in w.at {
      OnlyP2(w, a, b, v, root, base, s);
      assert P2(s) in Dropped(v, s);
    } else {
      OnlyP2(w, a, b, v, root, base, s);
      if P1(s) in w.at {
        OnlyP1(w, a, b, v, root, base, s);
        assert P1(s) in Dropped(v, s);
      } else {
        assert P1(s) != P2(s) && P1(s) != P3(s);
      }
    }
  }

  lemma DroppedSame(x: World, v: World, s: Spot)
    requires s.Valid() && SameSpace(x, v) && P1(s) in v.at && P2(s) in v.at && P3(s) in v.at
    ensures Dropped(x, s) == Dropped(v, s)
  {
  }

  lemma KeysDiffer(before: set<Path>, after: set<Path>, dropped: set<Path>, s: Spot)
    requires after == before + {P1(s), P2(s), P3(s)} - dropped
    requires (exists q :: q in before && q in dropped) || (P1(s) !in before && P1(s) !in dropped)
    ensures after != before
  {
  }

  /** Mapping a page and unmapping it again restores the tables, the allocator's sets and so
      its free count, if and only if either only the root was on its path and the page lies in
      the lower half, or the lowest table on its path had an entry or was a level-3 table of
      the higher half. */
  lemma MapThenUnmap(w: World, root: nat, base: set<nat>, s: Spot, e: Entry)
    requires Good(w, root, base) && s.Valid() && ClearPath(w, s) && e.flags.present
    requires MapPage(w, s, e).Some?
    ensures UnmapPage(MapPage(w, s, e).value, s).Some?
    ensures SameSpace(UnmapPage(MapPage(w, s, e).value, s).value, w) <==> Rooted(w, s)
  {
    var x := ClearLeaf(MapPage(w, s, e).value, s);
    ClearedAfterMap(w, root, base, s, e);
    if Rooted(w, s) {
      PruneUndoesEnsure(w, root, base, s, x);
    } else {
      PruneMissesEnsure(w, root, base, s, x);
    }
  }

  /** Clearing the entry just written leaves what MapPage's table work made. */
  lemma ClearedAfterMap(w: World, root: nat, base: set<nat>, s: Spot, e: Entry)
    requires Good(w, root, base) && s.Valid() && ClearPath(w, s) && e.flags.present
    requires MapPage(w, s, e).Some?
    ensures var v := MapPage(w, s, e).value;
            && Mapped(v, s) && SameSpace(ClearLeaf(v, s), EnsurePath(w, s).value)
            && Good(ClearLeaf(v, s), root, base)
  {
    EnsurePathKeeps(w, root, base, s);
    var v3 := EnsurePath(w, s).value;
    ClearUndoesPut(v3, root, base, s, e);
    PathAtDepth(s, 3);
    PutLeafKeeps(v3, root, base, P3(s), s.i1, e);
    PutLeafKeeps(v3.Put(P3(s), s.i1, e), root, base, P3(s), s.i1, ZERO);
  }

  /** Where no table is empty that should not be, that is: the page is in the lower half, or
      its root slot is in use. */
  lemma RootedWhenNoneEmpty(w: World, root: nat, s: Spot)
    requires Tree(w, root) && NoneEmpty(w) && s.Valid()
    ensures Rooted(w, s) <==> P1(s) in w.at || s.i4 < 256
  {
    PathPrefix(w, root, s);
  }

  lemma SixFree(pool: Pool)
    requires pool == Pool(8, {0}, {1})
    ensures |pool.FreeSet()| == 6 && pool.Valid()
  {
    assert pool.FreeSet() == {2, 3, 4, 5, 6, 7};
  }

  /** In an address space without tables but its root, mapping and unmapping the first page
      of the higher half leaves a table behind. */
  lemma HighSlotExample(e: Entry) returns (w: World, s: Spot)
    requires e.flags.present
    ensures Good(w, 1, {}) && NoneEmpty(w) && s.Valid() && ClearPath(w, s)
    ensures MapPage(w, s, e).Some? && UnmapPage(MapPage(w, s, e).value, s).Some?
    ensures !SameSpace(UnmapPage(MapPage(w, s, e).value, s).value, w)
  {
    w, s := World(map[], map[Root := 1], Pool(8, {0}, {1})), Spot(256, 0, 0, 0);
    BareRootGood(w);
    SixFree(w.pool);
    MapPageExact(w, 1, {}, s, e);
    MapThenUnmap(w, 1, {}, s, e);
  }

  lemma BareRootGood(w: World)
    requires w == World(map[], map[Root := 1], Pool(8, {0}, {1}))
    ensures Good(w, 1, {}) && NoneEmpty(w)
  {
    ValuesAfterAdd(map[], Root, 1);
    assert map[][Root := 1] == w.at && w.at.Values == {1};
  }

  lemma ClearUndoesPut(w: World, root: nat, base: set<nat>, s: Spot, e: Entry)
    requires Good(w, root, base) && s.Valid() && P3(s) in w.at && e.flags.present
    requires !w.Entries(P3(s))[s.i1].flags.present
    ensures Mapped(w.Put(P3(s), s.i1, e), s)
    ensures SameSpace(ClearLeaf(w.Put(P3(s), s.i1, e), s), w)
  {
    var v := w.Put(P3(s), s.i1, e);
    assert Settled(w, P3(s), s.i1);
    PutEffect(w, P3(s), s.i1, e);
    PutEffect(v, P3(s), s.i1, ZERO);
    assert w.Entries(P3(s))[s.i1 := e][s.i1 := ZERO] == w.Entries(P3(s));
  }
}
