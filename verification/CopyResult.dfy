/** The finished copy of the bootloader's tables: what its memory is, when it is a sound
    address space that translates every page as the original does, and when only the latter. */
module CopyResult {
  import opened Outcomes
  import opened Frames
  import opened PageTables
  import opened PageOps
  import opened PageRuns
  import opened Draws
  import opened PageCopy
  import opened DeepCopy

  /** A whole copy: from the cleared root alone, every place of the image has been added. */
  ghost predicate WholeCopy(u: World, w: World, img: Image, root: nat) {
    && Closed(img) && u.at == map[Root := root] && u.Entries(Root) == Blank() && u.pool.Valid()
    && !u.pool.Free(root)
    && Progress(u, w, img, Root, 512)
  }

  lemma {:induction false} AllBelowRoot(img: Image, q: Path)
    requires Closed(img) && q in img && q != Root
    ensures q in Below(img, Root, 512)
  {
    if q.parent != Root {
      AllBelowRoot(img, q.parent);
    }
  }

  /** The tables below the root number one less than the image. */
  lemma BelowRootSize(img: Image)
    requires Closed(img)
    ensures Below(img, Root, 512) == img.Keys - {Root} && |Below(img, Root, 512)| == |img| - 1
  {
    SelfNotBelow(img, Root, 512);
    forall q | q in img && q != Root ensures q in Below(img, Root, 512) {
      AllBelowRoot(img, q);
    }
  }

  lemma EveryEntryCopied(u: World, w: World, img: Image, root: nat, q: Path, j: nat)
    requires WholeCopy(u, w, img, root) && q in img && j < 512
    ensures q in w.at && EntryCopied(w, q, j, img[q][j], Prior(u, w, q)[j])
  {
    if q == Root {
      assert EntryCopied(w, Root, j, img[Root][j], u.Entries(Root)[j]);
    } else {
      AllBelowRoot(img, q);
    }
  }

  lemma InImage(u: World, w: World, img: Image, root: nat, q: Path)
    requires WholeCopy(u, w, img, root) && q in w.at
    ensures q in img && (q != Root ==> u.pool.Free(w.at[q])) && (q == Root ==> w.at[q] == root)
  {
  }

  // ---- The memory after a copy, from what was there before ---------------------------

  /** The frame of each table of the copy. */
  function Seat(f: Pool, img: Image, root: nat, q: Path): nat {
    if q == Root then root else Draw(f, RankFrom(img, Root, q))
  }

  function Places(f: Pool, img: Image, root: nat): map<Path, nat> {
    map q | q in img :: Seat(f, img, root, q)
  }

  lemma SeatsForeseen(u: World, w: World, img: Image, root: nat)
    requires WholeCopy(u, w, img, root)
    ensures w.at == Places(u.pool, img, root)
  {
    forall q ensures q in w.at <==> q in img {
      if q in w.at {
        InImage(u, w, img, root, q);
      }
      if q in img {
        SeatOfCopy(u, w, img, root, q);
      }
    }
    forall q | q in img ensures w.at[q] == Seat(u.pool, img, root, q) {
      SeatOfCopy(u, w, img, root, q);
    }
  }

  lemma SeatOfCopy(u: World, w: World, img: Image, root: nat, q: Path)
    requires WholeCopy(u, w, img, root) && q in img
    ensures q in w.at && w.at[q] == Seat(u.pool, img, root, q)
  {
    if q != Root {
      AllBelowRoot(img, q);
    }
  }

  /** Entry j of the table copied to place q. */
  function ForeseenEntry(m: Machine, img: Image, root: nat, q: Path, j: nat): Entry
    requires q in img && j < 512
  {
    var e := img[q][j];
    if !e.flags.present then (if Depth(q) == 1 then Read(m.mem, Seat(m.pool, img, root, q))[j] else ZERO)
    else if LeafAt(Depth(q), e) then e
    else Entry(Seat(m.pool, img, root, Child(q, j)), e.flags)
  }

  function ForeseenTable(m: Machine, img: Image, root: nat, q: Path): Table
    requires q in img
  {
    seq(512, j requires 0 <= j < 512 => ForeseenEntry(m, img, root, q, j))
  }

  /** What a frame will hold. */
  ghost function Foreseen(m: Machine, img: Image, root: nat, f: nat): Table {
    if q :| q in img && Seat(m.pool, img, root, q) == f then ForeseenTable(m, img, root, q) else Read(m.mem, f)
  }

  lemma TableForeseen(u: World, w: World, img: Image, root: nat, q: Path)
    requires WholeCopy(u, w, img, root) && q in img
    ensures w.Entries(q) == ForeseenTable(Run(u), img, root, q)
  {
    forall j | 0 <= j < 512 ensures w.Entries(q)[j] == ForeseenEntry(Run(u), img, root, q, j) {
      EveryEntryCopied(u, w, img, root, q, j);
      SeatOfCopy(u, w, img, root, q);
      if Interior(Depth(q), img[q][j]) {
        SeatOfCopy(u, w, img, root, Child(q, j));
      }
    }
  }

  lemma OthersUnchanged(u: World, w: World, img: Image, root: nat, f: nat)
    requires WholeCopy(u, w, img, root) && f !in w.at.Values
    ensures Read(w.mem, f) == Read(u.mem, f)
  {
    assert w.at[Root] == root && root in w.at.Values;
    if u.pool.Free(f) && !w.pool.Free(f) {
      assert f in w.pool.taken;
    }
  }

  /** The copy leaves in every frame exactly what is foreseen from the memory, the allocator
      and the original's tables. */
  lemma ForeseenExact(u: World, w: World, img: Image, root: nat, f: nat)
    requires WholeCopy(u, w, img, root)
    ensures Read(w.mem, f) == Foreseen(Run(u), img, root, f)
  {
    if f in w.at.Values {
      var q :| q in w.at && w.at[q] == f;
      InImage(u, w, img, root, q);
      SeatOfCopy(u, w, img, root, q);
      forall r | r in img && Seat(u.pool, img, root, r) == f ensures r == q {
        SeatOfCopy(u, w, img, root, r);
      }
      TableForeseen(u, w, img, root, q);
    } else {
      forall r | r in img ensures Seat(u.pool, img, root, r) != f {
        SeatOfCopy(u, w, img, root, r);
        assert w.at[r] in w.at.Values;
      }
      OthersUnchanged(u, w, img, root, f);
    }
  }

  // ---- Stale entries -----------------------------------------------------------------

  /** What the frame that the table below root entry i will take holds at index j. */
  function Stale(m: Machine, img: Image, i: nat, j: nat): Entry
    requires j < 512
  {
    Read(m.mem, Draw(m.pool, |Below(img, Root, i)|))[j]
  }

  /** The original has a table below root entry i, without an entry at index j. */
  predicate Gap(img: Image, i: nat, j: nat) {
    i < 512 && j < 512 && Child(Root, i) in img && !img[Child(Root, i)][j].flags.present
  }

  /** Where the original's level-3 tables have no entry, the frames their copies will take
      hold zero. */
  ghost predicate ZeroStart(m: Machine, img: Image) {
    forall i: nat, j: nat | Gap(img, i, j) :: Stale(m, img, i, j) == ZERO
  }

  /** No page is reached through an entry of a level-3 table. */
  predicate DeadEnd(mem: Memory, d: Entry) {
    d.flags.present ==> !d.flags.huge && DeadTable(mem, d.frame)
  }

  predicate DeadTable(mem: Memory, f: nat) {
    forall k | 0 <= k < 512 && Read(mem, f)[k].flags.present ::
      !Read(mem, f)[k].flags.huge && TableEmpty(Read(mem, Read(mem, f)[k].frame))
  }

  /** The same in the memory foreseen. */
  ghost predicate LeadsNowhere(m: Machine, img: Image, root: nat, d: Entry) {
    d.flags.present ==> !d.flags.huge && NowhereTable(m, img, root, d.frame)
  }

  ghost predicate NowhereTable(m: Machine, img: Image, root: nat, f: nat) {
    forall k | 0 <= k < 512 && Foreseen(m, img, root, f)[k].flags.present ::
      !Foreseen(m, img, root, f)[k].flags.huge && TableEmpty(Foreseen(m, img, root, Foreseen(m, img, root, f)[k].frame))
  }

  ghost predicate StaleNowhere(m: Machine, img: Image, root: nat) {
    forall i: nat, j: nat | Gap(img, i, j) :: LeadsNowhere(m, img, root, Stale(m, img, i, j))
  }

  lemma NowhereIsDeadEnd(u: World, w: World, img: Image, root: nat, d: Entry)
    requires WholeCopy(u, w, img, root)
    ensures LeadsNowhere(Run(u), img, root, d) <==> DeadEnd(w.mem, d)
  {
    var t, m := Read(w.mem, d.frame), Run(u);
    ForeseenExact(u, w, img, root, d.frame);
    forall k | 0 <= k < 512 ensures Read(w.mem, t[k].frame) == Foreseen(m, img, root, t[k].frame) {
      ForeseenExact(u, w, img, root, t[k].frame);
    }
  }

  /** An entry is a dead end exactly when no page below it translates. */
  lemma DeadEndExact(mem: Memory, d: Entry, s: Spot, met: seq<Flags>)
    requires s.Valid() && DeadEnd(mem, d) && d.flags.present
    ensures Translate(mem, d.frame, 2, s, met).None?
  {
    var e := Read(mem, d.frame)[s.i2];
    if e.flags.present {
      assert Translate(mem, e.frame, 3, s, met + [e.flags]).None?;
    }
  }

  lemma LiveEnd(mem: Memory, f: nat, i: nat, j: nat) returns (s: Spot)
    requires !DeadTable(mem, f) && i < 512 && j < 512
    ensures s.Valid() && s.i4 == i && s.i3 == j && forall met :: Translate(mem, f, 2, s, met).Some?
  {
    var k :| 0 <= k < 512 && Read(mem, f)[k].flags.present
             && (Read(mem, f)[k].flags.huge || !TableEmpty(Read(mem, Read(mem, f)[k].frame)));
    var e := Read(mem, f)[k];
    s := Spot(i, j, k, 0);
    if !e.flags.huge {
      var l :| 0 <= l < 512 && Read(mem, e.frame)[l].flags.present;
      s := Spot(i, j, k, l);
      forall met ensures Translate(mem, f, 2, s, met).Some? {
        assert Translate(mem, e.frame, 3, s, met + [e.flags]).Some?;
      }
    }
  }

  // ---- Translation -------------------------------------------------------------------

  /** The walk through the image. */
  function ImageWalk(img: Image, d: nat, s: Spot, met: seq<Flags>): Option<Hit>
    requires s.Valid() && d <= 3
    decreases 3 - d
  {
    if PathAt(s, d) !in img then None
    else
      var e := img[PathAt(s, d)][IndexAt(s, d)];
      if !e.flags.present then None
      else if LeafAt(d, e) then Some(Hit(d, e, met + [e.flags]))
      else ImageWalk(img, d + 1, s, met + [e.flags])
  }

  /** The original translates as its image. */
  lemma {:induction false} SourceWalk(mem: Memory, srcAt: map<Path, nat>, img: Image, d: nat, s: Spot, met: seq<Flags>)
    requires Closed(img) && Found(mem, srcAt, img) && s.Valid() && d <= 3 && PathAt(s, d) in img
    ensures Translate(mem, srcAt[PathAt(s, d)], d, s, met) == ImageWalk(img, d, s, met)
    decreases 3 - d
  {
    PathAtDepth(s, d);
    var p, i := PathAt(s, d), IndexAt(s, d);
    var e := img[p][i];
    if Interior(d, e) {
      assert Child(p, i) in img;
      SourceWalk(mem, srcAt, img, d + 1, s, met + [e.flags]);
    }
  }

  /** What one entry of a copy is. */
  lemma EntryOfCopy(u: World, w: World, img: Image, root: nat, q: Path, j: nat)
    requires WholeCopy(u, w, img, root) && q in img && j < 512
    ensures q in w.at && Depth(q) <= 3
    ensures var e, d := img[q][j], Read(w.mem, w.at[q])[j];
            && (!e.flags.present ==> d == Prior(u, w, q)[j])
            && (e.flags.present && LeafAt(Depth(q), e) ==> d == e)
            && (Interior(Depth(q), e) ==> Child(q, j) in img && Child(q, j) in w.at && d == Entry(w.at[Child(q, j)], e.flags))
  {
    EveryEntryCopied(u, w, img, root, q, j);
  }

  /** Where the original has no entry, the copy's level-3 tables lead nowhere. */
  ghost predicate Harmless(u: World, w: World, img: Image) {
    forall i: nat, j: nat | Gap(img, i, j) :: DeadEnd(w.mem, Prior(u, w, Child(Root, i))[j])
  }

  lemma GapWalk(u: World, w: World, img: Image, root: nat, s: Spot, met: seq<Flags>)
    requires WholeCopy(u, w, img, root) && Harmless(u, w, img) && s.Valid() && P1(s) in img && P1(s) in w.at
    requires !img[P1(s)][s.i3].flags.present
    ensures Translate(w.mem, w.at[P1(s)], 1, s, met).None?
  {
    EntryOfCopy(u, w, img, root, P1(s), s.i3);
    assert Gap(img, s.i4, s.i3);
    var d := Prior(u, w, P1(s))[s.i3];
    if d.flags.present {
      DeadEndExact(w.mem, d, s, met + [d.flags]);
    }
  }

  /** A harmless copy translates as the image. */
  lemma {:induction false} CopyWalk(u: World, w: World, img: Image, root: nat, d: nat, s: Spot, met: seq<Flags>)
    requires WholeCopy(u, w, img, root) && Harmless(u, w, img) && s.Valid() && d <= 3 && PathAt(s, d) in img
    ensures PathAt(s, d) in w.at
    ensures Translate(w.mem, w.at[PathAt(s, d)], d, s, met) == ImageWalk(img, d, s, met)
    decreases 3 - d
  {
    PathAtDepth(s, d);
    var p, i := PathAt(s, d), IndexAt(s, d);
    var e := img[p][i];
    EntryOfCopy(u, w, img, root, p, i);
    if !e.flags.present && d == 1 {
      GapWalk(u, w, img, root, s, met);
    } else if Interior(d, e) {
      CopyWalk(u, w, img, root, d + 1, s, met + [e.flags]);
    }
  }

  /** Two trees translate every page alike, with the same large pages and the same flags at
      every level. */
  ghost predicate Alike(mem: Memory, root: nat, mem': Memory, root': nat) {
    forall s: Spot | s.Valid() :: Translate(mem, root, 0, s, []) == Translate(mem', root', 0, s, [])
  }

  lemma HarmlessIsAlike(u: World, w: World, img: Image, root: nat, srcAt: map<Path, nat>)
    requires WholeCopy(u, w, img, root) && SourceSafe(u, srcAt, img) && Harmless(u, w, img)
    ensures Alike(w.mem, root, u.mem, srcAt[Root])
  {
    forall s: Spot | s.Valid() ensures Translate(w.mem, root, 0, s, []) == Translate(u.mem, srcAt[Root], 0, s, []) {
      CopyWalk(u, w, img, root, 0, s, []);
      SourceWalk(u.mem, srcAt, img, 0, s, []);
    }
  }

  /** The walk to a gap. */
  lemma ToGap(u: World, w: World, img: Image, root: nat, srcAt: map<Path, nat>, s: Spot)
    requires WholeCopy(u, w, img, root) && SourceSafe(u, srcAt, img) && s.Valid() && Gap(img, s.i4, s.i3)
    ensures Translate(u.mem, srcAt[Root], 0, s, []).None?
    ensures P1(s) in w.at
    ensures var e := img[Root][s.i4];
            Translate(w.mem, root, 0, s, []) == Translate(w.mem, w.at[P1(s)], 1, s, [e.flags])
    ensures Read(w.mem, w.at[P1(s)])[s.i3] == Prior(u, w, P1(s))[s.i3]
  {
    PathAtDepth(s, 0);
    assert Interior(0, img[Root][s.i4]);
    assert [] + [img[Root][s.i4].flags] == [img[Root][s.i4].flags];
    GapInImage(img, s);
    SourceWalk(u.mem, srcAt, img, 0, s, []);
    EntryOfCopy(u, w, img, root, Root, s.i4);
    EntryOfCopy(u, w, img, root, P1(s), s.i3);
  }

  lemma GapInImage(img: Image, s: Spot)
    requires Closed(img) && s.Valid() && Gap(img, s.i4, s.i3)
    ensures ImageWalk(img, 0, s, []).None?
  {
    assert Interior(0, img[Root][s.i4]);
    var e := img[Root][s.i4];
    assert ImageWalk(img, 1, s, [] + [e.flags]).None?;
  }

  lemma HarmShows(u: World, w: World, img: Image, root: nat, srcAt: map<Path, nat>, i: nat, j: nat) returns (s: Spot)
    requires WholeCopy(u, w, img, root) && SourceSafe(u, srcAt, img) && Gap(img, i, j)
    requires !DeadEnd(w.mem, Prior(u, w, Child(Root, i))[j])
    ensures s.Valid() && s.i4 == i && s.i3 == j
    ensures Translate(w.mem, root, 0, s, []).Some? && Translate(u.mem, srcAt[Root], 0, s, []).None?
  {
    var d := Prior(u, w, Child(Root, i))[j];
    s := Spot(i, j, 0, 0);
    if !d.flags.huge {
      s := LiveEnd(w.mem, d.frame, i, j);
    }
    ToGap(u, w, img, root, srcAt, s);
    LiveGap(w.mem, w.at[P1(s)], s, d, [img[Root][i].flags]);
  }

  lemma LiveGap(mem: Memory, f: nat, s: Spot, d: Entry, met: seq<Flags>)
    requires s.Valid() && Read(mem, f)[s.i3] == d && d.flags.present
    requires !d.flags.huge ==> forall more :: Translate(mem, d.frame, 2, s, more).Some?
    ensures Translate(mem, f, 1, s, met).Some?
  {
  }

  lemma AlikeIsHarmless(u: World, w: World, img: Image, root: nat, srcAt: map<Path, nat>)
    requires WholeCopy(u, w, img, root) && SourceSafe(u, srcAt, img) && Alike(w.mem, root, u.mem, srcAt[Root])
    ensures Harmless(u, w, img)
  {
    forall i: nat, j: nat | Gap(img, i, j) ensures DeadEnd(w.mem, Prior(u, w, Child(Root, i))[j]) {
      if !DeadEnd(w.mem, Prior(u, w, Child(Root, i))[j]) {
        var s := HarmShows(u, w, img, root, srcAt, i, j);
      }
    }
  }

  lemma PriorIsStale(u: World, w: World, img: Image, root: nat, i: nat, j: nat)
    requires WholeCopy(u, w, img, root) && i < 512 && j < 512 && Child(Root, i) in img
    ensures Prior(u, w, Child(Root, i))[j] == Stale(Run(u), img, i, j)
  {
    SeatOfCopy(u, w, img, root, Child(Root, i));
    assert Depth(Child(Root, i)) == 1;
  }

  /** The copy translates every page as the original if and only if nothing left over, where
      the original has no entry, in the frames its level-3 tables take leads to a page. The
      condition speaks of the memory and the allocator before the copy. */
  lemma AlikeIffNowhere(u: World, w: World, img: Image, root: nat, srcAt: map<Path, nat>)
    requires WholeCopy(u, w, img, root) && SourceSafe(u, srcAt, img)
    ensures Alike(w.mem, root, u.mem, srcAt[Root]) <==> StaleNowhere(Run(u), img, root)
  {
    forall i: nat, j: nat | Gap(img, i, j)
      ensures LeadsNowhere(Run(u), img, root, Stale(Run(u), img, i, j)) <==> DeadEnd(w.mem, Prior(u, w, Child(Root, i))[j])
    {
      PriorIsStale(u, w, img, root, i, j);
      NowhereIsDeadEnd(u, w, img, root, Stale(Run(u), img, i, j));
    }
    if StaleNowhere(Run(u), img, root) {
      HarmlessIsAlike(u, w, img, root, srcAt);
    }
    if Alike(w.mem, root, u.mem, srcAt[Root]) {
      AlikeIsHarmless(u, w, img, root, srcAt);
    }
  }

  // ---- A sound address space ---------------------------------------------------------

  lemma CopyOwns(u: World, w: World, img: Image, root: nat)
    requires WholeCopy(u, w, img, root) && root in u.pool.taken
    ensures Owns(w, u.pool.taken - {root})
  {
    forall f | f in w.at.Values ensures f in w.pool.taken && (f == root || f !in u.pool.taken) {
      TableFrame(u, w, img, root, f);
    }
    assert w.at[Root] == root && root in w.at.Values;
    TakenSplit(u.pool.taken, w.pool.taken, w.at.Values, root);
  }

  lemma TableFrame(u: World, w: World, img: Image, root: nat, f: nat)
    requires WholeCopy(u, w, img, root) && root in u.pool.taken && f in w.at.Values
    ensures f in w.pool.taken && (f == root || f !in u.pool.taken)
  {
    var q :| q in w.at && w.at[q] == f;
    InImage(u, w, img, root, q);
  }

  lemma TakenSplit(before: set<nat>, after: set<nat>, tables: set<nat>, root: nat)
    requires before <= after && root in before && root in tables
    requires forall f | f in tables :: f in after && (f == root || f !in before)
    requires forall f | f in after && f !in before :: f in tables
    ensures after == (before - {root}) + tables && (before - {root}) !! tables
  {
  }

  /** Every entry of the copy is zero, a page, or leads to a table, if the gaps hold zeros. */
  lemma CopySettled(u: World, w: World, img: Image, root: nat, q: Path, i: nat)
    requires WholeCopy(u, w, img, root) && ZeroStart(Run(u), img) && q in img && i < 512
    ensures q in w.at && Settled(w, q, i)
  {
    EntryOfCopy(u, w, img, root, q, i);
    if !img[q][i].flags.present && Depth(q) == 1 {
      assert q == Child(Root, q.index);
      PriorIsStale(u, w, img, root, q.index, i);
      assert Gap(img, q.index, i);
    }
  }

  lemma CopyPoints(u: World, w: World, img: Image, root: nat, q: Path, i: nat)
    requires WholeCopy(u, w, img, root) && Child(q, i) in img
    ensures q in w.at && i < 512 && PointsTo(w, q, i)
  {
    EntryOfCopy(u, w, img, root, q, i);
  }

  lemma CopyIsTree(u: World, w: World, img: Image, root: nat)
    requires WholeCopy(u, w, img, root) && ZeroStart(Run(u), img)
    ensures Tree(w, root)
  {
    InImage(u, w, img, root, Root);
    forall q, i | Child(q, i) in w.at ensures q in w.at && i < 512 && PointsTo(w, q, i) {
      InImage(u, w, img, root, Child(q, i));
      CopyPoints(u, w, img, root, q, i);
    }
    forall q, i: nat | q in w.at && i < 512 ensures Settled(w, q, i) {
      InImage(u, w, img, root, q);
      CopySettled(u, w, img, root, q, i);
    }
    forall q | q in w.at ensures Depth(q) <= 3 {
      InImage(u, w, img, root, q);
    }
  }

  lemma ZeroIsHarmless(u: World, w: World, img: Image, root: nat)
    requires WholeCopy(u, w, img, root) && ZeroStart(Run(u), img)
    ensures Harmless(u, w, img)
  {
    forall i: nat, j: nat | Gap(img, i, j) ensures DeadEnd(w.mem, Prior(u, w, Child(Root, i))[j]) {
      PriorIsStale(u, w, img, root, i, j);
    }
  }

  /** In a sound copy that translates alike, every gap holds zero. */
  lemma SoundGapIsZero(u: World, w: World, img: Image, root: nat, i: nat, j: nat)
    requires WholeCopy(u, w, img, root) && Tree(w, root) && Harmless(u, w, img) && Gap(img, i, j)
    ensures Stale(Run(u), img, i, j) == ZERO
  {
    var q := Child(Root, i);
    PriorIsStale(u, w, img, root, i, j);
    EntryOfCopy(u, w, img, root, q, j);
    assert Depth(q) == 1 && Settled(w, q, j);
    if Child(q, j) in w.at {
      InImage(u, w, img, root, Child(q, j));
    }
  }

  /** The copy is a sound address space that translates every page as the original, large
      pages and the flags of every level included, if and only if the frames that its level-3
      tables take hold zero wherever the original has no entry: the frames are those that the
      allocator hands out in their turn, and the condition can be read off before the copy. */
  lemma SoundIffZero(u: World, w: World, img: Image, root: nat, srcAt: map<Path, nat>)
    requires WholeCopy(u, w, img, root) && SourceSafe(u, srcAt, img) && root in u.pool.taken
    ensures Good(w, root, u.pool.taken - {root}) && Alike(w.mem, root, u.mem, srcAt[Root]) <==> ZeroStart(Run(u), img)
  {
    if ZeroStart(Run(u), img) {
      CopyIsTree(u, w, img, root);
      CopyOwns(u, w, img, root);
      ZeroIsHarmless(u, w, img, root);
      HarmlessIsAlike(u, w, img, root, srcAt);
    }
    if Good(w, root, u.pool.taken - {root}) && Alike(w.mem, root, u.mem, srcAt[Root]) {
      AlikeIsHarmless(u, w, img, root, srcAt);
      forall i: nat, j: nat | Gap(img, i, j) ensures Stale(Run(u), img, i, j) == ZERO {
        SoundGapIsZero(u, w, img, root, i, j);
      }
    }
  }

  /** No table of the copy is empty where the original's is not. */
  lemma CopyNoneEmpty(u: World, w: World, img: Image, root: nat)
    requires WholeCopy(u, w, img, root)
    ensures forall q | q in w.at && TableEmpty(w.Entries(q)) :: q in img && TableEmpty(img[q])
    ensures (forall q | q in img && !MayBeEmpty(q) :: !TableEmpty(img[q])) ==> NoneEmpty(w)
  {
    forall q | q in w.at && TableEmpty(w.Entries(q)) ensures q in img && TableEmpty(img[q]) {
      InImage(u, w, img, root, q);
      forall j | 0 <= j < 512 ensures !img[q][j].flags.present {
        EveryEntryCopied(u, w, img, root, q, j);
      }
    }
  }

  /** The copy shares no frame with the original and leaves it as it was. */
  lemma OriginalKept(u: World, w: World, img: Image, root: nat, srcAt: map<Path, nat>)
    requires WholeCopy(u, w, img, root) && SourceSafe(w, srcAt, img) && SourceSafe(u, srcAt, img)
    ensures forall q, r | q in w.at && r in srcAt :: w.at[q] != srcAt[r]
    ensures Alike(w.mem, srcAt[Root], u.mem, srcAt[Root])
  {
    forall q | q in w.at ensures w.at[q] in w.at.Values {
    }
    forall s: Spot | s.Valid() ensures Translate(w.mem, srcAt[Root], 0, s, []) == Translate(u.mem, srcAt[Root], 0, s, []) {
      SourceWalk(u.mem, srcAt, img, 0, s, []);
      SourceWalk(w.mem, srcAt, img, 0, s, []);
    }
  }

  // ---- Later edits -------------------------------------------------------------------

  /** The source's tables are foreign to the finished copy. */
  lemma SourceIsForeign(w: World, base: set<nat>, srcAt: map<Path, nat>, img: Image, q: Path)
    requires SourceSafe(w, srcAt, img) && Owns(w, base) && q in srcAt
    ensures Foreign(w, base, srcAt[q])
  {
  }

  /** Nothing the copy is used for later changes what the source translates to. */
  lemma EditsSpareSource(w: World, root: nat, base: set<nat>, ops: seq<Op>, srcAt: map<Path, nat>, img: Image)
    requires Good(w, root, base) && AllProper(w, ops) && PerformAll(w, ops).Some?
    requires Closed(img) && SourceSafe(w, srcAt, img)
    ensures Alike(PerformAll(w, ops).value.mem, srcAt[Root], w.mem, srcAt[Root])
  {
    var v := PerformAll(w, ops).value;
    forall q | q in srcAt ensures Read(v.mem, srcAt[q]) == Read(w.mem, srcAt[q]) {
      SourceIsForeign(w, base, srcAt, img, q);
      HistorySparesForeign(w, root, base, ops, srcAt[q]);
    }
    forall s: Spot | s.Valid() ensures Translate(v.mem, srcAt[Root], 0, s, []) == Translate(w.mem, srcAt[Root], 0, s, []) {
      SourceWalk(w.mem, srcAt, img, 0, s, []);
      SourceWalk(v.mem, srcAt, img, 0, s, []);
    }
  }
}
