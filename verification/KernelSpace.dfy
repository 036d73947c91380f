/** Building the kernel's address space at boot: when it succeeds, what it leaves behind, and
    what it does when frames run short. */
module KernelSpace {
  import opened Outcomes
  import opened Sets
  import opened Frames
  import opened PageTables
  import opened PageOps
  import opened PageMapping
  import opened PageRuns
  import opened Draws
  import opened PageCopy
  import opened DeepCopy
  import opened CopyResult

  // ---- Frames spent, whether or not they suffice -------------------------------------

  /** The original's tables are in memory, in frames the copy never writes. */
  ghost predicate SourceHeld(m: Machine, srcAt: map<Path, nat>, img: Image) {
    && Found(m.mem, srcAt, img) && m.pool.Valid()
    && forall q | q in srcAt :: !m.pool.Free(srcAt[q]) && srcAt[q] != 0
  }

  /** Nothing was written but the table at dst, frames that were free, and frame 0. */
  ghost predicate Spared(m: Machine, n: Machine, dst: nat) {
    forall f: nat | f != dst && f != 0 && !m.pool.Free(f) :: Read(n.mem, f) == Read(m.mem, f)
  }

  /** n requests were answered, or refused. */
  ghost predicate Spent(m: Machine, n: Machine, requests: nat, dst: nat) {
    n.pool == Drawn(m.pool, requests) && Drew(m.pool, n.pool) && Spared(m, n, dst)
  }

  lemma HeldStays(m: Machine, n: Machine, requests: nat, dst: nat, srcAt: map<Path, nat>, img: Image)
    requires SourceHeld(m, srcAt, img) && Spent(m, n, requests, dst) && dst !in srcAt.Values
    ensures SourceHeld(n, srcAt, img)
  {
    forall q | q in srcAt ensures Read(n.mem, srcAt[q]) == Read(m.mem, srcAt[q]) {
      assert srcAt[q] in srcAt.Values;
    }
  }

  /** Requests still to come from index i of the table at p on. */
  function Left(img: Image, p: Path, i: nat): nat
    requires i <= 512
  {
    BelowWhole(img, p, i);
    |Below(img, p, 512)| - |Below(img, p, i)|
  }

  /** Requests made by the turn at index i. */
  function Need(img: Image, p: Path, i: nat): nat {
    if Child(p, i) in img then 1 + |Below(img, Child(p, i), 512)| else 0
  }

  lemma LeftStep(img: Image, p: Path, i: nat)
    requires Closed(img) && p in img && i < 512
    ensures Left(img, p, i) == Need(img, p, i) + Left(img, p, i + 1)
    ensures |Below(img, p, i + 1)| == |Below(img, p, i)| + Need(img, p, i)
  {
    if Child(p, i) in img {
      BelowSize(img, p, i);
    } else {
      NothingBelow(img, p, i);
    }
  }

  lemma SpentThen(m: Machine, n: Machine, o: Machine, a: nat, b: nat, dst: nat)
    requires m.pool.Valid() && Spent(m, n, a, dst) && Spent(n, o, b, dst)
    ensures Spent(m, o, a + b, dst)
  {
    DrawnAdd(m.pool, a, b);
    DrawnKeeps(m.pool, a + b);
  }

  /** From a frame just taken back to the table it is linked in. */
  lemma SpentInside(m: Machine, n: Machine, o: Machine, b: nat, dst: nat, f: nat)
    requires m.pool.Valid() && Spent(m, n, 1, dst) && Spent(n, o, b, f) && (m.pool.Free(f) || f == 0)
    ensures Spent(m, o, 1 + b, dst)
  {
    DrawnAdd(m.pool, 1, b);
    DrawnKeeps(m.pool, 1 + b);
  }

  lemma SpentNothing(m: Machine, dst: nat)
    requires m.pool.Valid()
    ensures Spent(m, m, 0, dst)
  {
    DrawnKeeps(m.pool, 0);
  }

  lemma SpentWrite(m: Machine, dst: nat, i: nat, e: Entry)
    requires m.pool.Valid() && i < 512
    ensures Spent(m, m.Write(dst, i, e), 0, dst)
  {
    DrawnKeeps(m.pool, 0);
  }

  lemma SpentLink(m: Machine, src: nat, dst: nat, i: nat)
    requires m.pool.Valid() && i < 512
    ensures Spent(m, Linked(m, src, dst, i), 1, dst)
    ensures m.pool.Free(m.Offered()) || m.Offered() == 0
  {
    DrawnOne(m.pool);
    DrawnKeeps(m.pool, 1);
    OfferedExact(m);
  }

  /** DeepCopyPageTables makes one request for every table below, whether granted or not, and
      writes only the destination, frames that were free, and frame 0. */
  lemma {:induction false} TableSpends(m: Machine, img: Image, srcAt: map<Path, nat>, p: Path, dst: nat, i: nat)
    requires SourceHeld(m, srcAt, img) && Closed(img) && p in img && 1 <= Level(p) <= 3 && i <= 512
    requires dst !in srcAt.Values
    ensures Spent(m, CopyTable(m, Level(p), srcAt[p], dst, i), Left(img, p, i), dst)
    decreases Level(p), 512 - i, 1
  {
    if i == 512 {
      SpentNothing(m, dst);
    } else {
      EntrySpends(m, img, srcAt, p, dst, i);
      var n := CopyEntry(m, Level(p), srcAt[p], dst, i);
      HeldStays(m, n, Need(img, p, i), dst, srcAt, img);
      TableSpends(n, img, srcAt, p, dst, i + 1);
      SpentStep(m, n, CopyTable(n, Level(p), srcAt[p], dst, i + 1), img, p, i, dst);
    }
  }

  lemma SpentStep(m: Machine, n: Machine, o: Machine, img: Image, p: Path, i: nat, dst: nat)
    requires m.pool.Valid() && Closed(img) && p in img && i < 512
    requires Spent(m, n, Need(img, p, i), dst) && Spent(n, o, Left(img, p, i + 1), dst)
    ensures Spent(m, o, Left(img, p, i), dst)
  {
    LeftStep(img, p, i);
    SpentThen(m, n, o, Need(img, p, i), Left(img, p, i + 1), dst);
  }

  lemma {:induction false} EntrySpends(m: Machine, img: Image, srcAt: map<Path, nat>, p: Path, dst: nat, i: nat)
    requires SourceHeld(m, srcAt, img) && Closed(img) && p in img && 1 <= Level(p) <= 3 && i < 512
    requires dst !in srcAt.Values
    ensures Spent(m, CopyEntry(m, Level(p), srcAt[p], dst, i), Need(img, p, i), dst)
    decreases Level(p), 512 - i, 0
  {
    var e := img[p][i];
    if !e.flags.present {
      SpentNothing(m, dst);
    } else if LeafAt(Depth(p), e) {
      SpentWrite(m, dst, i, e);
    } else {
      var c, f, n := Child(p, i), m.Offered(), Linked(m, srcAt[p], dst, i);
      LinkSpends(m, img, srcAt, p, dst, i);
      TableSpends(n, img, srcAt, c, f, 0);
      SpentInside(m, n, CopyTable(n, Level(c), srcAt[c], f, 0), Left(img, c, 0), dst, f);
    }
  }

  /** A turn up to its recursive call. */
  lemma LinkSpends(m: Machine, img: Image, srcAt: map<Path, nat>, p: Path, dst: nat, i: nat)
    requires SourceHeld(m, srcAt, img) && Closed(img) && p in img && 1 <= Level(p) <= 3 && i < 512
    requires dst !in srcAt.Values && Interior(Depth(p), img[p][i])
    ensures var c, n := Child(p, i), Linked(m, srcAt[p], dst, i);
            && c in img && Level(c) == Level(p) - 1 && 2 <= Level(p)
            && SourceHeld(n, srcAt, img) && Spent(m, n, 1, dst) && (m.pool.Free(m.Offered()) || m.Offered() == 0)
            && m.Offered() !in srcAt.Values && Need(img, p, i) == 1 + Left(img, c, 0)
            && CopyEntry(m, Level(p), srcAt[p], dst, i) == CopyTable(n, Level(c), srcAt[c], m.Offered(), 0)
  {
    var c := Child(p, i);
    assert c in img && p in srcAt && c in srcAt;
    LinkHeld(m, img, srcAt, p, dst, i);
    BelowNothing(img, c);
    LinkTurn(m, p, i, srcAt[p], dst, img[p][i]);
  }

  lemma LinkHeld(m: Machine, img: Image, srcAt: map<Path, nat>, p: Path, dst: nat, i: nat)
    requires SourceHeld(m, srcAt, img) && p in img && p in srcAt && i < 512 && dst !in srcAt.Values
    ensures var n := Linked(m, srcAt[p], dst, i);
            SourceHeld(n, srcAt, img) && Spent(m, n, 1, dst) && Read(n.mem, srcAt[p]) == img[p]
    ensures (m.pool.Free(m.Offered()) || m.Offered() == 0) && m.Offered() !in srcAt.Values
  {
    SpentLink(m, srcAt[p], dst, i);
    HeldStays(m, Linked(m, srcAt[p], dst, i), 1, dst, srcAt, img);
  }

  lemma LinkTurn(m: Machine, p: Path, i: nat, src: nat, dst: nat, e: Entry)
    requires 1 <= Level(p) <= 3 && i < 512 && Interior(Depth(p), e)
    requires Read(m.mem, src)[i] == e && Read(Linked(m, src, dst, i).mem, src)[i] == e
    ensures 2 <= Level(p) && Level(Child(p, i)) == Level(p) - 1
    ensures CopyEntry(m, Level(p), src, dst, i) == CopyTable(Linked(m, src, dst, i), Level(p) - 1, e.frame, m.Offered(), 0)
  {
  }

  // ---- The loop at the root ----------------------------------------------------------

  /** Every level-3 table from root index i on finds a frame among n. */
  ghost predicate Served(img: Image, i: nat, n: nat) {
    forall j: nat | i <= j < 512 && Child(Root, j) in img :: |Below(img, Root, j)| - |Below(img, Root, i)| < n
  }

  lemma BelowGrows(img: Image, p: Path, i: nat, j: nat)
    requires i <= j
    ensures |Below(img, p, i)| <= |Below(img, p, j)|
  {
    SubsetSize(Below(img, p, i), Below(img, p, j));
  }

  /** One turn takes what it needs, and the rest is served by what is left. */
  lemma ServedStep(img: Image, i: nat, n: nat)
    requires Closed(img) && i < 512
    ensures Child(Root, i) !in img ==> (Served(img, i, n) <==> Served(img, i + 1, n))
    ensures Child(Root, i) in img ==>
              var need := Need(img, Root, i);
              Served(img, i, n) <==> n > 0 && Served(img, i + 1, if need <= n then n - need else 0)
  {
    LeftStep(img, Root, i);
    forall j: nat | i < j < 512 ensures |Below(img, Root, j)| >= |Below(img, Root, i + 1)| {
      BelowGrows(img, Root, i + 1, j);
    }
  }

  /** The root's entries k are present from index i on where the original's are. */
  ghost predicate RootEntries(m: Machine, n: Machine, img: Image, root: nat, i: nat)
    requires Root in img
  {
    forall k | 0 <= k < 512 ::
      Read(n.mem, root)[k].flags.present <==> (k >= i && img[Root][k].flags.present) || Read(m.mem, root)[k].flags.present
  }

  /** What a turn at the root does: it is refused exactly when it needs a frame and none is
      free. */
  lemma RootTurnSpends(m: Machine, img: Image, srcAt: map<Path, nat>, root: nat, i: nat)
    requires SourceHeld(m, srcAt, img) && Closed(img) && i < 512
    requires root !in srcAt.Values && root != 0 && !m.pool.Free(root)
    ensures CopyRootEntry(m, root, srcAt[Root], i).None? <==> Child(Root, i) in img && m.pool.FreeSet() == {}
    ensures CopyRootEntry(m, root, srcAt[Root], i).Some? ==>
              var n := CopyRootEntry(m, root, srcAt[Root], i).value;
              && Spent(m, n, Need(img, Root, i), root)
              && (img[Root][i].flags.present ==> Read(n.mem, root)[i].flags.present)
              && (!img[Root][i].flags.present ==> Read(n.mem, root)[i] == Read(m.mem, root)[i])
              && forall k | 0 <= k < 512 && k != i :: Read(n.mem, root)[k] == Read(m.mem, root)[k]
  {
    OfferedExact(m);
    if img[Root][i].flags.present {
      assert Child(Root, i) in img && Depth(Child(Root, i)) == 1;
      if m.Offered() != 0 {
        RootChildSpends(m, img, srcAt, root, i);
      }
    } else {
      assert Child(Root, i) !in img;
      SpentNothing(m, root);
    }
  }

  lemma RootChildSpends(m: Machine, img: Image, srcAt: map<Path, nat>, root: nat, i: nat)
    requires SourceHeld(m, srcAt, img) && Closed(img) && i < 512 && Child(Root, i) in img && m.Offered() != 0
    requires root !in srcAt.Values && root != 0 && !m.pool.Free(root) && m.pool.Free(m.Offered())
    ensures CopyRootEntry(m, root, srcAt[Root], i).Some?
    ensures var n := CopyRootEntry(m, root, srcAt[Root], i).value;
            && Spent(m, n, Need(img, Root, i), root)
            && Read(n.mem, root)[i].flags.present
            && forall k | 0 <= k < 512 && k != i :: Read(n.mem, root)[k] == Read(m.mem, root)[k]
  {
    var filled := CopyTable(m.Taken(), 3, img[Root][i].frame, m.Offered(), 0);
    RootChildFilled(m, img, srcAt, root, i);
    var e := Entry(m.Offered(), Read(filled.mem, srcAt[Root])[i].flags);
    SpentWrite(filled, root, i, e);
    SpentThen(m, filled, filled.Write(root, i, e), Need(img, Root, i), 0, root);
  }

  /** That turn up to the link. */
  lemma RootChildFilled(m: Machine, img: Image, srcAt: map<Path, nat>, root: nat, i: nat)
    requires SourceHeld(m, srcAt, img) && Closed(img) && i < 512 && Child(Root, i) in img && m.Offered() != 0
    requires root !in srcAt.Values && root != 0 && !m.pool.Free(root) && m.pool.Free(m.Offered())
    ensures var filled := CopyTable(m.Taken(), 3, img[Root][i].frame, m.Offered(), 0);
            && Spent(m, filled, Need(img, Root, i), root) && Read(filled.mem, root) == Read(m.mem, root)
            && filled.pool.Valid() && Read(filled.mem, srcAt[Root])[i].flags.present
    ensures img[Root][i].flags.present && Read(m.mem, srcAt[Root])[i] == img[Root][i]
  {
    var c, f := Child(Root, i), m.Offered();
    assert Depth(c) == 1;
    TakenHeld(m, img, srcAt, root);
    TableSpends(m.Taken(), img, srcAt, c, f, 0);
    var filled := CopyTable(m.Taken(), 3, srcAt[c], f, 0);
    FilledSpends(m, filled, img, root, i, f);
    HeldStays(m, filled, Need(img, Root, i), root, srcAt, img);
  }

  lemma TakenHeld(m: Machine, img: Image, srcAt: map<Path, nat>, root: nat)
    requires SourceHeld(m, srcAt, img) && root !in srcAt.Values && m.pool.Free(m.Offered())
    ensures SourceHeld(m.Taken(), srcAt, img) && m.Offered() !in srcAt.Values
  {
    SpentTake(m, root);
    HeldStays(m, m.Taken(), 1, root, srcAt, img);
  }

  lemma FilledSpends(m: Machine, filled: Machine, img: Image, root: nat, i: nat, f: nat)
    requires m.pool.Valid() && root != 0 && !m.pool.Free(root) && m.pool.Free(f)
    requires Child(Root, i) in img && Spent(m.Taken(), filled, Left(img, Child(Root, i), 0), f)
    ensures Spent(m, filled, Need(img, Root, i), root) && Read(filled.mem, root) == Read(m.mem, root)
  {
    SpentTake(m, root);
    BelowNothing(img, Child(Root, i));
    SpentInside(m, m.Taken(), filled, Left(img, Child(Root, i), 0), root, f);
    RootSpared(m, filled, Left(img, Child(Root, i), 0), root, f);
  }

  lemma RootSpared(m: Machine, filled: Machine, n: nat, root: nat, f: nat)
    requires m.pool.Valid() && root != 0 && !m.pool.Free(root) && m.pool.Free(f)
    requires Spent(m.Taken(), filled, n, f) && Spent(m, m.Taken(), 1, root)
    ensures Read(filled.mem, root) == Read(m.mem, root)
  {
  }

  lemma SpentTake(m: Machine, dst: nat)
    requires m.pool.Valid()
    ensures Spent(m, m.Taken(), 1, dst)
  {
    DrawnOne(m.pool);
    DrawnKeeps(m.pool, 1);
  }

  /** CopyExistingPageTableToNew panics exactly when some level-3 table finds no frame left.
      Otherwise it has made one request for every table, granted or not. */
  lemma {:induction false} RootSpends(m: Machine, img: Image, srcAt: map<Path, nat>, root: nat, i: nat)
    requires SourceHeld(m, srcAt, img) && Closed(img) && i <= 512
    requires root !in srcAt.Values && root != 0 && !m.pool.Free(root)
    ensures CopyRoot(m, root, srcAt[Root], i).Some? <==> Served(img, i, |m.pool.FreeSet()|)
    ensures CopyRoot(m, root, srcAt[Root], i).Some? ==>
              var n := CopyRoot(m, root, srcAt[Root], i).value;
              Spent(m, n, Left(img, Root, i), root) && RootEntries(m, n, img, root, i)
    decreases 512 - i
  {
    if i == 512 {
      SpentNothing(m, root);
    } else {
      RootTurnSpends(m, img, srcAt, root, i);
      ServedStep(img, i, |m.pool.FreeSet()|);
      if CopyRootEntry(m, root, srcAt[Root], i).Some? {
        var n := CopyRootEntry(m, root, srcAt[Root], i).value;
        DrawnKeeps(m.pool, Need(img, Root, i));
        HeldStays(m, n, Need(img, Root, i), root, srcAt, img);
        RootSpends(n, img, srcAt, root, i + 1);
        if CopyRoot(n, root, srcAt[Root], i + 1).Some? {
          RootSpentStep(m, n, CopyRoot(n, root, srcAt[Root], i + 1).value, img, root, i);
        }
      }
    }
  }

  lemma RootSpentStep(m: Machine, n: Machine, o: Machine, img: Image, root: nat, i: nat)
    requires m.pool.Valid() && Closed(img) && i < 512 && Spent(m, n, Need(img, Root, i), root)
    requires img[Root][i].flags.present ==> Read(n.mem, root)[i].flags.present
    requires !img[Root][i].flags.present ==> Read(n.mem, root)[i] == Read(m.mem, root)[i]
    requires forall k | 0 <= k < 512 && k != i :: Read(n.mem, root)[k] == Read(m.mem, root)[k]
    requires Spent(n, o, Left(img, Root, i + 1), root) && RootEntries(n, o, img, root, i + 1)
    ensures Spent(m, o, Left(img, Root, i), root) && RootEntries(m, o, img, root, i)
  {
    SpentStep(m, n, o, img, Root, i, root);
  }

  // ---- Booting -----------------------------------------------------------------------

  /** The higher-half slots of the original's root that are not in use. */
  function Unused(img: Image): set<nat>
    requires Root in img
  {
    OpenSlots(img[Root], 256)
  }

  lemma FreeSmaller(f: Pool, g: Pool, p: nat)
    requires g == f.(taken := f.taken + {p})
    ensures !g.Free(p) && forall q :: g.Free(q) ==> f.Free(q)
  {
  }

  /** Taking the root leaves the original alone. */
  lemma RootTaken(m: Machine, img: Image, srcAt: map<Path, nat>)
    requires SourceHeld(m, srcAt, img) && m.Offered() != 0
    ensures SourceHeld(TakeRoot(m), srcAt, img) && m.Offered() !in srcAt.Values
    ensures !TakeRoot(m).pool.Free(m.Offered()) && |TakeRoot(m).pool.FreeSet()| == |m.pool.FreeSet()| - 1
    ensures Read(TakeRoot(m).mem, m.Offered()) == Blank()
  {
    OfferedExact(m);
    FreeSmaller(m.pool, TakeRoot(m).pool, m.Offered());
  }

  /** Initialize ends without a panic exactly when a frame is left for the root, for each
      level-3 table in its turn, and, after one for every other table, for each unused slot of
      the higher half. */
  lemma BootExact(m: Machine, img: Image, srcAt: map<Path, nat>)
    requires SourceHeld(m, srcAt, img) && Closed(img)
    ensures var free := |m.pool.FreeSet()|;
            Boot(m, srcAt[Root]).Some? <==>
            free > 0 && Served(img, 0, free - 1) && |Unused(img)| <= if |img| <= free then free - |img| else 0
  {
    OfferedExact(m);
    if m.Offered() != 0 {
      RootTaken(m, img, srcAt);
      RootSpends(TakeRoot(m), img, srcAt, m.Offered(), 0);
      if CopyRoot(TakeRoot(m), m.Offered(), srcAt[Root], 0).Some? {
        ReserveAfterCopy(m, img, srcAt, CopyRoot(TakeRoot(m), m.Offered(), srcAt[Root], 0).value);
      }
    }
  }

  lemma ReserveAfterCopy(m: Machine, img: Image, srcAt: map<Path, nat>, n: Machine)
    requires SourceHeld(m, srcAt, img) && Closed(img) && m.Offered() != 0
    requires Spent(TakeRoot(m), n, Left(img, Root, 0), m.Offered()) && RootEntries(TakeRoot(m), n, img, m.Offered(), 0)
    ensures var free := |m.pool.FreeSet()|;
            Reserve(n, m.Offered(), 256).Some? <==> |Unused(img)| <= if |img| <= free then free - |img| else 0
  {
    RootTaken(m, img, srcAt);
    BelowRootSize(img);
    BelowNothing(img, Root);
    OfferedExact(m);
    DrawnKeeps(TakeRoot(m).pool, Left(img, Root, 0));
    assert OpenSlots(Read(n.mem, m.Offered()), 256) == Unused(img);
    ReserveExact(n, m.Offered(), 256);
  }

  lemma EnoughServes(img: Image, n: nat)
    requires Closed(img) && |img| <= n + 1
    ensures Served(img, 0, n)
  {
    BelowRootSize(img);
    BelowNothing(img, Root);
    forall j: nat | 0 <= j < 512 && Child(Root, j) in img ensures |Below(img, Root, j)| < n {
      BelowRoom(img, Root, j);
    }
  }

  /** With too few frames the shortage goes unnoticed exactly when no higher-half slot is
      unused and the level-3 tables still find frames: then tables below share frame 0. */
  lemma SilentShortage(m: Machine, img: Image, srcAt: map<Path, nat>)
    requires SourceHeld(m, srcAt, img) && Closed(img) && |m.pool.FreeSet()| < |img|
    ensures Boot(m, srcAt[Root]).Some? <==>
            |m.pool.FreeSet()| > 0 && Unused(img) == {} && Served(img, 0, |m.pool.FreeSet()| - 1)
  {
    BootExact(m, img, srcAt);
  }

  // ---- The copy made at boot ---------------------------------------------------------

  /** The world in which the copy starts: the root alone. */
  function RootAlone(m: Machine): World {
    World(TakeRoot(m).mem, map[Root := m.Offered()], TakeRoot(m).pool)
  }

  /** The original is in memory, its frames are not free, and there is a frame for every table
      of the copy. */
  ghost predicate CanBoot(m: Machine, img: Image, srcAt: map<Path, nat>) {
    && m.pool.Valid() && Closed(img) && |img| <= |m.pool.FreeSet()|
    && Found(m.mem, srcAt, img) && (forall q | q in srcAt :: !m.pool.Free(srcAt[q]))
  }

  lemma RootReady(m: Machine, img: Image, srcAt: map<Path, nat>)
    requires CanBoot(m, img, srcAt)
    ensures m.Offered() != 0 && m.pool.Free(m.Offered())
    ensures CanCopy(RootAlone(m), img, Root) && SourceSafe(RootAlone(m), srcAt, img)
    ensures RootAlone(m).Entries(Root) == Blank() && m.Offered() in RootAlone(m).pool.taken
    ensures RootAlone(m).pool.taken - {m.Offered()} == m.pool.taken
  {
    OfferedExact(m);
    assert img.Keys != {} by { assert Root in img; }
    var u, root := RootAlone(m), m.Offered();
    FreeSmaller(m.pool, u.pool, root);
    ValuesAfterAdd(map[], Root, root);
    assert map[][Root := root] == u.at && u.at.Values == {root};
    BelowRootSize(img);
  }

  /** With room, the copy is made, and is a whole copy. */
  lemma CopiedWhole(m: Machine, img: Image, srcAt: map<Path, nat>) returns (w: World)
    requires CanBoot(m, img, srcAt)
    ensures Copied(m, srcAt[Root]) == Some(Run(w)) && WholeCopy(RootAlone(m), w, img, m.Offered())
    ensures SourceSafe(RootAlone(m), srcAt, img) && SourceSafe(w, srcAt, img)
    ensures m.Offered() in RootAlone(m).pool.taken
  {
    RootReady(m, img, srcAt);
    var u := RootAlone(m);
    CopyingStart(u, img, Root, srcAt);
    w := RootCopies(u, u, img, 0, srcAt);
    assert Run(u) == TakeRoot(m);
  }

  /** The tables of the copy. */
  function CopyPlaces(m: Machine, img: Image): map<Path, nat> {
    Places(RootAlone(m).pool, img, m.Offered())
  }

  lemma SameBeforeRoot(m: Machine, img: Image, srcAt: map<Path, nat>)
    requires CanBoot(m, img, srcAt)
    ensures Alike(RootAlone(m).mem, srcAt[Root], m.mem, srcAt[Root])
  {
    RootReady(m, img, srcAt);
    forall s: Spot | s.Valid()
      ensures Translate(RootAlone(m).mem, srcAt[Root], 0, s, []) == Translate(m.mem, srcAt[Root], 0, s, [])
    {
      SourceWalk(m.mem, srcAt, img, 0, s, []);
      SourceWalk(RootAlone(m).mem, srcAt, img, 0, s, []);
    }
  }

  /** With a frame for every table to copy, Initialize ends well exactly when there is also
      one for every unused slot. */
  lemma BootWithRoom(m: Machine, img: Image, srcAt: map<Path, nat>)
    requires CanBoot(m, img, srcAt)
    ensures Boot(m, srcAt[Root]).Some? <==> |img| + |Unused(img)| <= |m.pool.FreeSet()|
  {
    var w := CopiedWhole(m, img, srcAt);
    RootReady(m, img, srcAt);
    CopySpends(m, img, srcAt);
    RootOfCopy(RootAlone(m), w, img, m.Offered());
    ReserveExact(Run(w), m.Offered(), 256);
  }

  /** The root of a copy has the same open slots as the original's. */
  lemma RootOfCopy(u: World, w: World, img: Image, root: nat)
    requires WholeCopy(u, w, img, root)
    ensures OpenSlots(Read(w.mem, root), 256) == Unused(img)
    ensures w.pool.Valid() && !w.pool.Free(root)
  {
    InImage(u, w, img, root, Root);
    forall k | 0 <= k < 512 ensures Read(w.mem, root)[k].flags.present <==> img[Root][k].flags.present {
      EveryEntryCopied(u, w, img, root, Root, k);
    }
  }

  /** The copy takes a frame for every table. */
  lemma CopySpends(m: Machine, img: Image, srcAt: map<Path, nat>)
    requires CanBoot(m, img, srcAt)
    ensures Copied(m, srcAt[Root]).Some?
    ensures Copied(m, srcAt[Root]).value.pool == Drawn(m.pool, |img|)
    ensures |Copied(m, srcAt[Root]).value.pool.FreeSet()| == |m.pool.FreeSet()| - |img|
  {
    var w := CopiedWhole(m, img, srcAt);
    BelowRootSize(img);
    DrawnOne(m.pool);
    DrawnAdd(m.pool, 1, |img| - 1);
    DrawnKeeps(m.pool, |img|);
  }

  /** The memory and the allocator after the copy, foreseen from those before it. */
  lemma CopyForeseen(m: Machine, img: Image, srcAt: map<Path, nat>, f: nat)
    requires CanBoot(m, img, srcAt)
    ensures Copied(m, srcAt[Root]).Some?
    ensures Copied(m, srcAt[Root]).value.pool == Drawn(m.pool, |img|)
    ensures Read(Copied(m, srcAt[Root]).value.mem, f) == Foreseen(TakeRoot(m), img, m.Offered(), f)
  {
    var w := CopiedWhole(m, img, srcAt);
    ForeseenExact(RootAlone(m), w, img, m.Offered(), f);
    CopySpends(m, img, srcAt);
    assert Run(RootAlone(m)) == TakeRoot(m);
  }

  /** The copy made at boot is a sound address space that translates every page as the
      bootloader's did, if and only if the frames that the allocator is about to hand out for
      its level-3 tables hold zero wherever the original has no entry. */
  lemma CopySoundIff(m: Machine, img: Image, srcAt: map<Path, nat>)
    requires CanBoot(m, img, srcAt)
    ensures Copied(m, srcAt[Root]).Some?
    ensures var n := Copied(m, srcAt[Root]).value;
            && Good(World(n.mem, CopyPlaces(m, img), n.pool), m.Offered(), m.pool.taken)
            && Alike(n.mem, m.Offered(), m.mem, srcAt[Root])
            <==> ZeroStart(TakeRoot(m), img)
  {
    var w := CopiedWhole(m, img, srcAt);
    RootReady(m, img, srcAt);
    SeatsForeseen(RootAlone(m), w, img, m.Offered());
    SoundIffZero(RootAlone(m), w, img, m.Offered(), srcAt);
    SameBeforeRoot(m, img, srcAt);
    assert Run(RootAlone(m)) == TakeRoot(m);
  }

  /** It translates every page alike if and only if nothing left over in those frames, where
      the original has no entry, leads to a page. */
  lemma CopyAlikeIff(m: Machine, img: Image, srcAt: map<Path, nat>)
    requires CanBoot(m, img, srcAt)
    ensures Copied(m, srcAt[Root]).Some?
    ensures Alike(Copied(m, srcAt[Root]).value.mem, m.Offered(), m.mem, srcAt[Root])
            <==> StaleNowhere(TakeRoot(m), img, m.Offered())
  {
    var w := CopiedWhole(m, img, srcAt);
    AlikeIffNowhere(RootAlone(m), w, img, m.Offered(), srcAt);
    SameBeforeRoot(m, img, srcAt);
    assert Run(RootAlone(m)) == TakeRoot(m);
  }

  /** A left-over entry that leads to a page, be it large or behind further tables, becomes a
      translation that the original does not have. */
  lemma StaleEntryShows(m: Machine, img: Image, srcAt: map<Path, nat>, i: nat, j: nat) returns (s: Spot)
    requires CanBoot(m, img, srcAt) && Gap(img, i, j)
    requires !LeadsNowhere(TakeRoot(m), img, m.Offered(), Stale(TakeRoot(m), img, i, j))
    ensures Copied(m, srcAt[Root]).Some? && s.Valid() && s.i4 == i && s.i3 == j
    ensures Translate(Copied(m, srcAt[Root]).value.mem, m.Offered(), 0, s, []).Some?
    ensures Translate(m.mem, srcAt[Root], 0, s, []).None?
  {
    var w := CopiedWhole(m, img, srcAt);
    var u, root := RootAlone(m), m.Offered();
    assert Run(u) == TakeRoot(m);
    PriorIsStale(u, w, img, root, i, j);
    NowhereIsDeadEnd(u, w, img, root, Stale(TakeRoot(m), img, i, j));
    s := HarmShows(u, w, img, root, srcAt, i, j);
    SameBeforeRoot(m, img, srcAt);
  }

  /** Zero in every free frame is enough. */
  lemma ZeroFramesSuffice(m: Machine, img: Image, srcAt: map<Path, nat>)
    requires CanBoot(m, img, srcAt) && forall f: nat | m.pool.Free(f) :: Read(m.mem, f) == Blank()
    ensures ZeroStart(TakeRoot(m), img)
  {
    var n := TakeRoot(m);
    OfferedExact(m);
    BelowRootSize(img);
    FreeSmaller(m.pool, n.pool, m.Offered());
    forall i: nat, j: nat | Gap(img, i, j) ensures Stale(n, img, i, j) == ZERO {
      BelowRoom(img, Root, i);
      DrawServed(n.pool, |Below(img, Root, i)|);
      DrawIsRank(n.pool, |Below(img, Root, i)|);
    }
  }

  /** Whatever those frames hold, the copy shares no frame with the original and leaves it as
      it was. */
  lemma CopySharesNothing(m: Machine, img: Image, srcAt: map<Path, nat>)
    requires CanBoot(m, img, srcAt)
    ensures Copied(m, srcAt[Root]).Some?
    ensures forall q, r | q in CopyPlaces(m, img) && r in srcAt :: CopyPlaces(m, img)[q] != srcAt[r]
    ensures Alike(Copied(m, srcAt[Root]).value.mem, srcAt[Root], m.mem, srcAt[Root])
  {
    var w := CopiedWhole(m, img, srcAt);
    SeatsForeseen(RootAlone(m), w, img, m.Offered());
    OriginalKept(RootAlone(m), w, img, m.Offered(), srcAt);
    SameBeforeRoot(m, img, srcAt);
  }

  // ---- The reserved slots ------------------------------------------------------------

  /** Filling an empty slot changes no translation. */
  lemma SlotFilled(w: World, root: nat, base: set<nat>, i: nat, f: nat)
    requires Good(w, root, base) && 256 <= i < 512 && w.Entries(Root)[i] == ZERO && w.pool.Free(f)
    ensures var v := Grow(w, Root, i, f, RESERVED);
            && Good(v, root, base) && Grown(w, v) && NoNewEmpty(w, v)
            && v.Entries(Root) == w.Entries(Root)[i := Entry(f, RESERVED)]
  {
    assert f !in w.at.Values;
    GrowEffect(w, root, base, Root, i, f, RESERVED);
    GrowKeepsTree(w, root, base, Root, i, f, RESERVED);
    GrowKeepsOwns(w, base, Root, i, f, RESERVED);
    GrowNoneEmpty(w, root, base, Root, i, f, RESERVED);
    GrowIsGrown(w, root, base, Root, i, f, RESERVED);
    NoNewAtAll(w, Grow(w, Root, i, f, RESERVED), Child(Root, i));
  }

  lemma RootSlot(w: World, root: nat, base: set<nat>, i: nat)
    requires Good(w, root, base) && i < 512
    ensures Read(w.mem, root)[i].flags.present <==> w.Entries(Root)[i] != ZERO
    ensures w.Frame(Root) == root && !w.pool.Free(root)
  {
    assert Settled(w, Root, i);
    assert w.at[Root] in w.at.Values;
  }

  /** What reserving leaves behind: every slot from i on filled, and every translation. */
  ghost predicate Reserved(w: World, v: World, root: nat, base: set<nat>, i: nat) {
    && Good(v, root, base) && Grown(w, v) && NoNewEmpty(w, v)
    && (forall k | 0 <= k < 512 && (k < i || w.Entries(Root)[k] != ZERO) :: v.Entries(Root)[k] == w.Entries(Root)[k])
    && (forall k | i <= k < 512 :: v.Entries(Root)[k] != ZERO)
    && (forall k | i <= k < 512 && w.Entries(Root)[k] == ZERO :: NewSlot(v, k))
  }

  /** A slot that was empty leads to a table of its own, with the flags Present and ReadWrite. */
  ghost predicate NewSlot(v: World, k: int)
    requires 0 <= k < 512
  {
    Child(Root, k) in v.at && v.Entries(Root)[k] == Entry(v.at[Child(Root, k)], Flags(true, false, 1, 0, 0))
  }

  lemma ReservedMore(w: World, x: World, v: World, root: nat, base: set<nat>, i: nat, e: Entry)
    requires i < 512 && e != ZERO && x.Entries(Root) == w.Entries(Root)[i := e]
    requires w.Entries(Root)[i] == ZERO || w.Entries(Root)[i] == e
    requires w.Entries(Root)[i] == ZERO ==> NewSlot(x, i)
    requires Grown(w, x) && NoNewEmpty(w, x) && Reserved(x, v, root, base, i + 1)
    ensures Reserved(w, v, root, base, i)
  {
    GrownTransitive(w, x, v);
    NoNewTransitive(w, x, v, Root, Root);
  }

  lemma {:induction false} ReserveSound(w: World, root: nat, base: set<nat>, i: nat) returns (v: World)
    requires Good(w, root, base) && 256 <= i <= 512 && Reserve(Run(w), root, i).Some?
    ensures Reserve(Run(w), root, i) == Some(Run(v)) && Reserved(w, v, root, base, i)
    decreases 512 - i
  {
    if i == 512 {
      v := w;
      GrownReflexive(w);
    } else {
      var x, e := ReserveTurn(w, root, base, i);
      v := ReserveSound(x, root, base, i + 1);
      ReservedMore(w, x, v, root, base, i, e);
    }
  }

  /** One turn of the loop. */
  lemma ReserveTurn(w: World, root: nat, base: set<nat>, i: nat) returns (x: World, e: Entry)
    requires Good(w, root, base) && 256 <= i < 512 && Reserve(Run(w), root, i).Some?
    ensures Reserve(Run(w), root, i) == Reserve(Run(x), root, i + 1)
    ensures Good(x, root, base) && Grown(w, x) && NoNewEmpty(w, x)
    ensures e != ZERO && x.Entries(Root) == w.Entries(Root)[i := e]
    ensures w.Entries(Root)[i] == ZERO || w.Entries(Root)[i] == e
    ensures w.Entries(Root)[i] == ZERO ==> NewSlot(x, i)
  {
    RootSlot(w, root, base, i);
    OfferedExact(Run(w));
    if w.Entries(Root)[i] != ZERO {
      x, e := w, w.Entries(Root)[i];
      GrownReflexive(w);
    } else {
      var f := Run(w).Offered();
      x, e := Grow(w, Root, i, f, RESERVED), Entry(f, RESERVED);
      SlotFilled(w, root, base, i, f);
      SlotRuns(w, root, i, f);
    }
  }

  lemma SlotRuns(w: World, root: nat, i: nat, f: nat)
    requires i < 512 && f == Run(w).Offered() && w.Frame(Root) == root && f != root
    requires Run(w).Taken().pool == w.pool.(taken := w.pool.taken + {f})
    ensures Run(Grow(w, Root, i, f, RESERVED)) == ReserveSlot(Run(w), root, i)
  {
  }

  lemma GrownIsAlike(w: World, v: World, root: nat, base: set<nat>)
    requires Good(w, root, base) && Good(v, root, base) && Grown(w, v)
    ensures Alike(v.mem, root, w.mem, root)
  {
    forall s: Spot | s.Valid() ensures Translate(v.mem, root, 0, s, []) == Translate(w.mem, root, 0, s, []) {
      WalkIsTranslate(w, root, 0, s, []);
      WalkIsTranslate(v, root, 0, s, []);
      assert Lookup(v, s) == Lookup(w, s);
    }
  }

  /** The kernel's address space after a successful Initialize from such frames: it translates
      every page as the bootloader's tables did, has every higher-half slot filled, owns
      exactly its tables, and has no table empty where the original's was not. */
  lemma BootSound(m: Machine, img: Image, srcAt: map<Path, nat>) returns (v: World)
    requires CanBoot(m, img, srcAt) && ZeroStart(TakeRoot(m), img) && Boot(m, srcAt[Root]).Some?
    ensures Boot(m, srcAt[Root]) == Some(Run(v)) && Good(v, m.Offered(), m.pool.taken)
    ensures HighSlotsFilled(v) && Alike(v.mem, m.Offered(), m.mem, srcAt[Root])
    ensures (forall q | q in img && !MayBeEmpty(q) :: !TableEmpty(img[q])) ==> NoneEmpty(v)
  {
    var root, base := m.Offered(), m.pool.taken;
    var w := CopiedWhole(m, img, srcAt);
    CopySoundIff(m, img, srcAt);
    SeatsForeseen(RootAlone(m), w, img, root);
    assert w == World(w.mem, CopyPlaces(m, img), w.pool);
    v := ReserveSound(w, root, base, 256);
    GrownIsAlike(w, v, root, base);
    AlikeTransitive(v.mem, root, w.mem, root, m.mem, srcAt[Root]);
    if forall q | q in img && !MayBeEmpty(q) :: !TableEmpty(img[q]) {
      CopyNoneEmpty(RootAlone(m), w, img, root);
      NoneEmptyStays(w, v);
    }
  }

  lemma AlikeTransitive(a: Memory, ra: nat, b: Memory, rb: nat, c: Memory, rc: nat)
    requires Alike(a, ra, b, rb) && Alike(b, rb, c, rc)
    ensures Alike(a, ra, c, rc)
  {
    forall s: Spot | s.Valid() ensures Translate(a, ra, 0, s, []) == Translate(c, rc, 0, s, []) {
      assert Translate(a, ra, 0, s, []) == Translate(b, rb, 0, s, []);
    }
  }

  // ---- A boot that goes wrong --------------------------------------------------------

  // A bootloader's root in frame 1 whose first entry leads to an empty table in frame 2; the
  // allocator has frames 3 to 7. Frame 3 becomes the root and frame 4 the level-3 table.

  const WRITABLE := Flags(true, false, 1, 0, 0)
  const OLD_PAGE := Entry(0, Flags(true, true, 1, 0, 0))

  function OneTable(): Image {
    map[Root := Blank()[0 := Entry(2, WRITABLE)], Child(Root, 0) := Blank()]
  }

  function OneTableAt(): map<Path, nat> {
    map[Root := 1, Child(Root, 0) := 2]
  }

  /** Frame 4 still holds this entry. */
  function BeforeBoot(left: Entry): Machine {
    Machine(map[1 := Blank()[0 := Entry(2, WRITABLE)], 4 := Blank()[0 := left]], Pool(8, {0, 1, 2}, {}))
  }

  lemma OneTableClosed()
    ensures Closed(OneTable()) && Below(OneTable(), Root, 0) == {} && |OneTable()| == 2
  {
    var c := Child(Root, 0);
    assert Depth(c) == 1;
    BelowNothing(OneTable(), Root);
    assert OneTable().Keys == {Root, c};
    assert |OneTable()| == |OneTable().Keys|;
  }

  lemma BeforeBootReady(left: Entry)
    ensures CanBoot(BeforeBoot(left), OneTable(), OneTableAt())
    ensures BeforeBoot(left).Offered() == 3 && Draw(TakeRoot(BeforeBoot(left)).pool, 0) == 4
  {
    OneTableClosed();
    FivePages(BeforeBoot(left).pool);
    OneTableFound(BeforeBoot(left).mem, left);
    WholePage(BeforeBoot(left).pool);
  }

  lemma OneTableFound(mem: Memory, left: Entry)
    requires mem == BeforeBoot(left).mem
    ensures Found(mem, OneTableAt(), OneTable())
  {
    assert OneTableAt().Keys == OneTable().Keys;
  }

  lemma FivePages(f: Pool)
    requires f == Pool(8, {0, 1, 2}, {})
    ensures f.Valid() && |f.FreeSet()| == 5
    ensures Allocate(f, 1).run == Some(3) && Draw(Allocate(f, 1).after, 0) == 4
  {
    FiveFree(f);
    TwoDraws(f, 3, 4);
  }

  lemma FiveFree(f: Pool)
    requires f == Pool(8, {0, 1, 2}, {})
    ensures |f.FreeSet()| == 5
  {
    assert f.FreeSet() == {3, 4, 5, 6, 7};
  }

  lemma TwoDraws(f: Pool, p: nat, q: nat)
    requires f.Valid() && f.Free(p) && f.Free(q) && p < q && forall r: nat | r < q && r != p :: !f.Free(r)
    ensures Allocate(f, 1).run == Some(p) && Draw(Allocate(f, 1).after, 0) == q
  {
    FirstDraw(f, p);
    OneFrame(f);
    AllocateKeeps(f, 1);
    var g := f.(taken := f.taken + {p});
    forall r: nat | r < q ensures !g.Free(r) {
      assert r != p ==> !f.Free(r);
    }
    FirstDraw(g, q);
  }

  lemma FirstDraw(f: Pool, p: nat)
    requires f.Valid() && f.Free(p) && forall q: nat | q < p :: !f.Free(q)
    ensures Draw(f, 0) == p && Allocate(f, 1).run == Some(p)
  {
    assert p in f.FreeSet();
    assert forall r: nat | p < r :: p in FreeBelow(f, r);
    LowestFirst(f);
    assert Drawn(f, 0) == f;
  }

  /** An old large page in that frame becomes a page of the kernel's address space that the
      bootloader's did not have. */
  lemma StaleExample()
    ensures var m := BeforeBoot(OLD_PAGE);
            && CanBoot(m, OneTable(), OneTableAt()) && Copied(m, 1).Some?
            && !Alike(Copied(m, 1).value.mem, m.Offered(), m.mem, 1)
  {
    var m, img := BeforeBoot(OLD_PAGE), OneTable();
    BeforeBootReady(OLD_PAGE);
    CopyAlikeIff(m, img, OneTableAt());
    OldPageLeft(m, img);
  }

  lemma OldPageLeft(m: Machine, img: Image)
    requires m == BeforeBoot(OLD_PAGE) && img == OneTable()
    ensures Gap(img, 0, 0) && !LeadsNowhere(TakeRoot(m), img, m.Offered(), Stale(TakeRoot(m), img, 0, 0))
  {
    BeforeBootReady(OLD_PAGE);
    OneTableClosed();
    assert Stale(TakeRoot(m), img, 0, 0) == OLD_PAGE;
  }

  // A bootloader that uses every higher-half slot, with one table below the last: 258 tables,
  // in frames 1 to 512. The allocator has the 257 frames from 767 on.

  function Slot(i: nat): Path { Child(Root, i) }

  function DeepTable(): Path { Child(Slot(511), 0) }

  function SlotsFrom(i: nat, j: nat): set<Path> {
    set k | i <= k < j :: Slot(k)
  }

  function FullRoot(): Table {
    seq(512, k requires 0 <= k < 512 => if k >= 256 then Entry(k, WRITABLE) else ZERO)
  }

  function LastSlot(): Table { Blank()[0 := Entry(512, WRITABLE)] }

  function FullImage(): Image {
    map q | q in SlotsFrom(256, 512) + {Root, DeepTable()} ::
      if q == Root then FullRoot() else if q == Slot(511) then LastSlot() else Blank()
  }

  function FullImageAt(): map<Path, nat> {
    map q | q in FullImage() :: if q == Root then 1 else if q == DeepTable() then 512 else q.index
  }

  function ShortMachine(): Machine {
    Machine(map[1 := FullRoot(), 511 := LastSlot()], Pool(1024, Span(0, 767), {}))
  }

  lemma {:induction false} SlotsSize(i: nat, j: nat)
    requires i <= j
    ensures |SlotsFrom(i, j)| == j - i
    decreases j - i
  {
    if i < j {
      SlotsSize(i, j - 1);
      assert SlotsFrom(i, j) == SlotsFrom(i, j - 1) + {Slot(j - 1)};
    } else {
      assert SlotsFrom(i, j) == {};
    }
  }

  /** The places of the image. */
  lemma InFullImage(q: Path)
    ensures q in FullImage() <==>
            q == Root || q == DeepTable() || (q.Child? && q == Slot(q.index) && 256 <= q.index < 512)
    ensures q in FullImage() ==> Depth(q) == if q == Root then 0 else if q == DeepTable() then 2 else 1
  {
    assert Depth(DeepTable()) == 2;
    if q in FullImage() && q != Root && q != DeepTable() {
      var k :| 256 <= k < 512 && q == Slot(k);
      assert Depth(q) == 1;
    }
    if q != Root && q == Slot(q.index) && 256 <= q.index < 512 {
      assert q in SlotsFrom(256, 512);
    }
  }

  /** Where they lead. */
  lemma FullImageLeads(q: Path, i: nat)
    requires q in FullImage() && i < 512
    ensures Child(q, i) in FullImage() <==> Interior(Depth(q), FullImage()[q][i])
  {
    InFullImage(q);
    InFullImage(Child(q, i));
    if q == Root {
      assert Child(q, i) == Slot(i);
    }
  }

  lemma FullImageParents(q: Path, i: nat)
    requires Child(q, i) in FullImage()
    ensures q in FullImage() && i < 512
  {
    InFullImage(Child(q, i));
    InFullImage(q);
    InFullImage(Slot(511));
  }

  lemma FullImageClosed()
    ensures Closed(FullImage()) && |FullImage()| == 258
  {
    var img := FullImage();
    InFullImage(Root);
    forall q | q in img ensures Depth(q) <= 3 {
      InFullImage(q);
    }
    forall q, i | Child(q, i) in img ensures q in img && i < 512 {
      FullImageParents(q, i);
    }
    forall q, i: nat | q in img && i < 512 ensures Child(q, i) in img <==> Interior(Depth(q), img[q][i]) {
      FullImageLeads(q, i);
    }
    FullImageSize();
  }

  lemma FullImageSize()
    ensures |FullImage()| == 258
  {
    var slots := SlotsFrom(256, 512);
    SlotsSize(256, 512);
    assert Root !in slots && DeepTable() !in slots;
    assert |slots + {Root, DeepTable()}| == |slots| + 2;
    assert FullImage().Keys == slots + {Root, DeepTable()};
  }

  /** Before slot j come at most the slots below it. */
  lemma BelowSlot(j: nat)
    requires 256 <= j < 512
    ensures |Below(FullImage(), Root, j)| < 256
  {
    forall q | q in Below(FullImage(), Root, j) ensures q in SlotsFrom(256, j) {
      assert Via(DeepTable(), Root) == Some(511);
    }
    SlotsSize(256, j);
    SubsetSize(Below(FullImage(), Root, j), SlotsFrom(256, j));
  }

  lemma ShortPool(f: Pool)
    requires f == Pool(1024, Span(0, 767), {})
    ensures f.Valid() && |f.FreeSet()| == 257
  {
    forall p: nat ensures f.Free(p) <==> Within(p, 767, 257) {
      assert p in Span(0, 767) <==> p < 767;
    }
    assert f.FreeSet() == Span(767, 257);
    SpanSize(767, 257);
  }

  /** A boot in which the shortage goes unnoticed. */
  lemma SilentExample()
    ensures var m, img, srcAt := ShortMachine(), FullImage(), FullImageAt();
            && SourceHeld(m, srcAt, img) && Closed(img) && |m.pool.FreeSet()| < |img|
            && Boot(m, srcAt[Root]).Some?
  {
    var m, img, srcAt := ShortMachine(), FullImage(), FullImageAt();
    FullImageClosed();
    ShortPool(m.pool);
    ShortHeld();
    FullImageServed();
    SilentShortage(m, img, srcAt);
  }

  lemma FullImageServed()
    ensures Served(FullImage(), 0, 256) && Root in FullImage() && Unused(FullImage()) == {}
  {
    var img := FullImage();
    BelowNothing(img, Root);
    forall j: nat | 0 <= j < 512 && Child(Root, j) in img ensures |Below(img, Root, j)| < 256 {
      assert Child(Root, j) == Slot(j);
      BelowSlot(j);
    }
  }

  lemma ShortHeld()
    ensures SourceHeld(ShortMachine(), FullImageAt(), FullImage())
  {
    var m, img, srcAt := ShortMachine(), FullImage(), FullImageAt();
    ShortPool(m.pool);
    assert srcAt.Keys == img.Keys;
    forall q | q in srcAt ensures 0 < srcAt[q] <= 512 && Read(m.mem, srcAt[q]) == img[q] {
    }
    forall q, i: nat | q in img && i < 512 && Child(q, i) in img ensures img[q][i].frame == srcAt[Child(q, i)] {
      if q == Root {
        assert Child(q, i) == Slot(i);
      }
    }
    forall q | q in srcAt ensures !m.pool.Free(srcAt[q]) {
      assert srcAt[q] in Span(0, 767);
    }
  }
}
