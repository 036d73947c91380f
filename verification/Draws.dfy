/** Requests for one frame after another, as building page tables makes them: first fit hands
    out the free frames in rising order. */
module Draws {
  import opened Outcomes
  import opened Frames

  /** The pool after n requests for one frame; a refused request changes nothing. */
  function Drawn(f: Pool, n: nat): Pool
    decreases n
  {
    if n == 0 then f else Drawn(Allocate(f, 1).after, n - 1)
  }

  /** The frame that request k, counted from 0, is answered with; 0 if it is refused. */
  function Draw(f: Pool, k: nat): nat {
    match Allocate(Drawn(f, k), 1).run
    case None => 0
    case Some(p) => p
  }

  lemma {:induction false} DrawnAdd(f: Pool, m: nat, n: nat)
    ensures Drawn(Drawn(f, m), n) == Drawn(f, m + n)
    decreases m
  {
    if m > 0 {
      DrawnAdd(Allocate(f, 1).after, m - 1, n);
    }
  }

  lemma DrawLater(f: Pool, m: nat, k: nat)
    ensures Draw(Drawn(f, m), k) == Draw(f, m + k)
  {
    DrawnAdd(f, m, k);
  }

  lemma DrawnOne(f: Pool)
    ensures Drawn(f, 1) == Allocate(f, 1).after
  {
    assert Drawn(Allocate(f, 1).after, 0) == Allocate(f, 1).after;
  }

  /** After n requests, what is free was free, and what is newly taken was free. */
  ghost predicate Drew(f: Pool, g: Pool) {
    && g.Valid() && g.count == f.count && g.reserved == f.reserved && f.taken <= g.taken
    && (forall p | p in g.taken && p !in f.taken :: f.Free(p))
  }

  lemma {:induction false} DrawnKeeps(f: Pool, n: nat)
    requires f.Valid()
    ensures Drew(f, Drawn(f, n))
    ensures |Drawn(f, n).FreeSet()| == if n <= |f.FreeSet()| then |f.FreeSet()| - n else 0
    decreases n
  {
    if n > 0 {
      DrawKeeps(f);
      DrawnKeeps(Allocate(f, 1).after, n - 1);
    }
  }

  lemma DrawKeeps(f: Pool)
    requires f.Valid()
    ensures var g := Allocate(f, 1).after;
            Drew(f, g) && |g.FreeSet()| == if |f.FreeSet()| > 0 then |f.FreeSet()| - 1 else 0
  {
    AllocateKeeps(f, 1);
    OneFrame(f);
  }

  /** Request k is refused exactly when fewer than k + 1 frames are free. */
  lemma DrawServed(f: Pool, k: nat)
    requires f.Valid()
    ensures Draw(f, k) == 0 <==> k >= |f.FreeSet()|
    ensures Allocate(Drawn(f, k), 1).run.None? <==> k >= |f.FreeSet()|
    ensures k < |f.FreeSet()| ==> Drawn(f, k).Free(Draw(f, k))
  {
    DrawnKeeps(f, k);
    OneFrame(Drawn(f, k));
    AllocateKeeps(Drawn(f, k), 1);
  }

  /** The free frames below a frame. */
  function FreeBelow(f: Pool, p: nat): set<nat> {
    set q | 0 <= q < p && f.Free(q)
  }

  lemma LowestFirst(f: Pool)
    requires f.Valid() && f.FreeSet() != {}
    ensures f.Free(Draw(f, 0)) && FreeBelow(f, Draw(f, 0)) == {}
  {
    FirstFitExact(f, 1, 0);
    OneFrame(f);
    var p := FirstFit(f, 1, 0).value;
    forall q: nat | q < p ensures !f.Free(q) {
      assert !FreeRun(f, q, 1);
    }
  }

  /** Request k is answered with the free frame that has exactly k free frames below it. */
  lemma {:induction false} DrawIsRank(f: Pool, k: nat)
    requires f.Valid() && k < |f.FreeSet()|
    ensures f.Free(Draw(f, k)) && |FreeBelow(f, Draw(f, k))| == k
    decreases k
  {
    LowestFirst(f);
    if k > 0 {
      var g, p := Allocate(f, 1).after, Draw(f, 0);
      OneFrame(f);
      AllocateKeeps(f, 1);
      DrawIsRank(g, k - 1);
      DrawnOne(f);
      DrawLater(f, 1, k - 1);
      OneLower(f, g, p, Draw(f, k));
    }
  }

  /** Without its lowest free frame a pool has one free frame less below every other. */
  lemma OneLower(f: Pool, g: Pool, p: nat, q: nat)
    requires f.Free(p) && FreeBelow(f, p) == {} && g == f.(taken := f.taken + {p}) && g.Free(q)
    ensures f.Free(q) && |FreeBelow(f, q)| == |FreeBelow(g, q)| + 1
  {
    assert p < q by { assert q !in FreeBelow(f, p); }
    assert FreeBelow(f, q) == FreeBelow(g, q) + {p};
  }

  lemma FreeBelowGrows(f: Pool, p: nat, q: nat)
    requires p <= q
    ensures |FreeBelow(f, p)| <= |FreeBelow(f, q)|
  {
    assert FreeBelow(f, q) == FreeBelow(f, p) + (FreeBelow(f, q) - FreeBelow(f, p));
  }

  /** Different requests are answered with different frames, in rising order. */
  lemma DrawsRise(f: Pool, j: nat, k: nat)
    requires f.Valid() && j < k < |f.FreeSet()|
    ensures Draw(f, j) < Draw(f, k)
  {
    DrawIsRank(f, j);
    DrawIsRank(f, k);
    if Draw(f, k) <= Draw(f, j) {
      FreeBelowGrows(f, Draw(f, k), Draw(f, j));
    }
  }
}
