/** Searching a window of virtual addresses for unmapped pages, and mapping what it finds. */
module PageRange {
  import opened Outcomes
  import opened PageTables
  import opened PageRuns
  import opened PageWords

  /** The address of probe i of a search that starts at an address. */
  function Probe(start: nat, i: nat): nat { start + i * PAGE_SIZE }

  /** How many addresses a search of a window probes. */
  function Probes(start: nat, end: nat): nat {
    if start < end then (end - start + PAGE_SIZE - 1) / PAGE_SIZE else 0
  }

  /** Whether IsMapped answers no for an address. */
  predicate SeemsFree(w: World, va: nat) {
    var hit := Lookup(w, SpotOf(va));
    hit.None? || (hit.value.leaf.frame == 0 && va % PAGE_SIZE == 0)
  }

  predicate SeemsFreeRun(w: World, start: nat, i: nat, n: nat) {
    forall k | i <= k < i + n :: SeemsFree(w, Probe(start, k))
  }

  /** The answer of the search: the lowest run of n probes that seem free, if there is one
      and any pages were asked for. */
  ghost predicate LowestRun(w: World, start: nat, probes: nat, n: nat, found: Option<nat>) {
    match found
    case None => n == 0 || forall i: nat | i + n <= probes :: !SeemsFreeRun(w, start, i, n)
    case Some(i) =>
      && n > 0 && i + n <= probes && SeemsFreeRun(w, start, i, n)
      && forall t: nat | t < i :: !SeemsFreeRun(w, start, t, n)
  }

  /** The search has made the probes below page: the last count of them seem free, and no run
      starts before those. */
  ghost predicate Scanned(w: World, start: nat, page: nat, count: nat, n: nat) {
    && count <= page
    && (forall k | page - count <= k < page :: SeemsFree(w, Probe(start, k)))
    && (n == 0 || (count < n && forall t: nat | t < page - count :: !SeemsFreeRun(w, start, t, n)))
  }

  lemma ScanFree(w: World, start: nat, page: nat, count: nat, n: nat)
    requires Scanned(w, start, page, count, n) && SeemsFree(w, Probe(start, page)) && count + 1 != n
    ensures Scanned(w, start, page + 1, count + 1, n)
  {
  }

  lemma ScanTaken(w: World, start: nat, page: nat, count: nat, n: nat)
    requires Scanned(w, start, page, count, n) && !SeemsFree(w, Probe(start, page))
    ensures Scanned(w, start, page + 1, 0, n)
  {
    if n > 0 {
      forall t: nat | t < page + 1 ensures !SeemsFreeRun(w, start, t, n) {
        assert t >= page - count ==> t <= page < t + n;
      }
    }
  }

  lemma ScanEnd(w: World, start: nat, probes: nat, page: nat, count: nat, n: nat)
    requires Scanned(w, start, page, count, n) && probes <= page
    ensures LowestRun(w, start, probes, n, None)
  {
  }

  lemma ScanFound(w: World, start: nat, probes: nat, page: nat, count: nat, n: nat)
    requires Scanned(w, start, page, count, n) && SeemsFree(w, Probe(start, page)) && page < probes && count + 1 == n
    ensures LowestRun(w, start, probes, n, Some(page - count))
  {
  }

  // ---- The same by addresses ---------------------------------------------------------

  /** The probes are exactly the addresses below the end, a page apart from the start on. */
  lemma ProbesExact(start: nat, end: nat, i: nat)
    ensures i < Probes(start, end) <==> start + i * 0x1000 < end
  {
    if start < end {
      var d := end - start;
      var n := (d + 4095) / 4096;
      assert d <= 4096 * n < d + 4096;
    }
  }

  /** An address that the search of a window may stop at. */
  predicate OnGrid(start: nat, a: nat) {
    start <= a && (a - start) % 0x1000 == 0
  }

  /** n addresses, a page apart from a on, all seem free. */
  ghost predicate FreeSteps(w: World, a: nat, n: nat) {
    forall b: nat | OnGrid(a, b) && b < a + n * 0x1000 :: SeemsFree(w, b)
  }

  /** What the search of a window comes to: the lowest range of n page steps that all seem free
      and start below the end of the window, or none if there is none or n is 0. */
  ghost predicate Answers(w: World, start: nat, end: nat, n: nat, range: Option<(nat, nat)>) {
    match range
    case None => n == 0 || forall a: nat | OnGrid(start, a) && a + (n - 1) * 0x1000 < end :: !FreeSteps(w, a, n)
    case Some((a, b)) =>
      && n > 0 && OnGrid(start, a) && b == a + n * 0x1000 && a + (n - 1) * 0x1000 < end
      && FreeSteps(w, a, n) && forall c: nat | OnGrid(start, c) && c < a :: !FreeSteps(w, c, n)
  }

  lemma StepsAreRun(w: World, start: nat, i: nat, n: nat)
    ensures FreeSteps(w, start + i * 0x1000, n) <==> SeemsFreeRun(w, start, i, n)
  {
    var a := start + i * 0x1000;
    if FreeSteps(w, a, n) {
      forall k: nat | i <= k < i + n ensures SeemsFree(w, Probe(start, k)) {
        ProbeOnGrid(start, i, k, n);
      }
    }
    if SeemsFreeRun(w, start, i, n) {
      forall b: nat | OnGrid(a, b) && b < a + n * 0x1000 ensures SeemsFree(w, b) {
        var j := GridProbe(start, i, b, n);
      }
    }
  }

  lemma ProbeOnGrid(start: nat, i: nat, k: nat, n: nat)
    requires i <= k < i + n
    ensures OnGrid(start + i * 0x1000, Probe(start, k)) && Probe(start, k) < start + i * 0x1000 + n * 0x1000
  {
    assert Probe(start, k) - (start + i * 0x1000) == (k - i) * 0x1000;
  }

  lemma GridProbe(start: nat, i: nat, b: nat, n: nat) returns (k: nat)
    requires OnGrid(start + i * 0x1000, b) && b < start + i * 0x1000 + n * 0x1000
    ensures i <= k < i + n && b == Probe(start, k)
  {
    var j := GridIndex(start + i * 0x1000, b);
    k := i + j;
  }

  lemma GridIndex(start: nat, a: nat) returns (i: nat)
    requires OnGrid(start, a)
    ensures a == start + i * 0x1000
  {
    i := (a - start) / 0x1000;
  }

  lemma NoStepsIn(w: World, start: nat, end: nat, n: nat, a: nat)
    requires LowestRun(w, start, Probes(start, end), n, None) && n > 0
    requires OnGrid(start, a) && a + (n - 1) * 0x1000 < end
    ensures !FreeSteps(w, a, n)
  {
    var i := GridIndex(start, a);
    ProbesExact(start, end, i + n - 1);
    NoStepsAt(w, start, Probes(start, end), n, i);
  }

  lemma NoStepsAt(w: World, start: nat, probes: nat, n: nat, i: nat)
    requires LowestRun(w, start, probes, n, None) && n > 0 && i + n <= probes
    ensures !FreeSteps(w, start + i * 0x1000, n)
  {
    StepsAreRun(w, start, i, n);
  }

  lemma NoStepsBefore(w: World, start: nat, probes: nat, n: nat, i: nat, c: nat)
    requires LowestRun(w, start, probes, n, Some(i)) && OnGrid(start, c) && c < start + i * 0x1000
    ensures !FreeSteps(w, c, n)
  {
    var t := GridIndex(start, c);
    NoStepsFrom(w, start, probes, n, i, t);
  }

  lemma NoStepsFrom(w: World, start: nat, probes: nat, n: nat, i: nat, t: nat)
    requires LowestRun(w, start, probes, n, Some(i)) && t < i
    ensures !FreeSteps(w, start + t * 0x1000, n)
  {
    StepsAreRun(w, start, t, n);
  }

  /** The lowest run of probes is the answer. */
  lemma LowestIsAnswer(w: World, start: nat, end: nat, n: nat, found: Option<nat>)
    requires LowestRun(w, start, Probes(start, end), n, found)
    ensures found.None? ==> Answers(w, start, end, n, None)
    ensures found.Some? ==>
              Answers(w, start, end, n, Some((start + found.value * 0x1000, start + found.value * 0x1000 + n * 0x1000)))
  {
    match found {
      case None =>
        if n > 0 {
          forall a: nat | OnGrid(start, a) && a + (n - 1) * 0x1000 < end ensures !FreeSteps(w, a, n) {
            NoStepsIn(w, start, end, n, a);
          }
        }
      case Some(i) =>
        ProbesExact(start, end, i + n - 1);
        StepsAreRun(w, start, i, n);
        forall c: nat | OnGrid(start, c) && c < start + i * 0x1000 ensures !FreeSteps(w, c, n) {
          NoStepsBefore(w, start, Probes(start, end), n, i, c);
        }
    }
  }

  /** No page is mapped to frame 0, which the lookup reports like an unmapped page. */
  ghost predicate NoFrameZero(w: World) {
    forall s: Spot | s in Pages(w) :: Pages(w)[s].frame != 0
  }

  /** The mappings of consecutive pages from an address on, in order. */
  function MapRange(a: nat, entries: seq<Entry>): seq<Op> {
    seq(|entries|, k requires 0 <= k < |entries| => Map(SpotOf(a + k * 0x1000), entries[k]))
  }

  lemma PageOfAddress(q: nat)
    ensures q * PAGE_SIZE / PAGE_SIZE == q
  {
  }

  lemma RemaindersDiffer(a: nat, b: nat)
    requires a < b < a + 0x10_0000_0000
    ensures a % 0x10_0000_0000 != b % 0x10_0000_0000
  {
  }

  lemma SpotsDiffer(a: nat, b: nat)
    requires a < b < a + 0x10_0000_0000
    ensures SpotOf(a * PAGE_SIZE) != SpotOf(b * PAGE_SIZE)
  {
    SpotInjective(a * PAGE_SIZE, b * PAGE_SIZE);
    PageOfAddress(a);
    PageOfAddress(b);
    RemaindersDiffer(a, b);
  }

  /** Some page to be mapped is mapped already. */
  ghost predicate AnyMapped(m: imap<Spot, Entry>, ops: seq<Op>) {
    exists i | 0 <= i < |ops| :: ops[i].spot in m
  }

  /** Mapping distinct pages is refused by the simple form exactly when one is mapped. */
  lemma {:induction false} DistinctMaps(m: imap<Spot, Entry>, ops: seq<Op>)
    requires forall i | 0 <= i < |ops| :: ops[i].Map?
    requires forall i, j | 0 <= i < j < |ops| :: ops[i].spot != ops[j].spot
    ensures SimpleAll(m, ops).None? <==> AnyMapped(m, ops)
    decreases ops
  {
    if ops != [] && ops[0].spot !in m {
      var rest, n := ops[1..], m[ops[0].spot := ops[0].entry];
      assert forall i | 0 <= i < |rest| :: rest[i] == ops[i + 1];
      DistinctMaps(n, rest);
      RestMapped(m, n, ops);
    }
  }

  lemma RestMapped(m: imap<Spot, Entry>, n: imap<Spot, Entry>, ops: seq<Op>)
    requires ops != [] && ops[0].spot !in m && n.Keys == m.Keys + iset{ops[0].spot}
    requires forall i, j | 0 <= i < j < |ops| :: ops[i].spot != ops[j].spot
    ensures AnyMapped(n, ops[1..]) <==> AnyMapped(m, ops)
  {
    var rest := ops[1..];
    forall i | 0 <= i < |rest| ensures rest[i].spot in n <==> ops[i + 1].spot in m {
      assert ops[i + 1].spot != ops[0].spot;
    }
    if AnyMapped(m, ops) {
      var i :| 0 <= i < |ops| && ops[i].spot in m;
      assert rest[i - 1].spot in n;
    }
  }

  /** Mapping consecutive pages from a page boundary on panics exactly when one of them is
      mapped already or frames for tables run out; otherwise all of them are mapped. */
  lemma RangeMaps(w: World, root: nat, base: set<nat>, a: nat, entries: seq<Entry>)
    requires Good(w, root, base) && a % 0x1000 == 0 && |entries| <= 0x10_0000_0000
    requires AllProper(w, MapRange(a, entries))
    ensures PerformAll(w, MapRange(a, entries)).None? <==>
            RunsOut(w, MapRange(a, entries)) || AnyMapped(Pages(w), MapRange(a, entries))
    ensures PerformAll(w, MapRange(a, entries)).Some? ==>
              var v := PerformAll(w, MapRange(a, entries)).value;
              SimpleAll(Pages(w), MapRange(a, entries)) == Some(Pages(v))
  {
    RangeDistinct(a, entries);
    DistinctMaps(Pages(w), MapRange(a, entries));
    HistoryRefines(w, root, base, MapRange(a, entries));
  }

  /** Some page to be mapped is mapped to frame 0. */
  ghost predicate AnyAtFrameZero(m: imap<Spot, Entry>, ops: seq<Op>) {
    exists i | 0 <= i < |ops| :: ops[i].spot in m && m[ops[i].spot].frame == 0
  }

  lemma FreeStep(w: World, a: nat, n: nat, k: nat)
    requires FreeSteps(w, a, n) && k < n
    ensures SeemsFree(w, a + k * 0x1000)
  {
    ProbeOnGrid(a, 0, k, n);
  }

  lemma FreeAtZero(w: World, root: nat, base: set<nat>, va: nat)
    requires Good(w, root, base) && ClearPath(w, SpotOf(va)) && SeemsFree(w, va)
    ensures SpotOf(va) in Pages(w) ==> Pages(w)[SpotOf(va)].frame == 0
  {
    LookupIffMapped(w, root, SpotOf(va));
  }

  lemma FoundAtZero(w: World, root: nat, base: set<nat>, a: nat, entries: seq<Entry>, k: nat)
    requires Good(w, root, base) && k < |entries|
    requires FreeSteps(w, a, |entries|) && AllProper(w, MapRange(a, entries))
    ensures var s := MapRange(a, entries)[k].spot; s in Pages(w) ==> Pages(w)[s].frame == 0
  {
    assert Proper(w, MapRange(a, entries)[k]);
    FreeStep(w, a, |entries|, k);
    FreeAtZero(w, root, base, a + k * 0x1000);
  }

  /** In a range that the search has found, a page is mapped already exactly when it is mapped
      to frame 0: apart from running out of frames that is the only way to panic. */
  lemma FoundRangeMaps(w: World, root: nat, base: set<nat>, a: nat, entries: seq<Entry>)
    requires Good(w, root, base) && a % 0x1000 == 0 && |entries| <= 0x10_0000_0000
    requires FreeSteps(w, a, |entries|) && AllProper(w, MapRange(a, entries))
    ensures PerformAll(w, MapRange(a, entries)).None? <==>
            RunsOut(w, MapRange(a, entries)) || AnyAtFrameZero(Pages(w), MapRange(a, entries))
    ensures NoFrameZero(w) ==> !AnyAtFrameZero(Pages(w), MapRange(a, entries))
  {
    var ops := MapRange(a, entries);
    RangeMaps(w, root, base, a, entries);
    forall k | 0 <= k < |ops| ensures ops[k].spot in Pages(w) ==> Pages(w)[ops[k].spot].frame == 0 {
      FoundAtZero(w, root, base, a, entries, k);
    }
  }

  lemma RangeDistinct(a: nat, entries: seq<Entry>)
    requires |entries| <= 0x10_0000_0000 && a % 0x1000 == 0
    ensures forall j, k | 0 <= j < k < |entries| :: MapRange(a, entries)[j].spot != MapRange(a, entries)[k].spot
  {
    var q := a / 0x1000;
    forall j, k | 0 <= j < k < |entries| ensures MapRange(a, entries)[j].spot != MapRange(a, entries)[k].spot {
      assert a + j * 0x1000 == (q + j) * PAGE_SIZE && a + k * 0x1000 == (q + k) * PAGE_SIZE;
      SpotsDiffer(q + j, q + k);
    }
  }
}
