/** Interrupt vectors: a bitmap of 256 bits that hands out the lowest vector not taken. */
module Vectors {
  import opened Bitmap
  import opened Sets

  const VECTORS: nat := 256

  predicate Between(v: nat, lo: nat, hi: nat) { lo <= v < hi }

  /** The vectors from lo up to hi. */
  ghost function Range(lo: nat, hi: nat): set<nat> {
    set v | lo <= v < hi && Between(v, lo, hi)
  }

  /** The processor's exceptions, and the three vectors kept for the local APIC. */
  ghost function Reserved(): set<nat> {
    Range(0, 32) + Range(253, VECTORS)
  }

  /** The least vector from v on that is not in use, or 0. */
  ghost function LeastFrom(used: set<nat>, v: nat): nat
    decreases VECTORS - v
  {
    if v >= VECTORS then 0 else if v !in used then v else LeastFrom(used, v + 1)
  }

  ghost function Least(used: set<nat>): nat {
    LeastFrom(used, 0)
  }

  lemma {:induction false} LeastFromExact(used: set<nat>, v: nat)
    ensures var r := LeastFrom(used, v);
            || (v <= r < VECTORS && r !in used && forall w | v <= w < r :: w in used)
            || (r == 0 && forall w | v <= w < VECTORS :: w in used)
    decreases VECTORS - v
  {
    if v < VECTORS && v in used {
      LeastFromExact(used, v + 1);
    }
  }

  /** The builtin ffs: one more than the index of the lowest one bit, or 0. */
  function FindFirstSet(x: bv8): (r: nat)
    ensures x == 0 ==> r == 0
    ensures x != 0 ==> 1 <= r <= 8 && ByteBit(x, r - 1) && forall j | 0 <= j < r - 1 :: !ByteBit(x, j)
  {
    if ByteBit(x, 0) then 1 else if ByteBit(x, 1) then 2 else if ByteBit(x, 2) then 3 else if ByteBit(x, 3) then 4
    else if ByteBit(x, 4) then 5 else if ByteBit(x, 5) then 6 else if ByteBit(x, 6) then 7 else if ByteBit(x, 7) then 8
    else 0
  }

  lemma ClearBitsOf(b: bv8, j: nat)
    requires j < 8
    ensures ByteBit(!b, j) == !ByteBit(b, j)
    ensures b == 0xFF ==> ByteBit(b, j)
    ensures b != 0xFF ==> !b != 0
  {
  }

  class VectorTable {
    const allocatedVectors: array<bv8>

    ghost predicate Valid() reads this { allocatedVectors.Length == 32 }

    /** The vectors in use. */
    ghost function Used(): set<nat>
      reads this, allocatedVectors
      requires Valid()
    {
      Marked(allocatedVectors[..])
    }

    /** The table as the IDT object starts with it: all zero. */
    constructor ()
      ensures Valid() && fresh(allocatedVectors) && Used() == {}
    {
      allocatedVectors := new bv8[32](_ => 0);
      new;
      AllZeros(allocatedVectors[..]);
    }

    /** The end of Initialize. */
    method Reserve()
      requires Valid()
      modifies allocatedVectors
      ensures Used() == (set v | v in old(Used()) && v < 248) + Reserved()
    {
      allocatedVectors[0] := 0xFF;
      allocatedVectors[1] := 0xFF;
      allocatedVectors[2] := 0xFF;
      allocatedVectors[3] := 0xFF;
      allocatedVectors[31] := 0xE0;
      ghost var was, s := old(allocatedVectors[..]), allocatedVectors[..];
      forall v: nat | v < VECTORS
        ensures BitAt(s, v) <==> (v < 248 && BitAt(was, v)) || v < 32 || v >= 253
      {
        ByteExtremes(v % 8);
        TopBits(v % 8);
        assert v / 8 < 4 <==> v < 32;
        assert v / 8 == 31 ==> v == 248 + v % 8;
      }
    }

    /** Takes the lowest vector not in use, or gives 0 if there is none. */
    method AllocateVector() returns (vector: nat)
      requires Valid()
      modifies allocatedVectors
      ensures vector == Least(old(Used())) && vector < VECTORS
      ensures Used() == if old(Used()) == All() then old(Used()) else old(Used()) + {vector}
    {
      for i := 0 to 32
        invariant allocatedVectors[..] == old(allocatedVectors[..])
        invariant forall v: nat | v < 8 * i :: v in Used()
        invariant Least(Used()) == LeastFrom(Used(), 8 * i)
      {
        if allocatedVectors[i] != 0xFF {
          var bit := FindFirstSet(!allocatedVectors[i]) - 1;
          vector := 8 * i + bit;
          LowestInByte(allocatedVectors[..], i, bit);
          NotAll(Used(), vector);
          SetBit(allocatedVectors, vector);
          return;
        }
        FullByte(allocatedVectors[..], i);
        SkipUsed(Used(), 8 * i, 8 * (i + 1));
      }
      FullIsAll(allocatedVectors[..]);
      return 0;
    }

    method FreeVector(vector: nat)
      requires Valid() && vector < VECTORS
      modifies allocatedVectors
      ensures Used() == old(Used()) - {vector}
    {
      ClearBit(allocatedVectors, vector);
    }
  }

  lemma TopBits(j: nat)
    requires j < 8
    ensures ByteBit(0xE0, j) <==> j >= 5
  {
  }

  ghost function All(): set<nat> {
    Range(0, VECTORS)
  }

  lemma FullIsAll(s: seq<bv8>)
    requires |s| == 32 && forall v: nat | v < VECTORS :: v in Marked(s)
    ensures Marked(s) == All()
  {
    RangeExactly(0, VECTORS);
  }

  lemma NotAll(used: set<nat>, v: nat)
    requires v < VECTORS && v !in used
    ensures used != All()
  {
    RangeExactly(0, VECTORS);
  }

  lemma FullByte(s: seq<bv8>, i: nat)
    requires i < |s| && s[i] == 0xFF
    ensures forall v: nat | 8 * i <= v < 8 * (i + 1) :: v in Marked(s)
  {
    forall v: nat | 8 * i <= v < 8 * (i + 1) ensures v in Marked(s) {
      ByteExtremes(v % 8);
      assert v / 8 == i;
    }
  }

  lemma LowestInByte(s: seq<bv8>, i: nat, bit: nat)
    requires |s| == 32 && i < 32 && s[i] != 0xFF && FindFirstSet(!s[i]) == bit + 1
    requires Least(Marked(s)) == LeastFrom(Marked(s), 8 * i)
    ensures bit < 8 && Least(Marked(s)) == 8 * i + bit && 8 * i + bit !in Marked(s)
  {
    ClearBitsOf(s[i], bit);
    BitOfByte(s, i, bit);
    BitsBelow(s, i, bit, !s[i]);
    var used := Marked(s);
    SkipUsed(used, 8 * i, 8 * i + bit);
  }

  lemma BitsBelow(s: seq<bv8>, i: nat, bit: nat, x: bv8)
    requires i < |s| && bit < 8 && x == !s[i] && forall j | 0 <= j < bit :: !ByteBit(x, j)
    ensures forall v: nat | 8 * i <= v < 8 * i + bit :: v in Marked(s)
  {
    forall v: nat | 8 * i <= v < 8 * i + bit ensures v in Marked(s) {
      ClearBitsOf(s[i], v - 8 * i);
      BitOfByte(s, i, v - 8 * i);
    }
  }

  lemma BitOfByte(s: seq<bv8>, i: nat, j: nat)
    requires i < |s| && j < 8
    ensures 8 * i + j in Marked(s) <==> ByteBit(s[i], j)
  {
    assert (8 * i + j) / 8 == i && (8 * i + j) % 8 == j;
  }

  lemma {:induction false} SkipUsed(used: set<nat>, lo: nat, hi: nat)
    requires lo <= hi <= VECTORS && forall v: nat | lo <= v < hi :: v in used
    ensures LeastFrom(used, lo) == LeastFrom(used, hi)
    decreases hi - lo
  {
    if lo < hi {
      SkipUsed(used, lo + 1, hi);
    }
  }

  // ---- Runs --------------------------------------------------------------------------

  /** A vector handed out, or given back. */
  datatype Use = Took(vector: nat) | Gave(vector: nat)

  /** The vectors drivers hold after a history of uses. */
  ghost function Held(uses: seq<Use>): set<nat>
    decreases |uses|
  {
    if uses == [] then {}
    else
      var before, last := Held(uses[..|uses| - 1]), uses[|uses| - 1];
      match last
      case Took(v) => if v == 0 then before else before + {v}
      case Gave(v) => before - {v}
  }

  /** What the last use finds taken: the reserved vectors and those held. */
  ghost predicate Follows(before: set<nat>, use: Use) {
    match use
    case Took(v) => v == Least(Reserved() + before)
    case Gave(v) => v in before
  }

  /** A history from reservation on: AllocateVector's answers, and drivers that give back
      only what they hold. */
  ghost predicate Legal(uses: seq<Use>)
    decreases |uses|
  {
    uses == [] || (Legal(uses[..|uses| - 1]) && Follows(Held(uses[..|uses| - 1]), uses[|uses| - 1]))
  }

  lemma {:induction false} RangeSize(lo: nat, hi: nat)
    requires lo <= hi
    ensures |Range(lo, hi)| == hi - lo
    decreases hi - lo
  {
    if lo < hi {
      RangeSize(lo + 1, hi);
      assert Range(lo, hi) == {lo} + Range(lo + 1, hi);
    } else {
      assert Range(lo, hi) == {};
    }
  }

  lemma ReservedExactly()
    ensures forall v: nat :: v in Reserved() <==> v < 32 || 253 <= v < VECTORS
  {
    forall v: nat ensures v in Reserved() <==> v < 32 || 253 <= v < VECTORS {
      assert Between(v, 0, 32) <==> v < 32;
      assert Between(v, 253, VECTORS) <==> 253 <= v < VECTORS;
    }
  }

  lemma RangeExactly(lo: nat, hi: nat)
    ensures forall v: nat :: v in Range(lo, hi) <==> lo <= v < hi
  {
    forall v: nat ensures v in Range(lo, hi) <==> lo <= v < hi {
      assert Between(v, lo, hi) <==> lo <= v < hi;
    }
  }

  /** The answer while some vectors between 32 and 252 are held. */
  lemma NextVector(held: set<nat>)
    requires forall v | v in held :: 32 <= v < 253
    ensures var next := Least(Reserved() + held);
            && (next == 0 <==> |held| == 221)
            && (next != 0 ==> 32 <= next < 253 && next !in held && forall v | 32 <= v < next :: v in held)
  {
    var used := Reserved() + held;
    ReservedExactly();
    RangeExactly(32, 253);
    RangeSize(32, 253);
    SubsetSize(held, Range(32, 253));
    LeastFromExact(used, 0);
    if Least(used) == 0 {
      assert 0 in used;
      assert held == Range(32, 253);
    } else {
      assert Least(used) in Range(32, 253);
    }
  }

  /** After any legal history: held vectors lie in 32..252; the next answer is 0 exactly when
      all 221 of them are held, and otherwise is the lowest one not held. */
  lemma {:induction false} VectorsSafe(uses: seq<Use>)
    requires Legal(uses)
    ensures forall v | v in Held(uses) :: 32 <= v < 253
    ensures var next := Least(Reserved() + Held(uses));
            && (next == 0 <==> |Held(uses)| == 221)
            && (next != 0 ==> 32 <= next < 253 && next !in Held(uses)
                              && forall v | 32 <= v < next :: v in Held(uses))
    decreases |uses|
  {
    if uses != [] {
      VectorsSafe(uses[..|uses| - 1]);
    }
    NextVector(Held(uses));
  }

  /** The table's vectors after a history, by the contracts of the class's methods. */
  ghost function UsedAfter(uses: seq<Use>): set<nat>
    decreases |uses|
  {
    if uses == [] then Reserved()
    else
      var before, last := UsedAfter(uses[..|uses| - 1]), uses[|uses| - 1];
      match last
      case Took(_) => if before == All() then before else before + {Least(before)}
      case Gave(v) => before - {v}
  }

  /** The table holds exactly the reserved vectors and those the drivers hold. */
  lemma {:induction false} TableFollows(uses: seq<Use>)
    requires Legal(uses)
    ensures UsedAfter(uses) == Reserved() + Held(uses)
    decreases |uses|
  {
    if uses != [] {
      var before := uses[..|uses| - 1];
      TableFollows(before);
      VectorsSafe(before);
      match uses[|uses| - 1] {
        case Took(_) => TookFollows(Held(before));
        case Gave(v) => ReservedExactly();
      }
    }
  }

  lemma TookFollows(held: set<nat>)
    requires forall v | v in held :: 32 <= v < 253
    ensures var used, v := Reserved() + held, Least(Reserved() + held);
            (if used == All() then used else used + {v}) == Reserved() + if v == 0 then held else held + {v}
  {
    var used := Reserved() + held;
    ReservedExactly();
    RangeExactly(0, VECTORS);
    LeastFromExact(used, 0);
    if Least(used) == 0 {
      assert used == All();
    } else {
      assert Least(used) in All();
    }
  }

  /** No vector is held twice: one handed out was not held, and is held from then on until
      it is given back. */
  lemma NeverTwice(uses: seq<Use>, i: nat, j: nat)
    requires Legal(uses) && i < j < |uses| && uses[i].Took? && uses[j] == uses[i] && uses[i].vector != 0
    ensures exists k | i < k < j :: uses[k] == Gave(uses[i].vector)
  {
    if forall k | i < k < j :: uses[k] != Gave(uses[i].vector) {
      LegalUse(uses, j);
      VectorsSafe(uses[..j]);
      StaysHeld(uses, i, j);
    }
  }

  lemma LegalUse(uses: seq<Use>, j: nat)
    requires Legal(uses) && j < |uses|
    ensures Legal(uses[..j]) && Follows(Held(uses[..j]), uses[j])
  {
    LegalPrefix(uses, j + 1);
    assert uses[..j + 1][..j] == uses[..j];
  }

  lemma {:induction false} LegalPrefix(uses: seq<Use>, n: nat)
    requires Legal(uses) && n <= |uses|
    ensures Legal(uses[..n])
    decreases |uses|
  {
    if n < |uses| {
      assert uses[..|uses| - 1][..n] == uses[..n];
      LegalPrefix(uses[..|uses| - 1], n);
    } else {
      assert uses[..n] == uses;
    }
  }

  lemma {:induction false} StaysHeld(uses: seq<Use>, i: nat, j: nat)
    requires i < j <= |uses| && uses[i].Took? && uses[i].vector != 0
    requires forall k | i < k < j :: uses[k] != Gave(uses[i].vector)
    ensures uses[i].vector in Held(uses[..j])
    decreases j
  {
    assert uses[..j][..j - 1] == uses[..j - 1];
    if i < j - 1 {
      StaysHeld(uses, i, j - 1);
    }
  }
}
