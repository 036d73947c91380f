/** Bit maps stored in bytes: page p is bit p % 8 of byte p / 8, as both frame bitmaps
    and the interrupt-vector bitmap lay them out. */
module Bitmap {

  /** The byte 1 << i. */
  function Mask(i: nat): bv8
    requires i < 8
  {
    if i == 0 then 0x01 else if i == 1 then 0x02 else if i == 2 then 0x04 else if i == 3 then 0x08
    else if i == 4 then 0x10 else if i == 5 then 0x20 else if i == 6 then 0x40 else 0x80
  }

  predicate ByteBit(b: bv8, i: nat)
    requires i < 8
  {
    b & Mask(i) != 0
  }

  function WithBit(b: bv8, i: nat): bv8
    requires i < 8
  {
    b | Mask(i)
  }

  function WithoutBit(b: bv8, i: nat): bv8
    requires i < 8
  {
    b & !Mask(i)
  }

  /** Whether bit p of the map is set. */
  predicate BitAt(s: seq<bv8>, p: nat)
    requires p < 8 * |s|
  {
    ByteBit(s[p / 8], p % 8)
  }

  /** The abstract value of a bit map: the set of its one bits. */
  ghost function Marked(s: seq<bv8>): set<nat> {
    set p | 0 <= p < 8 * |s| && BitAt(s, p)
  }

  lemma OrMask(b: bv8, i: nat, j: nat)
    requires i < 8 && j < 8
    ensures ByteBit(WithBit(b, i), j) == (i == j || ByteBit(b, j))
  {
  }

  lemma ClearMask(b: bv8, i: nat, j: nat)
    requires i < 8 && j < 8
    ensures ByteBit(WithoutBit(b, i), j) == (i != j && ByteBit(b, j))
  {
  }

  /** Replacing one byte by one that differs in a single bit changes that element only. */
  lemma ReplaceByte(s: seq<bv8>, p: nat, b: bv8, on: bool)
    requires p < 8 * |s|
    requires forall j | 0 <= j < 8 :: ByteBit(b, j) == if j == p % 8 then on else ByteBit(s[p / 8], j)
    ensures Marked(s[p / 8 := b]) == if on then Marked(s) + {p} else Marked(s) - {p}
  {
    var t := s[p / 8 := b];
    forall q: nat | q < 8 * |s|
      ensures BitAt(t, q) == if q == p then on else BitAt(s, q)
    {
      if q / 8 == p / 8 {
        assert q == 8 * (q / 8) + q % 8 && p == 8 * (p / 8) + p % 8;
        assert ByteBit(b, q % 8) == if q % 8 == p % 8 then on else ByteBit(s[p / 8], q % 8);
      }
    }
  }

  lemma ByteExtremes(i: nat)
    requires i < 8
    ensures ByteBit(0xFF, i) && !ByteBit(0x00, i)
  {
  }

  lemma AllOnes(s: seq<bv8>, p: nat)
    requires forall i | 0 <= i < |s| :: s[i] == 0xFF
    ensures p in Marked(s) <==> p < 8 * |s|
  {
    ByteExtremes(p % 8);
  }

  lemma AllZeros(s: seq<bv8>)
    requires forall i | 0 <= i < |s| :: s[i] == 0x00
    ensures Marked(s) == {}
  {
    forall p: nat ensures p !in Marked(s) {
      ByteExtremes(p % 8);
    }
  }

  method SetBit(a: array<bv8>, p: nat)
    requires p < 8 * a.Length
    modifies a
    ensures Marked(a[..]) == old(Marked(a[..])) + {p}
  {
    var b := WithBit(a[p / 8], p % 8);
    forall j | 0 <= j < 8 { OrMask(a[p / 8], p % 8, j); }
    ReplaceByte(a[..], p, b, true);
    a[p / 8] := b;
    assert a[..] == old(a[..])[p / 8 := b];
  }

  method ClearBit(a: array<bv8>, p: nat)
    requires p < 8 * a.Length
    modifies a
    ensures Marked(a[..]) == old(Marked(a[..])) - {p}
  {
    var b := WithoutBit(a[p / 8], p % 8);
    forall j | 0 <= j < 8 { ClearMask(a[p / 8], p % 8, j); }
    ReplaceByte(a[..], p, b, false);
    a[p / 8] := b;
    assert a[..] == old(a[..])[p / 8 := b];
  }
}
