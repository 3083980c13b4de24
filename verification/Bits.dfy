/** Bytes read as eight flags, the most significant bit first: the layout of both
    on-disk and in-memory bitmaps of the repository. */
module Bits {

  // The byte whose only set bit is number `i`, counted from the most significant one.
  function Mask(i: nat): bv8
    requires i < 8
  {
    (1 as bv8) << (7 - i)
  }

  predicate Bit(b: bv8, i: nat)
    requires i < 8
  {
    b & Mask(i) != 0
  }

  lemma SetBit(b: bv8, i: nat, j: nat)
    requires i < 8 && j < 8
    ensures Bit(b | Mask(i), j) <==> i == j || Bit(b, j)
  {
    Masks();
  }

  lemma ClearBit(b: bv8, i: nat, j: nat)
    requires i < 8 && j < 8
    ensures Bit(b & !Mask(i), j) <==> i != j && Bit(b, j)
  {
    Masks();
  }

  lemma Masks()
    ensures Mask(0) == 0x80 && Mask(1) == 0x40 && Mask(2) == 0x20 && Mask(3) == 0x10
    ensures Mask(4) == 0x08 && Mask(5) == 0x04 && Mask(6) == 0x02 && Mask(7) == 0x01
  {
  }

  // A byte is 0xff exactly when every flag is set.
  lemma FullByte(b: bv8)
    ensures b == 0xff <==> forall i: nat | i < 8 :: Bit(b, i)
  {
    Masks();
    if forall i: nat | i < 8 :: Bit(b, i) {
      assert Bit(b, 0) && Bit(b, 1) && Bit(b, 2) && Bit(b, 3);
      assert Bit(b, 4) && Bit(b, 5) && Bit(b, 6) && Bit(b, 7);
    }
  }

  // The frames, blocks or whatever a bitmap stands for that it marks as taken.
  ghost predicate Marked(bm: seq<bv8>, f: nat) {
    f < 8 * |bm| && Bit(bm[f / 8], f % 8)
  }

  ghost function MarkedSet(bm: seq<bv8>): set<nat> {
    set f: nat | f < 8 * |bm| && Marked(bm, f)
  }

  lemma MarkOne(bm: seq<bv8>, f: nat)
    requires f < 8 * |bm|
    ensures MarkedSet(bm[f / 8 := bm[f / 8] | Mask(f % 8)]) == MarkedSet(bm) + {f}
  {
    var bm' := bm[f / 8 := bm[f / 8] | Mask(f % 8)];
    forall g: nat | g < 8 * |bm|
      ensures Marked(bm', g) <==> g == f || Marked(bm, g)
    {
      SetBit(bm[f / 8], f % 8, g % 8);
    }
  }

  lemma ClearOne(bm: seq<bv8>, f: nat)
    requires f < 8 * |bm|
    ensures MarkedSet(bm[f / 8 := bm[f / 8] & !Mask(f % 8)]) == MarkedSet(bm) - {f}
  {
    var bm' := bm[f / 8 := bm[f / 8] & !Mask(f % 8)];
    forall g: nat | g < 8 * |bm|
      ensures Marked(bm', g) <==> g != f && Marked(bm, g)
    {
      if g / 8 == f / 8 {
        ClearBit(bm[f / 8], f % 8, g % 8);
        assert g % 8 == f % 8 <==> g == f;
      }
    }
  }
}
