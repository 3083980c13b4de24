/** The bit permutation of a 16-bit substitution-permutation network. Tables number the bits from 1, the most
    significant one first. */
module BitPermutation {

  const WIDTH: nat := 16

  type Word = w: seq<bool> | |w| == WIDTH witness seq(WIDTH, _ => false)

  // A table sends bit i + 1 to bit P[i].
  ghost predicate IsTable(P: seq<nat>) {
    |P| == WIDTH && forall i | 0 <= i < WIDTH :: 1 <= P[i] <= WIDTH
  }

  ghost predicate IsPermutation(P: seq<nat>) {
    IsTable(P) && forall i, j | 0 <= i < j < WIDTH :: P[i] != P[j]
  }

  ghost predicate Inverse(P: seq<nat>, Q: seq<nat>) {
    IsTable(P) && IsTable(Q) && forall i | 0 <= i < WIDTH :: Q[P[i] - 1] == i + 1
  }

  // The table that first applies `P` and then `Q`.
  ghost function Compose(P: seq<nat>, Q: seq<nat>): seq<nat>
    requires IsTable(P) && IsTable(Q)
  {
    seq(WIDTH, i requires 0 <= i < WIDTH => Q[P[i] - 1])
  }

  // Does one of the first `n` table entries send a set bit of `w` to position `k`?
  ghost predicate Sent(w: Word, P: seq<nat>, k: nat, n: nat)
    requires IsTable(P) && n <= WIDTH
  {
    exists i :: 0 <= i < n && P[i] == k + 1 && w[i]
  }

  ghost predicate Permuted(w: Word, P: seq<nat>, r: Word)
    requires IsTable(P)
  {
    forall k: nat | k < WIDTH :: r[k] <==> Sent(w, P, k, WIDTH)
  }

  // ---------- Words of 16 bits ----------

  // Bit `k` alone, counted from the most significant one.
  function Mask(k: nat): bv16
    requires k < WIDTH
  {
    (1 as bv16) << (15 - k)
  }

  // Do two words have a bit in common?
  predicate Shares(w: bv16, mask: bv16) {
    w & mask != 0
  }

  predicate Bit(w: bv16, k: nat)
    requires k < WIDTH
  {
    Shares(w, Mask(k))
  }

  function Bits(w: bv16): (bits: Word)
    ensures forall k: nat | k < WIDTH :: bits[k] == Bit(w, k)
  {
    seq(WIDTH, k requires 0 <= k < WIDTH => Bit(w, k))
  }

  lemma Masks()
    ensures Mask(0) == 0x8000 && Mask(1) == 0x4000 && Mask(2) == 0x2000 && Mask(3) == 0x1000
    ensures Mask(4) == 0x0800 && Mask(5) == 0x0400 && Mask(6) == 0x0200 && Mask(7) == 0x0100
    ensures Mask(8) == 0x0080 && Mask(9) == 0x0040 && Mask(10) == 0x0020 && Mask(11) == 0x0010
    ensures Mask(12) == 0x0008 && Mask(13) == 0x0004 && Mask(14) == 0x0002 && Mask(15) == 0x0001
  {
  }

  // Or-ing a word with bit `j`, if it is `on`.
  lemma OrBit(r: bv16, x: bv16, j: nat, k: nat, on: bool)
    requires j < WIDTH && k < WIDTH && x == if on then Mask(j) else 0
    ensures Bit(r | x, k) <==> Bit(r, k) || (on && j == k)
  {
    OrBits(r, x, k);
    MaskBit(j, k);
  }

  lemma OrBits(r: bv16, x: bv16, k: nat)
    requires k < WIDTH
    ensures Bit(r | x, k) <==> Bit(r, k) || Bit(x, k)
  {
    SharesOr(r, x, Mask(k));
  }

  lemma MaskBit(j: nat, k: nat)
    requires j < WIDTH && k < WIDTH
    ensures Bit(Mask(j), k) <==> j == k
    ensures !Bit(0, k)
  {
    MasksApart(j, k);
  }

  lemma MasksApart(j: nat, k: nat)
    requires j < WIDTH && k < WIDTH
    ensures Mask(j) & Mask(k) != 0 <==> j == k
    ensures 0 & Mask(k) == 0
  {
    Masks();
  }

  lemma SharesOr(a: bv16, b: bv16, m: bv16)
    ensures Shares(a | b, m) <==> Shares(a, m) || Shares(b, m)
  {
    if !Shares(a | b, m) {
      SharesEither(a, b, m);
    } else if !Shares(a, m) && !Shares(b, m) {
      SharesNeither(a, b, m);
    }
  }

  lemma SharesEither(a: bv16, b: bv16, m: bv16)
    requires !Shares(a | b, m)
    ensures !Shares(a, m) && !Shares(b, m)
  {
  }

  lemma SharesNeither(a: bv16, b: bv16, m: bv16)
    requires !Shares(a, m) && !Shares(b, m)
    ensures !Shares(a | b, m)
  {
  }

  // Bit `i` masked, shifted down to the lowest place and up to where table entry `p` sends it.
  function Moved(w: bv16, i: nat, p: nat): bv16
    requires i < WIDTH && 1 <= p <= WIDTH
  {
    ((w & ((1 as bv16) << (15 - i))) >> (15 - i)) << (16 - p)
  }

  lemma MovedBit(w: bv16, i: nat, p: nat)
    requires i < WIDTH && 1 <= p <= WIDTH
    ensures Moved(w, i, p) == if Bit(w, i) then Mask(p - 1) else 0
  {
    ShiftedDown(w, i);
    assert 16 - p == 15 - (p - 1);
  }

  lemma ShiftedDown(w: bv16, i: nat)
    requires i < WIDTH
    ensures (w & Mask(i)) >> (15 - i) == if w & Mask(i) != 0 then 1 else 0
  {
    Masks();
  }

  lemma OrMoved(w: bv16, i: nat, p: nat, r: bv16, k: nat)
    requires i < WIDTH && 1 <= p <= WIDTH && k < WIDTH
    ensures Bit(r | Moved(w, i, p), k) <==> Bit(r, k) || (Bit(w, i) && p == k + 1)
  {
    MovedBit(w, i, p);
    OrBit(r, Moved(w, i, p), p - 1, k, Bit(w, i));
  }

  // Each bit is masked, shifted to its place and or-ed into the result.
  method Permute(w: bv16, P: seq<nat>) returns (r: bv16)
    requires IsTable(P)
    ensures Permuted(Bits(w), P, Bits(r))
  {
    r := 0;
    NoBits();
    for i := 0 to |P|
      invariant forall k: nat | k < WIDTH :: Bit(r, k) <==> Sent(Bits(w), P, k, i)
    {
      ghost var before := r;
      r := r | Moved(w, i, P[i]);
      forall k: nat | k < WIDTH
        ensures Bit(r, k) <==> Sent(Bits(w), P, k, i + 1)
      {
        OrMoved(w, i, P[i], before, k);
        SentNext(Bits(w), P, k, i);
      }
    }
  }

  lemma NoBits()
    ensures forall k: nat | k < WIDTH :: !Bit(0, k)
  {
    forall k: nat | k < WIDTH
      ensures !Bit(0, k)
    {
      MaskBit(k, k);
    }
  }

  lemma SentNext(w: Word, P: seq<nat>, k: nat, i: nat)
    requires IsTable(P) && i < WIDTH
    ensures Sent(w, P, k, i + 1) <==> Sent(w, P, k, i) || (w[i] && P[i] == k + 1)
  {
    if w[i] && P[i] == k + 1 {
      assert Sent(w, P, k, i + 1);
    }
  }

  // A word is determined by its bits.
  lemma BitsDetermine(v: bv16, w: bv16)
    requires Bits(v) == Bits(w)
    ensures v == w
  {
    BitsByMask(v);
    BitsByMask(w);
    SameBits(v, w);
  }

  lemma BitByMask(w: bv16, k: nat, mask: bv16)
    requires k < WIDTH && Mask(k) == mask
    ensures Bits(w)[k] == (w & mask != 0)
  {
  }

  lemma BitsByMask(w: bv16)
    ensures Bits(w)[0] == (w & 0x8000 != 0) && Bits(w)[1] == (w & 0x4000 != 0)
    ensures Bits(w)[2] == (w & 0x2000 != 0) && Bits(w)[3] == (w & 0x1000 != 0)
    ensures Bits(w)[4] == (w & 0x0800 != 0) && Bits(w)[5] == (w & 0x0400 != 0)
    ensures Bits(w)[6] == (w & 0x0200 != 0) && Bits(w)[7] == (w & 0x0100 != 0)
    ensures Bits(w)[8] == (w & 0x0080 != 0) && Bits(w)[9] == (w & 0x0040 != 0)
    ensures Bits(w)[10] == (w & 0x0020 != 0) && Bits(w)[11] == (w & 0x0010 != 0)
    ensures Bits(w)[12] == (w & 0x0008 != 0) && Bits(w)[13] == (w & 0x0004 != 0)
    ensures Bits(w)[14] == (w & 0x0002 != 0) && Bits(w)[15] == (w & 0x0001 != 0)
  {
    Masks();
    BitByMask(w, 0, 0x8000); BitByMask(w, 1, 0x4000); BitByMask(w, 2, 0x2000); BitByMask(w, 3, 0x1000);
    BitByMask(w, 4, 0x0800); BitByMask(w, 5, 0x0400); BitByMask(w, 6, 0x0200); BitByMask(w, 7, 0x0100);
    BitByMask(w, 8, 0x0080); BitByMask(w, 9, 0x0040); BitByMask(w, 10, 0x0020); BitByMask(w, 11, 0x0010);
    BitByMask(w, 12, 0x0008); BitByMask(w, 13, 0x0004); BitByMask(w, 14, 0x0002); BitByMask(w, 15, 0x0001);
  }

  lemma SameBits(v: bv16, w: bv16)
    requires (v & 0x8000 == 0 <==> w & 0x8000 == 0) && (v & 0x4000 == 0 <==> w & 0x4000 == 0)
    requires (v & 0x2000 == 0 <==> w & 0x2000 == 0) && (v & 0x1000 == 0 <==> w & 0x1000 == 0)
    requires (v & 0x0800 == 0 <==> w & 0x0800 == 0) && (v & 0x0400 == 0 <==> w & 0x0400 == 0)
    requires (v & 0x0200 == 0 <==> w & 0x0200 == 0) && (v & 0x0100 == 0 <==> w & 0x0100 == 0)
    requires (v & 0x0080 == 0 <==> w & 0x0080 == 0) && (v & 0x0040 == 0 <==> w & 0x0040 == 0)
    requires (v & 0x0020 == 0 <==> w & 0x0020 == 0) && (v & 0x0010 == 0 <==> w & 0x0010 == 0)
    requires (v & 0x0008 == 0 <==> w & 0x0008 == 0) && (v & 0x0004 == 0 <==> w & 0x0004 == 0)
    requires (v & 0x0002 == 0 <==> w & 0x0002 == 0) && (v & 0x0001 == 0 <==> w & 0x0001 == 0)
    ensures v == w
  {
  }

  // ---------- Laws ----------

  // With a permutation every bit arrives, alone, where the table sends it.
  lemma BitArrives(w: Word, P: seq<nat>, r: Word, i: nat)
    requires IsPermutation(P) && Permuted(w, P, r) && i < WIDTH
    ensures r[P[i] - 1] == w[i]
  {
  }

  // Permuting by the inverse table undoes permuting, bit by bit,
  lemma InverseUndoes(w: Word, P: seq<nat>, Q: seq<nat>, r: Word, s: Word)
    requires IsPermutation(P) && IsPermutation(Q) && Inverse(P, Q) && Permuted(w, P, r) && Permuted(r, Q, s)
    ensures s == w
  {
    forall i: nat | i < WIDTH
      ensures s[i] == w[i]
    {
      BitArrives(w, P, r, i);
      BitArrives(r, Q, s, P[i] - 1);
    }
  }

  // and so gives back the word.
  method PermuteBack(w: bv16, P: seq<nat>, Q: seq<nat>) returns (r: bv16, s: bv16)
    requires IsPermutation(P) && IsPermutation(Q) && Inverse(P, Q)
    ensures Permuted(Bits(w), P, Bits(r)) && s == w
  {
    r := Permute(w, P);
    s := Permute(r, Q);
    InverseUndoes(Bits(w), P, Q, Bits(r), Bits(s));
    BitsDetermine(s, w);
  }

  // Permuting twice, by any two tables, is permuting by the composed table.
  lemma ComposePermutes(w: Word, P: seq<nat>, Q: seq<nat>, r: Word, s: Word)
    requires IsTable(P) && IsTable(Q) && Permuted(w, P, r) && Permuted(r, Q, s)
    ensures IsTable(Compose(P, Q)) && Permuted(w, Compose(P, Q), s)
  {
  }

  ghost function SetBits(w: Word): set<nat> {
    set k: nat | k < WIDTH && w[k]
  }

  ghost function Image(P: seq<nat>, s: set<nat>): set<nat>
    requires IsTable(P) && forall i | i in s :: i < WIDTH
  {
    set i | i in s :: P[i] - 1
  }

  lemma {:induction false} ImageSize(P: seq<nat>, s: set<nat>)
    requires IsPermutation(P) && forall i | i in s :: i < WIDTH
    ensures |Image(P, s)| == |s|
    decreases |s|
  {
    if s != {} {
      var i :| i in s;
      ImageSize(P, s - {i});
      assert Image(P, s) == Image(P, s - {i}) + {P[i] - 1};
      assert P[i] - 1 !in Image(P, s - {i});
    }
  }

  // The number of set bits stays the same.
  lemma PermutePreservesCount(w: Word, P: seq<nat>, r: Word)
    requires IsPermutation(P) && Permuted(w, P, r)
    ensures |SetBits(r)| == |SetBits(w)|
  {
    ImageSize(P, SetBits(w));
    forall k: nat | k < WIDTH
      ensures k in SetBits(r) <==> k in Image(P, SetBits(w))
    {
      assert r[k] <==> Sent(w, P, k, WIDTH);
    }
    assert SetBits(r) == Image(P, SetBits(w));
  }
}
