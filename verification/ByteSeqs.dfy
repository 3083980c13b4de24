/** Byte strings laid out over pieces of one size: clusters over sectors, and files over clusters. */
module ByteSeqs {

  type byte = x: int | 0 <= x < 256

  // `s` with the bytes from `p` on replaced by `piece`.
  function Splice(s: seq<byte>, p: nat, piece: seq<byte>): (r: seq<byte>)
    requires p + |piece| <= |s|
    ensures |r| == |s|
  {
    s[..p] + piece + s[p + |piece|..]
  }

  lemma SpliceAgain(s: seq<byte>, p: nat, a: seq<byte>, b: seq<byte>)
    requires p + |a| + |b| <= |s|
    ensures Splice(Splice(s, p, a), p + |a|, b) == Splice(s, p, a + b)
  {
  }

  lemma SpliceMiddle(a: seq<byte>, c: seq<byte>, b: seq<byte>, offset: nat, piece: seq<byte>)
    requires offset + |piece| <= |c|
    ensures a + Splice(c, offset, piece) + b == Splice(a + c + b, |a| + offset, piece)
  {
  }

  lemma SliceMiddle(a: seq<byte>, c: seq<byte>, b: seq<byte>, offset: nat, n: nat)
    requires offset + n <= |c|
    ensures c[offset..offset + n] == (a + c + b)[|a| + offset..|a| + offset + n]
  {
  }

  // The pieces with these numbers, one after the other.
  ghost function Flat(pieces: seq<seq<byte>>, order: seq<nat>): seq<byte>
    requires InRange(pieces, order)
  {
    if order == [] then [] else pieces[order[0]] + Flat(pieces, order[1..])
  }

  ghost predicate InRange(pieces: seq<seq<byte>>, order: seq<nat>) {
    forall i | 0 <= i < |order| :: order[i] < |pieces|
  }

  ghost predicate Uniform(pieces: seq<seq<byte>>, size: nat) {
    forall i | 0 <= i < |pieces| :: |pieces[i]| == size
  }

  lemma {:induction false} FlatLength(pieces: seq<seq<byte>>, order: seq<nat>, size: nat)
    requires InRange(pieces, order) && Uniform(pieces, size)
    ensures |Flat(pieces, order)| == |order| * size
  {
    if order != [] {
      FlatLength(pieces, order[1..], size);
      assert |order| * size == size + (|order| - 1) * size;
    }
  }

  lemma {:induction false} FlatConcat(pieces: seq<seq<byte>>, a: seq<nat>, b: seq<nat>)
    requires InRange(pieces, a) && InRange(pieces, b)
    ensures InRange(pieces, a + b) && Flat(pieces, a + b) == Flat(pieces, a) + Flat(pieces, b)
  {
    if a == [] {
      assert a + b == b;
    } else {
      FlatConcat(pieces, a[1..], b);
      assert (a + b)[1..] == a[1..] + b;
    }
  }

  // The piece at position `k`, between what precedes and what follows it.
  lemma FlatSplit(pieces: seq<seq<byte>>, order: seq<nat>, k: nat)
    requires InRange(pieces, order) && k < |order|
    ensures Flat(pieces, order) == Flat(pieces, order[..k]) + pieces[order[k]] + Flat(pieces, order[k + 1..])
  {
    assert order == order[..k] + order[k..];
    FlatConcat(pieces, order[..k], order[k..]);
    assert order[k..][1..] == order[k + 1..];
  }

  lemma {:induction false} FlatOther(pieces: seq<seq<byte>>, order: seq<nat>, c: nat, piece: seq<byte>)
    requires InRange(pieces, order) && c < |pieces| && c !in order
    ensures Flat(pieces[c := piece], order) == Flat(pieces, order)
  {
    if order != [] {
      FlatOther(pieces, order[1..], c, piece);
    }
  }

  // Pieces that agree on `order` make the same byte string.
  lemma {:induction false} FlatSame(pieces: seq<seq<byte>>, others: seq<seq<byte>>, order: seq<nat>)
    requires InRange(pieces, order) && InRange(others, order)
    requires forall i | 0 <= i < |order| :: pieces[order[i]] == others[order[i]]
    ensures Flat(pieces, order) == Flat(others, order)
  {
    if order != [] {
      FlatSame(pieces, others, order[1..]);
    }
  }

  // Where the piece at position `k` starts.
  ghost function StartOf(pieces: seq<seq<byte>>, order: seq<nat>, k: nat): nat
    requires InRange(pieces, order) && k <= |order|
  {
    |Flat(pieces, order[..k])|
  }

  lemma StartOfPiece(pieces: seq<seq<byte>>, order: seq<nat>, size: nat, k: nat)
    requires InRange(pieces, order) && Uniform(pieces, size) && k < |order|
    ensures StartOf(pieces, order, k) == k * size
    ensures StartOf(pieces, order, k + 1) == StartOf(pieces, order, k) + size <= |Flat(pieces, order)|
    ensures k + 1 == |order| ==> StartOf(pieces, order, k + 1) == |Flat(pieces, order)|
  {
    FlatLength(pieces, order[..k], size);
    FlatSplit(pieces, order, k);
    FlatConcat(pieces, order[..k], [order[k]]);
    assert order[..k] + [order[k]] == order[..k + 1];
    assert order[..|order|] == order;
  }

  // Reading inside one piece reads inside the whole.
  lemma FlatRead(pieces: seq<seq<byte>>, order: seq<nat>, size: nat, k: nat, offset: nat, n: nat)
    requires InRange(pieces, order) && Uniform(pieces, size) && k < |order| && offset + n <= size
    ensures var p := StartOf(pieces, order, k) + offset;
            p + n <= |Flat(pieces, order)| && pieces[order[k]][offset..offset + n] == Flat(pieces, order)[p..p + n]
  {
    FlatSplit(pieces, order, k);
    SliceMiddle(Flat(pieces, order[..k]), pieces[order[k]], Flat(pieces, order[k + 1..]), offset, n);
  }

  // Writing inside one piece writes inside the whole.
  lemma FlatWrite(pieces: seq<seq<byte>>, order: seq<nat>, size: nat, k: nat, offset: nat, piece: seq<byte>)
    requires InRange(pieces, order) && Uniform(pieces, size) && k < |order| && offset + |piece| <= size
    requires forall i, j | 0 <= i < j < |order| :: order[i] != order[j]
    ensures var p := StartOf(pieces, order, k) + offset;
            && p + |piece| <= |Flat(pieces, order)|
            && Flat(pieces[order[k] := Splice(pieces[order[k]], offset, piece)], order)
                 == Splice(Flat(pieces, order), p, piece)
  {
    var c := order[k];
    var updated := pieces[c := Splice(pieces[c], offset, piece)];
    FlatSplit(pieces, order, k);
    FlatSplit(updated, order, k);
    FlatOther(pieces, order[..k], c, updated[c]);
    FlatOther(pieces, order[k + 1..], c, updated[c]);
    SpliceMiddle(Flat(pieces, order[..k]), pieces[c], Flat(pieces, order[k + 1..]), offset, piece);
  }

  // Pieces of one size on the same order start at the same places.
  lemma SameStart(pieces: seq<seq<byte>>, others: seq<seq<byte>>, order: seq<nat>, size: nat, k: nat)
    requires InRange(pieces, order) && InRange(others, order) && k < |order|
    requires Uniform(pieces, size) && Uniform(others, size)
    ensures StartOf(pieces, order, k) == StartOf(others, order, k)
  {
    StartOfPiece(pieces, order, size, k);
    StartOfPiece(others, order, size, k);
  }

  // ---------- Multiples ----------

  lemma Distribute(a: nat, b: nat, size: nat)
    ensures (a + b) * size == a * size + b * size
  {
  }

  lemma AtLeastOnce(a: nat, size: nat)
    requires 0 < a
    ensures size <= a * size
  {
  }

  // Quotient and remainder are unique.
  lemma DivIs(x: nat, m: nat, q: nat, r: nat)
    requires r < m && x == q * m + r
    ensures x / m == q && x % m == r
  {
    var q', r' := x / m, x % m;
    DivMod(x, m);
    if q < q' {
      Distribute(q, q' - q, m);
      AtLeastOnce(q' - q, m);
    } else if q' < q {
      Distribute(q', q - q', m);
      AtLeastOnce(q - q', m);
    }
  }

  lemma DivMod(x: nat, m: nat)
    requires 0 < m
    ensures x == x / m * m + x % m && 0 <= x / m && 0 <= x % m < m
  {
  }
}
