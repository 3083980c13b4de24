/** The file allocation table as bytes: 12-, 16- and 32-bit entries packed side by side. */
module FatTable {

  import opened ByteSeqs

  datatype Kind = Fat12 | Fat16 | Fat32 {
    // Values are stored modulo this; the all-ones value ends a chain.
    function Modulus(): nat {
      match this
      case Fat12 => 0x1000
      case Fat16 => 0x1_0000
      case Fat32 => 0x1000_0000
    }

    function EndMark(): nat {
      Modulus() - 1
    }

    // Where entry `c` is read and written, and in how many bytes.
    function Offset(c: nat): nat {
      match this
      case Fat12 => c * 3 / 2
      case Fat16 => 2 * c
      case Fat32 => 4 * c
    }

    function Width(): nat {
      if this == Fat32 then 4 else 2
    }

    ghost predicate Holds(data: seq<byte>, c: nat) {
      Offset(c) + Width() <= |data|
    }
  }

  const FREE: nat := 0
  const END_OF_CHAIN: nat := 0xFFFF_FFFF
  const FAIL: int := -1

  function ByteAt(data: seq<byte>, i: nat): nat
    requires i < |data|
  {
    data[i]
  }

  function Word(data: seq<byte>, i: nat): nat
    requires i + 2 <= |data|
  {
    var low: int, high: int := data[i], data[i + 1];
    low + 256 * high
  }

  function PutWord(data: seq<byte>, i: nat, w: nat): seq<byte>
    requires i + 2 <= |data| && w < 0x1_0000
  {
    data[i := w % 256][i + 1 := w / 256]
  }

  // The value of entry `c`.
  function Raw(kind: Kind, data: seq<byte>, c: nat): nat
    requires kind.Holds(data, c)
  {
    var i := kind.Offset(c);
    match kind
    case Fat12 => if c % 2 == 1 then Word(data, i) / 16 else Word(data, i) % 0x1000
    case Fat16 => Word(data, i)
    case Fat32 => Word(data, i) + 0x1_0000 * Word(data, i + 2)
  }

  // The word that the 12-bit entry `c` lies in, once the entry is set to `v`.
  function Word12(c: nat, w: nat, v: nat): nat {
    if c % 2 == 1 then w % 16 + 16 * v else w / 0x1000 * 0x1000 + v
  }

  // The table with entry `c` set to `value`, masked to the entry's width.
  function Put(kind: Kind, data: seq<byte>, c: nat, value: nat): (r: seq<byte>)
    requires kind.Holds(data, c)
    ensures |r| == |data|
  {
    var i, v := kind.Offset(c), value % kind.Modulus();
    match kind
    case Fat12 => PutWord(data, i, Word12(c, Word(data, i), v))
    case Fat16 => PutWord(data, i, v)
    case Fat32 => PutWord(PutWord(data, i, v % 0x1_0000), i + 2, v / 0x1_0000)
  }

  // ---------- Setting and reading ----------

  // Storing a cluster number keeps it, and storing the end-of-chain value stores the end mark.
  lemma Masked(kind: Kind, value: nat)
    ensures value < kind.EndMark() ==> value % kind.Modulus() == value
    ensures END_OF_CHAIN % kind.Modulus() == kind.EndMark()
  {
  }

  lemma WordAfterPut(data: seq<byte>, i: nat, w: nat)
    requires i + 2 <= |data| && w < 0x1_0000
    ensures Word(PutWord(data, i, w), i) == w
    ensures forall k: nat | k + 2 <= |data| && (k + 2 <= i || i + 2 <= k) ::
              Word(PutWord(data, i, w), k) == Word(data, k)
  {
  }

  // A 16-bit word as the 12-bit entry in its low part and the nibble of the next one.
  lemma LowEntry(w: nat, v: nat)
    requires w < 0x1_0000 && v < 0x1000
    ensures var w' := w / 0x1000 * 0x1000 + v; w' < 0x1_0000 && w' % 0x1000 == v && w' / 0x1000 == w / 0x1000
  {
  }

  lemma HighEntry(w: nat, v: nat)
    requires w < 0x1_0000 && v < 0x1000
    ensures var w' := w % 16 + 16 * v; w' < 0x1_0000 && w' / 16 == v && w' % 16 == w % 16
  {
  }

  // Where two 12-bit entries share the byte `mid`, each lives in its own nibble of it: setting the entry
  // before it,
  lemma SharedByteLow(low: nat, mid: nat, high: nat, v: nat)
    requires low < 256 && mid < 256 && high < 256 && v < 0x1000
    ensures (((low + 256 * mid) / 0x1000 * 0x1000 + v) / 256 + 256 * high) / 16 == (mid + 256 * high) / 16
  {
    var h, l, x, y := mid / 16, mid % 16, v / 256, v % 256;
    DivIs(low + 256 * mid, 0x1000, h, 256 * l + low);
    DivIs(0x1000 * h + v, 256, 16 * h + x, y);
    DivIs(16 * h + x + 256 * high, 16, h + 16 * high, x);
    DivIs(mid + 256 * high, 16, h + 16 * high, l);
  }

  // and setting the entry after it.
  lemma SharedByteHigh(low: nat, mid: nat, high: nat, v: nat)
    requires low < 256 && mid < 256 && high < 256 && v < 0x1000
    ensures (low + 256 * (((mid + 256 * high) % 16 + 16 * v) % 256)) % 0x1000 == (low + 256 * mid) % 0x1000
  {
    var h, l, a, b := mid / 16, mid % 16, v / 16, v % 16;
    DivIs(mid + 256 * high, 16, h + 16 * high, l);
    DivIs(l + 16 * v, 256, a, 16 * b + l);
    DivIs(low + 256 * (16 * b + l), 0x1000, b, 256 * l + low);
    DivIs(low + 256 * mid, 0x1000, h, 256 * l + low);
  }

  lemma PutThenRaw12Same(data: seq<byte>, c: nat, value: nat)
    requires Fat12.Holds(data, c)
    ensures Raw(Fat12, Put(Fat12, data, c, value), c) == value % 0x1000
  {
    var w, v := Word(data, Fat12.Offset(c)), value % 0x1000;
    LowEntry(w, v);
    HighEntry(w, v);
    WordAfterPut(data, Fat12.Offset(c), Word12(c, w, v));
  }

  lemma PutEvenThenRawOdd12(data: seq<byte>, k: nat, value: nat)
    requires Fat12.Holds(data, 2 * k + 1)
    ensures Raw(Fat12, Put(Fat12, data, 2 * k, value), 2 * k + 1) == Raw(Fat12, data, 2 * k + 1)
  {
    PutEven12(data, k, value);
    Raw12(data, k);
    Raw12(Put(Fat12, data, 2 * k, value), k);
    PutLowKeepsHigh(data, 3 * k, value % 0x1000);
  }

  lemma PutOddThenRawEven12(data: seq<byte>, k: nat, value: nat)
    requires Fat12.Holds(data, 2 * k + 1)
    ensures Raw(Fat12, Put(Fat12, data, 2 * k + 1, value), 2 * k) == Raw(Fat12, data, 2 * k)
  {
    PutOdd12(data, k, value);
    Raw12(data, k);
    Raw12(Put(Fat12, data, 2 * k + 1, value), k);
    PutHighKeepsLow(data, 3 * k, value % 0x1000);
  }

  lemma Raw12(data: seq<byte>, k: nat)
    requires Fat12.Holds(data, 2 * k + 1)
    ensures 3 * k + 3 <= |data| && Fat12.Holds(data, 2 * k)
    ensures Raw(Fat12, data, 2 * k) == Word(data, 3 * k) % 0x1000
    ensures Raw(Fat12, data, 2 * k + 1) == Word(data, 3 * k + 1) / 16
  {
    Offsets12(k);
    assert 2 * k % 2 == 0 && (2 * k + 1) % 2 == 1;
  }

  lemma PutEven12(data: seq<byte>, k: nat, value: nat)
    requires Fat12.Holds(data, 2 * k)
    ensures var w := Word(data, 3 * k) / 0x1000 * 0x1000 + value % 0x1000;
            w < 0x1_0000 && Put(Fat12, data, 2 * k, value) == PutWord(data, 3 * k, w)
  {
    Offsets12(k);
    LowEntry(Word(data, 3 * k), value % 0x1000);
    assert 2 * k % 2 == 0;
  }

  lemma PutOdd12(data: seq<byte>, k: nat, value: nat)
    requires Fat12.Holds(data, 2 * k + 1)
    ensures var w := Word(data, 3 * k + 1) % 16 + 16 * (value % 0x1000);
            w < 0x1_0000 && Put(Fat12, data, 2 * k + 1, value) == PutWord(data, 3 * k + 1, w)
  {
    Offsets12(k);
    HighEntry(Word(data, 3 * k + 1), value % 0x1000);
    assert (2 * k + 1) % 2 == 1;
  }

  lemma PutLowKeepsHigh(data: seq<byte>, i: nat, v: nat)
    requires i + 3 <= |data| && v < 0x1000
    ensures Word(data, i) / 0x1000 * 0x1000 + v < 0x1_0000
    ensures Word(PutWord(data, i, Word(data, i) / 0x1000 * 0x1000 + v), i + 1) / 16 == Word(data, i + 1) / 16
  {
    LowEntry(Word(data, i), v);
    SharedByteLow(data[i], data[i + 1], data[i + 2], v);
    var w: nat, high: nat := Word(data, i) / 0x1000 * 0x1000 + v, data[i + 2];
    assert Word(PutWord(data, i, w), i + 1) == w / 256 + 256 * high;
  }

  lemma PutHighKeepsLow(data: seq<byte>, i: nat, v: nat)
    requires i + 3 <= |data| && v < 0x1000
    ensures Word(data, i + 1) % 16 + 16 * v < 0x1_0000
    ensures Word(PutWord(data, i + 1, Word(data, i + 1) % 16 + 16 * v), i) % 0x1000 == Word(data, i) % 0x1000
  {
    HighEntry(Word(data, i + 1), v);
    SharedByteHigh(data[i], data[i + 1], data[i + 2], v);
    var w: nat, low: nat := Word(data, i + 1) % 16 + 16 * v, data[i];
    assert Word(PutWord(data, i + 1, w), i) == low + 256 * (w % 256);
  }

  lemma PutThenRaw12Apart(data: seq<byte>, c: nat, value: nat, d: nat)
    requires Fat12.Holds(data, c) && Fat12.Holds(data, d) && c / 2 != d / 2
    ensures Raw(Fat12, Put(Fat12, data, c, value), d) == Raw(Fat12, data, d)
  {
    var i, j, v := Fat12.Offset(c), Fat12.Offset(d), value % 0x1000;
    assert i == 3 * (c / 2) + c % 2 && j == 3 * (d / 2) + d % 2;
    assert j + 2 <= i || i + 2 <= j;
    var w := Word(data, i);
    LowEntry(w, v);
    HighEntry(w, v);
    WordAfterPut(data, i, Word12(c, w, v));
  }

  // Reading an entry after setting it, and reading any other entry, for all three widths.
  lemma PutThenRaw(kind: Kind, data: seq<byte>, c: nat, value: nat, d: nat)
    requires kind.Holds(data, c) && kind.Holds(data, d)
    ensures Raw(kind, Put(kind, data, c, value), d) ==
            if d == c then value % kind.Modulus() else Raw(kind, data, d)
  {
    var i, v := kind.Offset(c), value % kind.Modulus();
    match kind
    case Fat12 =>
      if d == c {
        PutThenRaw12Same(data, c, value);
      } else if d / 2 == c / 2 {
        var k := c / 2;
        if c == 2 * k {
          PutEvenThenRawOdd12(data, k, value);
        } else {
          PutOddThenRawEven12(data, k, value);
        }
      } else {
        PutThenRaw12Apart(data, c, value, d);
      }
    case Fat16 =>
      WordAfterPut(data, i, v);
    case Fat32 =>
      var half := PutWord(data, i, v % 0x1_0000);
      WordAfterPut(data, i, v % 0x1_0000);
      WordAfterPut(half, i + 2, v / 0x1_0000);
  }

  // What setting an entry leaves in the table's bytes.
  lemma PutOnBytes(kind: Kind, data: seq<byte>, c: nat, value: nat)
    requires kind.Holds(data, c)
    ensures var r, i := Put(kind, data, c, value), kind.Offset(c);
            && (forall j | 0 <= j < |data| && !(i <= j < i + kind.Width()) :: r[j] == data[j])
            && match kind
               case Fat12 =>
                 if c % 2 == 0 then r[i] == value % 256 && r[i + 1] == data[i + 1] / 16 * 16 + value / 256 % 16
                 else r[i] == data[i] % 16 + value % 16 * 16 && r[i + 1] == value / 16 % 256
               case Fat16 => r[i] == value % 256 && r[i + 1] == value / 256 % 256
               case Fat32 =>
                 && r[i] == value % 256 && r[i + 1] == value / 0x100 % 256
                 && r[i + 2] == value / 0x1_0000 % 256 && r[i + 3] == value / 0x100_0000 % 16
  {
    match kind
    case Fat12 => PutOnBytes12(data, c, value);
    case Fat16 => BytesOf16(value);
    case Fat32 => PutOnBytes32(data, c, value);
  }

  lemma PutOnBytes12(data: seq<byte>, c: nat, value: nat)
    requires Fat12.Holds(data, c)
    ensures var r, i := Put(Fat12, data, c, value), Fat12.Offset(c);
            && (forall j | 0 <= j < |data| && !(i <= j < i + 2) :: r[j] == data[j])
            && if c % 2 == 0 then r[i] == value % 256 && r[i + 1] == data[i + 1] / 16 * 16 + value / 256 % 16
               else r[i] == data[i] % 16 + value % 16 * 16 && r[i + 1] == value / 16 % 256
  {
    var i := Fat12.Offset(c);
    NibblesOf(value);
    if c % 2 == 0 {
      LowBytes(data[i], data[i + 1], value % 0x1000);
    } else {
      HighBytes(data[i], data[i + 1], value % 0x1000);
    }
  }

  lemma PutOnBytes32(data: seq<byte>, c: nat, value: nat)
    requires Fat32.Holds(data, c)
    ensures var r, i := Put(Fat32, data, c, value), Fat32.Offset(c);
            && (forall j | 0 <= j < |data| && !(i <= j < i + 4) :: r[j] == data[j])
            && r[i] == value % 256 && r[i + 1] == value / 0x100 % 256
            && r[i + 2] == value / 0x1_0000 % 256 && r[i + 3] == value / 0x100_0000 % 16
  {
    BytesOf32(value);
  }

  lemma NibblesOf(value: nat)
    ensures var v := value % 0x1000;
            && v % 256 == value % 256 && v / 256 == value / 256 % 16
            && v % 16 == value % 16 && v / 16 == value / 16 % 256
  {
    var q, v := value / 0x1000, value % 0x1000;
    assert value == 0x1000 * q + v;
    DivIs(value, 256, 16 * q + v / 256, v % 256);
    DivIs(16 * q + v / 256, 16, q, v / 256);
    DivIs(value, 16, 256 * q + v / 16, v % 16);
    DivIs(256 * q + v / 16, 256, q, v / 16);
  }

  lemma LowBytes(low: nat, high: nat, v: nat)
    requires low < 256 && high < 256 && v < 0x1000
    ensures var w := (low + 256 * high) / 0x1000 * 0x1000 + v;
            w % 256 == v % 256 && w / 256 == high / 16 * 16 + v / 256
  {
    var h, l := high / 16, high % 16;
    DivIs(low + 256 * high, 0x1000, h, 256 * l + low);
    DivIs(0x1000 * h + v, 256, 16 * h + v / 256, v % 256);
  }

  lemma HighBytes(low: nat, high: nat, v: nat)
    requires low < 256 && high < 256 && v < 0x1000
    ensures var w := (low + 256 * high) % 16 + 16 * v;
            w % 256 == low % 16 + v % 16 * 16 && w / 256 == v / 16
  {
    DivIs(low + 256 * high, 16, low / 16 + 16 * high, low % 16);
    DivIs(low % 16 + 16 * v, 256, v / 16, low % 16 + 16 * (v % 16));
  }

  lemma BytesOf16(value: nat)
    ensures var v := value % 0x1_0000; v % 256 == value % 256 && v / 256 == value / 256 % 256
  {
    var q, v := value / 0x1_0000, value % 0x1_0000;
    DivIs(value, 256, 256 * q + v / 256, v % 256);
    DivIs(256 * q + v / 256, 256, q, v / 256);
  }

  lemma BytesOf32(value: nat)
    ensures var v := value % 0x1000_0000;
            && v % 0x1_0000 % 256 == value % 256 && v % 0x1_0000 / 256 == value / 0x100 % 256
            && v / 0x1_0000 % 256 == value / 0x1_0000 % 256 && v / 0x1_0000 / 256 == value / 0x100_0000 % 16
  {
    var q, v := value / 0x1000_0000, value % 0x1000_0000;
    var low, high := v % 0x1_0000, v / 0x1_0000;
    assert value == 0x1_0000 * (0x1000 * q + high) + low;
    DivIs(value, 256, 256 * (0x1000 * q + high) + low / 256, low % 256);
    DivIs(256 * (0x1000 * q + high) + low / 256, 256, 0x1000 * q + high, low / 256);
    DivIs(value, 0x1_0000, 0x1000 * q + high, low);
    DivIs(0x1000 * q + high, 256, 16 * q + high / 256, high % 256);
    DivIs(value, 0x100_0000, 16 * q + high / 256, 0x1_0000 * (high % 256) + low);
    DivIs(16 * q + high / 256, 16, q, high / 256);
  }

  // What the code as written stores instead: one byte, and for the wide entries at an unscaled index.
  function PutByte(kind: Kind, data: seq<byte>, c: nat, value: nat): (r: seq<byte>)
    requires kind.Holds(data, c)
    ensures |r| == |data|
  {
    data[if kind == Fat12 then kind.Offset(c) else c := value % kind.Modulus() % 256]
  }

  lemma LowByte(low: nat, high: nat, v: nat)
    requires low < 256 && high < 256 && v < 0x1000
    ensures (v % 256 + 256 * high) % 0x1000 == v <==> (low + 256 * high) % 0x1000 / 256 == v / 256
  {
    var h, l, x, y := high / 16, high % 16, v / 256, v % 256;
    DivIs(y + 256 * high, 0x1000, h, 256 * l + y);
    DivIs(low + 256 * high, 0x1000, h, 256 * l + low);
    DivIs(256 * l + low, 256, l, low);
  }

  lemma HighByte(low: nat, high: nat, v: nat)
    requires low < 256 && high < 256 && v < 0x1000
    ensures (v % 256 + 256 * high) / 16 == v <==>
            (low + 256 * high) / 16 / 16 == v / 16 && v % 16 == v / 16 % 16
  {
    var a, b, c := v / 256, v / 16 % 16, v % 16;
    assert v % 256 == 16 * b + c && v / 16 == 16 * a + b;
    DivIs(16 * b + c + 256 * high, 16, b + 16 * high, c);
    DivIs(low + 256 * high, 16, low / 16 + 16 * high, low % 16);
    DivIs(low / 16 + 16 * high, 16, high, low / 16);
  }

  // Storing one byte sets a 12-bit entry exactly when the bits it does not reach agree already, and
  // for an odd entry the two lower nibbles of the value agree, of which only one is stored.
  lemma PutByteExactly12(data: seq<byte>, c: nat, value: nat)
    requires Fat12.Holds(data, c)
    ensures var v, was := value % 0x1000, Raw(Fat12, data, c);
            Raw(Fat12, PutByte(Fat12, data, c, value), c) == v <==>
            if c % 2 == 0 then was / 256 == v / 256 else was / 16 == v / 16 && v % 16 == v / 16 % 16
  {
    var i := Fat12.Offset(c);
    LowByte(data[i], data[i + 1], value % 0x1000);
    HighByte(data[i], data[i + 1], value % 0x1000);
  }

  // Of a table with wider entries, storing one byte at the cluster's number reaches the entry itself only for
  // cluster 0, and only its lowest byte.
  lemma PutByteExactlyWide(kind: Kind, data: seq<byte>, c: nat, value: nat)
    requires kind != Fat12 && kind.Holds(data, c)
    ensures var v, was := value % kind.Modulus(), Raw(kind, data, c);
            && (Raw(kind, PutByte(kind, data, c, value), c) == v <==> if c == 0 then was / 256 == v / 256 else was == v)
            && (0 < c ==> Raw(kind, PutByte(kind, data, c, value), c) == was)
  {
    var i := kind.Offset(c);
    if 0 < c {
      assert c < i;
    } else {
      var b1: int := data[1];
      var b2: int, b3: int := if kind == Fat32 then data[2] else 0, if kind == Fat32 then data[3] else 0;
      assert Raw(kind, data, 0) / 256 == b1 + 256 * b2 + 0x1_0000 * b3;
    }
  }

  // The entry that the byte stored for cluster `c` lies in: for wide entries and clusters from 1 on, another one.
  function EntryHit(kind: Kind, c: nat): nat {
    match kind
    case Fat12 => c
    case Fat16 => c / 2
    case Fat32 => c / 4
  }

  // When does storing one byte set the entry and leave every other one alone?
  predicate PutByteRight(kind: Kind, data: seq<byte>, c: nat, value: nat)
    requires kind.Holds(data, c)
  {
    var v, was := value % kind.Modulus(), Raw(kind, data, c);
    if kind == Fat12 then
      if c % 2 == 0 then was / 256 == v / 256
      // the byte's lower half belongs to the entry before
      else was / 16 == v / 16 && v % 16 == v / 16 % 16 && data[kind.Offset(c)] % 16 == v % 16
    else if c == 0 then was / 256 == v / 256
    // the byte lies in another entry, so nothing may change
    else was == v && data[c] == v % 256
  }

  // The condition is exact, for all widths, values and clusters.
  lemma PutByteExactly(kind: Kind, data: seq<byte>, c: nat, value: nat)
    requires kind.Holds(data, c)
    ensures (forall d: nat | kind.Holds(data, d) ::
               Raw(kind, PutByte(kind, data, c, value), d) ==
               if d == c then value % kind.Modulus() else Raw(kind, data, d))
            <==> PutByteRight(kind, data, c, value)
  {
    var put := PutByte(kind, data, c, value);
    if kind == Fat12 {
      PutByteExactly12(data, c, value);
      if c % 2 == 1 {
        Offsets12(c / 2);
        assert c == 2 * (c / 2) + 1 && kind.Holds(data, c - 1);
        PutByteBefore12(data, c / 2, value);
      }
      forall d: nat | kind.Holds(data, d) && d != c && (c % 2 == 0 || d != c - 1)
        ensures Raw(kind, put, d) == Raw(kind, data, d)
      {
        PutByteApart12(data, c, value, d);
      }
    } else {
      PutByteExactlyWide(kind, data, c, value);
      assert kind.Holds(data, EntryHit(kind, c));
      forall d: nat | kind.Holds(data, d)
        ensures Raw(kind, put, d) == Raw(kind, data, d) <==> d != EntryHit(kind, c) || put == data
      {
        PutByteReaches(kind, data, c, value, d);
      }
    }
  }

  // Of the wide entries, exactly the one hit changes, and it does whenever the byte does.
  lemma PutByteReaches(kind: Kind, data: seq<byte>, c: nat, value: nat, d: nat)
    requires kind != Fat12 && kind.Holds(data, c) && kind.Holds(data, d)
    ensures Raw(kind, PutByte(kind, data, c, value), d) == Raw(kind, data, d) <==>
            d != EntryHit(kind, c) || PutByte(kind, data, c, value) == data
  {
    var put := PutByte(kind, data, c, value);
    var i := kind.Offset(d);
    assert d == EntryHit(kind, c) <==> i <= c < i + kind.Width();
    if put == data {
    } else {
      assert put[c] != data[c];
    }
  }

  // Of the 12-bit entries, only the one before an odd one can change, and does with the byte's lower half.
  lemma PutByteBefore12(data: seq<byte>, k: nat, value: nat)
    requires Fat12.Holds(data, 2 * k + 1)
    ensures Raw(Fat12, PutByte(Fat12, data, 2 * k + 1, value), 2 * k) == Raw(Fat12, data, 2 * k) <==>
            data[3 * k + 1] % 16 == value % 0x1000 % 16
  {
    Offsets12(k);
    var b: nat := value % 0x1000 % 256;
    LowHalf(data[3 * k], data[3 * k + 1], b);
    assert b % 16 == value % 0x1000 % 16;
    var put := PutByte(Fat12, data, 2 * k + 1, value);
    assert put == data[3 * k + 1 := b];
    assert put[3 * k] == data[3 * k] && put[3 * k + 1] == b;
  }

  lemma Offsets12(k: nat)
    ensures Fat12.Offset(2 * k) == 3 * k && Fat12.Offset(2 * k + 1) == 3 * k + 1
  {
  }

  lemma PutByteApart12(data: seq<byte>, c: nat, value: nat, d: nat)
    requires Fat12.Holds(data, c) && Fat12.Holds(data, d) && d != c && (c % 2 == 0 || d != c - 1)
    ensures Raw(Fat12, PutByte(Fat12, data, c, value), d) == Raw(Fat12, data, d)
  {
    var i, j := Fat12.Offset(d), Fat12.Offset(c);
    assert i == 3 * (d / 2) + d % 2 && j == 3 * (c / 2) + c % 2;
    if d / 2 == c / 2 {
      assert d == c + 1 && j < i;
      assert PutByte(Fat12, data, c, value)[i..] == data[i..];
    } else {
      assert j < i || i + 1 < j;
    }
  }

  lemma LowHalf(low: nat, was: nat, now: nat)
    requires low < 256 && was < 256 && now < 256
    ensures (low + 256 * now) % 0x1000 == (low + 256 * was) % 0x1000 <==> was % 16 == now % 16
  {
    DivIs(low + 256 * was, 0x1000, was / 16, 256 * (was % 16) + low);
    DivIs(low + 256 * now, 0x1000, now / 16, 256 * (now % 16) + low);
  }

  // So a chain cannot be ended with it: entry 2 of an empty table stays free.
  lemma PutByteFails(data: seq<byte>)
    requires Fat16.Holds(data, 2) && Raw(Fat16, data, 2) == FREE
    ensures Raw(Fat16, PutByte(Fat16, data, 2, END_OF_CHAIN), 2) == FREE
  {
  }

  // Freeing entry 1 of this table clears the upper bits of entry 0, and setting entry 2 of this one to the value it
  // has already changes entry 1.
  lemma PutByteFailsAt()
    ensures !PutByteRight(Fat12, [0, 5, 0], 1, 0) && Raw(Fat12, PutByte(Fat12, [0, 5, 0], 1, 0), 1) == 0
    ensures Raw(Fat12, [0, 5, 0], 0) == 0x500 && Raw(Fat12, PutByte(Fat12, [0, 5, 0], 1, 0), 0) == 0
    ensures !PutByteRight(Fat16, [1, 0, 9, 0, 7, 0], 2, 7)
    ensures Raw(Fat16, PutByte(Fat16, [1, 0, 9, 0, 7, 0], 2, 7), 2) == 7
    ensures Raw(Fat16, [1, 0, 9, 0, 7, 0], 1) == 9 && Raw(Fat16, PutByte(Fat16, [1, 0, 9, 0, 7, 0], 2, 7), 1) == 7
  {
  }

  // ---------- The table in memory ----------

  class FatTable {
    const kind: Kind
    const data: array<byte>
    const clusters: nat
    var committed: seq<byte>  // the table as last written to the device

    ghost predicate Valid() {
      forall c: nat | c < clusters :: kind.Offset(c) + kind.Width() <= data.Length
    }

    ghost function Entries(): (entries: seq<nat>)
      requires Valid()
      reads data
      ensures |entries| == clusters
      ensures forall c: nat | c < clusters :: entries[c] == Raw(kind, data[..], c)
    {
      seq(clusters, c requires 0 <= c < clusters reads data => Raw(kind, data[..], c))
    }

    constructor (kind: Kind, data: array<byte>, clusters: nat)
      requires forall c: nat | c < clusters :: kind.Offset(c) + kind.Width() <= data.Length
      ensures Valid() && this.kind == kind && this.data == data && this.clusters == clusters
      ensures committed == data[..]
    {
      this.kind, this.data, this.clusters := kind, data, clusters;
      committed := data[..];
    }

    // The cluster after `c`, 0 if `c` is free, -1 if `c` is the last one of its chain. 32-bit entries
    // are returned as signed numbers.
    method GetFATCluster(c: nat) returns (next: int)
      requires Valid() && c < clusters
      ensures next == FREE <==> Entries()[c] == FREE
      ensures next == FAIL <==> Entries()[c] == kind.EndMark() || Entries()[c] == 0xFFFF_FFFF
      ensures next > 0 ==> next == Entries()[c]
      ensures Entries()[c] < 0x8000_0000 && Entries()[c] != kind.EndMark() ==> next == Entries()[c]
      ensures next < FAIL <==> 0x8000_0000 <= Entries()[c] < 0xFFFF_FFFF
      // on the bytes stored
      ensures kind == Fat12 ==>
                && kind.Offset(c) == 3 * c / 2
                && var w := ByteAt(data[..], 3 * c / 2) + 256 * ByteAt(data[..], 3 * c / 2 + 1);
                   var v := if c % 2 == 1 then w / 16 else w % 4096;
                   next == if v == 0xFFF then -1 else v
      ensures kind == Fat16 ==>
                && kind.Offset(c) == 2 * c
                && next == if data[2 * c] == 0xFF && data[2 * c + 1] == 0xFF then -1
                           else ByteAt(data[..], 2 * c) + 256 * ByteAt(data[..], 2 * c + 1)
      ensures kind == Fat32 ==>
                && kind.Offset(c) == 4 * c
                && var v := ByteAt(data[..], 4 * c) + 0x100 * ByteAt(data[..], 4 * c + 1)
                            + 0x1_0000 * ByteAt(data[..], 4 * c + 2) + 0x100_0000 * ByteAt(data[..], 4 * c + 3);
                   next == if v == 0x0FFF_FFFF then -1 else if v < 0x8000_0000 then v else v - 0x1_0000_0000
    {
      var raw: int := Raw(kind, data[..], c);
      if raw == kind.EndMark() {
        return FAIL;
      }
      next := if raw < 0x8000_0000 then raw else raw - 0x1_0000_0000;
    }

    method SetFATCluster(c: nat, value: nat, commit: bool)
      requires Valid() && c < clusters
      modifies data, `committed
      ensures Entries() == old(Entries())[c := value % kind.Modulus()]
      ensures committed == if commit then data[..] else old(committed)
      // on the bytes stored
      ensures forall j | 0 <= j < data.Length && !(kind.Offset(c) <= j < kind.Offset(c) + kind.Width()) ::
                data[j] == old(data[j])
      ensures kind == Fat12 && c % 2 == 0 ==>
                && kind.Offset(c) == 3 * c / 2 && data[3 * c / 2] == value % 256
                && data[3 * c / 2 + 1] == old(data[3 * c / 2 + 1]) / 16 * 16 + value / 256 % 16
      ensures kind == Fat12 && c % 2 == 1 ==>
                && kind.Offset(c) == 3 * c / 2 && data[3 * c / 2 + 1] == value / 16 % 256
                && data[3 * c / 2] == old(data[3 * c / 2]) % 16 + value % 16 * 16
      ensures kind == Fat16 ==>
                kind.Offset(c) == 2 * c && data[2 * c] == value % 256 && data[2 * c + 1] == value / 256 % 256
      ensures kind == Fat32 ==>
                && kind.Offset(c) == 4 * c
                && data[4 * c] == value % 256 && data[4 * c + 1] == value / 0x100 % 256
                && data[4 * c + 2] == value / 0x1_0000 % 256 && data[4 * c + 3] == value / 0x100_0000 % 16
    {
      forall d: nat | d < clusters
        ensures Raw(kind, Put(kind, data[..], c, value), d) ==
                if d == c then value % kind.Modulus() else Raw(kind, data[..], d)
      {
        PutThenRaw(kind, data[..], c, value, d);
      }
      PutOnBytes(kind, data[..], c, value);
      StoreEntry(c, value);
      if commit {
        committed := data[..];
      }
    }

    method StoreEntry(c: nat, value: nat)
      requires Valid() && c < clusters
      modifies data
      ensures data[..] == Put(kind, old(data[..]), c, value)
    {
      var i, v := kind.Offset(c), value % kind.Modulus();
      match kind {
        case Fat12 => StoreWord(i, Word12(c, Word(data[..], i), v));
        case Fat16 => StoreWord(i, v);
        case Fat32 =>
          StoreWord(i, v % 0x1_0000);
          StoreWord(i + 2, v / 0x1_0000);
      }
    }

    method StoreWord(i: nat, w: nat)
      requires i + 2 <= data.Length && w < 0x1_0000
      modifies data
      ensures data[..] == PutWord(old(data[..]), i, w)
    {
      data[i] := w % 256;
      data[i + 1] := w / 256;
    }

    // The lowest free cluster, or -1.
    method GetFreeCluster() returns (c: int)
      requires Valid()
      ensures c == FAIL <==> FREE !in Entries()
      ensures c != FAIL ==> 0 <= c < clusters && Entries()[c] == FREE && FREE !in Entries()[..c]
      ensures if 0 in Entries() then 0 <= c && Entries()[c] == 0 else c == -1
    {
      for index := 0 to clusters
        invariant FREE !in Entries()[..index]
      {
        var next := GetFATCluster(index);
        if next == FREE {
          return index;
        }
      }
      return FAIL;
    }
  }
}
