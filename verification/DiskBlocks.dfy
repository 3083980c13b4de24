/** The search for a free data block in the on-disk block bitmap. */
module DiskBlocks {
  import opened Bits
  import opened Counting

  const BLOCK_MAP_START: nat := 1
  const INODE_MAP_START: nat := 14
  const BLOCK_TABLE_START: nat := 2516
  const BLOCK_SIZE: nat := 1024
  const BITS_PER_BLOCK: nat := 8192
  const DISK_BLOCKS: nat := 102400
  const MAPPED: nat := BLOCK_TABLE_START + (INODE_MAP_START - BLOCK_MAP_START) * BITS_PER_BLOCK

  // The first flag of a byte that is not set, or 8.
  function FirstClear(b: bv8, from: nat): (k: nat)
    requires from <= 8
    ensures from <= k <= 8 && (k < 8 ==> !Bit(b, k)) && forall i: nat | from <= i < k :: Bit(b, i)
    decreases 8 - from
  {
    if from == 8 || !Bit(b, from) then from else FirstClear(b, from + 1)
  }

  class Disk {
    const blocks: array<seq<bv8>>

    ghost predicate Valid()
      reads blocks
    {
      INODE_MAP_START <= blocks.Length && forall i | 0 <= i < blocks.Length :: |blocks[i]| == BLOCK_SIZE
    }

    constructor (blocks: array<seq<bv8>>)
      requires INODE_MAP_START <= blocks.Length && forall i | 0 <= i < blocks.Length :: |blocks[i]| == BLOCK_SIZE
      ensures Valid() && this.blocks == blocks
    {
      this.blocks := blocks;
    }

    // Is block `n` marked as taken?
    ghost predicate Taken(n: nat)
      requires Valid() && BLOCK_TABLE_START <= n < MAPPED
      reads blocks
    {
      var index := n - BLOCK_TABLE_START;
      Bit(blocks[BLOCK_MAP_START + index / BITS_PER_BLOCK][index % BITS_PER_BLOCK / 8], index % 8)
    }

    ghost predicate TakenBelow(limit: nat)
      requires Valid()
      reads blocks
    {
      forall n: nat | BLOCK_TABLE_START <= n < MAPPED && n < limit :: Taken(n)
    }

    lemma TakenUpTo(i: nat, j: nat, k: nat)
      requires Valid() && BLOCK_MAP_START <= i < INODE_MAP_START && j < BLOCK_SIZE && k <= 8
      requires TakenBelow(Number(i, j, 0)) && forall m: nat | m < k :: Bit(blocks[i][j], m)
      ensures TakenBelow(Number(i, j, k))
    {
      forall n: nat | BLOCK_TABLE_START <= n < MAPPED && n < Number(i, j, k)
        ensures Taken(n)
      {
        if Number(i, j, 0) <= n {
          Located(i, j, n - Number(i, j, 0));
        }
      }
    }

    // The lowest free data block, which it marks as taken, or -1.
    method GetBlock() returns (r: int)
      requires Valid()
      modifies blocks
      ensures Valid()
      ensures r == -1 <==> forall n: nat | BLOCK_TABLE_START <= n < DISK_BLOCKS :: old(Taken(n))
      ensures r != -1 ==>
                && BLOCK_TABLE_START <= r < DISK_BLOCKS && !old(Taken(r))
                && (forall n: nat | BLOCK_TABLE_START <= n < DISK_BLOCKS && n < r :: old(Taken(n)))
      ensures forall n: nat | BLOCK_TABLE_START <= n < MAPPED :: Taken(n) <==> n == r || old(Taken(n))
      ensures forall i | 0 <= i < blocks.Length && !(BLOCK_MAP_START <= i < INODE_MAP_START) ::
                blocks[i] == old(blocks[i])
      // in the map, which is blocks 1 to 13, its bit and no other is set
      ensures r != -1 ==>
                && 2516 <= r < 102400
                && var i, j := 1 + (r - 2516) / 8192, (r - 2516) % 8192 / 8;
                   && old(blocks[i][j]) & ((0x80 as bv8) >> ((r - 2516) % 8)) == 0
                   && blocks[i] == old(blocks[i])[j := old(blocks[i][j]) | ((0x80 as bv8) >> ((r - 2516) % 8))]
                   && forall m | 0 <= m < blocks.Length && m != i :: blocks[m] == old(blocks[m])
      ensures r == -1 ==> forall m | 0 <= m < blocks.Length :: blocks[m] == old(blocks[m])
      ensures r == -1 ==> forall n: nat | 2516 <= n < 102400 :: old(Taken(n))
    {
      var i, j, found := FindByte();
      if !found {
        return -1;
      }
      var bits := blocks[i];
      var k := 0;
      while k < 8 && Bit(bits[j], k)
        invariant k <= 8 && forall m: nat | m < k :: Bit(bits[j], m)
      {
        k := k + 1;
      }
      FullByte(bits[j]);
      TakenUpTo(i, j, k);
      r := Number(i, j, k);
      if r >= DISK_BLOCKS {
        return -1;
      }
      Located(i, j, k);
      assert !Taken(r);
      HighMask(k);
      MarkBit(i, j, k);
    }

    // Sets the bit that was found, and writes the map block back.
    method MarkBit(i: nat, j: nat, k: nat)
      requires Valid() && BLOCK_MAP_START <= i < INODE_MAP_START && j < BLOCK_SIZE && k < 8
      modifies blocks
      ensures Valid()
      ensures forall n: nat | BLOCK_TABLE_START <= n < MAPPED :: Taken(n) <==> n == Number(i, j, k) || old(Taken(n))
      ensures forall m | 0 <= m < blocks.Length && m != i :: blocks[m] == old(blocks[m])
      ensures blocks[i] == old(blocks[i])[j := old(blocks[i])[j] | Mask(k)]
    {
      ghost var before := blocks[..];
      blocks[i] := blocks[i][j := blocks[i][j] | Mask(k)];
      forall n: nat | BLOCK_TABLE_START <= n < MAPPED
        ensures Taken(n) <==> n == Number(i, j, k) || old(Taken(n))
      {
        OneMoreTaken(before[BLOCK_MAP_START + (n - BLOCK_TABLE_START) / BITS_PER_BLOCK], n, i, j, k);
      }
    }

    // The first byte of the block map that is not full.
    method FindByte() returns (i: nat, j: nat, found: bool)
      requires Valid()
      ensures found ==>
                && BLOCK_MAP_START <= i < INODE_MAP_START && j < BLOCK_SIZE && blocks[i][j] != 0xff
                && TakenBelow(Number(i, j, 0))
      ensures !found ==> TakenBelow(MAPPED)
    {
      i, found := BLOCK_MAP_START, false;
      while i < INODE_MAP_START
        invariant BLOCK_MAP_START <= i <= INODE_MAP_START && TakenBelow(Number(i, 0, 0))
      {
        j := 0;
        while j < BLOCK_SIZE
          invariant j <= BLOCK_SIZE && TakenBelow(Number(i, j, 0))
        {
          if blocks[i][j] != 0xff {
            return i, j, true;
          }
          FullByte(blocks[i][j]);
          TakenUpTo(i, j, 8);
          j := j + 1;
        }
        i := i + 1;
      }
      j := 0;
    }
  }

  // The flag of block `n`, in the map block it lies in, once bit `k` of byte `j` of map block `i` is set.
  lemma OneMoreTaken(bits: seq<bv8>, n: nat, i: nat, j: nat, k: nat)
    requires BLOCK_TABLE_START <= n && BLOCK_MAP_START <= i && j < BLOCK_SIZE == |bits| && k < 8
    ensures var index := n - BLOCK_TABLE_START;
            var now := if BLOCK_MAP_START + index / BITS_PER_BLOCK == i then bits[j := bits[j] | Mask(k)] else bits;
            Bit(now[index % BITS_PER_BLOCK / 8], index % 8) <==>
            n == Number(i, j, k) || Bit(bits[index % BITS_PER_BLOCK / 8], index % 8)
  {
    NumberExactly(n, i, j, k);
    SetBit(bits[j], k, (n - BLOCK_TABLE_START) % 8);
  }

  lemma HighMask(k: nat)
    requires k < 8
    ensures Mask(k) == (0x80 as bv8) >> k
  {
    Masks();
  }

  // The block that bit `k` of byte `j` of map block `i` stands for.
  function Number(i: nat, j: nat, k: nat): nat
    requires BLOCK_MAP_START <= i
  {
    k + j * 8 + (i - BLOCK_MAP_START) * BITS_PER_BLOCK + BLOCK_TABLE_START
  }

  lemma Located(i: nat, j: nat, k: nat)
    requires BLOCK_MAP_START <= i && j < BLOCK_SIZE && k < 8
    ensures var index := Number(i, j, k) - BLOCK_TABLE_START;
            index / BITS_PER_BLOCK == i - BLOCK_MAP_START && index % BITS_PER_BLOCK / 8 == j && index % 8 == k
  {
  }

  lemma NumberExactly(n: nat, i: nat, j: nat, k: nat)
    requires BLOCK_TABLE_START <= n && BLOCK_MAP_START <= i && j < BLOCK_SIZE && k < 8
    ensures var index := n - BLOCK_TABLE_START;
            n == Number(i, j, k) <==>
            BLOCK_MAP_START + index / BITS_PER_BLOCK == i && index % BITS_PER_BLOCK / 8 == j && index % 8 == k
  {
  }

  // The free data blocks.
  ghost function FreeBlocks(disk: Disk): set<nat>
    requires disk.Valid()
    reads disk.blocks
  {
    set n: nat | BLOCK_TABLE_START <= n < DISK_BLOCKS && !disk.Taken(n)
  }

  // Runs of the search: the blocks returned are distinct, were free and are no longer, and are as many as were asked
  // for or as were free, whichever is less.
  method GetBlocks(disk: Disk, count: nat) returns (got: seq<nat>)
    requires disk.Valid()
    modifies disk.blocks
    ensures disk.Valid()
    ensures forall a, b | 0 <= a < b < |got| :: got[a] < got[b]
    ensures Elements(got) <= old(FreeBlocks(disk)) && FreeBlocks(disk) == old(FreeBlocks(disk)) - Elements(got)
    ensures |got| == if count < |old(FreeBlocks(disk))| then count else |old(FreeBlocks(disk))|
  {
    got := [];
    ghost var free := FreeBlocks(disk);
    while |got| < count
      invariant disk.Valid() && |got| <= count && Drawn(free, got, FreeBlocks(disk))
    {
      ghost var before := FreeBlocks(disk);
      var r := LowestBlock(disk);
      if r == -1 {
        break;
      }
      var block: nat := r;
      DrawOne(free, got, before, block, FreeBlocks(disk));
      got := got + [block];
    }
    DrawnSize(free, got, FreeBlocks(disk));
  }

  // The blocks drawn in order from the free ones, and those left.
  ghost predicate Drawn(free: set<nat>, got: seq<nat>, left: set<nat>) {
    && (forall a, b | 0 <= a < b < |got| :: got[a] < got[b])
    && Elements(got) <= free && left == free - Elements(got)
    && (got != [] ==> forall n | n in left :: got[|got| - 1] < n)
  }

  lemma DrawOne(free: set<nat>, got: seq<nat>, before: set<nat>, r: nat, left: set<nat>)
    requires Drawn(free, got, before) && r in before && left == before - {r} && forall n | n in left :: r < n
    ensures Drawn(free, got + [r], left)
  {
    assert Elements(got + [r]) == Elements(got) + {r};
  }

  lemma DrawnSize(free: set<nat>, got: seq<nat>, left: set<nat>)
    requires Drawn(free, got, left)
    ensures |got| <= |free| && (left == {} ==> |got| == |free|)
  {
    DistinctSize(got);
    SubsetSize(Elements(got), free);
    assert left == {} ==> Elements(got) == free;
  }

  // One search, on the set of free data blocks.
  method LowestBlock(disk: Disk) returns (r: int)
    requires disk.Valid()
    modifies disk.blocks
    ensures disk.Valid() && r >= -1 && (r == -1 <==> old(FreeBlocks(disk)) == {})
    ensures r == -1 ==> FreeBlocks(disk) == {}
    ensures r != -1 ==> r in old(FreeBlocks(disk)) && FreeBlocks(disk) == old(FreeBlocks(disk)) - {r as nat}
    ensures forall n | n in FreeBlocks(disk) :: r < n
  {
    ghost var free := FreeBlocks(disk);
    assert forall n: nat | BLOCK_TABLE_START <= n < DISK_BLOCKS :: n in free <==> !disk.Taken(n);
    r := disk.GetBlock();
    assert forall n: nat | BLOCK_TABLE_START <= n < DISK_BLOCKS :: n in FreeBlocks(disk) <==> n in free && n != r;
  }

  // ---------- The search as written ----------

  // With signed bytes no byte equals 0xff, so the search stops at the first byte of the first map block.
  function NumberAsWritten(bits: seq<bv8>): nat
    requires |bits| == BLOCK_SIZE
  {
    FirstClear(bits[0], 0) + BLOCK_TABLE_START
  }

  // The bit set in the block is the one numbered like the disk block, not the one found.
  function BitsAsWritten(bits: seq<bv8>): seq<bv8>
    requires |bits| == BLOCK_SIZE
  {
    var n := NumberAsWritten(bits);
    bits[n / 8 := bits[n / 8] | Mask(n % 8)]
  }

  // So the same block is handed out again and again,
  lemma SearchAsWrittenRepeats(bits: seq<bv8>)
    requires |bits| == BLOCK_SIZE
    ensures NumberAsWritten(BitsAsWritten(bits)) == NumberAsWritten(bits) < BLOCK_TABLE_START + 9
  {
  }

  // which it leaves marked as it was. It is a free block exactly if one of the first nine blocks is.
  lemma SearchAsWrittenFreeExactly(bits: seq<bv8>)
    requires |bits| == BLOCK_SIZE
    ensures var n := NumberAsWritten(bits) - BLOCK_TABLE_START;
            && 0 <= n <= 8 && (n < 8 <==> bits[0] != 0xff)
            && (Bit(BitsAsWritten(bits)[n / 8], n % 8) <==> Bit(bits[n / 8], n % 8))
            && (!Bit(bits[n / 8], n % 8) <==> bits[0] != 0xff || !Bit(bits[1], 0))
  {
    FullByte(bits[0]);
  }

  // With the first nine blocks taken and all others free, it returns a block that is taken.
  lemma SearchAsWrittenTakenAt(bits: seq<bv8>)
    requires |bits| == BLOCK_SIZE && bits[0] == 0xff && bits[1] == 0x80
    requires forall j | 2 <= j < BLOCK_SIZE :: bits[j] == 0
    ensures NumberAsWritten(bits) == BLOCK_TABLE_START + 8 && Bit(bits[1], 0) && !Bit(bits[1], 1)
  {
    FullByte(bits[0]);
  }
}
