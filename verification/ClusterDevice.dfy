/** Clusters over the sectors of a device. */
module ClusterDevice {
  import opened ByteSeqs

  const SIZE_OF_FAT_ENTRY: nat := 32

  datatype Mode = Read | Write

  // The fields of the boot sector that say where clusters lie.
  datatype Geometry = Geometry(bytesPerSector: nat, sectorsPerCluster: nat, hiddenSectors: nat,
                               numFats: nat, sectorsPerFat: nat, numRootDirEnts: nat)
  {
    ghost predicate Valid() {
      SIZE_OF_FAT_ENTRY <= bytesPerSector && 0 < sectorsPerCluster
    }

    function ClusterSize(): nat {
      bytesPerSector * sectorsPerCluster
    }

    // The first sector of a cluster.
    function Block(cluster: nat): int
      requires Valid()
    {
      cluster * sectorsPerCluster + BeforeClusters()
    }

    // The sectors counted before the first cluster.
    function BeforeClusters(): int
      requires Valid()
    {
      hiddenSectors + numFats * sectorsPerFat + numRootDirEnts / (bytesPerSector / SIZE_OF_FAT_ENTRY) - 1
    }
  }

  ghost function Range(low: nat, n: nat): (r: seq<nat>)
    ensures |r| == n && forall i | 0 <= i < n :: r[i] == low + i
  {
    seq(n, i requires 0 <= i => low + i)
  }

  lemma RangeNext(low: nat, n: nat)
    ensures Range(low, n + 1) == Range(low, n) + [low + n]
  {
  }

  // Different clusters lie in different sectors.
  lemma BlocksApart(g: Geometry, c: nat, d: nat)
    requires g.Valid() && c < d
    ensures g.Block(c) + g.sectorsPerCluster <= g.Block(d)
  {
    Distribute(c, d - c, g.sectorsPerCluster);
    AtLeastOnce(d - c, g.sectorsPerCluster);
  }

  // How many sectors the root directory takes up.
  predicate RootSectors(g: Geometry, root: nat) {
    g.bytesPerSector % 32 == 0 && root * g.bytesPerSector == g.numRootDirEnts * 32
  }

  // No cluster from 1 on reaches into the hidden sectors and as many behind them as the tables and the root
  // directory take up.
  lemma BehindTables(g: Geometry, root: nat, c: nat)
    requires g.Valid() && RootSectors(g, root) && 0 < c
    ensures g.hiddenSectors + g.numFats * g.sectorsPerFat + root <= g.Block(c)
  {
    RootDirectory(g, root);
    AtLeastOnce(c, g.sectorsPerCluster);
  }

  lemma RootDirectory(g: Geometry, root: nat)
    requires g.Valid() && RootSectors(g, root)
    ensures g.BeforeClusters() == g.hiddenSectors + g.numFats * g.sectorsPerFat + root - 1
  {
    var e := g.bytesPerSector / 32;
    assert root * g.bytesPerSector == root * e * 32 by {
      assert g.bytesPerSector == e * 32;
    }
    DivIs(g.numRootDirEnts, e, root, 0);
  }

  // By the FAT specification, clusters are numbered from 2 on and begin behind the reserved sectors, the tables and
  // the root directory. They are placed so exactly if there are that many reserved sectors.
  lemma PlacedExactly(g: Geometry, reserved: nat, root: nat)
    requires g.Valid() && RootSectors(g, root)
    ensures (forall c: nat | 2 <= c ::
               g.Block(c) == reserved + g.numFats * g.sectorsPerFat + root + (c - 2) * g.sectorsPerCluster) <==>
            reserved == g.hiddenSectors + 2 * g.sectorsPerCluster - 1
  {
    RootDirectory(g, root);
    forall c: nat | 2 <= c
      ensures g.Block(c) == (c - 2) * g.sectorsPerCluster + 2 * g.sectorsPerCluster + g.BeforeClusters()
    {
      Distribute(c - 2, 2, g.sectorsPerCluster);
    }
    assert g.Block(2) == 2 * g.sectorsPerCluster + g.BeforeClusters();
  }

  // On a floppy disk of 1.44 MB cluster 2 is where it belongs, in sector 33; with two sectors per cluster and one
  // reserved sector it is not.
  lemma PlacedAt()
    ensures Geometry(512, 1, 0, 2, 9, 224).Block(2) == 33 == 1 + 2 * 9 + 14
    ensures Geometry(512, 2, 0, 2, 9, 224).Block(2) == 35
  {
  }

  // ---------- The buffer arithmetic as written ----------

  // Where sector `i` of a cluster lands in the buffer if the pointer is advanced by `i` sectors each time.
  function DriftingOffset(bytesPerSector: nat, i: nat): nat {
    if i == 0 then 0 else DriftingOffset(bytesPerSector, i - 1) + bytesPerSector * i
  }

  lemma DriftingAhead(bytesPerSector: nat, i: nat)
    requires 2 <= i
    ensures DriftingOffset(bytesPerSector, i) >= bytesPerSector * (i + 1)
  {
  }

  // It puts every sector in its place exactly if clusters have at most two sectors.
  lemma DriftingExactly(g: Geometry)
    requires g.Valid()
    ensures (forall i: nat | i < g.sectorsPerCluster :: DriftingOffset(g.bytesPerSector, i) == i * g.bytesPerSector)
            <==> g.sectorsPerCluster <= 2
  {
    assert DriftingOffset(g.bytesPerSector, 1) == DriftingOffset(g.bytesPerSector, 0) + g.bytesPerSector;
    if 2 < g.sectorsPerCluster {
      DriftingAhead(g.bytesPerSector, 2);
      assert DriftingOffset(g.bytesPerSector, 2) != 2 * g.bytesPerSector;
    }
  }

  // With three sectors of 512 bytes, the third one lands beyond the buffer's end.
  lemma DriftingAt()
    ensures DriftingOffset(512, 1) == 512 && DriftingOffset(512, 2) == 3 * 512
  {
    assert DriftingOffset(512, 1) == DriftingOffset(512, 0) + 512;
  }

  // ---------- The device ----------

  class ClusterDevice {
    const geometry: Geometry
    const clusters: nat
    const sectors: array<seq<byte>>

    ghost predicate Valid()
      reads sectors
    {
      && geometry.Valid() && Uniform(sectors[..], geometry.bytesPerSector)
      && forall c: nat | c < clusters :: OnDevice(c)
    }

    ghost predicate OnDevice(c: nat)
      requires geometry.Valid()
    {
      0 <= geometry.Block(c) && geometry.Block(c) + geometry.sectorsPerCluster <= sectors.Length
    }

    ghost function Cluster(c: nat): seq<byte>
      requires geometry.Valid() && OnDevice(c)
      reads sectors
    {
      Flat(sectors[..], Range(geometry.Block(c), geometry.sectorsPerCluster))
    }

    ghost function Clusters(): (r: seq<seq<byte>>)
      requires Valid()
      reads sectors
      ensures |r| == clusters && forall c: nat | c < clusters :: r[c] == Cluster(c)
    {
      seq(clusters, c requires 0 <= c < clusters && Valid() reads sectors => Cluster(c))
    }

    constructor (geometry: Geometry, clusters: nat, sectors: array<seq<byte>>)
      requires geometry.Valid() && Uniform(sectors[..], geometry.bytesPerSector)
      requires forall c: nat | c < clusters ::
                 0 <= geometry.Block(c) && geometry.Block(c) + geometry.sectorsPerCluster <= sectors.Length
      ensures Valid() && this.geometry == geometry && this.clusters == clusters && this.sectors == sectors
    {
      this.geometry, this.clusters, this.sectors := geometry, clusters, sectors;
    }

    lemma ClustersUniform()
      requires Valid()
      ensures Uniform(Clusters(), geometry.ClusterSize())
    {
      forall c: nat | c < clusters
        ensures |Clusters()[c]| == geometry.ClusterSize()
      {
        assert OnDevice(c);
        FlatLength(sectors[..], Range(geometry.Block(c), geometry.sectorsPerCluster), geometry.bytesPerSector);
      }
    }

    // `n` sectors fill the start of a cluster, and leave room for another unless they are all of it.
    lemma SectorBounds(block: nat, n: nat)
      requires geometry.Valid() && Uniform(sectors[..], geometry.bytesPerSector)
      requires n <= geometry.sectorsPerCluster && block + geometry.sectorsPerCluster <= sectors.Length
      ensures |Flat(sectors[..], Range(block, n))|
              + (if n < geometry.sectorsPerCluster then geometry.bytesPerSector else 0)
              <= geometry.ClusterSize()
      ensures n == geometry.sectorsPerCluster ==> |Flat(sectors[..], Range(block, n))| == geometry.ClusterSize()
    {
      FlatLength(sectors[..], Range(block, n), geometry.bytesPerSector);
      if n < geometry.sectorsPerCluster {
        Fits(n, geometry.sectorsPerCluster, geometry.bytesPerSector);
      }
    }

    method ReadCluster(cluster: nat, buffer: array<byte>)
      requires Valid() && cluster < clusters && buffer.Length == geometry.ClusterSize()
      modifies buffer
      ensures buffer[..] == Clusters()[cluster]
    {
      assert OnDevice(cluster);
      var block: nat, at: nat := geometry.Block(cluster), 0;
      for i := 0 to geometry.sectorsPerCluster
        invariant at <= buffer.Length && buffer[..at] == Flat(sectors[..], Range(block, i))
      {
        SectorBounds(block, i);
        RangeNext(block, i);
        FlatConcat(sectors[..], Range(block, i), [block + i]);
        CopyTo(buffer, at, sectors[block + i]);
        at := at + geometry.bytesPerSector;
      }
      SectorBounds(block, geometry.sectorsPerCluster);
    }

    method WriteCluster(cluster: nat, buffer: array<byte>)
      requires Valid() && cluster < clusters && buffer.Length == geometry.ClusterSize()
      modifies sectors
      ensures Valid() && Clusters() == old(Clusters())[cluster := buffer[..]]
      ensures forall k | 0 <= k < sectors.Length &&
                         !(geometry.Block(cluster) <= k < geometry.Block(cluster) + geometry.sectorsPerCluster) ::
                sectors[k] == old(sectors[k])
    {
      assert OnDevice(cluster);
      var block: nat, at: nat := geometry.Block(cluster), 0;
      for i := 0 to geometry.sectorsPerCluster
        invariant at <= buffer.Length && Uniform(sectors[..], geometry.bytesPerSector)
        invariant forall k | 0 <= k < sectors.Length && !(block <= k < block + i) :: sectors[k] == old(sectors[k])
        invariant Flat(sectors[..], Range(block, i)) == buffer[..at]
      {
        SectorBounds(block, i);
        WriteSector(block, i, buffer[at..at + geometry.bytesPerSector]);
        at := at + geometry.bytesPerSector;
      }
      SectorBounds(block, geometry.sectorsPerCluster);
      assert buffer[..at] == buffer[..];
      OthersKept(old(sectors[..]), cluster);
    }

    method WriteSector(block: nat, i: nat, bytes: seq<byte>)
      requires block + i < sectors.Length && |bytes| == geometry.bytesPerSector
      modifies sectors
      ensures sectors[..] == old(sectors[..])[block + i := bytes]
      ensures Flat(sectors[..], Range(block, i + 1)) == Flat(old(sectors[..]), Range(block, i)) + bytes
    {
      ghost var before := sectors[..];
      sectors[block + i] := bytes;
      RangeNext(block, i);
      FlatOther(before, Range(block, i), block + i, bytes);
      assert sectors[..] == before[block + i := bytes];
      FlatConcat(sectors[..], Range(block, i), [block + i]);
    }

    lemma OthersKept(before: seq<seq<byte>>, cluster: nat)
      requires Valid() && cluster < clusters && |before| == sectors.Length && Uniform(before, geometry.bytesPerSector)
      requires forall k | 0 <= k < sectors.Length &&
                          !(geometry.Block(cluster) <= k < geometry.Block(cluster) + geometry.sectorsPerCluster) ::
                 sectors[k] == before[k]
      ensures forall c: nat | c < clusters && c != cluster ::
                OnDevice(c) && Cluster(c) == Flat(before, Range(geometry.Block(c), geometry.sectorsPerCluster))
    {
      forall c: nat | c < clusters && c != cluster
        ensures OnDevice(c) && Cluster(c) == Flat(before, Range(geometry.Block(c), geometry.sectorsPerCluster))
      {
        assert OnDevice(c);
        if c < cluster {
          BlocksApart(geometry, c, cluster);
        } else {
          BlocksApart(geometry, cluster, c);
        }
        FlatSame(sectors[..], before, Range(geometry.Block(c), geometry.sectorsPerCluster));
      }
    }

    // Transfers one cluster between the device and a buffer of its size.
    method RwCluster(cluster: nat, buffer: array<byte>, mode: Mode)
      requires Valid() && cluster < clusters && buffer.Length == geometry.ClusterSize()
      modifies buffer, sectors
      ensures Valid()
      ensures mode == Read ==>
                buffer[..] == Clusters()[cluster] && Clusters() == old(Clusters()) && sectors[..] == old(sectors[..])
      // sector by sector, and no other one is written to
      ensures var first := cluster * geometry.sectorsPerCluster + geometry.hiddenSectors
                           + geometry.numFats * geometry.sectorsPerFat
                           + geometry.numRootDirEnts / (geometry.bytesPerSector / 32) - 1;
              && 0 <= first && first + geometry.sectorsPerCluster <= sectors.Length
              && (forall i: nat | i < geometry.sectorsPerCluster ::
                    && i * geometry.bytesPerSector + geometry.bytesPerSector <= buffer.Length
                    && buffer[i * geometry.bytesPerSector..i * geometry.bytesPerSector + geometry.bytesPerSector]
                       == sectors[first + i])
              && (forall k | 0 <= k < sectors.Length && !(first <= k < first + geometry.sectorsPerCluster) ::
                    sectors[k] == old(sectors[k]))
      ensures mode == Write ==> Clusters() == old(Clusters())[cluster := buffer[..]] && buffer[..] == old(buffer[..])
    {
      assert OnDevice(cluster);
      match mode {
        case Read => ReadCluster(cluster, buffer);
        case Write => WriteCluster(cluster, buffer);
      }
      SectorsInOrder(cluster, buffer[..]);
    }

    // The bytes of a cluster are those of its sectors, one after the other.
    lemma SectorsInOrder(cluster: nat, bytes: seq<byte>)
      requires Valid() && cluster < clusters && bytes == Clusters()[cluster]
      ensures 0 <= geometry.Block(cluster) && geometry.Block(cluster) + geometry.sectorsPerCluster <= sectors.Length
      ensures forall i: nat | i < geometry.sectorsPerCluster ::
                IsSlice(bytes, i * geometry.bytesPerSector, sectors[geometry.Block(cluster) + i])
    {
      assert OnDevice(cluster);
      var order, size := Range(geometry.Block(cluster), geometry.sectorsPerCluster), geometry.bytesPerSector;
      forall i: nat | i < geometry.sectorsPerCluster
        ensures IsSlice(bytes, i * size, sectors[geometry.Block(cluster) + i])
      {
        StartOfPiece(sectors[..], order, size, i);
        FlatRead(sectors[..], order, size, i, 0, size);
      }
    }
  }

  ghost predicate IsSlice(bytes: seq<byte>, at: nat, piece: seq<byte>) {
    at + |piece| <= |bytes| && bytes[at..at + |piece|] == piece
  }

  lemma Fits(i: nat, n: nat, size: nat)
    requires i < n
    ensures i * size + size <= size * n && (i + 1) * size == i * size + size
  {
  }

  // memcpy into a buffer.
  method CopyTo(buffer: array<byte>, offset: nat, bytes: seq<byte>)
    requires offset + |bytes| <= buffer.Length
    modifies buffer
    ensures buffer[..] == Splice(old(buffer[..]), offset, bytes)
    ensures buffer[..offset + |bytes|] == old(buffer[..offset]) + bytes
  {
    for k := 0 to |bytes|
      invariant forall j | 0 <= j < buffer.Length ::
          buffer[j] == if offset <= j < offset + k then bytes[j - offset] else old(buffer[j])
    {
      buffer[offset + k] := bytes[k];
    }
  }
}
