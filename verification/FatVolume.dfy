/** Files on a mounted FAT volume: byte ranges read and written through cluster chains. */
module FatVolume {
  import opened Machine
  import opened ByteSeqs
  import opened FatTable
  import opened FatChains
  import opened ClusterDevice

  // ---------- The chunk arithmetic as written ----------

  // How many bytes one round transfers: up to the end of the cluster.
  function Chunk(size: nat, offset: nat, clusterSize: nat): nat
    requires offset <= clusterSize
  {
    if size < clusterSize - offset then size else clusterSize - offset
  }

  // The same as written, from the file position the call started at.
  function ChunkAsWritten(size: nat, pos: nat, offset: nat, clusterSize: nat): int
    requires 0 < clusterSize
  {
    var bytes := if size > clusterSize then clusterSize else size;
    if offset + bytes > (pos / clusterSize + 1) * clusterSize then
      size - (offset + bytes - (pos / clusterSize + 1) * clusterSize)
    else bytes
  }

  // In the first round this is right exactly if nothing has to be clipped, or the
  // position is in the first cluster and no more than a cluster is asked for.
  lemma ChunkAsWrittenExactly(size: nat, pos: nat, clusterSize: nat)
    requires 0 < clusterSize
    ensures ChunkAsWritten(size, pos, pos % clusterSize, clusterSize) ==
            Chunk(size, pos % clusterSize, clusterSize) <==>
            pos % clusterSize + (if size > clusterSize then clusterSize else size) <= clusterSize
            || (pos < clusterSize && size <= clusterSize)
  {
    var k := pos / clusterSize;
    if 0 < k {
      assert (k + 1) * clusterSize >= 2 * clusterSize;
      assert clusterSize <= pos;
    } else {
      assert (k + 1) * clusterSize == clusterSize;
      assert pos < clusterSize;
    }
  }

  // From the middle of the second cluster, a full cluster is not clipped at all.
  lemma ChunkAsWrittenAt()
    ensures ChunkAsWritten(4, 6, 2, 4) == 4 && Chunk(4, 2, 4) == 2
  {
  }

  // In the later rounds, which start at the beginning of a cluster, it is always right.
  lemma ChunkAsWrittenLater(size: nat, pos: nat, clusterSize: nat)
    requires 0 < clusterSize
    ensures ChunkAsWritten(size, pos, 0, clusterSize) == Chunk(size, 0, clusterSize)
  {
  }

  // ---------- Files ----------

  // In which cluster of a file a position lies.
  function ClusterIndex(pos: nat, clusterSize: nat): nat
    requires 0 < clusterSize
  {
    pos / clusterSize
  }

  datatype Origin = Start | Current | End | Unknown

  // Where a seek goes, in 32-bit arithmetic.
  function Target(pos: nat, fileSize: nat, offset: nat, origin: Origin): nat {
    match origin
    case Start => offset
    case Current => (pos + offset) % TWO_32
    case End => (fileSize - offset) % TWO_32
    case Unknown => pos
  }

  // Where it leaves the position.
  function Sought(pos: nat, fileSize: nat, offset: nat, origin: Origin): nat {
    var target := Target(pos, fileSize, offset, origin);
    if target <= fileSize && target < MAX_POSITION then target else pos
  }

  class FatFile {
    const startCluster: nat
    var fileSize: nat
    var currentPos: nat

    constructor (startCluster: nat, fileSize: nat)
      ensures this.startCluster == startCluster && this.fileSize == fileSize && currentPos == 0
    {
      this.startCluster, this.fileSize, currentPos := startCluster, fileSize, 0;
    }

    // Moves the position, in 32-bit arithmetic; a move out of the file leaves it where it was.
    method Seek(offset: nat, origin: Origin) returns (position: int)
      requires offset < TWO_32 && currentPos <= fileSize < TWO_32 && currentPos < MAX_POSITION
      modifies `currentPos
      ensures currentPos <= fileSize && currentPos < MAX_POSITION
      ensures origin == Unknown ==> position == FAIL && currentPos == old(currentPos)
      ensures origin != Unknown ==> position == currentPos
      // inside the file, seeking is plain arithmetic: forwards, from the end, and backwards by a wrapped offset
      ensures origin == Start && offset <= fileSize && offset < MAX_POSITION ==> currentPos == offset
      ensures origin == Current && old(currentPos) + offset <= fileSize && old(currentPos) + offset < MAX_POSITION ==>
                currentPos == old(currentPos) + offset
      ensures origin == Current && TWO_32 - offset <= old(currentPos) ==>
                currentPos == old(currentPos) - (TWO_32 - offset)
      ensures origin == End && offset <= fileSize && fileSize - offset < MAX_POSITION ==>
                currentPos == fileSize - offset
      // a move out of the file, or to 2 GB or beyond, leaves the position
      ensures origin == Start && (fileSize < offset || 0x8000_0000 <= offset) ==> currentPos == old(currentPos)
      ensures origin == Current && old(currentPos) + offset < 0x1_0000_0000
              && (fileSize < old(currentPos) + offset || 0x8000_0000 <= old(currentPos) + offset) ==>
                currentPos == old(currentPos)
      ensures origin == End && (fileSize < offset || 0x8000_0000 <= fileSize - offset) ==> currentPos == old(currentPos)
      ensures currentPos == Sought(old(currentPos), fileSize, offset, origin)
    {
      var saved := currentPos;
      match origin {
        case Start => currentPos := offset;
        case Current => currentPos := (currentPos + offset) % TWO_32;
        case End => currentPos := (fileSize - offset) % TWO_32;
        case Unknown => return FAIL;
      }
      // as a signed number a position from 2 GB on is negative
      if currentPos > fileSize || currentPos >= MAX_POSITION {
        currentPos := saved;
      }
      position := currentPos;
    }
  }

  class FatVolume {
    const table: FatTable
    const device: ClusterDevice
    const clusterSize: nat
    ghost var chains: seq<seq<nat>>  // the chains of the files with clusters

    ghost predicate Valid()
      reads this, table.data, device.sectors
    {
      && table.Valid() && device.Valid() && table.clusters == device.clusters && Sized()
      && WellFormed(table.Entries(), table.kind.EndMark(), chains)
    }

    predicate Sized() {
      clusterSize == device.geometry.ClusterSize()
    }

    lemma HasSize()
      requires Valid()
      ensures 0 < clusterSize && Uniform(device.Clusters(), clusterSize)
    {
      device.ClustersUniform();
    }

    // The bytes of all clusters of file `k`.
    ghost function Bytes(k: nat): seq<byte>
      requires Valid() && k < |chains|
      reads this, table.data, device.sectors
    {
      Flat(device.Clusters(), chains[k])
    }

    constructor (table: FatTable, device: ClusterDevice, ghost chains: seq<seq<nat>>)
      requires table.Valid() && device.Valid() && table.clusters == device.clusters
      requires WellFormed(table.Entries(), table.kind.EndMark(), chains)
      ensures Valid() && this.table == table && this.device == device && this.chains == chains
    {
      this.table, this.device, this.chains := table, device, chains;
      clusterSize := device.geometry.ClusterSize();
    }

    // Follows the chain `i` times.
    method FollowChain(start: nat, i: nat, ghost k: nat) returns (cluster: int)
      requires Valid() && k < |chains| && start == chains[k][0]
      ensures cluster == if i < |chains[k]| then chains[k][i] else FAIL
    {
      cluster := start;
      for n := 0 to i
        invariant n < |chains[k]| && cluster == chains[k][n]
      {
        cluster := table.GetFATCluster(cluster);
        assert n + 1 < |chains[k]| ==> table.Entries()[chains[k][n]] == chains[k][n + 1];
        if cluster == FREE || cluster == FAIL {
          return FAIL;
        }
      }
    }

    // Links `n` free clusters after position `i` of chain `k`, and marks the last as the end. What
    // followed position `i` is not freed. `ok` is false when there are too few free clusters.
    method Extend(prev: nat, n: nat, ghost k: nat, ghost i: nat) returns (ok: bool, ghost added: seq<nat>)
      requires Valid() && k < |chains| && i < |chains[k]| && prev == chains[k][i] && 0 < n
      modifies table.data, table`committed, `chains
      ensures Valid()
      ensures Extended(old(table.Entries()), old(chains), k, i, added, table.Entries(), chains)
      ensures forall c | 0 <= c < table.clusters && c != prev && c !in added ::
                table.Entries()[c] == old(table.Entries())[c]
      ensures ok <==> n <= |Free(old(table.Entries()))|
      ensures ok ==> |added| == n && table.committed == table.data[..]
      ensures !ok ==>
                && |added| == |Free(old(table.Entries()))| && FREE !in table.Entries()
                && table.committed == old(table.committed)
    {
      var last: nat, left: nat := prev, n;
      added := [];
      ghost var fat := table.Entries();
      while 0 < left
        invariant Valid() && |added| + left == n && table.committed == old(table.committed)
        invariant Extended(fat, old(chains), k, i, added, table.Entries(), chains)
        invariant last == LastLinked(old(chains), k, i, added)
        decreases left
      {
        var next := ClaimCluster(last, fat, old(chains), k, i, added);
        if next == FAIL {
          NoneFree(table.Entries(), 0);
          return false, added;
        }
        last, left := next, left - 1;
        added := added + [last];
      }
      EndChain(last, fat, old(chains), k, i, added);
      ok := true;
    }

    // Marks the last cluster added as the end, which it is already, and commits the table.
    method EndChain(last: nat, ghost fat: seq<nat>, ghost chains0: seq<seq<nat>>, ghost k: nat, ghost i: nat,
                    ghost added: seq<nat>)
      requires Valid() && Extended(fat, chains0, k, i, added, table.Entries(), chains) && added != []
      requires last == LastLinked(chains0, k, i, added)
      modifies table.data, table`committed
      ensures Valid() && table.Entries() == old(table.Entries()) && table.committed == table.data[..]
    {
      ExtendedEnd(table.kind.EndMark(), fat, chains0, k, i, added, table.Entries(), chains);
      Masked(table.kind, 0);
      table.SetFATCluster(last, END_OF_CHAIN, true);
    }

    // One round of the extension: the lowest free cluster is linked behind `last`, or -1.
    method ClaimCluster(last: nat, ghost fat: seq<nat>, ghost chains0: seq<seq<nat>>, ghost k: nat, ghost i: nat,
                        ghost added: seq<nat>)
      returns (next: int)
      requires Valid() && Extended(fat, chains0, k, i, added, table.Entries(), chains)
      requires last == LastLinked(chains0, k, i, added)
      modifies table.data, table`committed, `chains
      ensures Valid() && table.committed == old(table.committed)
      ensures next == FAIL ==>
                && FREE !in table.Entries() && table.Entries() == old(table.Entries())
                && chains == old(chains)
      ensures next != FAIL ==> 0 <= next && Extended(fat, chains0, k, i, added + [next as nat], table.Entries(), chains)
    {
      next := table.GetFreeCluster();
      if next != FAIL {
        ghost var more: seq<nat> := added + [next as nat];
        ExtendStep(table.kind.EndMark(), fat, chains0, k, i, added, table.Entries(), chains, next, more);
        Link(last, next);
        chains := chains0[k := chains0[k][..i + 1] + more];
      }
    }

    // Links `next` behind `last`, and marks it as used, and as the end.
    method Link(last: nat, next: nat)
      requires table.Valid() && last < table.clusters && next < table.clusters <= table.kind.EndMark()
      modifies table.data, table`committed
      ensures table.Entries() == old(table.Entries())[last := next][next := table.kind.EndMark()]
      ensures table.committed == old(table.committed)
    {
      Masked(table.kind, next);
      table.SetFATCluster(last, next, false);
      table.SetFATCluster(next, END_OF_CHAIN, false);
    }

    // One round of a transfer: `n` bytes between `buffer` from `at` on and a cluster from `offset` on.
    method TransferChunk(mode: Mode, cluster: nat, offset: nat, n: nat, clusterBuffer: array<byte>,
                         buffer: array<byte>, at: nat)
      requires device.Valid() && Sized() && cluster < device.clusters && offset + n <= clusterSize
      requires at + n <= buffer.Length
      requires clusterBuffer.Length == clusterSize && clusterBuffer != buffer
      modifies clusterBuffer, buffer, device.sectors
      ensures device.Valid() && |old(device.Clusters())[cluster]| == clusterSize
      ensures if mode == Read then device.Clusters() == old(device.Clusters()) else buffer[..] == old(buffer[..])
      ensures mode == Read ==> buffer[..] == Splice(old(buffer[..]), at, device.Clusters()[cluster][offset..offset + n])
      ensures mode == Write ==>
                device.Clusters() == old(device.Clusters())
                                     [cluster := Splice(old(device.Clusters())[cluster], offset, buffer[at..at + n])]
    {
      device.ClustersUniform();
      ghost var clusters := device.Clusters();
      if mode == Write {
        if 0 < offset || n < clusterSize {
          device.RwCluster(cluster, clusterBuffer, Read);
        } else {
          forall k | 0 <= k < clusterBuffer.Length {
            clusterBuffer[k] := 0;
          }
        }
        CopyTo(clusterBuffer, offset, buffer[at..at + n]);
        assert clusterBuffer[..] == Splice(clusters[cluster], offset, buffer[at..at + n]);
      }
      device.RwCluster(cluster, clusterBuffer, mode);
      if mode == Read {
        CopyTo(buffer, at, clusterBuffer[offset..offset + n]);
      }
    }

    ghost function Now(): Disk
      requires Valid()
      reads this, table.data, device.sectors
    {
      Disk(table.Entries(), chains, device.Clusters())
    }

    // Reads or writes up to `size` bytes at the file's position. -1 if the position is beyond the chain,
    // or if a write would grow the file and there are too few free clusters.
    method Rw(file: FatFile, buffer: array<byte>, size: nat, mode: Mode, ghost k: nat)
      returns (ret: int, ghost added: seq<nat>)
      requires Valid() && k < |chains| && file.startCluster == chains[k][0] && file.currentPos <= file.fileSize
      requires size <= buffer.Length && buffer != table.data
      requires Countable(mode, file.currentPos, size, file.fileSize, |Bytes(k)|)
      modifies file`currentPos, buffer, table.data, table`committed, device.sectors, `chains
      ensures Valid() && FAIL <= ret < MAX_POSITION && file.currentPos < MAX_POSITION
      ensures file.currentPos == old(file.currentPos) + (if ret == FAIL then 0 else ret)
      ensures RwResult(mode, old(Now()), Now(), clusterSize, k, old(file.currentPos), size, file.fileSize,
                       old(buffer[..]), buffer[..], added, ret)
      ensures table.committed == if added == [] || ret == FAIL then old(table.committed) else table.data[..]
    {
      ghost var d, before, pos, fileSize := Now(), buffer[..], file.currentPos, file.fileSize;
      ret, added := RwAt(file, buffer, size, mode, k);
      ghost var now, after := Now(), buffer[..];
      WithinInt(mode, d, now, clusterSize, k, pos, size, fileSize, before, after, added, ret);
      if ret != FAIL {
        file.currentPos := file.currentPos + ret;
      }
      assert Now() == now && buffer[..] == after;
    }

    // The same, but for the position.
    method RwAt(file: FatFile, buffer: array<byte>, size: nat, mode: Mode, ghost k: nat)
      returns (ret: int, ghost added: seq<nat>)
      requires Valid() && k < |chains| && file.startCluster == chains[k][0] && file.currentPos <= file.fileSize
      requires size <= buffer.Length && buffer != table.data
      requires mode == Write ==> file.currentPos + size < TWO_32
      modifies buffer, table.data, table`committed, device.sectors, `chains
      ensures Valid() && ret >= FAIL
      ensures RwResult(mode, old(Now()), Now(), clusterSize, k, file.currentPos, size, file.fileSize,
                       old(buffer[..]), buffer[..], added, ret)
      ensures table.committed == if added == [] || ret == FAIL then old(table.committed) else table.data[..]
    {
      ghost var d, before, fileSize := Now(), buffer[..], file.fileSize;
      var pos := file.currentPos;
      var cluster, wanted;
      cluster, wanted, added := Prepare(file, size, mode, k);
      ghost var p := Now();
      if cluster == FAIL {
        ret := FAIL;
        NotPrepared(mode, d, p, clusterSize, k, pos, size, fileSize, wanted, added, before);
        assert buffer[..] == before;
      } else {
        WantedFits(mode, d, p, clusterSize, k, pos, size, fileSize, cluster, wanted, added);
        assert Bytes(k) == p.Bytes(k);
        ret := TransferAt(mode, cluster, pos, wanted, buffer, k);
        RwCombined(mode, d, p, Now(), clusterSize, k, pos, size, fileSize, cluster, wanted, added, before, buffer[..],
                   ret);
      }
    }

    method FatRead(file: FatFile, buffer: array<byte>, size: nat, ghost k: nat) returns (ret: int)
      requires Valid() && k < |chains| && file.startCluster == chains[k][0] && file.currentPos <= file.fileSize
      requires size <= buffer.Length && buffer != table.data
      requires Countable(Read, file.currentPos, size, file.fileSize, |Bytes(k)|)
      modifies file`currentPos, buffer, table.data, table`committed, device.sectors, `chains
      ensures Valid() && Now() == old(Now()) && file.currentPos < MAX_POSITION
      ensures ReadResult(Now(), k, old(file.currentPos), size, file.fileSize, old(buffer[..]), buffer[..], ret)
      ensures file.currentPos == old(file.currentPos) + (if ret == FAIL then 0 else ret)
    {
      ghost var added;
      ret, added := Rw(file, buffer, size, Read, k);
    }

    // 0 on success, -1 on failure. The file's size is raised to the end of what was written.
    method FatWrite(file: FatFile, buffer: array<byte>, size: nat, ghost k: nat)
      returns (status: int, ghost added: seq<nat>, ret: int)
      requires Valid() && k < |chains| && file.startCluster == chains[k][0] && file.currentPos <= file.fileSize
      requires size <= buffer.Length && buffer != table.data && file.currentPos + size < MAX_POSITION
      modifies file`currentPos, file`fileSize, buffer, table.data, table`committed, device.sectors, `chains
      ensures Valid() && buffer[..] == old(buffer[..])
      ensures WriteResult(old(Now()), Now(), clusterSize, k, old(file.currentPos), size, old(file.fileSize), buffer[..],
                          added, ret)
      ensures table.committed == if added == [] || ret == FAIL then old(table.committed) else table.data[..]
      ensures status == if ret == FAIL then FAIL else 0
      ensures file.currentPos == old(file.currentPos) + (if ret == FAIL then 0 else ret)
      ensures file.fileSize == Max(old(file.fileSize), file.currentPos) && file.currentPos <= file.fileSize
    {
      ret, added := Rw(file, buffer, size, Write, k);
      ghost var now, data := Now(), buffer[..];
      RaiseSize(file);
      assert Now() == now && buffer[..] == data;
      status := if ret >= 0 then 0 else FAIL;
    }

    // A file ends where it was last written to, if that is further than before.
    method RaiseSize(file: FatFile)
      modifies file`fileSize
      ensures file.fileSize == Max(old(file.fileSize), file.currentPos)
    {
      if file.currentPos > file.fileSize {
        file.fileSize := file.currentPos;
      }
    }

    // Finds the cluster of the file's position, and clips a read at the end of the file or extends the
    // chain for a write beyond it.
    method Prepare(file: FatFile, size: nat, mode: Mode, ghost k: nat)
      returns (cluster: int, wanted: nat, ghost added: seq<nat>)
      requires Valid() && k < |chains| && file.startCluster == chains[k][0] && file.currentPos <= file.fileSize
      requires mode == Write ==> file.currentPos + size < TWO_32
      modifies table.data, table`committed, `chains
      ensures Valid()
      ensures Prepared(mode, old(Now()), Now(), clusterSize, k, file.currentPos, size, file.fileSize, cluster, wanted,
                       added)
      ensures table.committed == if added == [] || cluster == FAIL then old(table.committed) else table.data[..]
    {
      var i := ClusterIndex(file.currentPos, clusterSize);
      var pos := file.currentPos;
      ghost var d, cs := Now(), clusterSize;
      added, wanted := [], size;
      cluster := FollowChain(file.startCluster, i, k);
      ChainCovers(k, pos);
      if cluster == FAIL {
        return;
      }
      if Beyond(pos, size, file.fileSize) {
        if mode == Write {
          cluster, added := GrowFor(cluster, pos, size, file.fileSize, k, i);
          return;
        }
        wanted := file.fileSize - file.currentPos;
      }
      PreparedAsIs(mode, d, cs, k, pos, size, file.fileSize, cluster, wanted);
    }

    // Extends the chain of file `k` for a write of `size` bytes at `pos`, in the cluster at position `i`.
    method GrowFor(cluster: nat, pos: nat, size: nat, ghost fileSize: nat, ghost k: nat, ghost i: nat)
      returns (r: int, ghost added: seq<nat>)
      requires Valid() && k < |chains| && 0 < clusterSize && i == ClusterIndex(pos, clusterSize) && i < |chains[k]|
      requires cluster == chains[k][i] && pos < |Bytes(k)| && pos <= fileSize < pos + size
      modifies table.data, table`committed, `chains
      ensures Valid()
      ensures Prepared(Write, old(Now()), Now(), clusterSize, k, pos, size, fileSize, r, size, added)
      ensures table.committed == if r == FAIL then old(table.committed) else table.data[..]
    {
      ghost var d := Now();
      var n := ClustersFor(size, clusterSize);
      var ok;
      ok, added := Extend(cluster, n, k, i);
      r := if ok then cluster else FAIL;
      device.ClustersUniform();
      GrowthCovers(d, Now(), clusterSize, k, i, pos, size, added);
      PreparedGrowing(d, Now(), clusterSize, k, i, pos, size, fileSize, n, r, added);
    }

    // A position is on the chain exactly if it is before the end of the chain's bytes.
    lemma ChainCovers(k: nat, pos: nat)
      requires Valid() && k < |chains|
      ensures 0 < clusterSize
      ensures ClusterIndex(pos, clusterSize) < |chains[k]| <==> pos < |Bytes(k)|
    {
      device.ClustersUniform();
      FlatLength(device.Clusters(), chains[k], clusterSize);
      Positions(pos, clusterSize, |chains[k]|);
    }

    method TransferAt(mode: Mode, cluster: nat, pos: nat, size: nat, buffer: array<byte>, ghost k: nat)
      returns (done: nat)
      requires Valid() && k < |chains| && pos < |Bytes(k)| && 0 < clusterSize
      requires ClusterIndex(pos, clusterSize) < |chains[k]| && cluster == chains[k][ClusterIndex(pos, clusterSize)]
      requires size <= buffer.Length && buffer != table.data
      modifies buffer, device.sectors
      ensures Valid()
      ensures Transferred(mode, old(Now()), Now(), clusterSize, k, pos, size, old(buffer[..]), buffer[..], done)
    {
      ghost var first := ClusterIndex(pos, clusterSize);
      ghost var job := Job(mode, device.Clusters(), chains[k], clusterSize, pos, buffer[..]);
      DivMod(pos, clusterSize);
      Begin(k, first, pos % clusterSize, job);
      ghost var d := Now();
      done := Transfer(mode, cluster, pos % clusterSize, size, buffer, job, first);
      job.Finished(d, Now(), k, size, buffer[..], done);
    }

    // The transfer loop: from `offset` in the cluster at position `first` of the job's chain on, up to
    // `size` bytes or the end of the chain.
    method Transfer(mode: Mode, start: nat, offset: nat, size: nat, buffer: array<byte>, ghost job: Job,
                    ghost first: nat)
      returns (done: nat)
      requires table.Valid() && device.Valid() && Sized() && table.clusters == device.clusters == |job.clusters|
      requires table.clusters <= table.kind.EndMark() && IsChain(table.Entries(), table.kind.EndMark(), job.chain)
      requires job.Valid() && job.mode == mode && job.size == clusterSize && size <= buffer.Length
      requires buffer != table.data
      requires job.Reached(0, device.Clusters(), buffer[..]) && job.At(0, first, offset) && start == job.chain[first]
      modifies buffer, device.sectors
      ensures device.Valid() && job.Reached(done, device.Clusters(), buffer[..]) && done == job.Total(size)
    {
      var clusterBuffer := new byte[clusterSize];
      var cluster: nat, inCluster: nat, left: nat := start, offset, size;
      ghost var i: nat := first;
      done := 0;
      while true
        invariant device.Valid() && done + left == size
        invariant job.Reached(done, device.Clusters(), buffer[..]) && job.At(done, i, inCluster)
        invariant cluster == job.chain[i]
        decreases left
      {
        var n := Chunk(left, inCluster, clusterSize);
        job.Advance(done, i, inCluster, left);
        var next;
        done, next := TransferRound(mode, cluster, inCluster, n, clusterBuffer, buffer, done, job, i);
        left := left - n;
        if left == 0 || next == FREE || next == FAIL {
          break;
        }
        cluster, inCluster, i := next, 0, i + 1;
      }
    }

    // The cluster after position `i` of a chain, or -1 at its end.
    method NextOf(ghost chain: seq<nat>, ghost i: nat, cluster: nat) returns (next: int)
      requires table.Valid() && table.clusters <= table.kind.EndMark()
      requires IsChain(table.Entries(), table.kind.EndMark(), chain) && i < |chain| && cluster == chain[i]
      ensures if i + 1 < |chain| then next == chain[i + 1] > 0 else next == FAIL
    {
      next := table.GetFATCluster(cluster);
      assert i + 1 < |chain| ==> table.Entries()[chain[i]] == chain[i + 1];
    }

    lemma Begin(k: nat, first: nat, offset: nat, job: Job)
      requires Valid() && k < |chains| && first < |chains[k]| && offset < clusterSize
      requires job.clusters == device.Clusters() && job.chain == chains[k] && job.size == clusterSize
      requires job.pos == first * clusterSize + offset
      ensures job.Valid() && job.Reached(0, device.Clusters(), job.buffer) && job.At(0, first, offset)
    {
      device.ClustersUniform();
      StartOfPiece(device.Clusters(), chains[k], clusterSize, first);
      NoRepeats(table.Entries(), table.kind.EndMark(), chains[k]);
      assert job.buffer[..0] == [];
    }

    // The `n` bytes after the first `done` ones of the job, which lie in the cluster at position `i`.
    method MoveChunk(mode: Mode, cluster: nat, offset: nat, n: nat, clusterBuffer: array<byte>, buffer: array<byte>,
                     done: nat, ghost job: Job, ghost i: nat)
      requires device.Valid() && Sized() && device.clusters == |job.clusters|
      requires job.Valid() && job.mode == mode && job.size == clusterSize && offset + n <= clusterSize
      requires done + n <= buffer.Length
      requires job.Reached(done, device.Clusters(), buffer[..]) && job.At(done, i, offset) && cluster == job.chain[i]
      requires clusterBuffer.Length == clusterSize && clusterBuffer != buffer
      modifies clusterBuffer, buffer, device.sectors
      ensures device.Valid() && job.Reached(done + n, device.Clusters(), buffer[..])
    {
      if mode == Read {
        job.StepRead(done, i, offset, n, device.Clusters(), buffer[..]);
      } else {
        job.StepWrite(done, i, offset, n, device.Clusters(), buffer[..]);
      }
      TransferChunk(mode, cluster, offset, n, clusterBuffer, buffer, done);
    }

    // One round: the chunk, then the cluster that follows.
    method TransferRound(mode: Mode, cluster: nat, offset: nat, n: nat, clusterBuffer: array<byte>,
                         buffer: array<byte>, done: nat, ghost job: Job, ghost i: nat)
      returns (done': nat, next: int)
      requires table.Valid() && device.Valid() && Sized() && table.clusters == device.clusters == |job.clusters|
      requires table.clusters <= table.kind.EndMark() && IsChain(table.Entries(), table.kind.EndMark(), job.chain)
      requires job.Valid() && job.mode == mode && job.size == clusterSize
      requires offset + n <= clusterSize && done + n <= buffer.Length
      requires job.Reached(done, device.Clusters(), buffer[..]) && job.At(done, i, offset) && cluster == job.chain[i]
      requires clusterBuffer.Length == clusterSize && clusterBuffer != buffer
      requires clusterBuffer != table.data && buffer != table.data
      modifies clusterBuffer, buffer, device.sectors
      ensures device.Valid() && done' == done + n && job.Reached(done', device.Clusters(), buffer[..])
      ensures if i + 1 < |job.chain| then next == job.chain[i + 1] > 0 else next == FAIL
    {
      MoveChunk(mode, cluster, offset, n, clusterBuffer, buffer, done, job, i);
      done' := done + n;
      ghost var now, bytes := device.Clusters(), buffer[..];
      next := NextOf(job.chain, i, cluster);
      assert device.Clusters() == now && buffer[..] == bytes;
    }
  }

  // What is on a volume: the table's entries, the chains of the files, and the clusters.
  datatype Disk = Disk(entries: seq<nat>, chains: seq<seq<nat>>, clusters: seq<seq<byte>>) {
    ghost predicate HasFile(k: nat) {
      k < |chains| && InRange(clusters, chains[k])
    }

    ghost function Bytes(k: nat): seq<byte>
      requires HasFile(k)
    {
      Flat(clusters, chains[k])
    }
  }

  // Does a request reach beyond the end of the file, in 32-bit arithmetic?
  predicate Beyond(pos: nat, size: nat, fileSize: nat) {
    (pos + size) % TWO_32 > fileSize
  }

  // How much of a read is left once it is clipped at the end of the file.
  function Clipped(pos: nat, size: nat, fileSize: nat): nat
    requires pos <= fileSize
  {
    if Beyond(pos, size, fileSize) then fileSize - pos else size
  }

  // The clip is right exactly if the position after the request is a 32-bit number.
  lemma ClippedExactly(pos: nat, size: nat, fileSize: nat)
    requires pos <= fileSize < TWO_32 && size < TWO_32
    ensures Clipped(pos, size, fileSize) == Min(size, fileSize - pos) <==> pos + size < TWO_32
  {
    if TWO_32 <= pos + size {
      assert (pos + size) % TWO_32 == pos + size - TWO_32;
    }
  }

  // From position 1, a read of all but one of the 32-bit sizes is not clipped at the end of a file of two bytes.
  lemma ClippedAt()
    ensures Clipped(1, TWO_32 - 1, 2) == TWO_32 - 1
  {
  }

  // Requests for which positions and counts stay signed 32-bit numbers: those that reach no further than that, and
  // reads that are cut off before it, by the end of the file or, where the clip is wrong, of the chain.
  predicate Countable(mode: Mode, pos: nat, size: nat, fileSize: nat, bytes: nat) {
    || pos + size < MAX_POSITION
    || (mode == Read && pos <= fileSize && pos < MAX_POSITION && size < TWO_32
        && (if pos + size < TWO_32 then fileSize else bytes) < MAX_POSITION)
  }

  // A read fails if the position is beyond the chain. Otherwise it returns the bytes from there on, up to
  // the end of the file and of the chain, at the start of the buffer.
  ghost predicate ReadResult(d: Disk, k: nat, pos: nat, size: nat, fileSize: nat, before: seq<byte>, after: seq<byte>,
                             ret: int) {
    && d.HasFile(k) && pos <= fileSize
    && if |d.Bytes(k)| <= pos then ret == FAIL && after == before
       else
         && ret == Min(Clipped(pos, size, fileSize), |d.Bytes(k)| - pos) && 0 <= ret <= |before|
         && after == Splice(before, 0, d.Bytes(k)[pos..pos + ret])
  }

  // How many clusters a write adds.
  function Needed(pos: nat, size: nat, fileSize: nat, clusterSize: nat): nat
    requires 0 < clusterSize
  {
    if pos + size > fileSize then ClustersFor(size, clusterSize) else 0
  }

  function ClustersFor(size: nat, clusterSize: nat): (n: nat)
    requires 0 < clusterSize
    ensures 0 < n
  {
    size / clusterSize + 1
  }

  // A write that grows the file first adds clusters behind the one it starts in. It fails exactly if the position
  // is beyond the chain, or fewer clusters are free than it adds; then those that were free are added. Otherwise
  // it replaces the bytes from the position on, all of them if it grew the file, and touches no cluster of any
  // other file.
  ghost predicate WriteResult(d: Disk, d': Disk, clusterSize: nat, k: nat, pos: nat, size: nat, fileSize: nat,
                              data: seq<byte>, added: seq<nat>, ret: int)
  {
    && d.HasFile(k) && d'.HasFile(k) && 0 < clusterSize && size <= |data|
    && var needed := Needed(pos, size, fileSize, clusterSize);
       if |d.Bytes(k)| <= pos then ret == FAIL && d' == d
       else
         && Extended(d.entries, d.chains, k, ClusterIndex(pos, clusterSize), added, d'.entries, d'.chains)
         && (ret == FAIL <==> |Free(d.entries)| < needed)
         && if ret == FAIL then |added| == |Free(d.entries)| && d'.clusters == d.clusters
            else
              && |added| == needed && ret == Min(size, |d'.Bytes(k)| - pos) && 0 <= ret && (0 < needed ==> ret == size)
              && Written(d.clusters, d'.clusters, clusterSize, d'.chains[k], pos, data[..ret])
  }

  // The cluster of the position was found, if it is on the chain; a read is clipped at the end of the
  // file, and for a write beyond it the chain was extended as needed, if there were enough clusters.
  ghost predicate Prepared(mode: Mode, d: Disk, d': Disk, clusterSize: nat, k: nat, pos: nat, size: nat, fileSize: nat,
                           cluster: int, wanted: nat, added: seq<nat>)
  {
    && d.HasFile(k) && d'.HasFile(k) && 0 < clusterSize && d'.clusters == d.clusters && pos <= fileSize
    && (mode == Read ==> d' == d && added == [])
    && if |d.Bytes(k)| <= pos then cluster == FAIL && d' == d
       else
         && Extended(d.entries, d.chains, k, ClusterIndex(pos, clusterSize), added, d'.entries, d'.chains)
         && pos < |d'.Bytes(k)| && ClusterIndex(pos, clusterSize) < |d'.chains[k]|
         && var needed := if mode == Read then 0 else Needed(pos, size, fileSize, clusterSize);
            && (cluster == FAIL <==> |Free(d.entries)| < needed)
            && if cluster == FAIL then |added| == |Free(d.entries)|
               else
              && cluster == d'.chains[k][ClusterIndex(pos, clusterSize)] && |added| == needed
              && (0 < needed ==> pos + size <= |d'.Bytes(k)|)
              && wanted == if mode == Read then Clipped(pos, size, fileSize) else size
  }

  ghost predicate Transferred(mode: Mode, d: Disk, d': Disk, clusterSize: nat, k: nat, pos: nat, size: nat,
                              before: seq<byte>, after: seq<byte>, done: nat)
  {
    && d.HasFile(k) && pos <= |d.Bytes(k)| && done == Min(size, |d.Bytes(k)| - pos) && done <= |before|
    && d'.entries == d.entries && d'.chains == d.chains
    && match mode
       case Read => d'.clusters == d.clusters && after == Splice(before, 0, d.Bytes(k)[pos..pos + done])
       case Write => after == before && Written(d.clusters, d'.clusters, clusterSize, d.chains[k], pos, before[..done])
  }

  // The position is on the extended chain, and if all clusters were added so is the whole write.
  lemma GrowthCovers(d: Disk, d': Disk, clusterSize: nat, k: nat, i: nat, pos: nat, size: nat, added: seq<nat>)
    requires d'.HasFile(k) && 0 < clusterSize && i == ClusterIndex(pos, clusterSize)
    requires Uniform(d'.clusters, clusterSize)
    requires Extended(d.entries, d.chains, k, i, added, d'.entries, d'.chains)
    ensures pos < |d'.Bytes(k)|
    ensures |added| == ClustersFor(size, clusterSize) ==> pos + size <= |d'.Bytes(k)|
  {
    FlatLength(d'.clusters, d'.chains[k], clusterSize);
    Positions(pos, clusterSize, |d'.chains[k]|);
    Room(pos, size, clusterSize);
  }

  lemma PreparedAsIs(mode: Mode, d: Disk, clusterSize: nat, k: nat, pos: nat, size: nat, fileSize: nat, cluster: int,
                     wanted: nat)
    requires d.HasFile(k) && 0 < clusterSize && pos <= fileSize && pos < |d.Bytes(k)|
    requires ClusterIndex(pos, clusterSize) < |d.chains[k]| && cluster == d.chains[k][ClusterIndex(pos, clusterSize)]
    requires mode == Read || pos + size <= fileSize
    requires wanted == if mode == Read then Clipped(pos, size, fileSize) else size
    ensures Prepared(mode, d, d, clusterSize, k, pos, size, fileSize, cluster, wanted, [])
  {
  }

  lemma PreparedGrowing(d: Disk, d': Disk, clusterSize: nat, k: nat, i: nat, pos: nat, size: nat, fileSize: nat,
                        n: nat, cluster: int, added: seq<nat>)
    requires d.HasFile(k) && d'.HasFile(k) && 0 < clusterSize && pos <= fileSize < pos + size
    requires pos < |d.Bytes(k)| && pos < |d'.Bytes(k)| && i == ClusterIndex(pos, clusterSize) < |d.chains[k]|
    requires d'.clusters == d.clusters
    requires Extended(d.entries, d.chains, k, i, added, d'.entries, d'.chains)
    requires n == ClustersFor(size, clusterSize) && (cluster == FAIL <==> |Free(d.entries)| < n)
    requires if cluster == FAIL then |added| == |Free(d.entries)|
             else |added| == n && pos + size <= |d'.Bytes(k)| && cluster == d.chains[k][i]
    ensures Prepared(Write, d, d', clusterSize, k, pos, size, fileSize, cluster, size, added)
  {
  }

  // A read changes nothing on the volume, and a write nothing in the buffer.
  ghost predicate RwResult(mode: Mode, d: Disk, d': Disk, clusterSize: nat, k: nat, pos: nat, size: nat, fileSize: nat,
                           before: seq<byte>, after: seq<byte>, added: seq<nat>, ret: int)
  {
    match mode
    case Read => added == [] && d' == d && ReadResult(d, k, pos, size, fileSize, before, after, ret)
    case Write => after == before && WriteResult(d, d', clusterSize, k, pos, size, fileSize, after, added, ret)
  }

  // No more is transferred than was asked for.
  lemma WantedFits(mode: Mode, d: Disk, p: Disk, clusterSize: nat, k: nat, pos: nat, size: nat, fileSize: nat,
                   cluster: int, wanted: nat, added: seq<nat>)
    requires Prepared(mode, d, p, clusterSize, k, pos, size, fileSize, cluster, wanted, added) && cluster != FAIL
    ensures wanted <= size && pos < |p.Bytes(k)|
    ensures ClusterIndex(pos, clusterSize) < |p.chains[k]| && cluster == p.chains[k][ClusterIndex(pos, clusterSize)]
  {
    if Beyond(pos, size, fileSize) {
      assert pos + size >= (pos + size) % TWO_32;
    }
  }

  lemma RwCombined(mode: Mode, d: Disk, p: Disk, d': Disk, clusterSize: nat, k: nat, pos: nat, size: nat, fileSize: nat,
                   cluster: int, wanted: nat, added: seq<nat>, before: seq<byte>, after: seq<byte>, ret: nat)
    requires Prepared(mode, d, p, clusterSize, k, pos, size, fileSize, cluster, wanted, added) && cluster != FAIL
    requires Transferred(mode, p, d', clusterSize, k, pos, wanted, before, after, ret) && size <= |before|
    requires d'.HasFile(k) && |d'.Bytes(k)| == |p.Bytes(k)| && (mode == Write ==> pos + size < TWO_32)
    ensures RwResult(mode, d, d', clusterSize, k, pos, size, fileSize, before, after, added, ret)
  {
  }

  lemma NotPrepared(mode: Mode, d: Disk, p: Disk, clusterSize: nat, k: nat, pos: nat, size: nat, fileSize: nat,
                    wanted: nat, added: seq<nat>, buffer: seq<byte>)
    requires Prepared(mode, d, p, clusterSize, k, pos, size, fileSize, FAIL, wanted, added) && size <= |buffer|
    ensures RwResult(mode, d, p, clusterSize, k, pos, size, fileSize, buffer, buffer, added, FAIL)
  {
  }

  lemma WithinInt(mode: Mode, d: Disk, d': Disk, clusterSize: nat, k: nat, pos: nat, size: nat, fileSize: nat,
                  before: seq<byte>, after: seq<byte>, added: seq<nat>, ret: int)
    requires RwResult(mode, d, d', clusterSize, k, pos, size, fileSize, before, after, added, ret) && ret >= FAIL
    requires d.HasFile(k) && Countable(mode, pos, size, fileSize, |d.Bytes(k)|)
    ensures pos < MAX_POSITION && pos + ret < MAX_POSITION && ret < MAX_POSITION
  {
    if mode == Read && TWO_32 <= pos + size {
      assert (pos + size) % TWO_32 == pos + size - TWO_32;
    }
  }

  const MAX_POSITION: nat := 0x8000_0000

  function Min(a: int, b: int): int {
    if a < b then a else b
  }

  function Max(a: int, b: int): int {
    if a < b then b else a
  }

  lemma Positions(pos: nat, size: nat, n: nat)
    requires 0 < size
    ensures ClusterIndex(pos, size) < n <==> pos < n * size
  {
    DivMod(pos, size);
    var i := ClusterIndex(pos, size);
    if i < n {
      Fits(i, n, size);
    } else {
      Distribute(n, i - n, size);
    }
  }

  lemma Room(pos: nat, size: nat, cs: nat)
    requires 0 < cs
    ensures pos + size <= (ClusterIndex(pos, cs) + 1 + ClustersFor(size, cs)) * cs
  {
  }

  /** What a transfer started from: the clusters, the file's chain, the position in the file, and the
      caller's buffer. */
  datatype Job = Job(mode: Mode, clusters: seq<seq<byte>>, chain: seq<nat>, size: nat, pos: nat, buffer: seq<byte>) {
    ghost predicate Valid() {
      && 0 < size && Uniform(clusters, size) && InRange(clusters, chain)
      && (forall a, b | 0 <= a < b < |chain| :: chain[a] != chain[b])
      && pos <= |Flat(clusters, chain)|
    }

    // How many of `n` bytes can be transferred before the chain ends.
    ghost function Total(n: nat): nat
      requires Valid()
    {
      if n < |Flat(clusters, chain)| - pos then n else |Flat(clusters, chain)| - pos
    }

    // `done` bytes have been transferred.
    ghost predicate Reached(done: nat, now: seq<seq<byte>>, buf: seq<byte>)
      requires Valid()
    {
      && done <= |buffer| && pos + done <= |Flat(clusters, chain)|
      && match mode
         case Read => now == clusters && buf == Splice(buffer, 0, Flat(clusters, chain)[pos..pos + done])
         case Write => buf == buffer && Written(clusters, now, size, chain, pos, buffer[..done])
    }

    // The next byte is at `offset` in the cluster at position `i`.
    ghost predicate At(done: nat, i: nat, offset: nat)
      requires Valid()
    {
      i < |chain| && offset < size && StartOf(clusters, chain, i) + offset == pos + done
    }

    lemma StepRead(done: nat, i: nat, offset: nat, n: nat, now: seq<seq<byte>>, buf: seq<byte>)
      requires Valid() && mode == Read && Reached(done, now, buf) && At(done, i, offset)
      requires offset + n <= size && done + n <= |buffer|
      ensures chain[i] < |now| && |now[chain[i]]| == size
      ensures Reached(done + n, now, Splice(buf, done, now[chain[i]][offset..offset + n]))
    {
      FlatRead(clusters, chain, size, i, offset, n);
      ReadStep(buffer, Flat(clusters, chain), pos, done, n, buf, now[chain[i]][offset..offset + n]);
    }

    lemma StepWrite(done: nat, i: nat, offset: nat, n: nat, now: seq<seq<byte>>, buf: seq<byte>)
      requires Valid() && mode == Write && Reached(done, now, buf) && At(done, i, offset)
      requires offset + n <= size && done + n <= |buffer|
      ensures chain[i] < |now| && |now[chain[i]]| == size
      ensures Reached(done + n, now[chain[i] := Splice(now[chain[i]], offset, buf[done..done + n])], buf)
    {
      WriteStep(clusters, now, size, chain, pos, buffer[..done], i, offset, buffer[done..done + n]);
      assert buffer[..done] + buffer[done..done + n] == buffer[..done + n];
    }

    lemma Finished(d: Disk, d': Disk, k: nat, wanted: nat, after: seq<byte>, done: nat)
      requires Valid() && d.HasFile(k) && clusters == d.clusters && chain == d.chains[k] && done == Total(wanted)
      requires d'.entries == d.entries && d'.chains == d.chains && Reached(done, d'.clusters, after)
      ensures Transferred(mode, d, d', size, k, pos, wanted, buffer, after, done)
    {
    }

    // After the chunk that the next byte is in.
    lemma Advance(done: nat, i: nat, offset: nat, left: nat)
      requires Valid() && At(done, i, offset)
      ensures var n := Chunk(left, offset, size);
              && (n < left ==> if i + 1 < |chain| then At(done + n, i + 1, 0) else Total(done + left) == done + n)
              && (n == left ==> Total(done + left) == done + left)
    {
      var n := Chunk(left, offset, size);
      StartOfPiece(clusters, chain, size, i);
      if n < left {
        NextCluster(done + n, i);
      }
    }

    // At the end of the cluster at position `i` the next one begins, or the chain ends.
    lemma NextCluster(done: nat, i: nat)
      requires Valid() && i < |chain| && pos + done == StartOf(clusters, chain, i) + size
      ensures i + 1 < |chain| ==> At(done, i + 1, 0)
      ensures i + 1 == |chain| ==> pos + done == |Flat(clusters, chain)|
    {
      StartOfPiece(clusters, chain, size, i);
    }
  }

  // `now` is `clusters` with the bytes of `chain` from `pos` on replaced by `piece`, and no other cluster touched.
  ghost predicate Written(clusters: seq<seq<byte>>, now: seq<seq<byte>>, size: nat, chain: seq<nat>, pos: nat,
                          piece: seq<byte>) {
    && InRange(clusters, chain) && |now| == |clusters| && Uniform(now, size)
    && pos + |piece| <= |Flat(clusters, chain)|
    && Flat(now, chain) == Splice(Flat(clusters, chain), pos, piece)
    && forall c | 0 <= c < |clusters| && c !in chain :: now[c] == clusters[c]
  }

  lemma ReadStep(was: seq<byte>, bytes: seq<byte>, pos: nat, done: nat, n: nat, buf: seq<byte>, piece: seq<byte>)
    requires pos + done + n <= |bytes| && done + n <= |was|
    requires buf == Splice(was, 0, bytes[pos..pos + done]) && piece == bytes[pos + done..pos + done + n]
    ensures Splice(buf, done, piece) == Splice(was, 0, bytes[pos..pos + (done + n)])
  {
    assert bytes[pos..pos + done] + piece == bytes[pos..pos + (done + n)];
    SpliceAgain(was, 0, bytes[pos..pos + done], piece);
  }

  lemma WriteStep(clusters: seq<seq<byte>>, now: seq<seq<byte>>, size: nat, chain: seq<nat>, pos: nat, piece: seq<byte>,
                  i: nat, offset: nat, more: seq<byte>)
    requires Written(clusters, now, size, chain, pos, piece) && i < |chain| && offset + |more| <= size
    requires forall a, b | 0 <= a < b < |chain| :: chain[a] != chain[b]
    requires StartOf(clusters, chain, i) + offset == pos + |piece| && Uniform(clusters, size)
    ensures Written(clusters, now[chain[i] := Splice(now[chain[i]], offset, more)], size, chain, pos, piece + more)
  {
    SameStart(clusters, now, chain, size, i);
    FlatWrite(now, chain, size, i, offset, more);
    SpliceAgain(Flat(clusters, chain), pos, piece, more);
  }

  // ---------- A file as a flat byte string ----------

  // Writing `data` at `pos` of a plain byte string: it replaces what is there, and may extend it.
  function Overwrite(content: seq<byte>, pos: nat, data: seq<byte>): seq<byte>
    requires pos <= |content|
  {
    content[..pos] + data + (if pos + |data| < |content| then content[pos + |data|..] else [])
  }

  // The content of file `k`: its first `fileSize` bytes.
  ghost function Content(d: Disk, k: nat, fileSize: nat): seq<byte>
    requires d.HasFile(k) && fileSize <= |d.Bytes(k)|
  {
    d.Bytes(k)[..fileSize]
  }

  // A read returns the file's bytes from the position on, except that at the end of a file that fills its
  // clusters it fails where a flat file would return nothing.
  lemma ReadRefines(d: Disk, k: nat, pos: nat, size: nat, fileSize: nat, before: seq<byte>, after: seq<byte>, ret: int)
    requires ReadResult(d, k, pos, size, fileSize, before, after, ret) && fileSize <= |d.Bytes(k)| && size <= |before|
    ensures ret == FAIL <==> pos == fileSize == |d.Bytes(k)|
    ensures ret != FAIL && pos + size < TWO_32 ==>
              && 0 <= ret == Min(size, fileSize - pos)
              && after[..ret] == Content(d, k, fileSize)[pos..pos + ret] && after[ret..] == before[ret..]
  {
    if ret != FAIL && pos + size < TWO_32 {
      var piece, n := d.Bytes(k)[pos..pos + ret], ret as nat;
      assert Content(d, k, fileSize)[pos..pos + n] == piece;
      assert after == piece + before[n..];
      assert after[..n] == piece && after[n..] == before[n..];
    }
  }

  // Chains with a common start hold the same bytes there.
  lemma SamePrefix(clusters: seq<seq<byte>>, size: nat, a: seq<nat>, b: seq<nat>, n: nat, pos: nat)
    requires InRange(clusters, a) && InRange(clusters, b) && Uniform(clusters, size)
    requires n <= |a| && n <= |b| && a[..n] == b[..n] && pos <= n * size
    ensures pos <= |Flat(clusters, a)| && pos <= |Flat(clusters, b)|
    ensures Flat(clusters, a)[..pos] == Flat(clusters, b)[..pos]
  {
    FlatLength(clusters, a[..n], size);
    assert a == a[..n] + a[n..] && b == b[..n] + b[n..];
    FlatConcat(clusters, a[..n], a[n..]);
    FlatConcat(clusters, b[..n], b[n..]);
  }

  lemma OverwriteInside(bytes: seq<byte>, n: nat, pos: nat, data: seq<byte>)
    requires pos + |data| <= n <= |bytes|
    ensures Splice(bytes, pos, data)[..n] == Overwrite(bytes[..n], pos, data)
  {
  }

  lemma OverwriteGrowing(bytes: seq<byte>, longer: seq<byte>, n: nat, pos: nat, data: seq<byte>)
    requires pos <= n <= |bytes| && n < pos + |data| <= |longer| && bytes[..pos] == longer[..pos]
    ensures Splice(longer, pos, data)[..pos + |data|] == Overwrite(bytes[..n], pos, data)
  {
  }

  // When a write fails, on the state before it. One at the end of a file that fills its clusters always does.
  lemma WriteFailsExactly(d: Disk, d': Disk, clusterSize: nat, k: nat, pos: nat, size: nat, fileSize: nat,
                          data: seq<byte>, added: seq<nat>, ret: int)
    requires WriteResult(d, d', clusterSize, k, pos, size, fileSize, data, added, ret)
    requires pos <= fileSize <= |d.Bytes(k)|
    ensures ret == FAIL <==>
            || pos == fileSize == |d.Bytes(k)|
            || (fileSize < pos + size && |Free(d.entries)| < ClustersFor(size, clusterSize))
    ensures pos == fileSize == |d.Bytes(k)| ==> d' == d
  {
  }

  // How many clusters behind that of the position a write of at least one byte goes on to.
  function FurtherClusters(pos: nat, size: nat, clusterSize: nat): int
    requires 0 < clusterSize && 0 < size
  {
    ClusterIndex(pos + size - 1, clusterSize) - ClusterIndex(pos, clusterSize)
  }

  // The clusters asked for are one or two more than those behind the position that the write goes on to, except where
  // its incomplete parts take up more than one cluster together. Those the file has there already do not count.
  lemma AskedExactly(pos: nat, size: nat, clusterSize: nat)
    requires 0 < clusterSize && 0 < size
    ensures ClustersFor(size, clusterSize) ==
            FurtherClusters(pos, size, clusterSize)
            + (if pos % clusterSize + size % clusterSize > clusterSize then 0
               else if pos % clusterSize + size % clusterSize == 0 then 2 else 1)
  {
    var i, o, q, r := pos / clusterSize, pos % clusterSize, size / clusterSize, size % clusterSize;
    DivMod(pos, clusterSize);
    DivMod(size, clusterSize);
    Distribute(i, q, clusterSize);
    if o + r == 0 {
      Distribute(i + q - 1, 1, clusterSize);
      DivIs(pos + size - 1, clusterSize, i + q - 1, clusterSize - 1);
    } else if o + r <= clusterSize {
      DivIs(pos + size - 1, clusterSize, i + q, o + r - 1);
    } else {
      Distribute(i + q, 1, clusterSize);
      DivIs(pos + size - 1, clusterSize, i + q + 1, o + r - 1 - clusterSize);
    }
  }

  // So a write that makes the file longer fails without free clusters, even if it fits into those of the file.
  lemma FitsButFails(d: Disk, d': Disk, clusterSize: nat, k: nat, pos: nat, size: nat, fileSize: nat, data: seq<byte>,
                     added: seq<nat>, ret: int)
    requires WriteResult(d, d', clusterSize, k, pos, size, fileSize, data, added, ret)
    requires pos <= fileSize < pos + size <= |d.Bytes(k)| && Free(d.entries) == []
    ensures ret == FAIL && d'.chains == d.chains && d'.clusters == d.clusters
  {
  }

  // A write that does not fail writes everything, and does to the file's content what it would do to a flat file.
  lemma WriteRefines(d: Disk, d': Disk, clusterSize: nat, k: nat, pos: nat, size: nat, fileSize: nat,
                     data: seq<byte>, added: seq<nat>, ret: int)
    requires WriteResult(d, d', clusterSize, k, pos, size, fileSize, data, added, ret) && ret != FAIL
    requires Uniform(d.clusters, clusterSize) && pos <= fileSize <= |d.Bytes(k)|
    ensures ret == size && Max(fileSize, pos + size) <= |d'.Bytes(k)|
    ensures Content(d', k, Max(fileSize, pos + size)) == Overwrite(Content(d, k, fileSize), pos, data[..size])
  {
    var i := ClusterIndex(pos, clusterSize);
    var chain, chain' := d.chains[k], d'.chains[k];
    if pos + size <= fileSize {
      assert chain' == chain && d'.Bytes(k) == Splice(d.Bytes(k), pos, data[..ret]);
      OverwriteInside(d.Bytes(k), fileSize, pos, data[..size]);
    } else {
      assert chain'[..i + 1] == chain[..i + 1];
      DivMod(pos, clusterSize);
      Distribute(i, 1, clusterSize);
      SamePrefix(d.clusters, clusterSize, chain, chain', i + 1, pos);
      OverwriteGrowing(d.Bytes(k), Flat(d.clusters, chain'), fileSize, pos, data[..size]);
    }
  }

  // Every other file keeps its chain and its bytes, whether or not the write succeeds.
  lemma WriteKeepsOthers(d: Disk, d': Disk, end: nat, clusterSize: nat, k: nat, pos: nat, size: nat, fileSize: nat,
                         data: seq<byte>, added: seq<nat>, ret: int, m: nat)
    requires WriteResult(d, d', clusterSize, k, pos, size, fileSize, data, added, ret)
    requires WellFormed(d'.entries, end, d'.chains) && d.HasFile(m) && m != k
    ensures d'.HasFile(m) && d'.chains[m] == d.chains[m] && d'.Bytes(m) == d.Bytes(m)
  {
    assert Disjoint(d'.chains[m], d'.chains[k]);
    forall j | 0 <= j < |d.chains[m]|
      ensures d.chains[m][j] < |d'.clusters| && d'.clusters[d.chains[m][j]] == d.clusters[d.chains[m][j]]
    {
      assert d.chains[m][j] in d'.chains[m];
    }
    FlatSame(d.clusters, d'.clusters, d.chains[m]);
  }

  // What is written can be read back.
  lemma WriteThenRead(d: Disk, d': Disk, clusterSize: nat, k: nat, pos: nat, size: nat, fileSize: nat, data: seq<byte>,
                      added: seq<nat>, ret: int, before: seq<byte>, after: seq<byte>, got: int)
    requires WriteResult(d, d', clusterSize, k, pos, size, fileSize, data, added, ret) && ret != FAIL && 0 < size
    requires Uniform(d.clusters, clusterSize) && pos <= fileSize <= |d.Bytes(k)|
    requires ReadResult(d', k, pos, size, Max(fileSize, pos + size), before, after, got) && size <= |before|
    ensures got == size && after[..size] == data[..size]
  {
  }

  // A growing write relinks the chain behind the cluster it starts in. It drops clusters of the file, which
  // then stay marked as used without belonging to any file, exactly if that cluster is not the chain's last.
  lemma GrowingDropsExactly(d: Disk, d': Disk, end: nat, k: nat, i: nat, added: seq<nat>)
    requires Extended(d.entries, d.chains, k, i, added, d'.entries, d'.chains) && added != []
    requires WellFormed(d.entries, end, d.chains) && WellFormed(d'.entries, end, d'.chains)
    ensures (exists c :: c in d.chains[k] && c !in d'.chains[k]) <==> i + 1 < |d.chains[k]|
    ensures forall c | c in d.chains[k] :: d'.entries[c] != FREE
  {
    var chain := d.chains[k];
    NoRepeats(d.entries, end, chain);
    ChainsAreUsed(d.entries, end, chain);
    ChainsAreUsed(d'.entries, end, d'.chains[k]);
    assert chain[i] == d'.chains[k][i];
    if i + 1 < |chain| {
      assert chain[i + 1] in chain && chain[i + 1] !in added;
      assert chain[i + 1] !in chain[..i + 1];
    } else {
      assert chain[..i + 1] == chain;
    }
  }

  // Two pieces of a chain's bytes.
  lemma FlatPieces(clusters: seq<seq<byte>>, size: nat, a: seq<nat>, b: seq<nat>)
    requires InRange(clusters, a) && InRange(clusters, b) && Uniform(clusters, size)
    ensures InRange(clusters, a + b) && |Flat(clusters, a)| == |a| * size && |Flat(clusters, b)| == |b| * size
    ensures Flat(clusters, a + b) == Flat(clusters, a) + Flat(clusters, b)
  {
    FlatConcat(clusters, a, b);
    FlatLength(clusters, a, size);
    FlatLength(clusters, b, size);
  }

  // A write that fails for lack of clusters has put those that were free, all of which it has linked, in place of what
  // followed the cluster it started in. The file keeps its content exactly if none was free, or it ends before, or
  // they reach as far and happen to hold the same bytes.
  lemma FailedWriteKeepsExactly(d: Disk, d': Disk, clusterSize: nat, k: nat, pos: nat, size: nat, fileSize: nat,
                                data: seq<byte>, added: seq<nat>)
    requires WriteResult(d, d', clusterSize, k, pos, size, fileSize, data, added, FAIL) && pos < |d.Bytes(k)|
    requires Uniform(d.clusters, clusterSize) && fileSize <= |d.Bytes(k)| && InRange(d.clusters, Free(d.entries))
    ensures (fileSize <= |d'.Bytes(k)| && Content(d', k, fileSize) == Content(d, k, fileSize)) <==>
            FailedWriteKeeps(d, clusterSize, k, pos, fileSize)
  {
    var i := ClusterIndex(pos, clusterSize);
    var head, from := d.chains[k][..i + 1], (i + 1) * clusterSize;
    assert added == Free(d.entries);
    if added != [] {
      assert d.chains[k] == head + d.chains[k][i + 1..];
      FlatPieces(d.clusters, clusterSize, head, d.chains[k][i + 1..]);
      FlatPieces(d.clusters, clusterSize, head, added);
      TailKept(Flat(d.clusters, head), Flat(d.clusters, d.chains[k][i + 1..]), Flat(d.clusters, added), fileSize);
    }
  }

  ghost predicate FailedWriteKeeps(d: Disk, clusterSize: nat, k: nat, pos: nat, fileSize: nat)
    requires d.HasFile(k) && 0 < clusterSize && fileSize <= |d.Bytes(k)| && InRange(d.clusters, Free(d.entries))
  {
    var free, from := Free(d.entries), (ClusterIndex(pos, clusterSize) + 1) * clusterSize;
    || free == [] || fileSize <= from
    || (fileSize <= from + |free| * clusterSize && d.Bytes(k)[from..fileSize] <= Flat(d.clusters, free))
  }

  // When the first `n` bytes stay the same if what follows `head` is exchanged.
  lemma TailKept(head: seq<byte>, old': seq<byte>, new': seq<byte>, n: nat)
    requires n <= |head| + |old'|
    ensures (n <= |head| + |new'| && (head + new')[..n] == (head + old')[..n]) <==>
            n <= |head| || (n <= |head| + |new'| && (head + old')[|head|..n] <= new')
  {
    if |head| < n <= |head| + |new'| {
      var m := n - |head|;
      assert (head + old')[|head|..n] == old'[..m];
      assert (head + old')[..n] == head + old'[..m] && (head + new')[..n] == head + new'[..m];
      assert old'[..m] <= new' <==> old'[..m] == new'[..m];
      if (head + new')[..n] == (head + old')[..n] {
        assert old'[..m] == (head + old'[..m])[|head|..] == (head + new'[..m])[|head|..] == new'[..m];
      }
    }
  }

  // A file of two clusters of one byte, and one free cluster with another byte: a write of three bytes at its start
  // fails, and the file's second byte is that of the free cluster.
  lemma FailedWriteLosesAt(d': Disk, data: seq<byte>, added: seq<nat>)
    requires WriteResult(Example(), d', 1, 0, 0, 3, 2, data, added, FAIL)
    ensures added == [3] && Content(Example(), 0, 2) == [10, 20]
    ensures 2 <= |d'.Bytes(0)| && Content(d', 0, 2) == [10, 99]
  {
    var d := Example();
    FreeAt();
    assert d'.chains[0] == [1] + [3];
    assert Flat(d.clusters, [1, 2]) == [10] + Flat(d.clusters, [1, 2][1..]);
    assert [1, 2][1..] == [2] && Flat(d.clusters, [2]) == [20] + Flat(d.clusters, [2][1..]);
    assert Flat(d.clusters, [1, 3]) == [10] + Flat(d.clusters, [1, 3][1..]);
    assert [1, 3][1..] == [3] && Flat(d.clusters, [3]) == [99] + Flat(d.clusters, [3][1..]);
  }

  function Example(): Disk {
    Disk([0xFFF, 2, 0xFFF, 0], [[1, 2]], [[0], [10], [20], [99]])
  }

  lemma FreeAt()
    ensures Free([0xFFF, 2, 0xFFF, 0]) == [3]
  {
    var fat := [0xFFF, 2, 0xFFF, 0];
    assert FreeFrom(fat, 4) == [];
    assert FreeFrom(fat, 3) == [3];
    assert FreeFrom(fat, 2) == [3];
    assert FreeFrom(fat, 1) == [3];
  }

  // A growing write that starts in the first of two clusters drops the second one.
  lemma GrowingDropsAt(d': Disk, added: seq<nat>)
    requires Extended(Example().entries, Example().chains, 0, 0, added, d'.entries, d'.chains) && added != []
    requires WellFormed(d'.entries, 0xFFF, d'.chains)
    ensures WellFormed(Example().entries, 0xFFF, Example().chains)
    ensures 2 in Example().chains[0] && 2 !in d'.chains[0] && |d'.entries| == 4 && d'.entries[2] != FREE
  {
    var d := Example();
    assert d.entries[2] != FREE;
  }
}
