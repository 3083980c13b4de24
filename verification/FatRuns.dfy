/** Runs of seeks, reads and writes on the files of a volume, against plain byte strings with a position. */
module FatRuns {
  import opened Machine
  import opened ByteSeqs
  import opened FatTable
  import opened FatChains
  import opened ClusterDevice
  import opened FatVolume

  datatype FlatFile = FlatFile(content: seq<byte>, pos: nat)

  datatype Request =
    | SeekTo(k: nat, offset: nat, origin: Origin)
    | ReadFrom(k: nat, size: nat)
    | WriteTo(k: nat, data: seq<byte>)

  // ---------- Plain files ----------

  // How far from the position on a request reaches.
  function Reach(r: Request): nat {
    match r
    case SeekTo(_, _, _) => 0
    case ReadFrom(_, size) => size
    case WriteTo(_, data) => |data|
  }

  // Requests for files that do not exist, writes that reach 2 GB, and reads that reach 4 GB, or 2 GB of a file that
  // does, are refused.
  predicate Admitted(r: Request, files: nat, size: nat, pos: nat) {
    && r.k < files && (r.SeekTo? ==> r.offset < TWO_32)
    && (pos + Reach(r) < MAX_POSITION || (r.ReadFrom? && pos + Reach(r) < TWO_32 && size < MAX_POSITION))
  }

  // What a read returns.
  function Got(f: FlatFile, r: Request): (got: seq<byte>)
    requires f.pos <= |f.content|
    ensures f.pos + |got| <= |f.content|
  {
    if !r.ReadFrom? then []
    else if f.pos + r.size < |f.content| then f.content[f.pos..f.pos + r.size] else f.content[f.pos..]
  }

  function Done(f: FlatFile, r: Request): (g: FlatFile)
    requires f.pos <= |f.content|
    ensures g.pos <= |g.content|
  {
    match r
    case SeekTo(_, offset, origin) => f.(pos := Sought(f.pos, |f.content|, offset, origin))
    case ReadFrom(_, _) => f.(pos := f.pos + |Got(f, r)|)
    case WriteTo(_, data) => FlatFile(Overwrite(f.content, f.pos, data), f.pos + |data|)
  }

  ghost predicate Positioned(files: seq<FlatFile>) {
    forall f | f in files :: f.pos <= |f.content|
  }

  ghost predicate FlatAdmits(files: seq<FlatFile>, r: Request) {
    r.k < |files| && Admitted(r, |files|, |files[r.k].content|, files[r.k].pos)
  }

  ghost function FlatStep(files: seq<FlatFile>, r: Request): (after: seq<FlatFile>)
    requires Positioned(files)
    ensures Positioned(after) && |after| == |files|
  {
    if FlatAdmits(files, r) then files[r.k := Done(files[r.k], r)] else files
  }

  ghost function FlatGot(files: seq<FlatFile>, r: Request): seq<byte>
    requires Positioned(files)
  {
    if FlatAdmits(files, r) then Got(files[r.k], r) else []
  }

  // What requests on plain files come to: those that stay within 2 GB are carried out.
  lemma CarriedOut(files: seq<FlatFile>, r: Request)
    requires Positioned(files) && r.k < |files|
    ensures r.WriteTo? && files[r.k].pos + |r.data| < 0x8000_0000 ==>
              FlatStep(files, r) ==
              files[r.k := FlatFile(Overwrite(files[r.k].content, files[r.k].pos, r.data), files[r.k].pos + |r.data|)]
    ensures r.ReadFrom? && files[r.k].pos + r.size < 0x8000_0000 ==>
              var f := files[r.k];
              var n := if f.pos + r.size < |f.content| then r.size else |f.content| - f.pos;
              && FlatGot(files, r) == f.content[f.pos..f.pos + n]
              && FlatStep(files, r) == files[r.k := f.(pos := f.pos + n)]
    ensures r.SeekTo? && r.origin == Start && files[r.k].pos < 0x8000_0000 && r.offset < 0x8000_0000 ==>
              var f := files[r.k];
              FlatStep(files, r) == files[r.k := f.(pos := if r.offset <= |f.content| then r.offset else f.pos)]
  {
  }

  ghost function FlatRun(files: seq<FlatFile>, requests: seq<Request>): (after: seq<FlatFile>)
    requires Positioned(files)
    ensures Positioned(after) && |after| == |files|
  {
    if requests == [] then files
    else FlatStep(FlatRun(files, requests[..|requests| - 1]), requests[|requests| - 1])
  }

  // ---------- Files on a volume ----------

  datatype Open = Open(size: nat, pos: nat)

  ghost predicate Stored(d: Disk, open: seq<Open>) {
    && |open| == |d.chains|
    && forall k: nat | k < |open| ::
         d.HasFile(k) && open[k].pos <= open[k].size < TWO_32 && open[k].pos < MAX_POSITION
  }

  // File `k` is the plain file `f`.
  ghost predicate Represents(d: Disk, k: nat, e: Open, f: FlatFile) {
    d.HasFile(k) && e.size <= |d.Bytes(k)| && f == FlatFile(Content(d, k, e.size), e.pos)
  }

  // Every file but the `lost` ones is the plain file of its number.
  ghost predicate Matches(files: seq<FlatFile>, d: Disk, open: seq<Open>, lost: set<nat>) {
    && Positioned(files) && |files| == |open|
    && forall k: nat | k < |open| && k !in lost :: Represents(d, k, open[k], files[k])
  }

  ghost predicate Admits(open: seq<Open>, r: Request) {
    r.k < |open| && Admitted(r, |open|, open[r.k].size, open[r.k].pos)
  }

  // A write fails where its position is not on the file's chain, and where it makes the file longer and too few
  // clusters are free.
  ghost predicate Fails(d: Disk, open: seq<Open>, clusterSize: nat, r: Request)
    requires Stored(d, open) && 0 < clusterSize
  {
    && r.WriteTo? && Admits(open, r)
    && (|| |d.Bytes(r.k)| <= open[r.k].pos
        || (open[r.k].size < open[r.k].pos + |r.data| && |Free(d.entries)| < ClustersFor(|r.data|, clusterSize)))
  }

  // What was said of the other files stays true if a request leaves their chains and bytes alone; of its own file
  // it does if the request does to it what it does to a plain one.
  lemma OneFile(files: seq<FlatFile>, d: Disk, d': Disk, open: seq<Open>, lost: set<nat>, r: Request, e: Open)
    requires Matches(files, d, open, lost) && Admits(open, r)
    requires forall m: nat | m < |open| && m != r.k && d.HasFile(m) :: d'.HasFile(m) && d'.Bytes(m) == d.Bytes(m)
    requires r.k !in lost ==> Represents(d', r.k, e, Done(files[r.k], r))
    ensures Matches(FlatStep(files, r), d', open[r.k := e], lost)
  {
    var now, after := open[r.k := e], FlatStep(files, r);
    forall m: nat | m < |now| && m !in lost
      ensures Represents(d', m, now[m], after[m])
    {
      assert Represents(d, m, open[m], files[m]);
    }
  }

  // A refused request changes nothing, and neither does it of plain files, except perhaps in place of a lost one.
  lemma Refused(files: seq<FlatFile>, d: Disk, open: seq<Open>, lost: set<nat>, r: Request)
    requires Matches(files, d, open, lost) && !Admits(open, r)
    ensures Matches(FlatStep(files, r), d, open, lost)
    ensures r.k !in lost ==> FlatGot(files, r) == []
  {
    if r.k < |open| && r.k !in lost {
      assert Represents(d, r.k, open[r.k], files[r.k]);
    }
    forall m: nat | m < |open| && m !in lost
      ensures Represents(d, m, open[m], FlatStep(files, r)[m])
    {
      assert Represents(d, m, open[m], files[m]);
    }
  }

  lemma SeekStepRefines(files: seq<FlatFile>, d: Disk, open: seq<Open>, lost: set<nat>, r: Request, e: Open)
    requires Stored(d, open) && Matches(files, d, open, lost) && r.SeekTo? && Admits(open, r)
    requires e == open[r.k].(pos := Sought(open[r.k].pos, open[r.k].size, r.offset, r.origin))
    ensures Stored(d, open[r.k := e]) && Matches(FlatStep(files, r), d, open[r.k := e], lost)
  {
    if r.k !in lost {
      assert Represents(d, r.k, open[r.k], files[r.k]);
    }
    OneFile(files, d, d, open, lost, r, e);
  }

  lemma ReadStepRefines(files: seq<FlatFile>, d: Disk, open: seq<Open>, lost: set<nat>, r: Request, before: seq<byte>,
                        after: seq<byte>, ret: int, e: Open)
    requires Stored(d, open) && Matches(files, d, open, lost) && r.ReadFrom? && Admits(open, r)
    requires ReadResult(d, r.k, open[r.k].pos, r.size, open[r.k].size, before, after, ret) && r.size == |before|
    requires e == open[r.k].(pos := open[r.k].pos + (if ret == FAIL then 0 else ret)) && e.pos < MAX_POSITION
    ensures FAIL <= ret <= |after| && Stored(d, open[r.k := e])
    ensures Matches(FlatStep(files, r), d, open[r.k := e], lost)
    ensures r.k !in lost ==> after[..if ret == FAIL then 0 else ret] == FlatGot(files, r)
  {
    if r.k !in lost {
      var f := files[r.k];
      assert Represents(d, r.k, open[r.k], f);
      ReadRefines(d, r.k, open[r.k].pos, r.size, open[r.k].size, before, after, ret);
      var n: nat := if ret == FAIL then 0 else ret;
      assert |f.content| == open[r.k].size;
      assert Got(f, r) == f.content[f.pos..f.pos + n];
    }
    OneFile(files, d, d, open, lost, r, e);
  }

  // Every file starts with the same cluster.
  ghost predicate SameStarts(chains: seq<seq<nat>>, chains': seq<seq<nat>>) {
    && |chains'| == |chains|
    && forall m: nat | m < |chains| :: chains[m] != [] && chains'[m] != [] && chains'[m][0] == chains[m][0]
  }

  // A write request went to the volume: the result, and what became of the open file.
  ghost predicate Carried(d: Disk, d': Disk, clusterSize: nat, was: Open, r: Request, added: seq<nat>, ret: int,
                          e: Open)
  {
    && r.WriteTo? && ret >= FAIL
    && WriteResult(d, d', clusterSize, r.k, was.pos, |r.data|, was.size, r.data, added, ret)
    && e.pos == was.pos + (if ret == FAIL then 0 else ret) && e.size == Max(was.size, e.pos)
  }

  lemma StartsKept(d: Disk, d': Disk, end: nat, clusterSize: nat, was: Open, r: Request, added: seq<nat>, ret: int,
                   e: Open)
    requires Carried(d, d', clusterSize, was, r, added, ret, e)
    requires WellFormed(d.entries, end, d.chains) && WellFormed(d'.entries, end, d'.chains)
    ensures SameStarts(d.chains, d'.chains)
  {
    forall m: nat | m < |d.chains|
      ensures d.chains[m] != [] && d'.chains[m] != [] && d'.chains[m][0] == d.chains[m][0]
    {
      assert IsChain(d.entries, end, d.chains[m]) && IsChain(d'.entries, end, d'.chains[m]);
    }
  }

  lemma OthersKept(d: Disk, d': Disk, end: nat, clusterSize: nat, was: Open, r: Request, added: seq<nat>, ret: int,
                   e: Open)
    requires Carried(d, d', clusterSize, was, r, added, ret, e) && WellFormed(d'.entries, end, d'.chains)
    ensures forall m: nat | m < |d.chains| && m != r.k && d.HasFile(m) :: d'.HasFile(m) && d'.Bytes(m) == d.Bytes(m)
  {
    forall m: nat | m < |d.chains| && m != r.k && d.HasFile(m)
      ensures d'.HasFile(m) && d'.Bytes(m) == d.Bytes(m)
    {
      WriteKeepsOthers(d, d', end, clusterSize, r.k, was.pos, |r.data|, was.size, r.data, added, ret, m);
    }
  }

  lemma WriteStored(d: Disk, d': Disk, clusterSize: nat, open: seq<Open>, r: Request, added: seq<nat>, ret: int,
                    e: Open)
    requires Stored(d, open) && r.WriteTo? && Admits(open, r)
    requires Carried(d, d', clusterSize, open[r.k], r, added, ret, e)
    requires |d'.chains| == |d.chains|
    requires forall m: nat | m < |d.chains| && m != r.k && d.HasFile(m) :: d'.HasFile(m)
    ensures Stored(d', open[r.k := e])
    ensures 0 < clusterSize && (ret == FAIL <==> Fails(d, open, clusterSize, r))
  {
  }

  // A write does to every file what it does to plain ones. If it fails, its own file is lost.
  lemma WriteStepRefines(files: seq<FlatFile>, d: Disk, d': Disk, end: nat, clusterSize: nat, open: seq<Open>,
                         lost: set<nat>, r: Request, added: seq<nat>, ret: int, e: Open)
    requires Stored(d, open) && Matches(files, d, open, lost) && r.WriteTo? && Admits(open, r)
    requires Carried(d, d', clusterSize, open[r.k], r, added, ret, e)
    requires WellFormed(d.entries, end, d.chains) && WellFormed(d'.entries, end, d'.chains)
    requires Uniform(d.clusters, clusterSize)
    ensures 0 < clusterSize && (ret == FAIL <==> Fails(d, open, clusterSize, r))
    ensures SameStarts(d.chains, d'.chains) && Stored(d', open[r.k := e])
    ensures Matches(FlatStep(files, r), d', open[r.k := e], if ret == FAIL then lost + {r.k} else lost)
  {
    var pos, size, k := open[r.k].pos, open[r.k].size, r.k;
    StartsKept(d, d', end, clusterSize, open[k], r, added, ret, e);
    OthersKept(d, d', end, clusterSize, open[k], r, added, ret, e);
    WriteStored(d, d', clusterSize, open, r, added, ret, e);
    var lost' := if ret == FAIL then lost + {k} else lost;
    if k !in lost' {
      assert Represents(d, k, open[k], files[k]);
      WriteRefines(d, d', clusterSize, k, pos, |r.data|, size, r.data, added, ret);
      assert r.data[..|r.data|] == r.data;
    }
    assert Matches(files, d, open, lost');
    OneFile(files, d, d', open, lost', r, e);
  }

  // ---------- Running requests ----------

  datatype State = State(disk: Disk, open: seq<Open>)

  ghost predicate AllStored(states: seq<State>) {
    forall s | s in states :: Stored(s.disk, s.open)
  }

  // The files of the requests that failed.
  ghost function Lost(states: seq<State>, clusterSize: nat, requests: seq<Request>): set<nat>
    requires 0 < clusterSize && AllStored(states) && |requests| <= |states|
  {
    set n | 0 <= n < |requests| && Fails(states[n].disk, states[n].open, clusterSize, requests[n]) :: requests[n].k
  }

  // The states before, between and after the first requests, and the files lost with them.
  ghost predicate Traced(states: seq<State>, clusterSize: nat, requests: seq<Request>, n: nat, lost: set<nat>) {
    && 0 < clusterSize && n <= |requests| && |states| == n + 1 && AllStored(states)
    && lost == Lost(states, clusterSize, requests[..n])
  }

  lemma TracedMore(states: seq<State>, clusterSize: nat, requests: seq<Request>, n: nat, lost: set<nat>, s: State,
                   lost': set<nat>)
    requires Traced(states, clusterSize, requests, n, lost) && n < |requests| && Stored(s.disk, s.open)
    requires lost' == if Fails(states[n].disk, states[n].open, clusterSize, requests[n]) then lost + {requests[n].k}
                      else lost
    ensures Traced(states + [s], clusterSize, requests, n + 1, lost')
  {
    var more, now := states + [s], requests[..n + 1];
    assert forall m | 0 <= m < n :: more[m] == states[m] && now[m] == requests[..n][m];
    assert more[n] == states[n] && now[n] == requests[n];
  }

  // Of the files not lost, the log says what plain files would have given.
  ghost predicate Logged(log: seq<seq<byte>>, flats: seq<FlatFile>, requests: seq<Request>, lost: set<nat>)
    requires Positioned(flats)
  {
    && |log| <= |requests|
    && forall n: nat | n < |log| && requests[n].k !in lost ::
         log[n] == FlatGot(FlatRun(flats, requests[..n]), requests[n])
  }

  lemma LogMore(log: seq<seq<byte>>, flats: seq<FlatFile>, requests: seq<Request>, lost: set<nat>, got: seq<byte>,
                lost': set<nat>)
    requires Positioned(flats) && Logged(log, flats, requests, lost) && |log| < |requests| && lost <= lost'
    requires requests[|log|].k !in lost ==> got == FlatGot(FlatRun(flats, requests[..|log|]), requests[|log|])
    ensures Logged(log + [got], flats, requests, lost')
  {
    var more := log + [got];
    forall n: nat | n < |more| && requests[n].k !in lost'
      ensures more[n] == FlatGot(FlatRun(flats, requests[..n]), requests[n])
    {
      if n < |log| {
        assert more[n] == log[n];
      } else {
        assert n == |log| && more[n] == got;
      }
    }
  }

  lemma FlatRunMore(flats: seq<FlatFile>, requests: seq<Request>, n: nat)
    requires Positioned(flats) && n < |requests|
    ensures FlatRun(flats, requests[..n + 1]) == FlatStep(FlatRun(flats, requests[..n]), requests[n])
  {
    assert requests[..n + 1][..n] == requests[..n];
  }

  class FileSystem {
    const volume: FatVolume
    const files: seq<FatFile>  // the open files, file `k` with chain `k`

    ghost function Opened(): (open: seq<Open>)
      reads files
      ensures |open| == |files|
      ensures forall k: nat | k < |files| :: open[k] == Open(files[k].fileSize, files[k].currentPos)
    {
      seq(|files|, k requires 0 <= k < |files| reads files => Open(files[k].fileSize, files[k].currentPos))
    }

    // All but one of the files are as they were.
    lemma OneMoved(open: seq<Open>, k: nat)
      requires |open| == |files| && k < |files|
      requires forall m: nat | m < |files| && m != k :: Open(files[m].fileSize, files[m].currentPos) == open[m]
      ensures Opened() == open[k := Open(files[k].fileSize, files[k].currentPos)]
    {
    }

    ghost predicate Valid()
      reads volume, volume.table.data, volume.device.sectors, files
    {
      && volume.Valid() && Stored(volume.Now(), Opened())
      && Distinct() && Started(volume.chains)
    }

    ghost predicate Distinct() {
      forall i, j | 0 <= i < j < |files| :: files[i] != files[j]
    }

    lemma Ready(k: nat)
      requires Valid() && k < |files|
      ensures k < |volume.chains| && files[k].startCluster == volume.chains[k][0]
      ensures files[k].currentPos <= files[k].fileSize < TWO_32 && files[k].currentPos < MAX_POSITION
      ensures Opened()[k] == Open(files[k].fileSize, files[k].currentPos)
    {
      assert Opened()[k] == Open(files[k].fileSize, files[k].currentPos);
    }

    lemma StillStarted(chains: seq<seq<nat>>, chains': seq<seq<nat>>)
      requires Started(chains) && SameStarts(chains, chains')
      ensures Started(chains')
    {
    }

    ghost predicate Started(chains: seq<seq<nat>>) {
      forall k: nat | k < |files| :: k < |chains| && chains[k] != [] && files[k].startCluster == chains[k][0]
    }

    // Are all files but the lost ones these plain ones?
    ghost predicate Holds(flats: seq<FlatFile>, lost: set<nat>)
      requires Valid()
      reads volume, volume.table.data, volume.device.sectors, files
    {
      Matches(flats, volume.Now(), Opened(), lost)
    }

    ghost function Now(): State
      requires Valid()
      reads volume, volume.table.data, volume.device.sectors, files
    {
      State(volume.Now(), Opened())
    }

    constructor (volume: FatVolume, files: seq<FatFile>)
      requires volume.Valid() && |files| == |volume.chains|
      requires forall i, j | 0 <= i < j < |files| :: files[i] != files[j]
      requires forall k: nat | k < |files| ::
                 && files[k].startCluster == volume.chains[k][0]
                 && files[k].currentPos <= files[k].fileSize < TWO_32 && files[k].currentPos < MAX_POSITION
      ensures Valid() && this.volume == volume && this.files == files
    {
      this.volume, this.files := volume, files;
    }

    // One request. `ok` is false exactly where a write fails; then its file is lost.
    method Perform(r: Request, ghost flats: seq<FlatFile>, ghost lost: set<nat>) returns (ok: bool, got: seq<byte>)
      requires Valid() && Holds(flats, lost)
      modifies files, volume, volume.table, volume.table.data, volume.device.sectors
      ensures Valid() && 0 < volume.clusterSize
      ensures ok <==> !Fails(old(volume.Now()), old(Opened()), volume.clusterSize, r)
      ensures Holds(FlatStep(flats, r), if ok then lost else lost + {r.k})
      ensures r.k !in lost ==> got == FlatGot(flats, r)
    {
      ok, got := true, [];
      volume.HasSize();
      if r.k < |files| && Admitted(r, |files|, files[r.k].fileSize, files[r.k].currentPos) {
        match r {
          case SeekTo(k, offset, origin) =>
            Seek(r, flats, lost);
          case ReadFrom(k, size) =>
            got := Read(r, flats, lost);
          case WriteTo(k, data) =>
            ok := Write(r, flats, lost);
        }
      } else {
        Refused(flats, volume.Now(), Opened(), lost, r);
      }
    }

    method Seek(r: Request, ghost flats: seq<FlatFile>, ghost lost: set<nat>)
      requires Valid() && Holds(flats, lost) && r.SeekTo? && Admits(Opened(), r)
      modifies files
      ensures Valid() && Holds(FlatStep(flats, r), lost)
    {
      ghost var open := Opened();
      Ready(r.k);
      var position := files[r.k].Seek(r.offset, r.origin);
      SeekStepRefines(flats, volume.Now(), open, lost, r, Open(files[r.k].fileSize, files[r.k].currentPos));
      OneMoved(open, r.k);
    }

    method Read(r: Request, ghost flats: seq<FlatFile>, ghost lost: set<nat>) returns (got: seq<byte>)
      requires Valid() && Holds(flats, lost) && r.ReadFrom? && Admits(Opened(), r)
      modifies files, volume, volume.table, volume.table.data, volume.device.sectors
      ensures Valid() && Holds(FlatStep(flats, r), lost) && (r.k !in lost ==> got == FlatGot(flats, r))
    {
      ghost var open, d := Opened(), volume.Now();
      Ready(r.k);
      var buffer := new byte[r.size](_ => 0);
      ghost var before := buffer[..];
      var ret := ReadIn(files[r.k], r, buffer);
      assert volume.Now() == d;
      ReadStepRefines(flats, d, open, lost, r, before, buffer[..], ret,
                      Open(files[r.k].fileSize, files[r.k].currentPos));
      got := buffer[..if ret == FAIL then 0 else ret];
    }

    method ReadIn(file: FatFile, r: Request, buffer: array<byte>) returns (ret: int)
      requires volume.Valid() && r.ReadFrom? && r.k < |files| && file == files[r.k] && r.k < |volume.chains|
      requires Distinct() && Started(volume.chains) && buffer.Length == r.size && buffer != volume.table.data
      requires file.currentPos <= file.fileSize && file.currentPos < MAX_POSITION
      requires Admitted(r, |files|, file.fileSize, file.currentPos)
      modifies file`currentPos, buffer, volume, volume.table, volume.table.data, volume.device.sectors
      ensures volume.Valid() && volume.Now() == old(volume.Now()) && file.currentPos < MAX_POSITION
      ensures ReadResult(volume.Now(), r.k, old(file.currentPos), r.size, file.fileSize, old(buffer[..]), buffer[..],
                         ret)
      ensures file.currentPos == old(file.currentPos) + (if ret == FAIL then 0 else ret)
      ensures Opened() == old(Opened())[r.k := Open(file.fileSize, file.currentPos)]
    {
      ghost var open := Opened();
      ret := volume.FatRead(file, buffer, r.size, r.k);
      forall m: nat | m < |files| && m != r.k
        ensures Open(files[m].fileSize, files[m].currentPos) == open[m]
      {
        assert files[m] != file;
      }
      OneMoved(open, r.k);
    }

    method Write(r: Request, ghost flats: seq<FlatFile>, ghost lost: set<nat>) returns (ok: bool)
      requires Valid() && Holds(flats, lost) && r.WriteTo? && Admits(Opened(), r)
      modifies files, volume, volume.table, volume.table.data, volume.device.sectors
      ensures Valid() && 0 < volume.clusterSize
      ensures ok <==> !Fails(old(volume.Now()), old(Opened()), volume.clusterSize, r)
      ensures Holds(FlatStep(flats, r), if ok then lost else lost + {r.k})
    {
      ghost var open, d := Opened(), volume.Now();
      Ready(r.k);
      volume.HasSize();
      var ret; ghost var added;
      ret, added := WriteOut(files[r.k], r);
      WriteStepRefines(flats, d, volume.Now(), volume.table.kind.EndMark(), volume.clusterSize, open, lost, r, added,
                       ret, Open(files[r.k].fileSize, files[r.k].currentPos));
      StillStarted(d.chains, volume.chains);
      ok := ret != FAIL;
    }

    method WriteOut(file: FatFile, r: Request) returns (ret: int, ghost added: seq<nat>)
      requires volume.Valid() && r.WriteTo? && r.k < |files| && file == files[r.k] && r.k < |volume.chains|
      requires Distinct() && Started(volume.chains)
      requires file.currentPos <= file.fileSize && file.currentPos + |r.data| < MAX_POSITION
      modifies file`currentPos, file`fileSize, volume, volume.table, volume.table.data, volume.device.sectors
      ensures volume.Valid()
      ensures Carried(old(volume.Now()), volume.Now(), volume.clusterSize,
                      Open(old(file.fileSize), old(file.currentPos)), r, added, ret,
                      Open(file.fileSize, file.currentPos))
      ensures Opened() == old(Opened())[r.k := Open(file.fileSize, file.currentPos)]
    {
      ghost var open := Opened();
      ret, added := Store(file, r);
      forall m: nat | m < |files| && m != r.k
        ensures Open(files[m].fileSize, files[m].currentPos) == open[m]
      {
        assert files[m] != file;
      }
      OneMoved(open, r.k);
    }

    method Store(file: FatFile, r: Request) returns (ret: int, ghost added: seq<nat>)
      requires volume.Valid() && r.WriteTo? && r.k < |volume.chains| && file.startCluster == volume.chains[r.k][0]
      requires file.currentPos <= file.fileSize && file.currentPos + |r.data| < MAX_POSITION
      modifies file`currentPos, file`fileSize, volume, volume.table, volume.table.data, volume.device.sectors
      ensures volume.Valid()
      ensures Carried(old(volume.Now()), volume.Now(), volume.clusterSize,
                      Open(old(file.fileSize), old(file.currentPos)), r, added, ret,
                      Open(file.fileSize, file.currentPos))
    {
      var buffer := new byte[|r.data|](i requires 0 <= i < |r.data| => r.data[i]);
      assert buffer[..] == r.data;
      var status;
      status, added, ret := volume.FatWrite(file, buffer, |r.data|, r.k);
      assert buffer[..] == r.data;
    }

    // Any sequence of requests on any files. A file is lost with its first write that fails. Of all other files, what
    // is read, what they hold, and where they are positioned afterwards is what plain files would give.
    method Run(requests: seq<Request>, ghost flats: seq<FlatFile>)
      returns (log: seq<seq<byte>>, ghost states: seq<State>, ghost lost: set<nat>)
      requires Valid() && Holds(flats, {})
      modifies files, volume, volume.table, volume.table.data, volume.device.sectors
      ensures Valid() && 0 < volume.clusterSize && |log| == |requests| && |states| == |requests| + 1
      ensures AllStored(states) && states[0] == old(Now()) && states[|requests|] == Now()
      ensures lost == Lost(states, volume.clusterSize, requests)
      ensures Holds(FlatRun(flats, requests), lost)
      ensures Logged(log, flats, requests, lost)
      // file by file, and request by request
      ensures forall k: nat | k < |files| && k !in lost ::
                var f := FlatRun(flats, requests)[k];
                && volume.Now().HasFile(k) && files[k].fileSize <= |volume.Now().Bytes(k)|
                && files[k].fileSize == |f.content| && files[k].currentPos == f.pos
                && volume.Now().Bytes(k)[..files[k].fileSize] == f.content
      ensures forall n: nat | n < |requests| && requests[n].k !in lost ::
                log[n] == FlatGot(FlatRun(flats, requests[..n]), requests[n])
    {
      log, states, lost := [], [Now()], {};
      volume.HasSize();
      for n := 0 to |requests|
        invariant Valid() && |log| == n && Traced(states, volume.clusterSize, requests, n, lost)
        invariant states[0] == old(Now()) && states[n] == Now()
        invariant Holds(FlatRun(flats, requests[..n]), lost)
        invariant Logged(log, flats, requests, lost)
      {
        var ok, got := Perform(requests[n], FlatRun(flats, requests[..n]), lost);
        ghost var lost' := if ok then lost else lost + {requests[n].k};
        TracedMore(states, volume.clusterSize, requests, n, lost, Now(), lost');
        LogMore(log, flats, requests, lost, got, lost');
        FlatRunMore(flats, requests, n);
        states, log, lost := states + [Now()], log + [got], lost';
      }
      assert requests[..|requests|] == requests;
      forall k: nat | k < |files| && k !in lost
        ensures Represents(volume.Now(), k, Opened()[k], FlatRun(flats, requests)[k])
      {
      }
    }
  }
}
