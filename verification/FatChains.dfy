/** Cluster chains of a file allocation table, on the table's entry values. `end` is the end mark. */
module FatChains {
  import opened FatTable

  // The entries lead through `path`; where they lead from its last cluster is left open.
  ghost predicate IsPath(fat: seq<nat>, path: seq<nat>) {
    && path != []
    && (forall i | 0 <= i < |path| :: 0 < path[i] < |fat|)
    && (forall i {:trigger fat[path[i]]} | 0 <= i < |path| - 1 :: fat[path[i]] == path[i + 1])
  }

  ghost predicate IsChain(fat: seq<nat>, end: nat, chain: seq<nat>) {
    IsPath(fat, chain) && fat[chain[|chain| - 1]] == end
  }

  ghost predicate Disjoint(a: seq<nat>, b: seq<nat>) {
    forall c | c in a :: c !in b
  }

  // The chains of the files: end-marked, disjoint, never through the reserved entry 0.
  ghost predicate WellFormed(fat: seq<nat>, end: nat, chains: seq<seq<nat>>) {
    && |fat| <= end && (fat != [] ==> fat[0] != FREE)
    && (forall k | 0 <= k < |chains| :: IsChain(fat, end, chains[k]))
    && (forall k, m | 0 <= k < |chains| && 0 <= m < |chains| && k != m :: Disjoint(chains[k], chains[m]))
  }

  // An end-marked chain visits no cluster twice.
  lemma {:induction false} Acyclic(fat: seq<nat>, end: nat, chain: seq<nat>, i: nat, j: nat)
    requires |fat| <= end && IsChain(fat, end, chain) && i < j < |chain|
    ensures chain[i] != chain[j]
    decreases |chain| - j
  {
    if j + 1 < |chain| {
      Acyclic(fat, end, chain, i + 1, j + 1);
    }
    assert fat[chain[i]] == chain[i + 1];
  }

  lemma NoRepeats(fat: seq<nat>, end: nat, chain: seq<nat>)
    requires |fat| <= end && IsChain(fat, end, chain)
    ensures forall i, j | 0 <= i < j < |chain| :: chain[i] != chain[j]
  {
    forall i, j | 0 <= i < j < |chain|
      ensures chain[i] != chain[j]
    {
      Acyclic(fat, end, chain, i, j);
    }
  }

  // No chain holds a free cluster.
  lemma ChainsAreUsed(fat: seq<nat>, end: nat, chain: seq<nat>)
    requires |fat| <= end && 0 < |fat| && IsChain(fat, end, chain)
    ensures forall c | c in chain :: fat[c] != FREE
  {
  }

  // ---------- Extending ----------

  // A free cluster is linked after position `i` of chain `k` and marked as its end.
  lemma LinkKeeps(fat: seq<nat>, end: nat, chains: seq<seq<nat>>, k: nat, i: nat, prev: nat, f: nat, longer: seq<nat>)
    requires WellFormed(fat, end, chains) && k < |chains| && i < |chains[k]|
    requires f < |fat| && fat[f] == FREE && prev == chains[k][i] && longer == chains[k][..i + 1] + [f]
    ensures prev < |fat| && f !in chains[k] && f != prev
    ensures WellFormed(fat[prev := f][f := end], end, chains[k := longer])
  {
    var linked := fat[prev := f][f := end];
    NoRepeats(fat, end, chains[k]);
    ChainsAreUsed(fat, end, chains[k]);
    assert IsChain(linked, end, longer) by {
      forall j | 0 <= j < |longer| - 1
        ensures linked[longer[j]] == longer[j + 1]
      {
        assert j < i ==> fat[chains[k][j]] == chains[k][j + 1];
      }
    }
    forall m | 0 <= m < |chains| && m != k
      ensures IsChain(linked, end, chains[m]) && Disjoint(chains[m], longer) && Disjoint(longer, chains[m])
    {
      ChainsAreUsed(fat, end, chains[m]);
      assert Disjoint(chains[k], chains[m]) && prev in chains[k];
      forall j | 0 <= j < |chains[m]| - 1
        ensures linked[chains[m][j]] == chains[m][j + 1]
      {
        assert chains[m][j] in chains[m];
        assert fat[chains[m][j]] == chains[m][j + 1];
      }
      assert chains[m][|chains[m]| - 1] in chains[m];
    }
  }

  // The free clusters from `from` on, in order.
  function FreeFrom(fat: seq<nat>, from: nat): seq<nat>
    requires from <= |fat|
    decreases |fat| - from
  {
    if from == |fat| then []
    else if fat[from] == FREE then [from] + FreeFrom(fat, from + 1) else FreeFrom(fat, from + 1)
  }

  // It lists exactly the free clusters, in ascending order.
  lemma {:induction false} FreeListed(fat: seq<nat>, from: nat)
    requires from <= |fat|
    ensures forall c | from <= c < |fat| && fat[c] == FREE :: c in FreeFrom(fat, from)
    ensures forall k | 0 <= k < |FreeFrom(fat, from)| ::
              from <= FreeFrom(fat, from)[k] < |fat| && fat[FreeFrom(fat, from)[k]] == FREE
    ensures forall a, b | 0 <= a < b < |FreeFrom(fat, from)| :: FreeFrom(fat, from)[a] < FreeFrom(fat, from)[b]
    decreases |fat| - from
  {
    if from < |fat| {
      FreeListed(fat, from + 1);
    }
  }

  function Free(fat: seq<nat>): seq<nat> {
    FreeFrom(fat, 0)
  }

  lemma {:induction false} NoneFree(fat: seq<nat>, from: nat)
    requires FREE !in fat && from <= |fat|
    ensures FreeFrom(fat, from) == []
    decreases |fat| - from
  {
    if from < |fat| {
      NoneFree(fat, from + 1);
    }
  }

  // Taking the lowest free cluster into use, and changing an entry that is not free, leaves the rest free.
  lemma {:induction false} TakeLowest(fat: seq<nat>, fat': seq<nat>, next: nat, from: nat)
    requires |fat'| == |fat| && from <= |fat| && next < |fat|
    requires fat[next] == FREE && fat'[next] != FREE && FREE !in fat[..next]
    requires forall c | 0 <= c < |fat| && c != next :: fat[c] == FREE <==> fat'[c] == FREE
    ensures FreeFrom(fat, from) == if from <= next then [next] + FreeFrom(fat', from) else FreeFrom(fat', from)
    decreases |fat| - from
  {
    if from < |fat| {
      TakeLowest(fat, fat', next, from + 1);
      assert from < next ==> fat[from] in fat[..next];
    }
  }

  // (`fat`, `chains`) is (`fat0`, `chains0`) after free clusters, the lowest ones in order, were `added` behind
  // position `i` of chain `k`; no other entry has changed.
  ghost predicate Extended(fat0: seq<nat>, chains0: seq<seq<nat>>, k: nat, i: nat, added: seq<nat>,
                           fat: seq<nat>, chains: seq<seq<nat>>)
  {
    && k < |chains0| && i < |chains0[k]| && |fat| == |fat0|
    && (forall c | 0 <= c < |fat| && c !in added && (added == [] || c != chains0[k][i]) :: fat[c] == fat0[c])
    && (forall c | c in added :: c < |fat0| && fat0[c] == FREE) && Free(fat0) == added + Free(fat)
    && chains == if added == [] then chains0 else chains0[k := chains0[k][..i + 1] + added]
  }

  ghost function LastLinked(chains0: seq<seq<nat>>, k: nat, i: nat, added: seq<nat>): nat
    requires k < |chains0| && i < |chains0[k]|
  {
    if added == [] then chains0[k][i] else added[|added| - 1]
  }

  // One more cluster: `more` is `added` with `next`, linked behind the last one and marked as the end.
  lemma ExtendStep(end: nat, fat0: seq<nat>, chains0: seq<seq<nat>>, k: nat, i: nat, added: seq<nat>,
                   fat: seq<nat>, chains: seq<seq<nat>>, next: nat, more: seq<nat>)
    requires Extended(fat0, chains0, k, i, added, fat, chains) && WellFormed(fat, end, chains)
    requires next < |fat| && fat[next] == FREE && FREE !in fat[..next] && more == added + [next]
    ensures var last := LastLinked(chains0, k, i, added);
            && last < |fat|
            && WellFormed(fat[last := next][next := end], end, chains0[k := chains0[k][..i + 1] + more])
            && Extended(fat0, chains0, k, i, more, fat[last := next][next := end],
                        chains0[k := chains0[k][..i + 1] + more])
  {
    var last, grown := LastLinked(chains0, k, i, added), chains0[k][..i + 1] + more;
    Behind(chains0[k], i, added, chains[k], next, more);
    LinkKeeps(fat, end, chains, k, i + |added|, last, next, grown);
    assert chains[k := grown] == chains0[k := grown];
    ChainsAreUsed(fat, end, chains[k]);
    TakeLowest(fat, fat[last := next][next := end], next, 0);
    ExtendedMore(fat0, chains0, k, i, added, fat, chains, last, next, end, more);
  }

  lemma ExtendedMore(fat0: seq<nat>, chains0: seq<seq<nat>>, k: nat, i: nat, added: seq<nat>,
                     fat: seq<nat>, chains: seq<seq<nat>>, last: nat, next: nat, end: nat, more: seq<nat>)
    requires Extended(fat0, chains0, k, i, added, fat, chains) && 0 < next < |fat| && last < |fat| && 0 < end
    requires fat[next] == FREE && more == added + [next] && next !in added && last == LastLinked(chains0, k, i, added)
    requires next != chains0[k][i] && Free(fat) == [next] + Free(fat[last := next][next := end])
    ensures Extended(fat0, chains0, k, i, more, fat[last := next][next := end],
                     chains0[k := chains0[k][..i + 1] + more])
  {
  }

  // The extended chain holds what was added, as its end, and what it is with one more.
  lemma Behind(chain0: seq<nat>, i: nat, added: seq<nat>, chain: seq<nat>, next: nat, more: seq<nat>)
    requires i < |chain0| && chain == (if added == [] then chain0 else chain0[..i + 1] + added)
    requires more == added + [next]
    ensures i + |added| < |chain| && chain0[i] in chain && forall c | c in added :: c in chain
    ensures chain[i + |added|] == if added == [] then chain0[i] else added[|added| - 1]
    ensures chain[..i + |added| + 1] + [next] == chain0[..i + 1] + more
  {
  }

  // The last cluster added is marked as the end already.
  lemma ExtendedEnd(end: nat, fat0: seq<nat>, chains0: seq<seq<nat>>, k: nat, i: nat, added: seq<nat>,
                    fat: seq<nat>, chains: seq<seq<nat>>)
    requires Extended(fat0, chains0, k, i, added, fat, chains) && WellFormed(fat, end, chains) && added != []
    ensures LastLinked(chains0, k, i, added) < |fat| && fat[LastLinked(chains0, k, i, added) := end] == fat
  {
    assert IsChain(fat, end, chains[k]);
  }

  // ---------- The extension loop as written ----------

  // The lowest free cluster, or |fat|.
  function LowestFree(fat: seq<nat>, from: nat): (c: nat)
    requires from <= |fat|
    ensures from <= c <= |fat| && (c < |fat| ==> fat[c] == FREE)
    ensures forall i | from <= i < c :: fat[i] != FREE
    decreases |fat| - from
  {
    if from == |fat| || fat[from] == FREE then from else LowestFree(fat, from + 1)
  }

  // The loop as written: a cluster is linked but not marked before the next one is searched for.
  function ExtendUnmarked(fat: seq<nat>, end: nat, prev: nat, n: nat): (r: seq<nat>)
    requires prev < |fat|
    ensures |r| == |fat| || r == []
    decreases n
  {
    if n == 0 then fat[prev := end]
    else
      var f := LowestFree(fat, 0);
      if f == |fat| then [] else ExtendUnmarked(fat[prev := f], end, f, n - 1)
  }

  // Every other search finds the cluster just linked again, so only half of them are added.
  lemma {:induction false} ExtendUnmarkedHalves(fat: seq<nat>, end: nat, path: seq<nat>, n: nat)
    returns (added: seq<nat>)
    requires |fat| <= end && IsPath(fat, path) && fat[0] != FREE && fat[path[|path| - 1]] != FREE
    requires forall i, j | 0 <= i < j < |path| :: path[i] != path[j]
    requires forall c | c in path :: fat[c] != FREE
    requires ExtendUnmarked(fat, end, path[|path| - 1], n) != []
    ensures |added| == (n + 1) / 2 && (|added| == n <==> n <= 1)
    ensures IsChain(ExtendUnmarked(fat, end, path[|path| - 1], n), end, path + added)
    decreases n
  {
    var prev := path[|path| - 1];
    if n == 0 {
      added := [];
      assert path + added == path;
    } else {
      var f := LowestFree(fat, 0);
      var once := fat[prev := f];
      assert f !in path;
      if n == 1 {
        added := [f];
        assert ExtendUnmarked(once, end, f, 0) == once[f := end];
      } else {
        SameLowest(fat, prev, f);
        var twice := once[f := f];
        PathLinked(fat, path, f, twice);
        var rest := ExtendUnmarkedHalves(twice, end, path + [f], n - 2);
        added := [f] + rest;
        assert path + added == path + [f] + rest;
      }
    }
  }

  lemma PathLinked(fat: seq<nat>, path: seq<nat>, f: nat, twice: seq<nat>)
    requires IsPath(fat, path) && f < |fat| && 0 < f && f !in path
    requires twice == fat[path[|path| - 1] := f][f := f]
    requires forall i, j | 0 <= i < j < |path| :: path[i] != path[j]
    requires forall c | c in path :: fat[c] != FREE
    ensures IsPath(twice, path + [f])
    ensures forall i, j | 0 <= i < j < |path + [f]| :: (path + [f])[i] != (path + [f])[j]
    ensures forall c | c in path + [f] :: twice[c] != FREE
  {
    var longer := path + [f];
    forall i | 0 <= i < |longer| - 1
      ensures twice[longer[i]] == longer[i + 1]
    {
      assert i < |path| - 1 ==> fat[path[i]] == path[i + 1];
    }
  }

  // Asked for two more clusters, it finds cluster 2 twice.
  lemma ExtendUnmarkedAt()
    ensures ExtendUnmarked([15, 15, 0, 0], 15, 1, 2) == [15, 2, 15, 0]
  {
    var once := [15, 15, 0, 0][1 := 2];
    assert LowestFree([15, 15, 0, 0], 2) == LowestFree([15, 15, 0, 0], 1) == LowestFree([15, 15, 0, 0], 0) == 2;
    assert LowestFree(once, 2) == LowestFree(once, 1) == LowestFree(once, 0) == 2;
    assert ExtendUnmarked(once[2 := 2], 15, 2, 0) == [15, 2, 15, 0];
    assert ExtendUnmarked(once, 15, 2, 1) == ExtendUnmarked(once[2 := 2], 15, 2, 0);
  }

  lemma SameLowest(fat: seq<nat>, prev: nat, f: nat)
    requires prev < |fat| && fat[prev] != FREE && 0 < f < |fat| && f == LowestFree(fat, 0)
    ensures LowestFree(fat[prev := f], 0) == f
  {
    assert fat[prev := f][f] == FREE;
  }
}
