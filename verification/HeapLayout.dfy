/** The kernel heap as a value: which headers lie where, which of them the list starting at
    the heap base reaches, and what splitting, appending and merging items does to them. */
module HeapLayout {

  const HEADER_SIZE: nat := 12

  // A list item's header. `next` is 0 at the end of the list.
  datatype Header = Header(next: nat, size: nat, used: bool)

  /** `items` holds the addresses of all items in address order; the list starting at the
      heap base reaches the first `linked` of them. */
  datatype Layout = Layout(header: map<nat, Header>, items: seq<nat>, linked: nat, top: nat) {

    // Where the space of item `i` ends.
    ghost function End(i: nat): nat
      requires i < |items|
    {
      if i + 1 < |items| then items[i + 1] else top
    }

    // The item that the list reaches after item `i`.
    ghost function Next(i: nat): nat
      requires i < linked <= |items|
    {
      if i + 1 < linked then items[i + 1] else 0
    }

    ghost predicate HasHeaders() {
      forall a | a in items :: a in header
    }

    ghost predicate Used(i: nat)
      requires HasHeaders() && i < |items|
    {
      header[items[i]].used
    }

    ghost function Size(i: nat): nat
      requires HasHeaders() && i < |items|
    {
      header[items[i]].size
    }

    ghost predicate Packed() {
      HasHeaders() && forall i: nat {:trigger End(i)} | i < |items| :: items[i] + HEADER_SIZE + Size(i) <= End(i)
    }

    ghost predicate Linked() {
      && HasHeaders() && linked <= |items|
      && forall i: nat {:trigger Next(i)} | i < linked :: header[items[i]].next == Next(i)
    }

    // Everything but the coalescing.
    ghost predicate Structured(base: nat) {
      && 0 < base && Packed() && Linked()
      && (top == 0 <==> items == [])
      && (items != [] ==> items[0] == base && 0 < linked)
    }

    ghost predicate FreePair(i: nat)
      requires HasHeaders() && i + 1 < linked <= |items|
    {
      !Used(i) && !Used(i + 1)
    }

    // No two neighbours among the first `n` + 1 linked items are both free.
    ghost predicate Settled(n: nat)
      requires HasHeaders() && linked <= |items|
    {
      forall i: nat {:trigger FreePair(i)} | i < n && i + 1 < linked :: !FreePair(i)
    }

    ghost predicate Valid(base: nat) {
      Structured(base) && Settled(linked)
    }

    // Every item's payload runs up to the next header.
    ghost predicate Exact() {
      HasHeaders() && forall i: nat {:trigger End(i)} | i < |items| :: items[i] + HEADER_SIZE + Size(i) == End(i)
    }

    // The blocks handed out and not yet freed, with the sizes asked for.
    ghost function Live(): map<nat, nat>
      requires HasHeaders()
    {
      map a | a in items && header[a].used :: header[a].size
    }

    // Can item `i` be split into a block of `total` bytes, header included, and a free rest?
    ghost predicate Fits(i: nat, total: nat)
      requires HasHeaders() && i < |items|
    {
      !Used(i) && total <= Size(i)
    }

    // Item `i` is the first linked one that fits; `i` == `linked` if none does.
    ghost predicate FirstFit(i: nat, total: nat)
      requires HasHeaders() && linked <= |items|
    {
      && i <= linked && (i < linked ==> Fits(i, total))
      && forall k: nat | k < i :: !Fits(k, total)
    }

    // What the first `n` items take up, headers included.
    ghost function Weight(n: nat): nat
      requires HasHeaders() && n <= |items|
    {
      if n == 0 then 0 else Weight(n - 1) + HEADER_SIZE + Size(n - 1)
    }

    // ---------- The changes the allocator makes ----------

    ghost function Split(i: nat, total: nat, size: nat): Layout
      requires HasHeaders() && i < linked <= |items| && total <= Size(i)
    {
      var rest := items[i] + total;
      Layout(header[rest := Header(header[items[i]].next, Size(i) - total, false)]
                   [items[i] := Header(rest, size, true)],
             items[..i + 1] + [rest] + items[i + 1..], linked + 1, top)
    }

    ghost function MarkFree(i: nat): Layout
      requires HasHeaders() && i < |items|
    {
      this.(header := header[items[i] := header[items[i]].(used := false)])
    }

    ghost function Merge(i: nat): Layout
      requires HasHeaders() && i + 1 < linked <= |items|
    {
      Layout(header[items[i] := Header(header[items[i + 1]].next, Size(i) + HEADER_SIZE + Size(i + 1),
                                       header[items[i]].used)],
             items[..i + 1] + items[i + 2..], linked - 1, top)
    }
  }

  // What the first fit is, on the headers: an item that fits exactly fits.
  lemma FirstFitOnHeaders(s: Layout, at: nat, total: nat)
    requires s.HasHeaders() && s.linked <= |s.items| && s.FirstFit(at, total)
    ensures forall j | 0 <= j < at :: s.header[s.items[j]].used || s.header[s.items[j]].size < total
    ensures at < s.linked ==> !s.header[s.items[at]].used && total <= s.header[s.items[at]].size
  {
    forall j: nat | j < at
      ensures s.header[s.items[j]].used || s.header[s.items[j]].size < total
    {
      assert !s.Fits(j, total);
    }
  }

  // ---------- Consequences of a packed layout ----------

  lemma {:induction false} Ordered(s: Layout, i: nat, j: nat)
    requires s.Packed() && i < j < |s.items|
    ensures s.items[i] + HEADER_SIZE + s.Size(i) <= s.items[j]
    decreases j - i
  {
    assert s.items[i] + HEADER_SIZE + s.Size(i) <= s.End(i);
    if i + 1 < j {
      Ordered(s, i + 1, j);
    }
  }

  lemma {:induction false} BelowTop(s: Layout, i: nat)
    requires s.Packed() && i < |s.items|
    ensures s.items[i] + HEADER_SIZE + s.Size(i) <= s.top
  {
    var last := |s.items| - 1;
    assert s.items[last] + HEADER_SIZE + s.Size(last) <= s.End(last);
    if i < last {
      Ordered(s, i, last);
    }
  }

  lemma Distinct(s: Layout)
    requires s.Packed()
    ensures forall i: nat, j: nat | i < j < |s.items| :: s.items[i] < s.items[j]
  {
    forall i: nat, j: nat | i < j < |s.items|
      ensures s.items[i] < s.items[j]
    {
      Ordered(s, i, j);
    }
  }

  lemma Positive(s: Layout, base: nat)
    requires s.Structured(base)
    ensures forall i: nat | i < |s.items| :: s.items[i] >= base > 0
  {
    Distinct(s);
  }

  // Live payloads never overlap, and never overlap a header.
  lemma PayloadsDisjoint(s: Layout, a: nat, b: nat)
    requires s.Packed() && a in s.Live() && b in s.items && a != b
    ensures a + HEADER_SIZE + s.header[a].size <= b || b + HEADER_SIZE + s.header[b].size <= a
  {
    var i :| 0 <= i < |s.items| && s.items[i] == a;
    var j :| 0 <= j < |s.items| && s.items[j] == b;
    if i < j {
      Ordered(s, i, j);
    } else {
      Ordered(s, j, i);
    }
  }

  // From `s` to `t` nothing but item headers was written.
  ghost predicate WritesHeadersOnly(s: Layout, t: Layout) {
    forall a | a in t.header && (a !in s.header || s.header[a] != t.header[a]) :: a in s.items || a in t.items
  }

  // No payload of a block that is live before and after is written to.
  lemma PayloadsUntouched(s: Layout, t: Layout, a: nat, b: nat)
    requires s.Packed() && t.Packed() && WritesHeadersOnly(s, t)
    requires a in t.header && (a !in s.header || s.header[a] != t.header[a])
    requires b in s.Live() && b in t.Live() && s.Live()[b] == t.Live()[b]
    ensures a + HEADER_SIZE <= b + HEADER_SIZE || b + HEADER_SIZE + t.Live()[b] <= a
  {
    if a != b {
      if a in s.items {
        PayloadsDisjoint(s, b, a);
      } else {
        PayloadsDisjoint(t, b, a);
      }
    }
  }

  // `t` is `s` with a block of `size` bytes handed out at `address`, and nothing else disturbed.
  ghost predicate Allocated(s: Layout, t: Layout, size: nat, address: nat) {
    && s.HasHeaders() && t.HasHeaders() && HEADER_SIZE <= address
    && address - HEADER_SIZE !in s.Live() && t.Live() == s.Live()[address - HEADER_SIZE := size]
    && WritesHeadersOnly(s, t)
    && (t.Packed() ==> (t.Exact() <==> s.Exact() && size % 8 == 0))
  }

  // ---------- Each change keeps the layout ----------

  // The items after splitting item `i`, one by one.
  lemma SplitItem(s: Layout, i: nat, total: nat, size: nat, k: nat)
    requires s.Packed() && i < s.linked <= |s.items| && HEADER_SIZE <= total <= s.Size(i) && k <= |s.items|
    ensures var t := s.Split(i, total, size);
            && |t.items| == |s.items| + 1 && t.items[k] in t.header
            && (k < i ==> t.items[k] == s.items[k] && t.header[t.items[k]] == s.header[s.items[k]])
            && (k == i ==> t.items[k] == s.items[i] && t.header[t.items[k]] == Header(s.items[i] + total, size, true))
            && (k == i + 1 ==>
                  && t.items[k] == s.items[i] + total
                  && t.header[t.items[k]] == Header(s.header[s.items[i]].next, s.Size(i) - total, false))
            && (k > i + 1 ==> t.items[k] == s.items[k - 1] && t.header[t.items[k]] == s.header[s.items[k - 1]])
  {
    assert s.items[i] + HEADER_SIZE + s.Size(i) <= s.End(i);
    if k < i {
      Ordered(s, k, i);
    } else if k > i + 1 {
      Ordered(s, i, k - 1);
    }
  }

  lemma SplitPacked(s: Layout, i: nat, total: nat, size: nat)
    requires s.Packed() && i < s.linked <= |s.items| && size + HEADER_SIZE <= total <= s.Size(i)
    ensures s.Split(i, total, size).Packed()
    ensures s.Split(i, total, size).Exact() <==> s.Exact() && total == size + HEADER_SIZE
  {
    var t := s.Split(i, total, size);
    forall k: nat | k < |t.items|
      ensures t.items[k] in t.header && t.items[k] + HEADER_SIZE + t.Size(k) <= t.End(k)
      ensures s.Exact() && total == size + HEADER_SIZE ==> t.items[k] + HEADER_SIZE + t.Size(k) == t.End(k)
    {
      assert k < |s.items| ==> s.items[k] + HEADER_SIZE + s.Size(k) <= s.End(k);
      assert 0 < k ==> s.items[k - 1] + HEADER_SIZE + s.Size(k - 1) <= s.End(k - 1);
      SplitItem(s, i, total, size, k);
      if k + 1 < |t.items| {
        SplitItem(s, i, total, size, k + 1);
      }
    }
    if t.Exact() {
      SplitExactBefore(s, i, total, size);
    }
  }

  lemma SplitExactBefore(s: Layout, i: nat, total: nat, size: nat)
    requires s.Packed() && i < s.linked <= |s.items| && size + HEADER_SIZE <= total <= s.Size(i)
    requires s.Split(i, total, size).Exact()
    ensures s.Exact() && total == size + HEADER_SIZE
  {
    var t := s.Split(i, total, size);
    SplitItem(s, i, total, size, i);
    assert t.items[i] + HEADER_SIZE + t.Size(i) == t.End(i);
    forall k: nat | k < |s.items|
      ensures s.items[k] + HEADER_SIZE + s.Size(k) == s.End(k)
    {
      var j := if k < i then k else k + 1;
      assert t.items[j] + HEADER_SIZE + t.Size(j) == t.End(j);
      SplitItem(s, i, total, size, j);
      if j + 1 < |t.items| {
        SplitItem(s, i, total, size, j + 1);
      }
    }
  }

  // A block that is larger than what is cut off for it reaches into the rest behind it.
  lemma SplitBroken(s: Layout, i: nat, total: nat, size: nat)
    requires s.HasHeaders() && i < s.linked <= |s.items| && 0 < total <= s.Size(i) && total < size + HEADER_SIZE
    ensures !s.Split(i, total, size).Packed()
  {
    var t := s.Split(i, total, size);
    assert t.items[i] == s.items[i] && t.items[i + 1] == s.items[i] + total;
    assert t.HasHeaders() ==> t.items[i] + HEADER_SIZE + t.Size(i) > t.End(i);
  }

  lemma SplitLinked(s: Layout, i: nat, total: nat, size: nat)
    requires s.Packed() && s.Linked() && s.Settled(s.linked) && i < s.linked && !s.Used(i)
    requires size + HEADER_SIZE <= total <= s.Size(i)
    ensures s.Split(i, total, size).Packed() && s.Split(i, total, size).Linked()
    ensures s.Split(i, total, size).Settled(s.linked + 1)
  {
    var t := s.Split(i, total, size);
    SplitPacked(s, i, total, size);
    forall k: nat | k < t.linked
      ensures t.header[t.items[k]].next == t.Next(k)
      ensures k + 1 < t.linked ==> !t.FreePair(k)
    {
      SplitItem(s, i, total, size, k);
      if k + 1 < t.linked {
        SplitItem(s, i, total, size, k + 1);
      }
      assert k < s.linked ==> s.header[s.items[k]].next == s.Next(k);
      assert 0 < k ==> s.header[s.items[k - 1]].next == s.Next(k - 1);
      assert k + 1 < s.linked ==> !s.FreePair(k);
      assert 0 < k < s.linked ==> !s.FreePair(k - 1);
    }
  }

  lemma SplitLive(s: Layout, i: nat, total: nat, size: nat)
    requires s.Packed() && i < s.linked <= |s.items| && !s.Used(i)
    requires size + HEADER_SIZE <= total <= s.Size(i)
    ensures s.Split(i, total, size).HasHeaders()
    ensures s.items[i] !in s.Live() && s.Split(i, total, size).Live() == s.Live()[s.items[i] := size]
  {
    var t := s.Split(i, total, size);
    SplitPacked(s, i, total, size);
    forall k: nat | k < |t.items|
      ensures t.header[t.items[k]].used ==> t.items[k] in s.Live()[s.items[i] := size]
      ensures t.header[t.items[k]].used ==> t.header[t.items[k]].size == s.Live()[s.items[i] := size][t.items[k]]
    {
      SplitItem(s, i, total, size, k);
      Distinct(s);
    }
    forall k: nat | k < |s.items|
      ensures s.items[k] in t.items
      ensures k != i ==> s.header[s.items[k]] == t.header[s.items[k]]
    {
      SplitItem(s, i, total, size, if k <= i then k else k + 1);
    }
    SplitItem(s, i, total, size, i);
  }

  lemma SplitKeeps(s: Layout, base: nat, i: nat, total: nat, size: nat)
    requires s.Valid(base) && i < s.linked && s.Fits(i, total) && size + HEADER_SIZE <= total
    requires size % 8 == 0 <==> total == size + HEADER_SIZE
    ensures s.Split(i, total, size).Valid(base)
    ensures Allocated(s, s.Split(i, total, size), size, s.items[i] + HEADER_SIZE)
    ensures s.Split(i, total, size).Weight(s.linked + 1) + (total - HEADER_SIZE - size) == s.Weight(s.linked)
  {
    SplitWeight(s, i, total, size, s.linked);
    SplitPacked(s, i, total, size);
    assert s.Split(i, total, size).items[i + 1] == s.items[i] + total;
    SplitLinked(s, i, total, size);
    SplitLive(s, i, total, size);
    SplitItem(s, i, total, size, 0);
  }

  // ---------- Growing ----------

  // Where the space added next begins.
  function Start(base: nat, top: nat): nat {
    if top == 0 then base else top
  }

  // The layout after the fresh region up to `newTop` is cut into a used and a free item.
  // Without `link` the list's old tail keeps its null link.
  ghost function Grow(s: Layout, base: nat, newTop: nat, total: nat, size: nat, leftover: nat, link: bool): Layout
    requires s.Structured(base)
    requires link ==> s.linked == |s.items|
  {
    var start := Start(base, s.top);
    var rest := start + total;
    var joined := if link && s.items != [] then
                    s.header[s.items[s.linked - 1] := s.header[s.items[s.linked - 1]].(next := start)]
                  else s.header;
    Layout(joined[start := Header(rest, size, true)][rest := Header(0, leftover, false)],
           s.items + [start, rest], if s.items == [] || link then s.linked + 2 else s.linked, newTop)
  }

  lemma GrowItem(s: Layout, base: nat, newTop: nat, total: nat, size: nat, leftover: nat, link: bool, k: nat)
    requires s.Structured(base) && (link ==> s.linked == |s.items|)
    requires HEADER_SIZE <= total && k < |s.items| + 2
    ensures var t := Grow(s, base, newTop, total, size, leftover, link); var n := |s.items|;
            && t.items[k] in t.header
            && (k < n ==> t.items[k] == s.items[k] && t.Size(k) == s.Size(k) && t.Used(k) == s.Used(k))
            && (k < n && !(link && k + 1 == n) ==> t.header[t.items[k]] == s.header[s.items[k]])
            && (link && k + 1 == n ==> t.header[t.items[k]].next == Start(base, s.top))
            && (k == n ==>
                  && t.items[k] == Start(base, s.top)
                  && t.header[t.items[k]] == Header(Start(base, s.top) + total, size, true))
            && (k == n + 1 ==>
                  && t.items[k] == Start(base, s.top) + total
                  && t.header[t.items[k]] == Header(0, leftover, false))
  {
    Distinct(s);
    if k < |s.items| {
      BelowTop(s, k);
    }
  }

  lemma GrowPacked(s: Layout, base: nat, newTop: nat, total: nat, size: nat, leftover: nat, link: bool)
    requires s.Structured(base) && (link ==> s.linked == |s.items|) && HEADER_SIZE + size <= total
    ensures var t, rest := Grow(s, base, newTop, total, size, leftover, link), Start(base, s.top) + total;
            && (t.Packed() <==> rest + HEADER_SIZE + leftover <= newTop)
            && (t.Exact() <==> s.Exact() && HEADER_SIZE + size == total && rest + HEADER_SIZE + leftover == newTop)
  {
    var t := Grow(s, base, newTop, total, size, leftover, link);
    var n := |s.items|;
    forall k: nat | k < |t.items|
      ensures t.items[k] in t.header
      ensures k < n ==> s.End(k) == t.End(k) && t.items[k] == s.items[k] && t.Size(k) == s.Size(k)
      ensures k < n ==> s.items[k] + HEADER_SIZE + s.Size(k) <= s.End(k)
    {
      assert k < n ==> s.items[k] + HEADER_SIZE + s.Size(k) <= s.End(k);
      GrowItem(s, base, newTop, total, size, leftover, link, k);
      if k + 1 < |t.items| {
        GrowItem(s, base, newTop, total, size, leftover, link, k + 1);
      }
    }
    GrowItem(s, base, newTop, total, size, leftover, link, n);
    GrowItem(s, base, newTop, total, size, leftover, link, n + 1);
    assert t.End(n) == Start(base, s.top) + total && t.End(n + 1) == newTop;
    GrowExact(s, t, n);
  }

  // Exactness of a layout with two more items than another one and the same ends otherwise.
  lemma GrowExact(s: Layout, t: Layout, n: nat)
    requires s.HasHeaders() && t.HasHeaders() && |s.items| == n && |t.items| == n + 2
    requires forall k: nat {:trigger s.End(k)} {:trigger t.End(k)} | k < n ::
               s.End(k) == t.End(k) && t.items[k] == s.items[k] && t.Size(k) == s.Size(k)
    ensures t.Exact() <==>
            && s.Exact() && t.items[n] + HEADER_SIZE + t.Size(n) == t.End(n)
            && t.items[n + 1] + HEADER_SIZE + t.Size(n + 1) == t.End(n + 1)
  {
    if t.Exact() {
      assert t.items[n] + HEADER_SIZE + t.Size(n) == t.End(n);
      assert t.items[n + 1] + HEADER_SIZE + t.Size(n + 1) == t.End(n + 1);
    }
  }

  lemma GrowBroken(s: Layout, base: nat, newTop: nat, total: nat, size: nat, leftover: nat, link: bool)
    requires s.Structured(base) && (link ==> s.linked == |s.items|) && 0 < total < HEADER_SIZE + size
    ensures !Grow(s, base, newTop, total, size, leftover, link).Packed()
  {
    var t, n := Grow(s, base, newTop, total, size, leftover, link), |s.items|;
    assert t.items[n] == Start(base, s.top) && t.items[n + 1] == Start(base, s.top) + total;
    assert t.HasHeaders() ==> t.items[n] + HEADER_SIZE + t.Size(n) > t.End(n);
  }

  lemma GrowLinked(s: Layout, base: nat, newTop: nat, total: nat, size: nat, leftover: nat, link: bool)
    requires s.Valid(base) && (link ==> s.linked == |s.items|) && HEADER_SIZE + size <= total
    ensures var t := Grow(s, base, newTop, total, size, leftover, link);
            t.Linked() && t.Settled(t.linked)
  {
    var t := Grow(s, base, newTop, total, size, leftover, link);
    forall k: nat | k < |t.items|
      ensures t.items[k] in t.header
      ensures k < t.linked ==> t.header[t.items[k]].next == t.Next(k)
      ensures k < t.linked && k + 1 < t.linked ==> !t.FreePair(k)
    {
      assert k < s.linked ==> s.header[s.items[k]].next == s.Next(k);
      assert k < s.linked && k + 1 < s.linked ==> !s.FreePair(k);
      GrowItem(s, base, newTop, total, size, leftover, link, k);
      if k + 1 < |t.items| {
        GrowItem(s, base, newTop, total, size, leftover, link, k + 1);
      }
    }
  }

  lemma GrowLive(s: Layout, base: nat, newTop: nat, total: nat, size: nat, leftover: nat, link: bool)
    requires s.Structured(base) && (link ==> s.linked == |s.items|) && HEADER_SIZE <= total
    ensures Grow(s, base, newTop, total, size, leftover, link).HasHeaders()
    ensures Start(base, s.top) !in s.Live()
    ensures Grow(s, base, newTop, total, size, leftover, link).Live() == s.Live()[Start(base, s.top) := size]
  {
    var t := Grow(s, base, newTop, total, size, leftover, link);
    forall k: nat | k < |t.items|
      ensures t.items[k] in t.header
      ensures k < |s.items| ==> t.items[k] == s.items[k] && t.Size(k) == s.Size(k) && t.Used(k) == s.Used(k)
      ensures k < |s.items| ==> s.items[k] < Start(base, s.top)
    {
      GrowItem(s, base, newTop, total, size, leftover, link, k);
      if k < |s.items| {
        BelowTop(s, k);
      }
    }
    GrowItem(s, base, newTop, total, size, leftover, link, |s.items|);
    GrowItem(s, base, newTop, total, size, leftover, link, |s.items| + 1);
    TwoMoreLive(s, t, Start(base, s.top), size);
  }

  // Two more items, of which the first is used.
  lemma TwoMoreLive(s: Layout, t: Layout, start: nat, size: nat)
    requires s.HasHeaders() && t.HasHeaders() && |t.items| == |s.items| + 2
    requires forall k: nat | k < |s.items| ::
               t.items[k] == s.items[k] && t.Size(k) == s.Size(k) && t.Used(k) == s.Used(k) && s.items[k] < start
    requires t.items[|s.items|] == start && t.Used(|s.items|) && t.Size(|s.items|) == size && !t.Used(|s.items| + 1)
    ensures start !in s.Live() && t.Live() == s.Live()[start := size]
  {
    forall a | a in s.Live()
      ensures a in t.Live() && t.Live()[a] == s.Live()[a]
    {
      var k: nat :| k < |s.items| && s.items[k] == a;
      assert t.items[k] == a && t.Used(k);
    }
    forall a | a in t.Live()
      ensures a == start || a in s.Live()
    {
      var k: nat :| k < |t.items| && t.items[k] == a;
      assert t.Used(k);
    }
    assert t.items[|s.items|] in t.Live();
  }

  // ---------- Freeing and merging ----------

  lemma MarkFreeItem(s: Layout, i: nat, k: nat)
    requires s.Packed() && i < |s.items| && k < |s.items|
    ensures s.MarkFree(i).header[s.items[k]] ==
            if k == i then s.header[s.items[k]].(used := false) else s.header[s.items[k]]
  {
    Distinct(s);
  }

  lemma MarkFreeKeeps(s: Layout, base: nat, i: nat)
    requires s.Structured(base) && i < |s.items|
    ensures s.MarkFree(i).Structured(base) && (s.MarkFree(i).Exact() <==> s.Exact())
  {
    var t := s.MarkFree(i);
    forall k: nat | k < |s.items|
      ensures t.items[k] + HEADER_SIZE + t.Size(k) <= t.End(k)
      ensures t.items[k] + HEADER_SIZE + t.Size(k) == t.End(k) <==> s.items[k] + HEADER_SIZE + s.Size(k) == s.End(k)
      ensures k < s.linked ==> t.header[t.items[k]].next == t.Next(k)
    {
      MarkFreeItem(s, i, k);
      assert s.items[k] + HEADER_SIZE + s.Size(k) <= s.End(k);
      assert k < s.linked ==> s.header[s.items[k]].next == s.Next(k);
    }
  }

  lemma MarkFreeLive(s: Layout, i: nat)
    requires s.Packed() && i < |s.items|
    ensures s.MarkFree(i).HasHeaders() && s.MarkFree(i).Live() == s.Live() - {s.items[i]}
  {
  }

  lemma MergeItem(s: Layout, base: nat, i: nat, k: nat)
    requires s.Structured(base) && i + 1 < s.linked && k < |s.items| - 1
    ensures var t := s.Merge(i);
            && t.items[k] == s.items[if k <= i then k else k + 1] && t.items[k] in t.header
            && (k != i ==> t.header[t.items[k]] == s.header[t.items[k]])
            && (k == i ==>
                  t.header[t.items[k]] ==
                  Header(s.header[s.items[i + 1]].next, s.Size(i) + HEADER_SIZE + s.Size(i + 1), s.Used(i)))
  {
    Distinct(s);
  }

  lemma MergeKeeps(s: Layout, base: nat, i: nat)
    requires s.Structured(base) && i + 1 < s.linked
    ensures s.Merge(i).Structured(base) && (s.Merge(i).Exact() <==> s.Exact())
  {
    var t := s.Merge(i);
    forall k: nat | k < |t.items|
      ensures t.items[k] in t.header
      ensures t.items[k] + HEADER_SIZE + t.Size(k) <= t.End(k)
      ensures s.Exact() ==> t.items[k] + HEADER_SIZE + t.Size(k) == t.End(k)
      ensures k < t.linked ==> t.header[t.items[k]].next == t.Next(k)
    {
      MergeItem(s, base, i, k);
      if k + 1 < |t.items| {
        MergeItem(s, base, i, k + 1);
      }
      assert s.items[k] + HEADER_SIZE + s.Size(k) <= s.End(k);
      assert s.items[k + 1] + HEADER_SIZE + s.Size(k + 1) <= s.End(k + 1);
      assert k < s.linked ==> s.header[s.items[k]].next == s.Next(k);
      assert k + 1 < s.linked ==> s.header[s.items[k + 1]].next == s.Next(k + 1);
    }
    if t.Exact() {
      MergeExactBefore(s, base, i);
    }
  }

  // What a merge leaves without a gap had none before.
  lemma MergeExactBefore(s: Layout, base: nat, i: nat)
    requires s.Structured(base) && i + 1 < s.linked && s.Merge(i).Exact()
    ensures s.Exact()
  {
    var t := s.Merge(i);
    forall k: nat | k < |s.items|
      ensures s.items[k] + HEADER_SIZE + s.Size(k) == s.End(k)
    {
      var j := if k <= i then k else k - 1;
      assert t.items[j] + HEADER_SIZE + t.Size(j) == t.End(j);
      MergeItem(s, base, i, j);
      if j + 1 < |t.items| {
        MergeItem(s, base, i, j + 1);
      }
      assert s.items[i] + HEADER_SIZE + s.Size(i) <= s.End(i);
      assert s.items[i + 1] + HEADER_SIZE + s.Size(i + 1) <= s.End(i + 1);
    }
  }

  lemma MergeLive(s: Layout, base: nat, i: nat)
    requires s.Structured(base) && i + 1 < s.linked && s.FreePair(i)
    ensures s.Merge(i).HasHeaders() && s.Merge(i).Live() == s.Live()
  {
  }

  lemma MergeSettled(s: Layout, base: nat, i: nat)
    requires s.Structured(base) && i + 1 < s.linked && s.FreePair(i) && s.Settled(i)
    ensures s.Merge(i).HasHeaders() && !s.Merge(i).Used(i) && s.Merge(i).Settled(i)
  {
    var t := s.Merge(i);
    MergeLive(s, base, i);
    MergeItem(s, base, i, i);
    forall k: nat | k < i && k + 1 < t.linked
      ensures !t.FreePair(k)
    {
      MergeItem(s, base, i, k);
      MergeItem(s, base, i, k + 1);
      assert !s.FreePair(k);
    }
  }

  // ---------- Conservation ----------

  lemma {:induction false} SplitWeight(s: Layout, i: nat, total: nat, size: nat, n: nat)
    requires s.Packed() && i < s.linked <= |s.items| && size + HEADER_SIZE <= total <= s.Size(i) && n <= |s.items|
    ensures s.Split(i, total, size).HasHeaders()
    ensures n <= i ==> s.Split(i, total, size).Weight(n) == s.Weight(n)
    ensures i < n ==> s.Split(i, total, size).Weight(n + 1) + (total - HEADER_SIZE - size) == s.Weight(n)
  {
    SplitPacked(s, i, total, size);
    if 0 < n {
      SplitWeight(s, i, total, size, n - 1);
      SplitItem(s, i, total, size, n);
      SplitItem(s, i, total, size, n - 1);
    }
  }

  // What the items take up lies between the heap's base and the next item, and fills that if there are no gaps.
  lemma {:induction false} WeightSpans(s: Layout, n: nat)
    requires s.Packed() && 0 < n <= |s.items|
    ensures s.items[0] + s.Weight(n) <= s.End(n - 1)
    ensures s.Exact() ==> s.items[0] + s.Weight(n) == s.End(n - 1)
  {
    assert s.items[n - 1] + HEADER_SIZE + s.Size(n - 1) <= s.End(n - 1);
    if 1 < n {
      WeightSpans(s, n - 1);
    }
    assert s.Weight(n) == s.Weight(n - 1) + HEADER_SIZE + s.Size(n - 1);
  }

  lemma {:induction false} MergeWeight(s: Layout, base: nat, i: nat, n: nat)
    requires s.Structured(base) && i + 1 < s.linked && n < |s.items|
    ensures s.Merge(i).HasHeaders()
    ensures n <= i ==> s.Merge(i).Weight(n) == s.Weight(n)
    ensures i < n ==> s.Merge(i).Weight(n) == s.Weight(n + 1)
  {
    MergeKeeps(s, base, i);
    if 0 < n {
      MergeWeight(s, base, i, n - 1);
      MergeItem(s, base, i, n - 1);
    }
  }

  lemma {:induction false} MarkFreeWeight(s: Layout, i: nat, n: nat)
    requires s.Packed() && i < |s.items| && n <= |s.items|
    ensures s.MarkFree(i).Weight(n) == s.Weight(n)
  {
    if 0 < n {
      MarkFreeWeight(s, i, n - 1);
      MarkFreeItem(s, i, n - 1);
    }
  }

  // `t` is `s` with some neighbouring free items merged.
  ghost predicate Coalesced(s: Layout, base: nat, t: Layout)
    requires s.Structured(base)
  {
    && t.Structured(base) && t.top == s.top
    && t.Live() == s.Live() && (t.Exact() <==> s.Exact())
    && t.items[t.linked..] == s.items[s.linked..] && t.Weight(t.linked) == s.Weight(s.linked)
    && (forall a | a in t.items[..t.linked] :: a in s.items[..s.linked])
    && (forall a | a in t.header :: a in s.header && (a !in s.items ==> t.header[a] == s.header[a]))
  }

  lemma MergeCoalesces(s: Layout, base: nat, t: Layout, i: nat)
    requires s.Structured(base) && Coalesced(s, base, t) && i + 1 < t.linked && t.FreePair(i) && t.Settled(i)
    ensures Coalesced(s, base, t.Merge(i)) && t.Merge(i).Settled(i) && !t.Merge(i).Used(i)
    ensures t.Merge(i).items[i] == t.items[i]
  {
    MergeKeeps(t, base, i);
    MergeLive(t, base, i);
    MergeSettled(t, base, i);
    MergeWeight(t, base, i, t.linked - 1);
    var u := t.Merge(i);
    assert u.items[u.linked..] == t.items[t.linked..];
    assert u.items[..u.linked] == t.items[..i + 1] + t.items[i + 2..t.linked];
    assert t.items[i] in t.items[..t.linked];
    forall a | a in u.items[..u.linked]
      ensures a in s.items[..s.linked]
    {
      assert a in t.items[..t.linked];
    }
  }

  // With no live block among the linked items, a settled list is a single free item.
  lemma AllFree(s: Layout, base: nat)
    requires s.Valid(base) && s.items != [] && forall i: nat | i < s.linked :: !s.Used(i)
    ensures s.linked == 1
    ensures |s.items| == 1 ==> (s.Exact() <==> base + HEADER_SIZE + s.header[base].size == s.top)
  {
    assert 1 < s.linked ==> s.FreePair(0);
    assert s.items[0] + HEADER_SIZE + s.Size(0) <= s.End(0);
  }
}
