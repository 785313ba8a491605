/** The block headers of lwip/src/core/mem.c (`struct mem`) as a value: a sequence that
    gives the header starting at each offset.  The module relates them to the block list
    of `HeapLayout` and follows each pointer update of the allocator. */
module HeapHeaders {
  import opened HeapLayout
  import opened HeapOperations

  /** `struct mem`. */
  datatype Header = Header(next: nat, prev: nat, used: bool)

  /** The header of block `i` of a stretch `bs` whose left neighbour starts at `left`. */
  function HeaderIn(bs: seq<Block>, i: nat, left: nat): Header
    requires i < |bs|
  {
    Header(bs[i].end, if i == 0 then left else bs[i - 1].start, bs[i].used)
  }

  /** The header that block `i` of the whole heap must have. */
  function HeaderOf(bs: seq<Block>, i: nat): Header
    requires i < |bs|
  {
    HeaderIn(bs, i, 0)
  }

  /** `h` holds the headers of `bs` and the end marker. */
  ghost predicate Linked(h: seq<Header>, bs: seq<Block>, n: nat) {
    && |h| == n + 1 && h[n] == Header(n, n, true)
    && (forall i :: 0 <= i < |bs| ==> bs[i].start < n && h[bs[i].start] == HeaderOf(bs, i))
  }

  lemma HeaderAt(h: seq<Header>, bs: seq<Block>, n: nat, i: nat)
    requires Linked(h, bs, n) && i < |bs|
    ensures |h| == n + 1 && bs[i].start < n && h[bs[i].start] == HeaderOf(bs, i)
  {
  }

  /** `mem_link_valid`: is the header at `p` linked from both sides? */
  predicate LinkValid(h: seq<Header>, n: nat, p: nat)
    requires |h| == n + 1 && p <= n
  {
    var m := h[p];
    && m.next <= n && m.prev <= n
    && (m.prev == p || h[m.prev].next == p)
    && (m.next == n || h[m.next].prev == p)
  }

  /** Every block of a well-linked heap passes `mem_link_valid`. */
  lemma BlocksLinkValid(h: seq<Header>, bs: seq<Block>, n: nat, i: nat)
    requires Linked(h, bs, n) && Covers(bs, 0, n) && i < |bs|
    ensures LinkValid(h, n, bs[i].start)
  {
    AllOrdered(bs, 0, n);
    if i > 0 { assert h[bs[i - 1].start] == HeaderOf(bs, i - 1); }
    if i + 1 < |bs| { assert h[bs[i + 1].start] == HeaderOf(bs, i + 1); }
  }

  /** How the headers must change, from `h` to `g`, when the blocks `lo..hi` become `xs`. */
  ghost predicate Rewired(h: seq<Header>, g: seq<Header>, bs: seq<Block>, n: nat, lo: nat, hi: nat, xs: seq<Block>)
    requires Linked(h, bs, n) && lo < hi <= |bs| && |xs| > 0
  {
    && |g| == n + 1 && g[n] == h[n]
    && (forall k :: 0 <= k < |xs| ==> xs[k].start < n && g[xs[k].start] == HeaderIn(xs, k, h[bs[lo].start].prev))
    && (hi < |bs| ==> g[bs[hi].start] == h[bs[hi].start].(prev := xs[|xs| - 1].start))
    && (forall i :: 0 <= i < lo || hi < i < |bs| ==> g[bs[i].start] == h[bs[i].start])
  }

  lemma SpliceLength(bs: seq<Block>, lo: nat, hi: nat, xs: seq<Block>)
    requires lo <= hi <= |bs|
    ensures |Splice(bs, lo, hi, xs)| == lo + |xs| + |bs| - hi
  {
  }

  lemma SpliceAt(bs: seq<Block>, lo: nat, hi: nat, xs: seq<Block>, i: nat)
    requires lo <= hi <= |bs| && i < lo + |xs| + |bs| - hi
    ensures |Splice(bs, lo, hi, xs)| == lo + |xs| + |bs| - hi
    ensures Splice(bs, lo, hi, xs)[i] ==
            if i < lo then bs[i] else if i < lo + |xs| then xs[i - lo] else bs[i - lo - |xs| + hi]
  {
  }

  lemma SpliceLinkedAt(h: seq<Header>, g: seq<Header>, bs: seq<Block>, n: nat, lo: nat, hi: nat, xs: seq<Block>, i: nat)
    requires Linked(h, bs, n) && lo < hi <= |bs| && |xs| > 0 && i < lo + |xs| + |bs| - hi
    requires Rewired(h, g, bs, n, lo, hi, xs)
    ensures var r := Splice(bs, lo, hi, xs);
            i < |r| && r[i].start < n < |g| && g[r[i].start] == HeaderOf(r, i)
  {
    hide Splice, Linked, Rewired;
    SpliceAt(bs, lo, hi, xs, i);
    if i > 0 { SpliceAt(bs, lo, hi, xs, i - 1); }
    if lo <= i < lo + |xs| {
      HeaderAt(h, bs, n, lo);
      RewiredInside(h, g, bs, n, lo, hi, xs, i - lo);
    } else {
      var j := if i < lo then i else i - lo - |xs| + hi;
      HeaderAt(h, bs, n, j);
      RewiredOutside(h, g, bs, n, lo, hi, xs, j);
    }
  }

  lemma RewiredInside(h: seq<Header>, g: seq<Header>, bs: seq<Block>, n: nat, lo: nat, hi: nat, xs: seq<Block>, k: nat)
    requires Linked(h, bs, n) && lo < hi <= |bs| && k < |xs| && Rewired(h, g, bs, n, lo, hi, xs)
    ensures bs[lo].start < n && xs[k].start < n < |g|
    ensures g[xs[k].start] == HeaderIn(xs, k, h[bs[lo].start].prev)
  {
  }

  lemma RewiredOutside(h: seq<Header>, g: seq<Header>, bs: seq<Block>, n: nat, lo: nat, hi: nat, xs: seq<Block>, j: nat)
    requires Linked(h, bs, n) && lo < hi <= |bs| && |xs| > 0 && Rewired(h, g, bs, n, lo, hi, xs)
    requires j < lo || hi <= j < |bs|
    ensures |g| == n + 1 && bs[j].start < n
    ensures g[bs[j].start] == if j == hi then h[bs[j].start].(prev := xs[|xs| - 1].start) else h[bs[j].start]
  {
  }

  lemma SpliceLinked(h: seq<Header>, g: seq<Header>, bs: seq<Block>, n: nat, lo: nat, hi: nat, xs: seq<Block>)
    requires Linked(h, bs, n) && lo < hi <= |bs| && |xs| > 0
    requires Rewired(h, g, bs, n, lo, hi, xs)
    ensures Linked(g, Splice(bs, lo, hi, xs), n)
  {
    hide Splice;
    var r := Splice(bs, lo, hi, xs);
    SpliceLength(bs, lo, hi, xs);
    forall i | 0 <= i < |r| ensures r[i].start < n && g[r[i].start] == HeaderOf(r, i) {
      SpliceLinkedAt(h, g, bs, n, lo, hi, xs, i);
    }
  }

  /** `h` with the `used` field at `p` set. */
  function WithUsed(h: seq<Header>, p: nat, used: bool): seq<Header> {
    if p < |h| then h[p := h[p].(used := used)] else h
  }

  /** `h` with the `next` field at `p` set. */
  function WithNext(h: seq<Header>, p: nat, next: nat): seq<Header> {
    if p < |h| then h[p := h[p].(next := next)] else h
  }

  /** `h` with the `prev` field at `p` set, unless `p` is the end marker. */
  function WithPrev(h: seq<Header>, p: nat, prev: nat): seq<Header> {
    if p + 1 < |h| then h[p := h[p].(prev := prev)] else h
  }

  function Joined(h: seq<Header>, p: nat, q: nat): seq<Header>
    requires q < |h|
  {
    WithPrev(WithNext(h, p, h[q].next), h[q].next, p)
  }

  lemma JoinLinked(h: seq<Header>, bs: seq<Block>, n: nat, k: nat)
    requires Linked(h, bs, n) && Covers(bs, 0, n) && k + 1 < |bs|
    requires !bs[k].used && !bs[k + 1].used
    ensures Linked(Joined(h, bs[k].start, bs[k + 1].start), Splice(bs, k, k + 2, [Block(bs[k].start, bs[k + 1].end, false)]), n)
  {
    CoversIncreasing(bs, 0, n);
    NextStart(bs, n, k);
    NextStart(bs, n, k + 1);
    JoinRewired(h, bs, n, k);
    SpliceLinked(h, Joined(h, bs[k].start, bs[k + 1].start), bs, n, k, k + 2, [Block(bs[k].start, bs[k + 1].end, false)]);
  }

  lemma JoinRewired(h: seq<Header>, bs: seq<Block>, n: nat, k: nat)
    requires Linked(h, bs, n) && Increasing(bs) && k + 1 < |bs|
    requires !bs[k].used && !bs[k + 1].used
    requires if k + 2 < |bs| then bs[k + 1].end == bs[k + 2].start < n else bs[k + 1].end == n
    ensures Rewired(h, Joined(h, bs[k].start, bs[k + 1].start), bs, n, k, k + 2, [Block(bs[k].start, bs[k + 1].end, false)])
  {
  }

  /** No memory strictly inside a live block differs between `h` and `g`. */
  ghost predicate SamePayload(h: seq<Header>, g: seq<Header>, bs: seq<Block>) {
    && |g| == |h|
    && forall b, off :: b in Live(bs) && b.start < off < b.end && off < |h| ==> g[off] == h[off]
  }

  /** No header lies strictly inside a live block. */
  lemma HeadersOutsideLive(bs: seq<Block>, n: nat)
    requires Covers(bs, 0, n)
    ensures forall b, i :: b in Live(bs) && 0 <= i < |bs| ==> bs[i].start <= b.start || b.end <= bs[i].start
    ensures forall b :: b in Live(bs) ==> b.end <= n
  {
    AllOrdered(bs, 0, n);
    forall b, i | b in Live(bs) && 0 <= i < |bs| ensures bs[i].start <= b.start || b.end <= bs[i].start {
      var j :| 0 <= j < |bs| && bs[j] == b;
      if i < j { assert bs[i].end <= bs[j].start && BlockOk(bs[i]); }
    }
  }

  /** The headers after each half of `plug_holes(mem)`, and after both. */
  function PluggedForward(h: seq<Header>, n: nat, mem: nat): (g: seq<Header>)
    requires |h| == n + 1 && mem < n
    ensures |g| == |h|
  {
    var nmem := h[mem].next;
    if mem != nmem && nmem < n && !h[nmem].used then Joined(h, mem, nmem) else h
  }

  function PluggedBackward(h: seq<Header>, n: nat, mem: nat): (g: seq<Header>)
    requires |h| == n + 1 && mem < n
    ensures |g| == |h|
  {
    var pmem := h[mem].prev;
    if pmem != mem && pmem < n && !h[pmem].used then Joined(h, pmem, mem) else h
  }

  function Plugged(h: seq<Header>, n: nat, mem: nat): (g: seq<Header>)
    requires |h| == n + 1 && mem < n
    ensures |g| == |h|
  {
    PluggedBackward(PluggedForward(h, n, mem), n, mem)
  }

  lemma JoinedFrame(h: seq<Header>, p: nat, q: nat)
    requires q < |h|
    ensures |Joined(h, p, q)| == |h|
    ensures forall off :: 0 <= off < |h| ==> Joined(h, p, q)[off].used == h[off].used
    ensures forall off :: 0 <= off < |h| && off != p && off != h[q].next ==> Joined(h, p, q)[off] == h[off]
    ensures p < |h| && p != h[q].next ==> Joined(h, p, q)[p] == h[p].(next := h[q].next)
  {
  }

  /** `plug_holes` writes at most four headers and changes no `used` flag. */
  lemma PluggedFrame(h: seq<Header>, n: nat, mem: nat)
    requires |h| == n + 1 && mem < n && mem < h[mem].next <= n && h[mem].next <= h[h[mem].next].next
    ensures |Plugged(h, n, mem)| == |h|
    ensures forall off :: 0 <= off <= n ==> Plugged(h, n, mem)[off].used == h[off].used
    ensures forall off :: 0 <= off <= n && off !in {mem, h[mem].prev, h[mem].next, h[h[mem].next].next} ==>
      Plugged(h, n, mem)[off] == h[off]
  {
    var nmem := h[mem].next;
    JoinedFrame(h, mem, nmem);
    var g := if nmem < n && !h[nmem].used then Joined(h, mem, nmem) else h;
    assert g[mem].prev == h[mem].prev;
    JoinedFrame(g, g[mem].prev, mem);
  }

  /** No live block of `bs` has offset `off` strictly inside. */
  ghost predicate OutsideLive(bs: seq<Block>, off: nat) {
    forall b :: b in Live(bs) ==> off <= b.start || b.end <= off
  }

  /** The header of block `i` and of its right neighbour point outside every live block. */
  lemma LinksOutsideLive(h: seq<Header>, bs: seq<Block>, n: nat, i: nat)
    requires Linked(h, bs, n) && Covers(bs, 0, n) && i < |bs|
    ensures var m := h[bs[i].start];
            && bs[i].start < n && bs[i].start < m.next <= n && m.next <= h[m.next].next
            && OutsideLive(bs, bs[i].start) && OutsideLive(bs, m.prev)
            && OutsideLive(bs, m.next) && OutsideLive(bs, h[m.next].next)
  {
    hide Linked, Covers, Live;
    HeadersOutsideLive(bs, n);
    NextStart(bs, n, i);
    HeaderAt(h, bs, n, i);
    EndMarker(h, bs, n);
    if i + 1 < |bs| {
      NextStart(bs, n, i + 1);
      HeaderAt(h, bs, n, i + 1);
    }
  }

  lemma PluggedSamePayload(h: seq<Header>, bs: seq<Block>, n: nat, mem: nat)
    requires |h| == n + 1 && mem < n && mem < h[mem].next <= n && h[mem].next <= h[h[mem].next].next
    requires OutsideLive(bs, mem) && OutsideLive(bs, h[mem].prev)
    requires OutsideLive(bs, h[mem].next) && OutsideLive(bs, h[h[mem].next].next)
    ensures SamePayload(h, Plugged(h, n, mem), bs)
  {
    PluggedFrame(h, n, mem);
  }

  /** Offsets strictly inside a live block carry no header and lie in no other block. */
  lemma InsideLive(bs: seq<Block>, n: nat, b: Block, off: nat, i: nat)
    requires Covers(bs, 0, n) && b in Live(bs) && b.start < off < b.end
    requires i < |bs| && bs[i].start <= off < bs[i].end
    ensures bs[i] == b
  {
    var j :| 0 <= j < |bs| && bs[j] == b;
    if i < j { Ordered(bs, 0, n, i, j); }
    if j < i { Ordered(bs, 0, n, j, i); }
  }

  /** Joining two neighbouring free blocks does not move the lowest free offset. */
  lemma JoinLowest(bs: seq<Block>, n: nat, k: nat)
    requires Covers(bs, 0, n) && k + 1 < |bs| && !bs[k].used && !bs[k + 1].used
    ensures var r := Splice(bs, k, k + 2, [Block(bs[k].start, bs[k + 1].end, false)]);
            Covers(r, 0, n) && LowestFree(r, n) == LowestFree(bs, n) != bs[k + 1].start
  {
    var xs := [Block(bs[k].start, bs[k + 1].end, false)];
    assert BlockOk(bs[k]) && BlockOk(bs[k + 1]);
    Ordered(bs, 0, n, k, k + 1);
    SpliceCovers(bs, n, k, k + 2, xs);
    var r := Splice(bs, k, k + 2, xs);
    var f := FirstFit(bs, 0);
    assert f <= k;
    forall j | 0 <= j < f ensures r[j].used {
      assert BlockOk(bs[j]) && !Fits(bs[j], 0);
    }
    LowestFreeIs(r, n, f);
    if f < k { Ordered(bs, 0, n, f, k + 1); assert BlockOk(bs[f]); }
  }

  /** Marking block `i` free in place. */
  lemma MarkFree(h: seq<Header>, bs: seq<Block>, n: nat, i: nat)
    requires Linked(h, bs, n) && Covers(bs, 0, n) && i < |bs|
    ensures var r := bs[i := bs[i].(used := false)];
            && Covers(r, 0, n) && Linked(WithUsed(h, bs[i].start, false), r, n)
            && LowestFree(r, n) == if bs[i].start < LowestFree(bs, n) then bs[i].start else LowestFree(bs, n)
  {
    hide Linked, Covers, LowestFree;
    CoversIncreasing(bs, 0, n);
    MarkLinked(h, bs, n, i, false);
    MarkLowest(bs, n, i);
  }

  lemma MarkLowest(bs: seq<Block>, n: nat, i: nat)
    requires Covers(bs, 0, n) && i < |bs|
    ensures var r := bs[i := bs[i].(used := false)];
            && Covers(r, 0, n)
            && LowestFree(r, n) == if bs[i].start < LowestFree(bs, n) then bs[i].start else LowestFree(bs, n)
  {
    CoversIncreasing(bs, 0, n);
    var r := bs[i := bs[i].(used := false)];
    var f := FirstFit(bs, 0);
    forall j | 0 <= j < f ensures bs[j].used {
      assert BlockOk(bs[j]) && !Fits(bs[j], 0);
    }
    LowestFreeIs(r, n, if i < f then i else f);
  }

  lemma MarkLinked(h: seq<Header>, bs: seq<Block>, n: nat, i: nat, used: bool)
    requires Linked(h, bs, n) && Increasing(bs) && i < |bs|
    ensures Linked(WithUsed(h, bs[i].start, used), bs[i := bs[i].(used := used)], n)
  {
    hide Increasing;
    HeaderAt(h, bs, n, i);
    var r, g := bs[i := bs[i].(used := used)], WithUsed(h, bs[i].start, used);
    forall j | 0 <= j < |r| ensures r[j].start < n && g[r[j].start] == HeaderOf(r, j) {
      HeaderAt(h, bs, n, j);
      if j != i { StartsDiffer(bs, i, j); }
    }
  }

  lemma StartsDiffer(bs: seq<Block>, i: nat, j: nat)
    requires Increasing(bs) && i < |bs| && j < |bs| && i != j
    ensures bs[i].start != bs[j].start
  {
  }

  /** Freeing block `i` writes no memory inside the blocks that stay in use. */
  lemma ReleaseKeeps(h: seq<Header>, bs: seq<Block>, n: nat, i: nat)
    requires Linked(h, bs, n) && WellFormed(bs, n) && i < |bs| && bs[i].used
    ensures var g := Plugged(WithUsed(h, bs[i].start, false), n, bs[i].start);
            |g| == |h| && SamePayload(h, g, FreeAt(bs, i)) && !g[bs[i].start].used
  {
    hide Linked, Covers, Apart, LowestFree, Live, FreeAt, Plugged, OutsideLive;
    HeaderAt(h, bs, n, i);
    var mem := bs[i].start;
    var h1 := WithUsed(h, mem, false);
    LinksOutsideLive(h, bs, n, i);
    PluggedSamePayload(h1, bs, n, mem);
    PluggedFrame(h1, n, mem);
    FreeRemovesOne(bs, n, i);
    MarkedSamePayload(h, bs, mem);
  }

  lemma MarkedSamePayload(h: seq<Header>, bs: seq<Block>, mem: nat)
    requires OutsideLive(bs, mem)
    ensures SamePayload(h, WithUsed(h, mem, false), bs)
  {
  }

  // -------------------------------------------------------------- cutting

  /** The headers after a free block has been put at `ptr2`, behind the block at `ptr` and
      in front of `next`. */
  function FreeInserted(h: seq<Header>, ptr: nat, ptr2: nat, next: nat): seq<Header>
    requires ptr < |h| && ptr2 < |h|
  {
    WithPrev(WithNext(h[ptr2 := Header(next, ptr, false)], ptr, ptr2), next, ptr2)
  }

  lemma FreeInsertedFrame(h: seq<Header>, ptr: nat, ptr2: nat, next: nat)
    requires ptr < ptr2 < next < |h|
    ensures var g := FreeInserted(h, ptr, ptr2, next);
            && |g| == |h| && g[ptr] == h[ptr].(next := ptr2) && g[ptr2] == Header(next, ptr, false)
            && g[next] == (if next + 1 < |h| then h[next].(prev := ptr2) else h[next])
            && (forall off :: 0 <= off < |h| && off != ptr && off != ptr2 && off != next ==> g[off] == h[off])
  {
  }

  lemma CutRewired(h: seq<Header>, bs: seq<Block>, n: nat, i: nat, hi: nat, cut: nat)
    requires Linked(h, bs, n) && Increasing(bs) && i < hi <= |bs| && hi <= i + 2
    requires bs[i].start < cut < bs[i].end && (hi < |bs| ==> bs[i].end <= bs[hi].start)
    requires if hi < |bs| then bs[hi - 1].end == bs[hi].start < n else bs[hi - 1].end == n
    requires bs[i].end <= bs[hi - 1].end <= n
    ensures var xs := [Block(bs[i].start, cut, bs[i].used), Block(cut, bs[hi - 1].end, false)];
            Rewired(h, FreeInserted(h, bs[i].start, cut, bs[hi - 1].end), bs, n, i, hi, xs)
  {
    hide FreeInserted;
    var xs := [Block(bs[i].start, cut, bs[i].used), Block(cut, bs[hi - 1].end, false)];
    var g := FreeInserted(h, bs[i].start, cut, bs[hi - 1].end);
    FreeInsertedFrame(h, bs[i].start, cut, bs[hi - 1].end);
    assert h[bs[i].start] == HeaderOf(bs, i);
    forall j | 0 <= j < i || hi < j < |bs| ensures g[bs[j].start] == h[bs[j].start] {
      if j > hi { assert bs[hi].start < bs[j].start; } else { assert bs[j].start < bs[i].start; }
    }
    forall j | 0 <= j < |xs| ensures xs[j].start < n && g[xs[j].start] == HeaderIn(xs, j, h[bs[i].start].prev) {
    }
  }

  lemma CutLinked(h: seq<Header>, bs: seq<Block>, n: nat, i: nat, hi: nat, cut: nat)
    requires Linked(h, bs, n) && Covers(bs, 0, n) && i < hi <= |bs| && hi <= i + 2
    requires bs[i].start < cut < bs[i].end
    ensures cut <= n && bs[i].start < n
    ensures Linked(FreeInserted(h, bs[i].start, cut, bs[hi - 1].end),
                   Splice(bs, i, hi, [Block(bs[i].start, cut, bs[i].used), Block(cut, bs[hi - 1].end, false)]), n)
  {
    hide Linked, Covers, Increasing, Rewired, FreeInserted;
    CoversIncreasing(bs, 0, n);
    NextStart(bs, n, i);
    NextStart(bs, n, hi - 1);
    if hi < |bs| { Ordered(bs, 0, n, i, hi); }
    if i < hi - 1 { Ordered(bs, 0, n, i, hi - 1); }
    HeaderAt(h, bs, n, i);
    CutRewired(h, bs, n, i, hi, cut);
    SpliceLinked(h, FreeInserted(h, bs[i].start, cut, bs[hi - 1].end), bs, n, i, hi,
                 [Block(bs[i].start, cut, bs[i].used), Block(cut, bs[hi - 1].end, false)]);
  }

  // ----------------------------------------------------------- allocating

  /** The headers after `size` bytes have been taken from the free block at `ptr`. */
  function CarvedHeaders(h: seq<Header>, ptr: nat, size: nat): seq<Header>
    requires ptr < |h| && ptr + HEADER + size < |h|
  {
    var next, ptr2 := h[ptr].next, ptr + HEADER + size;
    if next - (ptr + HEADER) >= size + HEADER + MIN_SIZE then
      WithUsed(FreeInserted(h, ptr, ptr2, next), ptr, true)
    else
      WithUsed(h, ptr, true)
  }

  lemma CarveLinked(h: seq<Header>, bs: seq<Block>, n: nat, k: nat, size: nat)
    requires Linked(h, bs, n) && Covers(bs, 0, n) && k < |bs| && Fits(bs[k], size)
    requires Covers(AllocAt(bs, k, size), 0, n)
    ensures bs[k].start + HEADER + size <= n
    ensures Linked(CarvedHeaders(h, bs[k].start, size), AllocAt(bs, k, size), n)
  {
    hide Linked, Covers, Increasing, Rewired, FreeInserted, WithUsed;
    HeaderAt(h, bs, n, k);
    CoversIncreasing(bs, 0, n);
    NextStart(bs, n, k);
    if Splits(bs[k], size) {
      var cut := bs[k].start + HEADER + size;
      var r := Splice(bs, k, k + 1, [Block(bs[k].start, cut, bs[k].used), Block(cut, bs[k].end, false)]);
      CutLinked(h, bs, n, k, k + 1, cut);
      assert AllocAt(bs, k, size) == r[k := r[k].(used := true)];
      CoversIncreasing(AllocAt(bs, k, size), 0, n);
      MarkedIncreasing(r, k, true);
      MarkLinked(FreeInserted(h, bs[k].start, cut, bs[k].end), r, n, k, true);
    } else {
      MarkLinked(h, bs, n, k, true);
      assert AllocAt(bs, k, size) == bs[k := bs[k].(used := true)];
    }
  }

  lemma MarkedIncreasing(bs: seq<Block>, i: nat, used: bool)
    requires i < |bs| && Increasing(bs[i := bs[i].(used := used)])
    ensures Increasing(bs)
  {
    var r := bs[i := bs[i].(used := used)];
    assert forall j :: 0 <= j < |bs| ==> r[j].start == bs[j].start;
  }

  /** Allocating writes no memory inside the blocks already in use. */
  lemma CarvedSamePayload(h: seq<Header>, bs: seq<Block>, n: nat, k: nat, size: nat)
    requires Linked(h, bs, n) && Covers(bs, 0, n) && k < |bs| && Fits(bs[k], size)
    requires bs[k].start + HEADER + size <= n
    ensures SamePayload(h, CarvedHeaders(h, bs[k].start, size), bs)
  {
    hide Linked, Covers;
    var ptr := bs[k].start;
    HeaderAt(h, bs, n, k);
    LinksOutsideLive(h, bs, n, k);
    forall b | b in Live(bs) && Splits(bs[k], size)
      ensures ptr + HEADER + size <= b.start || b.end <= ptr + HEADER + size
    {
      if b.start < ptr + HEADER + size < b.end { InsideLive(bs, n, b, ptr + HEADER + size, k); }
    }
  }

  /** Taking block `k` moves the lowest free offset only if `k` was the lowest free block. */
  lemma AllocLowest(bs: seq<Block>, n: nat, k: nat, size: nat)
    requires Covers(bs, 0, n) && k < |bs| && Fits(bs[k], size)
    ensures var r := AllocAt(bs, k, size);
            && k < |r| && r[k] == Carved(bs[k], size)[0]
            && (if LowestFree(bs, n) == bs[k].start
                then forall j :: 0 <= j < k ==> r[j].used
                else Covers(r, 0, n) ==> LowestFree(r, n) == LowestFree(bs, n))
  {
    var f, r := FirstFit(bs, 0), AllocAt(bs, k, size);
    CoversIncreasing(bs, 0, n);
    assert f <= k;
    assert r[..k] == bs[..k];
    forall j | 0 <= j < f ensures r[j].used {
      assert BlockOk(bs[j]) && !Fits(bs[j], 0) && r[j] == r[..k][j];
    }
    if f < k && Covers(r, 0, n) {
      assert r[f] == r[..k][f];
      LowestFreeIs(r, n, f);
    }
  }

  /** The blocks below the lowest free one do not fit. */
  lemma SkipToLowest(bs: seq<Block>, n: nat, size: nat) returns (k: nat)
    requires Covers(bs, 0, n)
    ensures k <= |bs| && LowestFree(bs, n) == if k < |bs| then bs[k].start else n
    ensures forall j :: 0 <= j < k ==> !Fits(bs[j], size)
  {
    k := FirstFit(bs, 0);
    forall j | 0 <= j < k ensures !Fits(bs[j], size) {
      assert BlockOk(bs[j]) && !Fits(bs[j], 0);
    }
  }

  /** Blocks from offset `n - size` on are too small, so the search may stop there. */
  lemma NoneBeyond(bs: seq<Block>, n: nat, size: nat, k: nat)
    requires Covers(bs, 0, n) && k <= |bs|
    requires k < |bs| ==> bs[k].start >= n - size
    requires forall j :: 0 <= j < k ==> !Fits(bs[j], size)
    ensures forall b :: b in bs ==> !Fits(b, size)
    ensures FirstFit(bs, size) == |bs|
  {
    CoversIncreasing(bs, 0, n);
    AllOrdered(bs, 0, n);
    forall j | k <= j < |bs| ensures !Fits(bs[j], size) {
      assert bs[k].start <= bs[j].start;
    }
  }

  // ------------------------------------------------------------- trimming

  /** The lowest free offset after a cut: the new free block, unless there is a lower one. */
  lemma TrimLowest(bs: seq<Block>, n: nat, i: nat, hi: nat, cut: nat)
    requires Covers(bs, 0, n) && i < hi <= |bs| && bs[i].used && bs[i].start < cut < bs[i].end
    requires hi == i + 1 || (hi == i + 2 && !bs[i + 1].used)
    ensures var r := Splice(bs, i, hi, [Block(bs[i].start, cut, true), Block(cut, bs[hi - 1].end, false)]);
            Covers(r, 0, n) ==>
              && (LowestFree(r, n) == if cut < LowestFree(bs, n) then cut else LowestFree(bs, n))
              && (hi == i + 2 ==> (LowestFree(bs, n) == bs[i + 1].start <==> cut < LowestFree(bs, n)))
  {
    hide Splice, Covers;
    var xs := [Block(bs[i].start, cut, true), Block(cut, bs[hi - 1].end, false)];
    var r := Splice(bs, i, hi, xs);
    var f := FirstFit(bs, 0);
    NextStart(bs, n, i);
    FreeBelow(bs, n);
    forall j | 0 <= j <= i + 1 ensures j < |r| && r[j] == if j < i then bs[j] else xs[j - i] {
      SpliceAt(bs, i, hi, xs, j);
    }
    if f < i {
      Ordered(bs, 0, n, f, i);
      NextStart(bs, n, f);
    } else if f < |bs| {
      Ordered(bs, 0, n, i, f);
      if i + 1 < f { Ordered(bs, 0, n, i + 1, f); NextStart(bs, n, i + 1); }
    }
    if Covers(r, 0, n) {
      LowestFreeIs(r, n, if f < i then f else i + 1);
    }
  }

  /** The blocks below the lowest free one are in use. */
  lemma FreeBelow(bs: seq<Block>, n: nat)
    requires Covers(bs, 0, n)
    ensures forall j :: 0 <= j < FirstFit(bs, 0) ==> bs[j].used
  {
    forall j | 0 <= j < FirstFit(bs, 0) ensures bs[j].used {
      assert BlockOk(bs[j]) && !Fits(bs[j], 0);
    }
  }

  /** A cut writes no memory inside the blocks in use afterwards. */
  lemma TrimSamePayload(h: seq<Header>, bs: seq<Block>, r: seq<Block>, n: nat, i: nat, hi: nat, cut: nat)
    requires Linked(h, bs, n) && Covers(bs, 0, n) && i < hi <= |bs| && hi <= i + 2 && bs[i].used
    requires bs[i].start < cut < bs[i].end && cut <= n && bs[i].start < n
    requires Live(r) <= Live(bs) - {bs[i]} + {Block(bs[i].start, cut, true)}
    ensures SamePayload(h, FreeInserted(h, bs[i].start, cut, bs[hi - 1].end), r)
  {
    hide Linked, Covers, FreeInserted;
    HeaderAt(h, bs, n, i);
    HeaderAt(h, bs, n, hi - 1);
    LinksOutsideLive(h, bs, n, i);
    LinksOutsideLive(h, bs, n, hi - 1);
    if i < hi - 1 { Ordered(bs, 0, n, i, hi - 1); NextStart(bs, n, hi - 1); }
    FreeInsertedFrame(h, bs[i].start, cut, bs[hi - 1].end);
    forall b | b in Live(r) ensures cut <= b.start || b.end <= cut {
      if b in Live(bs) && b.start < cut < b.end { InsideLive(bs, n, b, cut, i); }
    }
    forall b | b in Live(r)
      ensures bs[i].start <= b.start || b.end <= bs[i].start
      ensures bs[hi - 1].end <= b.start || b.end <= bs[hi - 1].end
    {
      assert b in Live(bs) || b == Block(bs[i].start, cut, true);
    }
  }

  lemma EndMarker(h: seq<Header>, bs: seq<Block>, n: nat)
    requires Linked(h, bs, n)
    ensures |h| == n + 1 && h[n] == Header(n, n, true)
  {
  }

  /** No block holds `size` bytes when `size` exceeds the heap. */
  lemma TrimTooBig(bs: seq<Block>, n: nat, p: int, size: nat)
    requires Covers(bs, 0, n)
    ensures var i := FindData(bs, p); size > n && i < |bs| ==> DataSize(bs[i]) < size
  {
    if FindData(bs, p) < |bs| { NextStart(bs, n, FindData(bs, p)); }
  }

  lemma NoBlockOutside(bs: seq<Block>, n: nat, p: int)
    requires Covers(bs, 0, n) && !(0 <= p < n)
    ensures FindData(bs, p) == |bs|
  {
    if FindData(bs, p) < |bs| { NextStart(bs, n, FindData(bs, p)); }
  }
}
