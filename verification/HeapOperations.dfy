/** What `mem_malloc`, `mem_free` and `mem_trim` do to the block list, and what
    every sequence of them keeps. */
module HeapOperations {
  import opened HeapLayout

  /** `LWIP_MEM_ALIGN_SIZE` followed by the cast to `mem_size_t` and the lower bound. */
  function Rounded(size: nat): (r: nat)
    requires size < 0x10000
    ensures r % ALIGN == 0 && MIN_SIZE <= r < 0x10000
    ensures size <= r <==> size <= 0xfffc
    ensures size <= 0xfffc ==> r == MIN_SIZE || r < size + ALIGN
  {
    var aligned := ((size + ALIGN - 1) / ALIGN * ALIGN) % 0x10000;
    if aligned < MIN_SIZE then MIN_SIZE else aligned
  }

  /** The sizes that `mem_malloc` does not refuse before it looks at the heap. */
  predicate Requestable(size: nat, n: nat) {
    0 < size <= 0xfffc && Rounded(size) <= n
  }

  // ----------------------------------------------------------- allocating

  /** Whether a remainder with its own header is left when `size` bytes are taken from `b`. */
  predicate Splits(b: Block, size: nat) {
    b.end - (b.start + HEADER) >= size + HEADER + MIN_SIZE
  }

  function Carved(b: Block, size: nat): seq<Block> {
    if Splits(b, size) then
      [Block(b.start, b.start + HEADER + size, true), Block(b.start + HEADER + size, b.end, false)]
    else
      [b.(used := true)]
  }

  function AllocAt(bs: seq<Block>, i: nat, size: nat): seq<Block>
    requires i < |bs|
  {
    Splice(bs, i, i + 1, Carved(bs[i], size))
  }

  /** Allocation keeps the heap well formed. */
  lemma AllocWellFormed(bs: seq<Block>, n: nat, i: nat, size: nat)
    requires WellFormed(bs, n) && i < |bs| && Fits(bs[i], size)
    requires size % ALIGN == 0 && size >= MIN_SIZE
    ensures WellFormed(AllocAt(bs, i, size), n)
  {
    var xs := Carved(bs[i], size);
    assert BlockOk(bs[i]);
    SpliceCovers(bs, n, i, i + 1, xs);
    SpliceApart(bs, i, i + 1, xs);
  }

  /** Allocation adds exactly one live block, at the place of the block chosen: just the bytes and
      a header if another block can be made of the rest, which is then free, and otherwise all of
      it; the statistic grows by its extent. */
  lemma AllocAddsOne(bs: seq<Block>, n: nat, i: nat, size: nat)
    requires WellFormed(bs, n) && i < |bs| && Fits(bs[i], size)
    ensures |AllocAt(bs, i, size)| > i
    ensures var b := AllocAt(bs, i, size)[i];
            && b.used && b.start == bs[i].start
            && b.end == (if bs[i].end - bs[i].start >= 2 * HEADER + size + MIN_SIZE then b.start + HEADER + size else bs[i].end)
            && (b.end < bs[i].end ==> Block(b.end, bs[i].end, false) in AllocAt(bs, i, size))
            && (forall c :: c in Live(bs) ==> c.end <= b.start || b.end <= c.start)
            && Live(AllocAt(bs, i, size)) == Live(bs) + {b}
            && UsedBytes(AllocAt(bs, i, size)) == UsedBytes(bs) + (b.end - b.start)
  {
    var xs := Carved(bs[i], size);
    CoversDistinct(bs, 0, n);
    CarvedCounts(bs, i, xs);
    forall c | c in Live(bs) ensures c.end <= xs[0].start || xs[0].end <= c.start {
      var j :| 0 <= j < |bs| && bs[j] == c;
      if j < i { Ordered(bs, 0, n, j, i); } else { Ordered(bs, 0, n, i, j); }
    }
  }

  lemma CarvedCounts(bs: seq<Block>, i: nat, xs: seq<Block>)
    requires Distinct(bs) && i < |bs| && !bs[i].used
    requires 1 <= |xs| <= 2 && xs[0].used && (|xs| == 2 ==> !xs[1].used)
    ensures Live(Splice(bs, i, i + 1, xs)) == Live(bs) + {xs[0]}
    ensures UsedBytes(Splice(bs, i, i + 1, xs)) == UsedBytes(bs) + (xs[0].end - xs[0].start)
  {
    assert bs[i..i + 1] == [bs[i]];
    SpliceUsedBytes(bs, i, i + 1, xs);
    SpliceLive(bs, i, i + 1, xs);
    OneUsed([], xs[0], xs[1..]);
    assert xs == [] + [xs[0]] + xs[1..];
    assert Live([bs[i]]) == {};
  }

  // -------------------------------------------------------------- freeing

  /** `bs` with block `i` freed and joined with its free neighbours. */
  function FreeAt(bs: seq<Block>, i: nat): seq<Block>
    requires i < |bs|
  {
    var lo := if i > 0 && !bs[i - 1].used then i - 1 else i;
    var hi := if i + 1 < |bs| && !bs[i + 1].used then i + 2 else i + 1;
    Splice(bs, lo, hi, [Block(bs[lo].start, bs[hi - 1].end, false)])
  }

  /** Block `i` joined with its right neighbour if both are free. */
  function JoinNext(bs: seq<Block>, i: nat): seq<Block>
    requires i < |bs|
  {
    if i + 1 < |bs| && !bs[i].used && !bs[i + 1].used
    then Splice(bs, i, i + 2, [Block(bs[i].start, bs[i + 1].end, false)]) else bs
  }

  /** Joining forward and then backward, as `plug_holes` does, is `FreeAt`. */
  lemma PlugIsFree(bs: seq<Block>, i: nat)
    requires i < |bs| && !bs[i].used
    ensures FreeAt(bs, i) == if i > 0 then JoinNext(JoinNext(bs, i), i - 1) else JoinNext(bs, i)
  {
    var b1 := JoinNext(bs, i);
    if i > 0 {
      var b2 := JoinNext(b1, i - 1);
      assert b1[i - 1] == bs[i - 1] && b1[i].start == bs[i].start && !b1[i].used;
      assert b1[i + 1..] == if |b1| < |bs| then bs[i + 2..] else bs[i + 1..];
      assert b1[..i - 1] == bs[..i - 1];
    }
  }

  /** What `FreeAt` does to the list does not depend on the flag of the block freed. */
  lemma FreeAtMarked(bs: seq<Block>, i: nat)
    requires i < |bs|
    ensures FreeAt(bs[i := bs[i].(used := false)], i) == FreeAt(bs, i)
  {
  }

  lemma FreeWellFormed(bs: seq<Block>, n: nat, i: nat)
    requires WellFormed(bs, n) && i < |bs| && bs[i].used
    ensures WellFormed(FreeAt(bs, i), n)
  {
    hide Covers, Apart, Splice;
    var lo := if i > 0 && !bs[i - 1].used then i - 1 else i;
    var hi := if i + 1 < |bs| && !bs[i + 1].used then i + 2 else i + 1;
    var xs := [Block(bs[lo].start, bs[hi - 1].end, false)];
    NextStart(bs, n, lo);
    NextStart(bs, n, hi - 1);
    if lo < hi - 1 { Ordered(bs, 0, n, lo, hi - 1); }
    OneCovers(xs[0]);
    SpliceCovers(bs, n, lo, hi, xs);
    if 0 < lo < i { PrevUsed(bs, lo); }
    if i + 1 < hi < |bs| { NextUsed(bs, hi - 1); }
    SpliceApart(bs, lo, hi, xs);
  }

  lemma PrevUsed(bs: seq<Block>, i: nat)
    requires Apart(bs) && 0 < i < |bs| && !bs[i].used
    ensures bs[i - 1].used
  {
  }

  lemma OneCovers(x: Block)
    requires BlockOk(x)
    ensures Covers([x], x.start, x.end) && Apart([x])
  {
  }

  /** Freeing removes exactly that live block and takes its extent off the statistic. */
  lemma FreeRemovesOne(bs: seq<Block>, n: nat, i: nat)
    requires WellFormed(bs, n) && i < |bs| && bs[i].used
    ensures Live(FreeAt(bs, i)) == Live(bs) - {bs[i]}
    ensures UsedBytes(FreeAt(bs, i)) == UsedBytes(bs) - (bs[i].end - bs[i].start)
  {
    var lo := if i > 0 && !bs[i - 1].used then i - 1 else i;
    var hi := if i + 1 < |bs| && !bs[i + 1].used then i + 2 else i + 1;
    var xs := [Block(bs[lo].start, bs[hi - 1].end, false)];
    CoversDistinct(bs, 0, n);
    FreedCounts(bs, lo, i, hi, xs);
  }

  lemma FreedCounts(bs: seq<Block>, lo: nat, i: nat, hi: nat, xs: seq<Block>)
    requires Distinct(bs) && lo <= i < hi <= |bs| && hi <= i + 2 && i <= lo + 1 && bs[i].used
    requires (lo < i ==> !bs[lo].used) && (i + 1 < hi ==> !bs[i + 1].used)
    requires |xs| == 1 && !xs[0].used
    ensures Live(Splice(bs, lo, hi, xs)) == Live(bs) - {bs[i]}
    ensures UsedBytes(Splice(bs, lo, hi, xs)) == UsedBytes(bs) - (bs[i].end - bs[i].start)
  {
    SpliceUsedBytes(bs, lo, hi, xs);
    SpliceLive(bs, lo, hi, xs);
    assert Live(xs) == {};
    OneUsedWithin(bs, lo, i, hi);
  }

  lemma OneUsedWithin(bs: seq<Block>, lo: nat, i: nat, hi: nat)
    requires lo <= i < hi <= |bs| && hi <= i + 2 && i <= lo + 1 && bs[i].used
    requires (lo < i ==> !bs[lo].used) && (i + 1 < hi ==> !bs[i + 1].used)
    ensures Live(bs[lo..hi]) == {bs[i]} && UsedBytes(bs[lo..hi]) == bs[i].end - bs[i].start
  {
    var before, after := bs[lo..i], bs[i + 1..hi];
    assert before == [] || before == [bs[lo]];
    assert after == [] || after == [bs[i + 1]];
    OneUsed(before, bs[i], after);
    assert bs[lo..hi] == before + [bs[i]] + after;
  }

  lemma OneUsed(before: seq<Block>, b: Block, after: seq<Block>)
    requires b.used && |before| <= 1 && |after| <= 1
    requires forall x :: x in before || x in after ==> !x.used
    ensures Live(before + [b] + after) == {b}
    ensures UsedBytes(before + [b] + after) == b.end - b.start
  {
    UsedBytesConcat(before, [b]);
    UsedBytesConcat(before + [b], after);
    assert b in before + [b] + after;
  }

  // ------------------------------------------------------------- trimming

  function DataSize(b: Block): int {
    b.end - b.start - HEADER
  }

  /** Trimming block `i` to `size` bytes gives the cut-off part to a free right neighbour,
      or makes a free block of it when that block is large enough. */
  function TrimAt(bs: seq<Block>, i: nat, size: nat): seq<Block>
    requires i < |bs|
  {
    var cut := bs[i].start + HEADER + size;
    var front := Block(bs[i].start, cut, bs[i].used);
    if i + 1 < |bs| && !bs[i + 1].used then
      Splice(bs, i, i + 2, [front, Block(cut, bs[i + 1].end, false)])
    else if size + HEADER + MIN_SIZE <= DataSize(bs[i]) then
      Splice(bs, i, i + 1, [front, Block(cut, bs[i].end, false)])
    else
      bs
  }

  /** The three shapes of `TrimAt`; `hi` is the end of the part replaced. */
  lemma TrimCases(bs: seq<Block>, n: nat, i: nat, size: nat) returns (hi: nat, xs: seq<Block>)
    requires WellFormed(bs, n) && i < |bs| && bs[i].used
    requires size % ALIGN == 0 && MIN_SIZE <= size < DataSize(bs[i])
    ensures i < hi <= |bs| && (hi == i + 1 || (hi == i + 2 && !bs[i + 1].used))
    ensures TrimAt(bs, i, size) == Splice(bs, i, hi, xs)
    ensures (xs == [bs[i]] && hi == i + 1) || TrimPair(xs, bs, i, hi, size)
  {
    hide Covers, Apart;
    var cut := bs[i].start + HEADER + size;
    var front := Block(bs[i].start, cut, true);
    NextStart(bs, n, i);
    if i + 1 < |bs| && !bs[i + 1].used {
      NextStart(bs, n, i + 1);
      if i + 2 < |bs| { NextUsed(bs, i + 1); }
      hi, xs := i + 2, [front, Block(cut, bs[i + 1].end, false)];
      PairCovers(xs[0], xs[1]);
    } else if size + HEADER + MIN_SIZE <= DataSize(bs[i]) {
      hi, xs := i + 1, [front, Block(cut, bs[i].end, false)];
      PairCovers(xs[0], xs[1]);
    } else {
      hi, xs := i + 1, [bs[i]];
      assert Splice(bs, i, hi, xs) == bs;
    }
  }

  lemma NextUsed(bs: seq<Block>, i: nat)
    requires Apart(bs) && i + 1 < |bs| && !bs[i].used
    ensures bs[i + 1].used
  {
  }

  lemma PairCovers(x: Block, y: Block)
    requires BlockOk(x) && BlockOk(y) && x.end == y.start
    ensures Covers([x, y], x.start, y.end)
  {
  }

  ghost predicate TrimPair(xs: seq<Block>, bs: seq<Block>, i: nat, hi: nat, size: nat)
    requires i < hi <= |bs|
  {
    && |xs| == 2 && Covers(xs, bs[i].start, bs[hi - 1].end) && xs[0].used && !xs[1].used
    && DataSize(xs[0]) == size && (hi < |bs| ==> bs[hi].used)
  }

  lemma TrimWellFormed(bs: seq<Block>, n: nat, i: nat, size: nat)
    requires WellFormed(bs, n) && i < |bs| && bs[i].used
    requires size % ALIGN == 0 && MIN_SIZE <= size < DataSize(bs[i])
    ensures WellFormed(TrimAt(bs, i, size), n)
  {
    var hi, xs := TrimCases(bs, n, i, size);
    if |xs| == 2 {
      SpliceCovers(bs, n, i, hi, xs);
      SpliceApart(bs, i, hi, xs);
    } else {
      assert Splice(bs, i, hi, xs) == bs;
    }
  }

  /** Trimming replaces exactly that live block by one at the same place.  It is cut to `size`
      bytes if a free block follows or one can be made of the rest, and otherwise stays; the
      statistic shrinks by what was cut off. */
  lemma TrimShrinksOne(bs: seq<Block>, n: nat, i: nat, size: nat)
    requires WellFormed(bs, n) && i < |bs| && bs[i].used
    requires size % ALIGN == 0 && MIN_SIZE <= size < DataSize(bs[i])
    ensures |TrimAt(bs, i, size)| > i
    ensures var b := TrimAt(bs, i, size)[i];
            && b.used && b.start == bs[i].start
            && DataSize(b) == (if (i + 1 < |bs| && !bs[i + 1].used) || size + HEADER + MIN_SIZE <= DataSize(bs[i])
                               then size else DataSize(bs[i]))
            && Live(TrimAt(bs, i, size)) == Live(bs) - {bs[i]} + {b}
            && UsedBytes(TrimAt(bs, i, size)) == UsedBytes(bs) - (bs[i].end - b.end)
  {
    var hi, xs := TrimCases(bs, n, i, size);
    SpliceUsedBytes(bs, i, hi, xs);
    CoversDistinct(bs, 0, n);
    SpliceLive(bs, i, hi, xs);
    OneUsed([], bs[i], bs[i + 1..hi]);
    assert bs[i..hi] == [] + [bs[i]] + bs[i + 1..hi];
    OneUsed([], xs[0], xs[1..]);
    assert xs == [] + [xs[0]] + xs[1..];
  }

  /** When every assertion of `mem_trim` holds for a pointer to the block `b`: the block is
      not asked to grow, and a cut that needs a new block does not touch the end marker. */
  predicate TrimAsserts(b: Block, n: nat, size: nat) {
    && size <= DataSize(b)
    && !(b.end == n && size + HEADER + MIN_SIZE <= DataSize(b))
  }

  // ----------------------------------------------------------------- runs

  /** The index of the block whose data starts at offset `p`, or `|bs|`. */
  function FindData(bs: seq<Block>, p: int): (k: nat)
    ensures k <= |bs|
    ensures k < |bs| ==> bs[k].start + HEADER == p
    ensures k == |bs| ==> forall j :: 0 <= j < |bs| ==> bs[j].start + HEADER != p
  {
    if bs == [] || bs[0].start + HEADER == p then 0
    else
      var k := FindData(bs[1..], p);
      assert forall j :: 0 < j < |bs| ==> bs[j] == bs[1..][j - 1];
      1 + k
  }

  /** Calls of the three operations; a pointer is an offset from the start of the heap. */
  datatype Op = Malloc(size: nat) | Free(p: int) | Trim(p: int, size: nat)

  function Step(bs: seq<Block>, n: nat, op: Op): seq<Block> {
    match op
    case Malloc(size) =>
      if size < 0x10000 && Requestable(size, n) && FirstFit(bs, Rounded(size)) < |bs|
      then AllocAt(bs, FirstFit(bs, Rounded(size)), Rounded(size)) else bs
    case Free(p) =>
      var i := FindData(bs, p);
      if i < |bs| && bs[i].used then FreeAt(bs, i) else bs
    case Trim(p, size) =>
      var i := FindData(bs, p);
      if i < |bs| && bs[i].used && size <= 0xfffc && Rounded(size) < DataSize(bs[i])
      then TrimAt(bs, i, Rounded(size)) else bs
  }

  function Run(bs: seq<Block>, n: nat, ops: seq<Op>): seq<Block>
    decreases |ops|
  {
    if ops == [] then bs else Run(Step(bs, n, ops[0]), n, ops[1..])
  }

  lemma StepKeepsWellFormed(bs: seq<Block>, n: nat, op: Op)
    requires WellFormed(bs, n)
    ensures WellFormed(Step(bs, n, op), n)
  {
    match op {
      case Malloc(size) =>
        if size < 0x10000 && Requestable(size, n) && FirstFit(bs, Rounded(size)) < |bs| {
          AllocWellFormed(bs, n, FirstFit(bs, Rounded(size)), Rounded(size));
        }
      case Free(p) =>
        var i := FindData(bs, p);
        if i < |bs| && bs[i].used { FreeWellFormed(bs, n, i); }
      case Trim(p, size) =>
        var i := FindData(bs, p);
        if i < |bs| && bs[i].used && size <= 0xfffc && Rounded(size) < DataSize(bs[i]) {
          TrimWellFormed(bs, n, i, Rounded(size));
        }
    }
  }

  /** Every run from a well-formed heap, in particular from the initial one, keeps it
      well formed. */
  lemma {:induction false} RunKeepsWellFormed(bs: seq<Block>, n: nat, ops: seq<Op>)
    requires WellFormed(bs, n)
    ensures WellFormed(Run(bs, n, ops), n)
    decreases |ops|
  {
    if ops != [] {
      StepKeepsWellFormed(bs, n, ops[0]);
      RunKeepsWellFormed(Step(bs, n, ops[0]), n, ops[1..]);
    }
  }

  /** The live regions of a well-formed heap are aligned, inside the heap and disjoint. */
  lemma LiveRegions(bs: seq<Block>, n: nat, x: Block, y: Block)
    requires WellFormed(bs, n) && x in Live(bs) && y in Live(bs)
    ensures (x.start + HEADER) % ALIGN == 0 && x.end <= n
    ensures x == y || x.end <= y.start || y.end <= x.start
  {
    hide Covers, Apart;
    AllOrdered(bs, 0, n);
    var i :| 0 <= i < |bs| && bs[i] == x;
    var j :| 0 <= j < |bs| && bs[j] == y;
    NextStart(bs, n, i);
  }

  lemma SomethingLive(bs: seq<Block>)
    requires Apart(bs) && |bs| > 1
    ensures Live(bs) != {}
  {
    assert bs[0].used || bs[1].used;
    assert bs[0] in Live(bs) || bs[1] in Live(bs);
  }

  /** The blocks of two well-formed heaps up to `i` are the same if what is in use is. */
  lemma {:induction false} SameBlocks(bs: seq<Block>, cs: seq<Block>, n: nat, i: nat)
    requires WellFormed(bs, n) && WellFormed(cs, n) && Live(bs) == Live(cs) && i <= |bs| && i <= |cs|
    ensures bs[..i] == cs[..i]
  {
    hide Covers, Apart;
    if i > 0 {
      var k := i - 1;
      SameBlocks(bs, cs, n, k);
      SameStart(bs, cs, n, k);
      if bs[k].used {
        SameUsed(bs, cs, n, k);
      } else if cs[k].used {
        SameUsed(cs, bs, n, k);
      } else {
        NotLonger(bs, cs, n, k);
        NotLonger(cs, bs, n, k);
      }
      assert bs[..i] == bs[..k] + [bs[k]] && cs[..i] == cs[..k] + [cs[k]];
    }
  }

  lemma SameStart(bs: seq<Block>, cs: seq<Block>, n: nat, k: nat)
    requires Covers(bs, 0, n) && Covers(cs, 0, n) && k < |bs| && k < |cs| && bs[..k] == cs[..k]
    ensures bs[k].start == cs[k].start
  {
    if k > 0 { assert bs[..k][k - 1] == cs[..k][k - 1]; }
  }

  lemma SameUsed(bs: seq<Block>, cs: seq<Block>, n: nat, k: nat)
    requires Covers(cs, 0, n) && Live(bs) == Live(cs) && k < |bs| && k < |cs| && bs[k].start == cs[k].start && bs[k].used
    ensures cs[k] == bs[k]
  {
    hide Covers;
    CoversIncreasing(cs, 0, n);
    assert bs[k] in Live(bs);
    var j :| 0 <= j < |cs| && cs[j] == bs[k];
  }

  /** A free block ends where the next block in use begins, or at the end of the heap. */
  lemma NotLonger(bs: seq<Block>, cs: seq<Block>, n: nat, k: nat)
    requires WellFormed(bs, n) && Covers(cs, 0, n) && Live(bs) == Live(cs) && k < |bs| && k < |cs|
    requires bs[k].start == cs[k].start && !bs[k].used && !cs[k].used
    ensures cs[k].end <= bs[k].end
  {
    hide Covers, Apart;
    NextStart(bs, n, k);
    NextStart(cs, n, k);
    if k + 1 < |bs| {
      NextUsed(bs, k);
      assert bs[k + 1] in Live(bs);
      var j :| 0 <= j < |cs| && cs[j] == bs[k + 1];
      NextStart(bs, n, k + 1);
      if k < j { Ordered(cs, 0, n, k, j); } else if j < k { Ordered(cs, 0, n, j, k); }
    }
  }

  /** What is in use determines the whole layout: free blocks are the gaps. */
  lemma LayoutDetermined(bs: seq<Block>, cs: seq<Block>, n: nat)
    requires WellFormed(bs, n) && WellFormed(cs, n) && Live(bs) == Live(cs)
    ensures bs == cs
  {
    hide Covers, Apart;
    var i := if |bs| < |cs| then |bs| else |cs|;
    SameBlocks(bs, cs, n, i);
    LastEnds(bs, n);
    LastEnds(cs, n);
    assert bs[..i][i - 1] == cs[..i][i - 1];
    if |bs| < |cs| { NextStart(cs, n, i - 1); } else if |cs| < |bs| { NextStart(bs, n, i - 1); }
    assert bs[..i] == bs && cs[..i] == cs;
  }

  lemma LastEnds(bs: seq<Block>, n: nat)
    requires Covers(bs, 0, n)
    ensures |bs| > 0 && bs[|bs| - 1].end == n
  {
  }

  /** A heap with nothing in use is the initial heap again. */
  lemma NothingLive(bs: seq<Block>, n: nat)
    requires WellFormed(bs, n) && Live(bs) == {}
    ensures bs == Initial(n) && LowestFree(bs, n) == 0 && UsedBytes(bs) == 0
  {
    if |bs| > 1 {
      SomethingLive(bs);
    }
    assert bs[0] !in Live(bs);
    assert bs == Initial(n);
    LowestFreeIs(bs, n, 0);
  }

  function Frees(ps: seq<int>): seq<Op> {
    seq(|ps|, i requires 0 <= i < |ps| => Free(ps[i]))
  }

  lemma FindsBlock(bs: seq<Block>, n: nat, b: Block)
    requires WellFormed(bs, n) && b in bs
    ensures FindData(bs, b.start + HEADER) < |bs| && bs[FindData(bs, b.start + HEADER)] == b
  {
    var j :| 0 <= j < |bs| && bs[j] == b;
    var i := FindData(bs, b.start + HEADER);
    assert BlockOk(bs[j]);
    if i < j { assert BlockOk(bs[i]); Ordered(bs, 0, n, i, j); }
    if j < i < |bs| { Ordered(bs, 0, n, j, i); }
  }

  /** Freeing every live block, in any order and even repeatedly, restores the initial heap. */
  lemma {:induction false} FreeingAllRestores(bs: seq<Block>, n: nat, ps: seq<int>)
    requires WellFormed(bs, n)
    requires forall b :: b in Live(bs) ==> b.start + HEADER in ps
    ensures Run(bs, n, Frees(ps)) == Initial(n)
    decreases |ps|
  {
    hide Covers, Apart, FreeAt;
    if ps == [] {
      assert forall b :: b in Live(bs) ==> b.start + HEADER !in ps;
      NothingLive(bs, n);
    } else {
      var next := Step(bs, n, Free(ps[0]));
      assert Frees(ps)[0] == Free(ps[0]) && Frees(ps)[1..] == Frees(ps[1..]);
      var i := FindData(bs, ps[0]);
      if i < |bs| && bs[i].used {
        FreeWellFormed(bs, n, i);
        FreeRemovesOne(bs, n, i);
      }
      forall b | b in Live(next) ensures b.start + HEADER in ps[1..] {
        assert b in Live(bs) && b.start + HEADER in ps;
        if b.start + HEADER == ps[0] {
          FindsBlock(bs, n, b);
        }
        assert ps == [ps[0]] + ps[1..];
      }
      FreeingAllRestores(next, n, ps[1..]);
    }
  }

  /** The assertion of `mem_trim` on the end marker fails in a run of legal calls: allocate
      the whole configured heap, then trim it to a legal smaller size. */
  lemma TrimAssertionCanFail()
    ensures var bs := Run(Initial(10240), 10240, [Malloc(10232)]);
            bs == [Block(0, 10240, true)] && Rounded(100) <= DataSize(bs[0]) && !TrimAsserts(bs[0], 10240, Rounded(100))
  {
    var bs := Initial(10240);
    assert Rounded(10232) == 10232 && Fits(bs[0], 10232);
    assert FirstFit(bs, 10232) == 0;
    assert Step(bs, 10240, Malloc(10232)) == [Block(0, 10240, true)];
    assert Run(Step(bs, 10240, Malloc(10232)), 10240, []) == [Block(0, 10240, true)];
  }
}
