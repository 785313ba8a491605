/** The block list kept by the lwIP heap (lwip/src/core/mem.c), as a value.

    The heap is an area of `n` bytes cut into consecutive blocks, each starting
    with a header.  This module says what a well-formed cut is, what allocating,
    freeing and trimming do to it, and what every run of these keeps.  The
    headers and the pointer chasing are in `HeapAllocator`. */
module HeapLayout {

  /** `MEM_ALIGNMENT`, `SIZEOF_STRUCT_MEM` and `MIN_SIZE_ALIGNED`. */
  const ALIGN: nat := 4
  const HEADER: nat := 8
  const MIN_SIZE: nat := 12

  /** A block covers the offsets `start..end`, its header included. */
  datatype Block = Block(start: nat, end: nat, used: bool)

  predicate BlockOk(b: Block) {
    b.start % ALIGN == 0 && b.end % ALIGN == 0 && b.start + HEADER + MIN_SIZE <= b.end
  }

  /** The blocks lie end to end from offset `a` to offset `b`. */
  ghost predicate Covers(bs: seq<Block>, a: nat, b: nat) {
    && |bs| > 0 && bs[0].start == a && bs[|bs| - 1].end == b
    && (forall i :: 0 <= i < |bs| ==> BlockOk(bs[i]))
    && (forall i, j :: 0 <= i < j < |bs| && j == i + 1 ==> bs[i].end == bs[j].start)
  }

  /** No two neighbouring blocks are both free. */
  ghost predicate Apart(bs: seq<Block>) {
    forall i, j :: 0 <= i < j < |bs| && j == i + 1 ==> bs[i].used || bs[j].used
  }

  ghost predicate WellFormed(bs: seq<Block>, n: nat) {
    Covers(bs, 0, n) && Apart(bs)
  }

  /** A heap size that `mem_size_t` (16 bits) can index. */
  predicate HeapSize(n: nat) {
    HEADER + MIN_SIZE <= n <= 64000 && n % ALIGN == 0
  }

  function Initial(n: nat): seq<Block> {
    [Block(0, n, false)]
  }

  // ---------------------------------------------------------------- order

  lemma {:induction false} Ordered(bs: seq<Block>, a: nat, b: nat, i: int, j: int)
    requires Covers(bs, a, b) && 0 <= i < j < |bs|
    ensures bs[i].end <= bs[j].start
    decreases j - i
  {
    if i + 1 < j {
      Ordered(bs, a, b, i + 1, j);
      assert bs[i].end == bs[i + 1].start && BlockOk(bs[i + 1]);
    }
  }

  lemma AllOrdered(bs: seq<Block>, a: nat, b: nat)
    requires Covers(bs, a, b)
    ensures forall i, j :: 0 <= i < j < |bs| ==> bs[i].end <= bs[j].start
    ensures forall i :: 0 <= i < |bs| ==> a <= bs[i].start && bs[i].end <= b
  {
    forall i, j | 0 <= i < j < |bs| ensures bs[i].end <= bs[j].start {
      Ordered(bs, a, b, i, j);
    }
    assert BlockOk(bs[0]) && BlockOk(bs[|bs| - 1]);
  }

  /** Block starts increase. */
  ghost predicate Increasing(bs: seq<Block>) {
    forall i, j :: 0 <= i < j < |bs| ==> bs[i].start < bs[j].start
  }

  lemma CoversIncreasing(bs: seq<Block>, a: nat, b: nat)
    requires Covers(bs, a, b)
    ensures Increasing(bs)
  {
    forall i, j | 0 <= i < j < |bs| ensures bs[i].start < bs[j].start {
      Ordered(bs, a, b, i, j);
      assert BlockOk(bs[i]);
    }
  }

  /** What follows block `i` starts where it ends. */
  lemma NextStart(bs: seq<Block>, n: nat, i: nat)
    requires Covers(bs, 0, n) && i < |bs|
    ensures BlockOk(bs[i]) && bs[i].end <= n
    ensures if i + 1 < |bs| then bs[i].end == bs[i + 1].start < n else bs[i].end == n
  {
    if i + 1 < |bs| {
      Ordered(bs, 0, n, i, i + 1);
      if i + 1 < |bs| - 1 { Ordered(bs, 0, n, i + 1, |bs| - 1); }
      assert BlockOk(bs[|bs| - 1]) && BlockOk(bs[i + 1]);
    }
  }

  // ------------------------------------------------------------ searching

  predicate Fits(b: Block, size: nat) {
    !b.used && b.end - b.start >= HEADER + size
  }

  /** The first block that is free and holds `size` bytes, or `|bs|`. */
  function FirstFit(bs: seq<Block>, size: nat): (k: nat)
    ensures k <= |bs|
    ensures forall j :: 0 <= j < k ==> !Fits(bs[j], size)
    ensures k < |bs| ==> Fits(bs[k], size)
  {
    if bs == [] || Fits(bs[0], size) then 0
    else
      var k := FirstFit(bs[1..], size);
      assert forall j :: 0 < j < 1 + k ==> bs[j] == bs[1..][j - 1];
      1 + k
  }

  /** The offset of the lowest free block, or `n` (the end marker) when there is none. */
  function LowestFree(bs: seq<Block>, n: nat): (off: nat) {
    var k := FirstFit(bs, 0);
    if k < |bs| then bs[k].start else n
  }

  lemma LowestFreeIs(bs: seq<Block>, n: nat, k: nat)
    requires Covers(bs, 0, n) && k <= |bs|
    requires forall j :: 0 <= j < k ==> bs[j].used
    requires k < |bs| ==> !bs[k].used
    ensures LowestFree(bs, n) == if k < |bs| then bs[k].start else n
  {
    if k < |bs| {
      assert BlockOk(bs[k]);
    }
  }

  // ----------------------------------------------------------- statistics

  function UsedBytes(bs: seq<Block>): int {
    if bs == [] then 0
    else (if bs[0].used then bs[0].end - bs[0].start else 0) + UsedBytes(bs[1..])
  }

  lemma {:induction false} UsedBytesConcat(a: seq<Block>, b: seq<Block>)
    ensures UsedBytes(a + b) == UsedBytes(a) + UsedBytes(b)
  {
    if a == [] {
      assert a + b == b;
    } else {
      assert (a + b)[1..] == a[1..] + b;
      UsedBytesConcat(a[1..], b);
    }
  }

  /** The blocks in use. */
  ghost function Live(bs: seq<Block>): set<Block> {
    set b | b in bs && b.used
  }

  // ------------------------------------------------------------- splicing

  /** `bs` with the blocks `lo..hi` replaced by `xs`. */
  function Splice(bs: seq<Block>, lo: nat, hi: nat, xs: seq<Block>): seq<Block>
    requires lo <= hi <= |bs|
  {
    bs[..lo] + xs + bs[hi..]
  }

  lemma SpliceCovers(bs: seq<Block>, n: nat, lo: nat, hi: nat, xs: seq<Block>)
    requires Covers(bs, 0, n) && lo < hi <= |bs|
    requires Covers(xs, bs[lo].start, bs[hi - 1].end)
    ensures Covers(Splice(bs, lo, hi, xs), 0, n)
  {
    var r := Splice(bs, lo, hi, xs);
    forall i, j | 0 <= i < j < |r| && j == i + 1 ensures r[i].end == r[j].start {
      if j < lo {
      } else if j == lo {
        assert bs[lo - 1].end == bs[lo].start;
      } else if j < lo + |xs| {
        assert xs[i - lo].end == xs[j - lo].start;
      } else if j == lo + |xs| {
        assert bs[hi - 1].end == bs[hi].start;
      } else {
        assert bs[i - lo - |xs| + hi].end == bs[j - lo - |xs| + hi].start;
      }
    }
  }

  /** A splice is apart if its pieces and its two seams are. */
  lemma SpliceApart(bs: seq<Block>, lo: nat, hi: nat, xs: seq<Block>)
    requires Apart(bs) && lo < hi <= |bs| && Apart(xs) && |xs| > 0
    requires lo > 0 ==> bs[lo - 1].used || xs[0].used
    requires hi < |bs| ==> bs[hi].used || xs[|xs| - 1].used
    ensures Apart(Splice(bs, lo, hi, xs))
  {
    var r := Splice(bs, lo, hi, xs);
    forall i, j | 0 <= i < j < |r| && j == i + 1 ensures r[i].used || r[j].used {
      if lo < j < lo + |xs| {
        assert xs[i - lo].used || xs[j - lo].used;
      } else if j > lo + |xs| {
        assert bs[i - lo - |xs| + hi].used || bs[j - lo - |xs| + hi].used;
      }
    }
  }

  lemma SpliceUsedBytes(bs: seq<Block>, lo: nat, hi: nat, xs: seq<Block>)
    requires lo <= hi <= |bs|
    ensures UsedBytes(Splice(bs, lo, hi, xs)) == UsedBytes(bs) - UsedBytes(bs[lo..hi]) + UsedBytes(xs)
  {
    assert bs == bs[..lo] + bs[lo..hi] + bs[hi..];
    UsedBytesConcat(bs[..lo], bs[lo..hi]);
    UsedBytesConcat(bs[..lo] + bs[lo..hi], bs[hi..]);
    UsedBytesConcat(bs[..lo], xs);
    UsedBytesConcat(bs[..lo] + xs, bs[hi..]);
  }

  /** The blocks are distinct. */
  ghost predicate Distinct(bs: seq<Block>) {
    forall i, j :: 0 <= i < j < |bs| ==> bs[i] != bs[j]
  }

  lemma CoversDistinct(bs: seq<Block>, a: nat, b: nat)
    requires Covers(bs, a, b)
    ensures Distinct(bs)
  {
    forall i, j | 0 <= i < j < |bs| ensures bs[i] != bs[j] {
      Ordered(bs, a, b, i, j);
      assert BlockOk(bs[i]);
    }
  }

  /** Splicing removes just the live blocks it covers. */
  lemma SpliceLive(bs: seq<Block>, lo: nat, hi: nat, xs: seq<Block>)
    requires Distinct(bs) && lo <= hi <= |bs|
    ensures Live(Splice(bs, lo, hi, xs)) == Live(bs) - Live(bs[lo..hi]) + Live(xs)
  {
    var front, mid, back := bs[..lo], bs[lo..hi], bs[hi..];
    assert bs == front + mid + back;
    forall b | b in front || b in back ensures b !in mid {
      if b in front {
        var i :| 0 <= i < lo && bs[i] == b;
      } else {
        var i :| hi <= i < |bs| && bs[i] == b;
      }
    }
  }
}
