/** The heap of lwip/src/core/mem.c: headers with `next` and `prev` offsets kept inside
    the heap, a cached lowest free block and a usage statistic, updated in place. */
module HeapAllocator {
  import opened HeapLayout
  import opened HeapOperations
  import opened HeapHeaders

  datatype Option<+T> = None | Some(value: T)

  /** No free block has room for `size` bytes. */
  ghost predicate NoRoom(bs: seq<Block>, size: nat) {
    forall b :: b in bs && !b.used ==> b.end - b.start < HEADER + size
  }

  /** `size` bytes at offset `p` come from block `k` of `bs`: the lowest with room for them. Just
      the bytes and a header are taken if another block can be made of the rest, and otherwise
      all of it; nothing else comes into use. */
  ghost predicate Granted(bs: seq<Block>, bs': seq<Block>, k: nat, p: nat, size: nat) {
    && k < |bs| && !bs[k].used && bs[k].end - bs[k].start >= HEADER + size && NoRoom(bs[..k], size)
    && p == bs[k].start + HEADER
    && var end := if bs[k].end - bs[k].start >= 2 * HEADER + size + MIN_SIZE then p + size else bs[k].end;
       Live(bs') == Live(bs) + {Block(bs[k].start, end, true)}
  }

  lemma NoRoomIff(bs: seq<Block>, size: nat)
    ensures NoRoom(bs, size) <==> FirstFit(bs, size) == |bs|
  {
    var k := FirstFit(bs, size);
    if k < |bs| { assert bs[k] in bs; }
  }

  lemma NoRoomBefore(bs: seq<Block>, size: nat)
    ensures NoRoom(bs[..FirstFit(bs, size)], size)
  {
    var k := FirstFit(bs, size);
    forall b | b in bs[..k] && !b.used ensures b.end - b.start < HEADER + size {
      var j :| 0 <= j < k && bs[..k][j] == b;
      assert !Fits(bs[j], size);
    }
  }

  lemma GrantedIs(bs: seq<Block>, bs': seq<Block>, k: nat, size: nat)
    requires k < |bs| && k < |bs'| && Fits(bs[k], size) && NoRoom(bs[..k], size) && bs'[k].used && bs'[k].start == bs[k].start
    requires Live(bs') == Live(bs) + {bs'[k]}
    requires bs'[k].end ==
             if bs[k].end - bs[k].start >= 2 * HEADER + size + MIN_SIZE then bs[k].start + HEADER + size else bs[k].end
    ensures Granted(bs, bs', k, bs[k].start + HEADER, size)
  {
    hide Live, NoRoom;
    assert bs'[k] == Block(bs[k].start, bs'[k].end, true);
  }

  lemma SameItself(h: seq<Header>, bs: seq<Block>)
    ensures SamePayload(h, h, bs)
  {
  }

  class Heap {
    /** `MEM_SIZE_ALIGNED`, the offset of `ram_end`. */
    const n: nat
    /** The heap memory, seen through the header that starts at each offset. */
    const ram: array<Header>
    var lfree: int
    /** The `used`, `err` and `illegal` counters of the memory statistics. */
    var used: int
    var err: nat
    var illegal: nat
    /** The block list that the headers describe. */
    ghost var blocks: seq<Block>

    ghost predicate Links()
      reads this, ram
    {
      HeapSize(n) && ram.Length == n + 1 && Covers(blocks, 0, n) && Linked(ram[..], blocks, n)
    }

    ghost predicate Valid()
      reads this, ram
    {
      Links() && Apart(blocks) && lfree == LowestFree(blocks, n) && used == UsedBytes(blocks)
    }

    /** `mem_init`. */
    constructor (size: nat)
      requires HeapSize(size)
      ensures Valid() && fresh(ram) && n == size && blocks == Initial(size) && lfree == 0
      ensures err == 0 && illegal == 0
    {
      n := size;
      ram := new Header[size + 1](_ => Header(0, 0, false));
      lfree, used, err, illegal := 0, 0, 0, 0;
      blocks := Initial(size);
      new;
      ram[0] := Header(n, 0, false);
      ram[n] := Header(n, n, true);
      LowestFreeIs(blocks, n, 0);
    }

    /** Assignments to a header field in memory. */
    method SetNext(p: nat, next: nat)
      requires p < ram.Length
      modifies ram
      ensures ram[..] == WithNext(old(ram[..]), p, next)
    {
      ram[p] := ram[p].(next := next);
    }

    /** The guarded assignment `if (p != MEM_SIZE_ALIGNED) ptr_to_mem(p)->prev = prev`. */
    method SetPrev(p: nat, prev: nat)
      requires p <= n && ram.Length == n + 1
      modifies ram
      ensures ram[..] == WithPrev(old(ram[..]), p, prev)
    {
      if p != n {
        ram[p] := ram[p].(prev := prev);
      }
    }

    /** One half of `plug_holes`: the free block at `q` is absorbed by its free left
        neighbour at `p`. */
    method Join(p: nat, q: nat, ghost k: nat)
      requires Links() && k + 1 < |blocks| && p == blocks[k].start && q == blocks[k + 1].start
      requires !blocks[k].used && !blocks[k + 1].used
      requires lfree == LowestFree(blocks, n)
      modifies this`lfree, this`blocks, ram
      ensures Links() && lfree == LowestFree(blocks, n)
      ensures blocks == JoinNext(old(blocks), k)
      ensures ram[..] == Joined(old(ram[..]), p, q)
    {
      hide Linked, Covers, LowestFree, Splice;
      lfree := if lfree == q then p else lfree;
      JoinLowest(blocks, n, k);
      JoinLinked(ram[..], blocks, n, k);
      HeaderAt(ram[..], blocks, n, k + 1);
      NextStart(blocks, n, k);
      NextStart(blocks, n, k + 1);
      var next := ram[..][q].next;
      SetNext(p, next);
      SetPrev(next, p);
      blocks := JoinNext(blocks, k);
    }

    /** "Plug hole forward". */
    method PlugForward(mem: nat, ghost i: nat)
      requires Links() && i < |blocks| && mem == blocks[i].start && !blocks[i].used
      requires lfree == LowestFree(blocks, n)
      modifies this`lfree, this`blocks, ram
      ensures Links() && lfree == LowestFree(blocks, n)
      ensures blocks == JoinNext(old(blocks), i)
      ensures ram[..] == PluggedForward(old(ram[..]), n, mem)
    {
      NextStart(blocks, n, i);
      var nmem := ram[..][mem].next;
      if mem != nmem && !ram[..][nmem].used && nmem != n {
        Join(mem, nmem, i);
      }
    }

    /** "Plug hole backward". */
    method PlugBackward(mem: nat, ghost i: nat)
      requires Links() && i < |blocks| && mem == blocks[i].start && !blocks[i].used
      requires lfree == LowestFree(blocks, n)
      modifies this`lfree, this`blocks, ram
      ensures Links() && lfree == LowestFree(blocks, n)
      ensures blocks == if i > 0 then JoinNext(old(blocks), i - 1) else old(blocks)
      ensures ram[..] == PluggedBackward(old(ram[..]), n, mem)
    {
      CoversIncreasing(blocks, 0, n);
      var pmem := ram[..][mem].prev;
      if pmem != mem && !ram[..][pmem].used {
        Join(pmem, mem, i - 1);
      }
    }

    /** `plug_holes`: block `i`, just freed, is joined with the free blocks beside it. */
    method PlugHoles(mem: nat, ghost i: nat)
      requires Links() && i < |blocks| && mem == blocks[i].start && !blocks[i].used
      requires lfree == LowestFree(blocks, n)
      modifies this`lfree, this`blocks, ram
      ensures Links() && lfree == LowestFree(blocks, n)
      ensures blocks == FreeAt(old(blocks), i)
      ensures ram[..] == Plugged(old(ram[..]), n, mem)
    {
      PlugIsFree(blocks, i);
      PlugForward(mem, i);
      PlugBackward(mem, i);
    }

    method SetUsed(p: nat, used: bool)
      requires p < ram.Length
      modifies ram
      ensures ram[..] == WithUsed(old(ram[..]), p, used)
    {
      ram[p] := ram[p].(used := used);
    }

    /** The end of `mem_free`, once the header at `mem` has been accepted. */
    method Release(mem: nat, ghost i: nat)
      requires Valid() && i < |blocks| && mem == blocks[i].start && blocks[i].used
      modifies this`lfree, this`used, this`blocks, ram
      ensures Valid() && blocks == FreeAt(old(blocks), i)
      ensures ram[..] == Plugged(WithUsed(old(ram[..]), mem, false), n, mem)
    {
      hide FreeAt, LowestFree, UsedBytes, Live, Plugged, Linked, Covers, Apart;
      HeaderAt(ram[..], blocks, n, i);
      FreeWellFormed(blocks, n, i);
      FreeRemovesOne(blocks, n, i);
      FreeAtMarked(blocks, i);
      MarkFree(ram[..], blocks, n, i);
      used := used - (ram[mem].next - mem);
      SetUsed(mem, false);
      lfree := if mem < lfree then mem else lfree;
      blocks := blocks[i := blocks[i].(used := false)];
      PlugHoles(mem, i);
    }

    /** Whether `mem_free` takes the pointer `p` (an offset into the heap) for a block in use. */
    predicate Accepts(p: int)
      requires ram.Length == n + 1
      reads ram
    {
      && p % ALIGN == 0 && 0 <= p - HEADER && p + MIN_SIZE <= n
      && ram[p - HEADER].used && LinkValid(ram[..], n, p - HEADER)
    }

    /** `mem_free`.  A pointer that is misaligned, out of range or whose header is not a
        linked header in use is counted as illegal and changes nothing.  The caller must not
        forge a header: whatever passes these tests must be the start of a block. */
    method Free(rmem: Option<int>)
      requires Valid()
      requires rmem.Some? && Accepts(rmem.value) ==> FindData(blocks, rmem.value) < |blocks|
      modifies this, ram
      ensures Valid() && err == old(err)
      ensures rmem.None? ==> blocks == old(blocks) && illegal == old(illegal) && ram[..] == old(ram[..])
      ensures rmem.Some? ==> blocks == Step(old(blocks), n, HeapOperations.Free(rmem.value))
      ensures rmem.Some? ==>
        var i := FindData(old(blocks), rmem.value);
        var live := i < |old(blocks)| && old(blocks)[i].used;
        && illegal == old(illegal) + (if live then 0 else 1)
        && (if live then !ram[rmem.value - HEADER].used else ram[..] == old(ram[..]))
      ensures SamePayload(old(ram[..]), ram[..], blocks)
    {
      hide Linked, Covers, Apart, LowestFree, UsedBytes, Live, FreeAt, Plugged, LinkValid;
      if rmem.None? {
        return;
      }
      var p := rmem.value;
      ghost var i := FindData(blocks, p);
      LiveAccepted(p);
      if p % ALIGN != 0 || p - HEADER < 0 || p + MIN_SIZE > n
         || !ram[p - HEADER].used || !LinkValid(ram[..], n, p - HEADER) {
        illegal := illegal + 1;
        return;
      }
      HeaderAt(ram[..], blocks, n, i);
      ReleaseKeeps(ram[..], blocks, n, i);
      Release(p - HEADER, i);
    }

    /** The data pointer of a block in use passes the tests of `mem_free`. */
    lemma LiveAccepted(p: int)
      requires Valid()
      ensures var i := FindData(blocks, p);
              i < |blocks| ==> Accepts(p) == blocks[i].used
    {
      hide Linked, Covers, Apart, LowestFree, UsedBytes, LinkValid;
      var i := FindData(blocks, p);
      if i < |blocks| {
        BlocksLinkValid(ram[..], blocks, n, i);
        NextStart(blocks, n, i);
        HeaderAt(ram[..], blocks, n, i);
      }
    }

    method SetHeader(p: nat, m: Header)
      requires p < ram.Length
      modifies ram
      ensures ram[..] == old(ram[..])[p := m]
    {
      ram[p] := m;
    }

    /** The header updates of `mem_malloc` for the free block at `ptr`. */
    method Carve(ptr: nat, size: nat)
      requires ram.Length == n + 1 && ptr < n && ptr + HEADER + size <= n && ram[ptr].next <= n
      modifies this`used, ram
      ensures ram[..] == CarvedHeaders(old(ram[..]), ptr, size)
      ensures used == old(used) + ram[ptr].next - ptr
    {
      var next := ram[ptr].next;
      if next - (ptr + HEADER) >= size + HEADER + MIN_SIZE {
        var ptr2 := ptr + HEADER + size;
        InsertFree(ptr, ptr2, next);
        SetUsed(ptr, true);
        assert ram[..][ptr].next == ptr2;
        used := used + size + HEADER;
      } else {
        SetUsed(ptr, true);
        used := used + next - ptr;
      }
    }

    /** After the lowest free block has been taken: find the next free one. */
    method AdvanceLfree(ghost k: nat)
      requires Links() && k < |blocks| && lfree == blocks[k].start
      requires forall j :: 0 <= j < k ==> blocks[j].used
      modifies this`lfree
      ensures Links() && lfree == LowestFree(blocks, n)
    {
      hide Linked, Covers, LowestFree;
      var cur := lfree;
      ghost var c: nat := k;
      HeaderAt(ram[..], blocks, n, k);
      while cur != n && ram[cur].used
        invariant 0 <= cur <= n && c <= |blocks| && cur == if c < |blocks| then blocks[c].start else n
        invariant c < |blocks| ==> ram[..][cur] == HeaderOf(blocks, c) && cur < n
        invariant forall j :: 0 <= j < c ==> blocks[j].used
        decreases |blocks| - c
      {
        NextStart(blocks, n, c);
        cur := ram[cur].next;
        c := c + 1;
        if c < |blocks| { HeaderAt(ram[..], blocks, n, c); }
      }
      LowestFreeIs(blocks, n, c);
      lfree := cur;
    }

    /** Block `k`, the first that fits, is taken. */
    method Take(ptr: nat, size: nat, ghost k: nat)
      requires Valid() && k < |blocks| && ptr == blocks[k].start && Fits(blocks[k], size)
      requires size % ALIGN == 0 && size >= MIN_SIZE
      modifies this`lfree, this`used, this`blocks, ram
      ensures Valid() && blocks == AllocAt(old(blocks), k, size)
      ensures |blocks| > k && blocks[k].used && blocks[k].start == ptr && Live(blocks) == Live(old(blocks)) + {blocks[k]}
      ensures blocks[k].end ==
              if old(blocks)[k].end - ptr >= 2 * HEADER + size + MIN_SIZE then ptr + HEADER + size else old(blocks)[k].end
      ensures SamePayload(old(ram[..]), ram[..], old(blocks))
    {
      hide Linked, Covers, Apart, LowestFree, UsedBytes, Live, CarvedHeaders, AllocAt, SamePayload;
      ghost var bs := blocks;
      HeaderAt(ram[..], bs, n, k);
      NextStart(bs, n, k);
      AllocWellFormed(bs, n, k, size);
      AllocAddsOne(bs, n, k, size);
      CarveLinked(ram[..], bs, n, k, size);
      CarvedSamePayload(ram[..], bs, n, k, size);
      AllocLowest(bs, n, k, size);
      Carve(ptr, size);
      blocks := AllocAt(bs, k, size);
      HeaderAt(ram[..], blocks, n, k);
      if ptr == lfree {
        AdvanceLfree(k);
      }
    }

    /** `mem_malloc`: `None` exactly when the size is 0 or too large or no free block anywhere
        fits; otherwise data in the lowest-addressed block that fits, of which no more is
        taken than has to be. */
    method Malloc(sizeIn: nat) returns (p: Option<nat>)
      requires Valid() && sizeIn < 0x10000
      modifies this, ram
      ensures Valid() && illegal == old(illegal)
      ensures blocks == Step(old(blocks), n, HeapOperations.Malloc(sizeIn))
      ensures p.None? <==> sizeIn == 0 || sizeIn > 0xfffc || Rounded(sizeIn) > n || NoRoom(old(blocks), Rounded(sizeIn))
      ensures if p.None? then blocks == old(blocks)
              else exists k :: Granted(old(blocks), blocks, k, p.value, Rounded(sizeIn))
      ensures err == old(err) + (if 0 < sizeIn <= 0xfffc && Rounded(sizeIn) <= n && p.None? then 1 else 0)
      ensures SamePayload(old(ram[..]), ram[..], old(blocks))
    {
      hide Linked, Covers, Apart, UsedBytes, Live, AllocAt, LowestFree, NoRoom, Granted, SamePayload;
      SameItself(ram[..], blocks);
      if sizeIn == 0 {
        return None;
      }
      var size := Rounded(sizeIn);
      if size > n || size < sizeIn {
        return None;
      }
      var ptr, k := Search(size);
      NoRoomIff(blocks, size);
      if ptr < n - size {
        ghost var bs := blocks;
        Take(ptr, size, k);
        NoRoomBefore(bs, size);
        GrantedIs(bs, blocks, k, size);
        return Some(ptr + HEADER);
      }
      err := err + 1;
      return None;
    }

    /** The search of `mem_malloc` through the headers, from the lowest free block on. */
    method Search(size: nat) returns (ptr: nat, ghost k: nat)
      requires Valid() && size <= n
      ensures k == FirstFit(blocks, size) && (ptr < n - size <==> k < |blocks|)
      ensures k < |blocks| ==> ptr == blocks[k].start
    {
      hide Linked, Covers, Apart, UsedBytes, Live, LowestFree;
      ptr := lfree;
      k := SkipToLowest(blocks, n, size);
      while ptr < n - size
        invariant k <= |blocks| && ptr == if k < |blocks| then blocks[k].start else n
        invariant forall j :: 0 <= j < k ==> !Fits(blocks[j], size)
        decreases |blocks| - k
      {
        HeaderAt(ram[..], blocks, n, k);
        NextStart(blocks, n, k);
        var m := ram[ptr];
        if !m.used && m.next - (ptr + HEADER) >= size {
          return;
        }
        ptr := m.next;
        k := k + 1;
      }
      NoneBeyond(blocks, n, size, k);
      k := |blocks|;
    }

    /** The header updates of both shrinking branches of `mem_trim`. */
    method InsertFree(ptr: nat, ptr2: nat, next: nat)
      requires ram.Length == n + 1 && ptr < n && ptr2 <= n && next <= n
      modifies ram
      ensures ram[..] == FreeInserted(old(ram[..]), ptr, ptr2, next)
    {
      SetHeader(ptr2, Header(next, ptr, false));
      SetNext(ptr, ptr2);
      SetPrev(next, ptr2);
    }

    /** Block `i` is cut at offset `cut`; `hi` is the end of the blocks that the new free
        block replaces.  `lfree` is already up to date. */
    method CutAt(ptr: nat, cut: nat, next: nat, ghost i: nat, ghost hi: nat, ghost r: seq<Block>)
      requires Links() && i < hi <= |blocks| && hi <= i + 2 && blocks[i].used && ptr == blocks[i].start
      requires ptr < cut < blocks[i].end && next == blocks[hi - 1].end
      requires r == Splice(blocks, i, hi, [Block(ptr, cut, true), Block(cut, next, false)])
      requires WellFormed(r, n) && lfree == LowestFree(r, n)
      requires Live(r) == Live(blocks) - {blocks[i]} + {Block(ptr, cut, true)}
      requires used == UsedBytes(blocks) && UsedBytes(r) == UsedBytes(blocks) - (blocks[i].end - cut)
      modifies this`used, this`blocks, ram
      ensures Valid() && blocks == r
      ensures SamePayload(old(ram[..]), ram[..], r)
    {
      hide Linked, Covers, Apart, LowestFree, UsedBytes, Live, FreeInserted, Splice, SamePayload;
      ghost var bs, h := blocks, ram[..];
      HeaderAt(h, bs, n, i);
      NextStart(bs, n, i);
      NextStart(bs, n, hi - 1);
      CutLinked(h, bs, n, i, hi, cut);
      TrimSamePayload(h, bs, r, n, i, hi, cut);
      var end := ram[ptr].next;
      InsertFree(ptr, cut, next);
      used := used - (end - cut);
      blocks := r;
    }

    /** `mem_trim` for a pointer to a block in use or to no heap memory at all.  `held` tells
        whether every assertion on the way held; the effect is that of a build in which
        failed assertions are ignored. */
    method Trim(p: int, newSize: nat) returns (r: Option<int>, held: bool)
      requires Valid() && newSize < 0x10000
      requires 0 <= p < n ==> FindData(blocks, p) < |blocks| && blocks[FindData(blocks, p)].used
      modifies this, ram
      ensures Valid() && err == old(err)
      ensures blocks == Step(old(blocks), n, HeapOperations.Trim(p, newSize))
      ensures var i := FindData(old(blocks), p);
              if 0 <= p < n && Trimmable(newSize) && Rounded(newSize) < DataSize(old(blocks)[i]) then
                exists b :: b in blocks && b.used && b.start == old(blocks)[i].start
                  && Live(blocks) == Live(old(blocks)) - {old(blocks)[i]} + {b}
                  && DataSize(b) == (if (i + 1 < |old(blocks)| && !old(blocks)[i + 1].used)
                                        || Rounded(newSize) + HEADER + MIN_SIZE <= DataSize(old(blocks)[i])
                                     then Rounded(newSize) else DataSize(old(blocks)[i]))
              else blocks == old(blocks)
      ensures illegal == old(illegal) + (if Trimmable(newSize) && !(0 <= p < n) then 1 else 0)
      ensures held <==>
        (Trimmable(newSize) ==> 0 <= p < n && TrimAsserts(old(blocks)[FindData(old(blocks), p)], n, Rounded(newSize)))
      ensures r.Some? <==>
        && Trimmable(newSize)
        && (0 <= p < n ==> Rounded(newSize) <= DataSize(old(blocks)[FindData(old(blocks), p)]))
      ensures r.Some? ==> r.value == p
      ensures SamePayload(old(ram[..]), ram[..], blocks)
    {
      hide Linked, Covers, Apart, LowestFree, UsedBytes, Live, Splice, TrimAt;
      held := true;
      ghost var bs, h, i := blocks, ram[..], FindData(blocks, p);
      var size := Rounded(newSize);
      if size > n || size < newSize {
        TrimTooBig(bs, n, p, size);
        return None, held;
      }
      if p < 0 || p >= n {
        NoBlockOutside(bs, n, p);
        illegal := illegal + 1;
        assert ram[..] == h;
        return Some(p), false;
      }
      HeaderAt(h, bs, n, i);
      NextStart(bs, n, i);
      var ptr := p - HEADER;
      var end := ram[ptr].next;
      var oldSize := end - ptr - HEADER;
      held := size <= oldSize;
      if size > oldSize {
        return None, held;
      }
      if size == oldSize {
        return Some(p), held;
      }
      held := Shrink(ptr, end, size, i);
      TrimShrinksOne(bs, n, i, size);
      assert blocks[i] in blocks;
      return Some(p), held;
    }

    predicate Trimmable(newSize: nat) {
      newSize <= 0xfffc && Rounded(newSize) <= n
    }

    /** The part of `mem_trim` that runs under the mutex. */
    method Shrink(ptr: nat, end: nat, size: nat, ghost i: nat) returns (held: bool)
      requires Valid() && i < |blocks| && blocks[i].used && ptr == blocks[i].start && end == blocks[i].end
      requires size % ALIGN == 0 && MIN_SIZE <= size < DataSize(blocks[i])
      modifies this`lfree, this`used, this`blocks, ram
      ensures Valid() && blocks == TrimAt(old(blocks), i, size)
      ensures held <==> TrimAsserts(old(blocks[i]), n, size)
      ensures SamePayload(old(ram[..]), ram[..], blocks)
    {
      hide Linked, Apart, Covers, LowestFree, UsedBytes, Live;
      held := true;
      ghost var bs := blocks;
      NextStart(bs, n, i);
      HeaderAt(ram[..], bs, n, i);
      if i + 1 < |bs| { HeaderAt(ram[..], bs, n, i + 1); NextStart(bs, n, i + 1); } else { EndMarker(ram[..], bs, n); }
      TrimWellFormed(bs, n, i, size);
      TrimShrinksOne(bs, n, i, size);
      var cut := ptr + HEADER + size;
      if !ram[end].used {
        var next := ram[end].next;
        TrimLowest(bs, n, i, i + 2, cut);
        lfree := if lfree == end then cut else lfree;
        CutAt(ptr, cut, next, i, i + 2, TrimAt(bs, i, size));
      } else if size + HEADER + MIN_SIZE <= end - ptr - HEADER {
        held := end != n;
        TrimLowest(bs, n, i, i + 1, cut);
        lfree := if cut < lfree then cut else lfree;
        CutAt(ptr, cut, end, i, i + 1, TrimAt(bs, i, size));
      }
    }
  }
}
