/** The operations of lwip/src/core/pbuf.c on a shared memory of packet buffers. */
module PbufPool {
  import opened MachineInts
  import opened PbufStore
  import opened PbufLinking
  import opened PbufRealloc

  class Pool {
    var mem: Mem
    /** The references that callers hold, by pbuf. */
    ghost var held: map<nat, nat>
    ghost var chains: Chains

    ghost predicate Valid()
      reads this
    {
      Wf(mem, chains) && Counted(mem, held, NULL) && Sized(mem)
    }

    constructor ()
      ensures Valid() && mem == map[] && held == map[] && Totals(mem)
    {
      mem, held, chains := map[], map[], map[];
    }

    /** `pbuf_alloc` of a single pbuf; `p` is the address that the allocator found free. */
    method Alloc(p: nat, data: seq<byte>)
      requires Valid() && p != NULL && p !in mem && |data| < 0x10000
      modifies this
      ensures Valid() && (Totals(old(mem)) ==> Totals(mem))
      ensures mem == old(mem)[p := Pbuf(NULL, data, |data|, 1)] && held == old(held)[p := 1]
      ensures chains == old(chains)[p := [p]] && !Linked(mem, p)
    {
      hide Wf, Counted, Totals, Linked, Sized;
      AllocKeeps(mem, chains, held, p, data);
      mem := mem[p := Pbuf(NULL, data, |data|, 1)];
      held := held[p := 1];
      chains := chains[p := [p]];
    }

    /** The loop of `pbuf_free`: drops one reference to `start` that nobody accounts for. */
    method Drop(start: nat) returns (count: nat)
      requires Wf(mem, chains) && (start == NULL || start in mem) && Counted(mem, held, start) && Sized(mem)
      modifies this`mem, this`chains
      ensures Valid()
      ensures var c := ChainOf(old(mem), old(chains), start);
              && count <= |c| && mem == AfterDrop(old(mem), c, count)
              && (forall j :: 0 <= j < count ==> c[j] in old(mem) && old(mem)[c[j]].ref == 1)
              && (count < |c| ==> c[count] in old(mem) && old(mem)[c[count]].ref > 1)
              && chains == ChainsWithout(old(chains), c[..count])
      ensures Totals(old(mem)) ==> Totals(mem)
    {
      hide Wf, Counted, Totals, Without, ChainsWithout, Linked, Sized;
      ghost var c := ChainOf(mem, chains, start);
      var p := start;
      count := 0;
      DropStart(mem, chains, start);
      while p != NULL
        invariant count <= |c| && p == if count < |c| then c[count] else NULL
        invariant mem == Without(old(mem), c[..count]) && chains == ChainsWithout(old(chains), c[..count])
        invariant Wf(mem, chains) && Counted(mem, held, p) && (Totals(old(mem)) ==> Totals(mem))
        invariant forall j :: 0 <= j < count ==> c[j] in old(mem) && old(mem)[c[j]].ref == 1
        decreases |c| - count
      {
        NextSurvives(old(mem), old(chains), start, count);
        WfParts(mem, chains);
        CountedAt(mem, held, p, p);
        var ref := mem[p].ref - 1;
        if ref == 0 {
          LastReference(mem, held, p);
          RemoveKeepsWf(mem, chains, p);
          if Totals(mem) { RemoveKeepsTotals(mem, p); }
          WithoutNext(old(mem), c, count);
          ChainsWithoutNext(old(chains), c, count);
          var q := mem[p].next;
          mem := mem - {p};
          chains := chains - {p};
          count := count + 1;
          p := q;
        } else {
          OtherReference(mem, held, p);
          DropSized(old(mem), c, count);
          RefOnly(mem, chains, p, ref);
          mem := mem[p := mem[p].(ref := ref)];
          return;
        }
      }
      DropSized(old(mem), c, count);
    }

    /** `pbuf_free`: of the chain of `p` exactly the leading pbufs that nobody else refers to
        are deallocated; the returned `u8_t` count is exact below 256. */
    method Free(p: nat) returns (count: nat, ghost gone: nat)
      requires Valid() && (p == NULL || (p in mem && Held(held, p) >= 1))
      modifies this
      ensures Valid() && count == gone % 256
      ensures p == NULL ==> gone == 0 && mem == old(mem) && held == old(held) && chains == old(chains)
      ensures p != NULL ==>
        var c := old(chains)[p];
        && gone <= |c| && mem == AfterDrop(old(mem), c, gone)
        && (forall j :: 0 <= j < gone ==> c[j] in old(mem) && old(mem)[c[j]].ref == 1)
        && (gone < |c| ==> c[gone] in old(mem) && old(mem)[c[gone]].ref > 1)
        && held == old(held)[p := Held(old(held), p) - 1]
        && chains == ChainsWithout(old(chains), c[..gone])
      ensures Totals(old(mem)) ==> Totals(mem)
    {
      hide Wf, Counted, Totals, Linked, Sized, AfterDrop, ChainsWithout;
      if p == NULL {
        return 0, 0;
      }
      ChainStep(mem, chains, p);
      GiveUp(mem, held, p);
      held := held[p := Held(held, p) - 1];
      var n := Drop(p);
      gone, count := n, n % 256;
    }

    /** `pbuf_ref`; its assertion demands that the count does not overflow. */
    method Ref(p: nat)
      requires Valid() && (p == NULL || (p in mem && mem[p].ref < 255))
      modifies this
      ensures Valid() && chains == old(chains)
      ensures mem == if p == NULL then old(mem) else old(mem)[p := old(mem)[p].(ref := old(mem)[p].ref + 1)]
      ensures held == if p == NULL then old(held) else old(held)[p := Held(old(held), p) + 1]
      ensures Totals(old(mem)) ==> Totals(mem)
    {
      hide Wf, Counted, Totals, Linked;
      if p != NULL {
        BytesNull(mem, chains);
        AddReference(mem, held, p);
        RefOnly(mem, chains, p, mem[p].ref + 1);
        mem := mem[p := mem[p].(ref := mem[p].ref + 1)];
        held := held[p := Held(held, p) + 1];
      }
    }

    /** `pbuf_cat`: the chain of `t` is appended to the chain of `h` and the caller's
        reference to `t` is handed over to the new link. */
    method Cat(h: nat, t: nat)
      requires Valid()
      requires h != NULL && t != NULL ==> CatReady(mem, chains, h, t) && Held(held, t) >= 1
      modifies this
      ensures Valid() && (Totals(old(mem)) ==> Totals(mem))
      ensures h == NULL || t == NULL ==> mem == old(mem) && held == old(held) && chains == old(chains)
      ensures h != NULL && t != NULL ==>
        && h in old(chains) && t in old(chains) && |old(chains)[h]| > 0 && Last(old(chains), h) in old(mem)
        && mem == Concatenated(old(mem), old(chains)[h], Last(old(chains), h), t)
        && chains == CatChains(old(chains), old(chains)[h], t)
        && Bytes(mem, chains, h) == Bytes(old(mem), old(chains), h) + Bytes(old(mem), old(chains), t)
        && held == old(held)[t := Held(old(held), t) - 1]
    {
      hide Wf, Counted, Totals, Linked, Concatenated, CatChains, Bytes, Bumped, Sum16, Sized, CatReady;
      if h == NULL || t == NULL {
        return;
      }
      CatKeeps(mem, chains, held, h, t);
      ghost var m0, c := mem, chains[h];
      var p := h;
      ghost var i := 0;
      BumpStart(mem, chains, h, t);
      while mem[p].next != NULL
        invariant 0 <= i < |c| && p == c[i] && p in mem
        invariant mem == Bumped(m0, c[..i], m0[t].totLen) && chains == old(chains) && held == old(held)
        decreases |c| - i
      {
        BumpStep(m0, chains, h, t, i);
        mem := mem[p := mem[p].(totLen := Sum16(mem[p].totLen, mem[t].totLen))];
        p := mem[p].next;
        i := i + 1;
      }
      BumpStep(m0, chains, h, t, i);
      mem := mem[p := mem[p].(totLen := Sum16(mem[p].totLen, mem[t].totLen))];
      mem := mem[p := mem[p].(next := t)];
      BumpEnd(m0, chains, h, t);
      held := held[t := Held(held, t) - 1];
      chains := CatChains(chains, c, t);
    }

    /** `pbuf_chain`: the caller keeps its reference to `t`. */
    method Chain(h: nat, t: nat)
      requires Valid() && CatReady(mem, chains, h, t) && Held(held, t) >= 1 && mem[t].ref < 255
      modifies this
      ensures Valid() && held == old(held) && (Totals(old(mem)) ==> Totals(mem))
      ensures h in old(chains) && t in old(chains) && |old(chains)[h]| > 0 && Last(old(chains), h) in old(mem)
      ensures var m := Concatenated(old(mem), old(chains)[h], Last(old(chains), h), t);
              t in m && mem == m[t := m[t].(ref := m[t].ref + 1)]
      ensures Bytes(mem, chains, h) == Bytes(old(mem), old(chains), h) + Bytes(old(mem), old(chains), t)
    {
      hide Wf, Counted, Totals, Linked, CatChains, Concatenated, Flat, Sized;
      HeadsNotNull(mem, chains, h, t);
      Cat(h, t);
      CatFields(old(mem), old(chains)[h], Last(old(chains), h), t);
      ghost var m := mem;
      Ref(t);
      FlatSame(m, mem, ChainOf(mem, chains, h));
      assert held == old(held);
    }

    /** `pbuf_dechain`: the head `p` is cut off and its link's reference to the rest is
        dropped.  The result is the rest, or null if the returned count of `pbuf_free` is
        not 0; since that count is a `u8_t`, this misjudges a rest of which a multiple of
        256 pbufs was deallocated. */
    method Dechain(p: nat) returns (r: nat, ghost gone: nat)
      requires Valid() && Totals(mem) && p in mem && !Linked(mem, p)
      modifies this
      ensures Valid() && Totals(mem) && held == old(held)
      ensures p in mem && p in chains && chains[p] == [p] && mem[p].totLen == |mem[p].data|
      ensures mem[p].data == old(mem)[p].data && mem[p].ref == old(mem)[p].ref
      ensures p in old(chains) && |old(chains)[p]| > 0
      ensures var rest := old(chains)[p][1..]; var m := Detached(old(mem), p);
              && gone <= |rest| && mem == AfterDrop(m, rest, gone)
              && (forall j :: 0 <= j < gone ==> rest[j] in m && m[rest[j]].ref == 1)
              && (gone < |rest| ==> rest[gone] in m && m[rest[gone]].ref > 1)
      ensures r == if gone % 256 == 0 then old(mem)[p].next else NULL
      ensures r != NULL ==> (r in mem <==> gone == 0)
    {
      hide Wf, Counted, Totals, Linked, CutChains, Diff16, Sized, Sum16;
      ChainStep(mem, chains, p);
      var q := mem[p].next;
      gone := 0;
      if q == NULL {
        DetachAlone(mem, chains, p);
        return NULL, 0;
      }
      DetachKeeps(mem, chains, held, p);
      ghost var c := chains[p];
      ChainStep(mem, chains, q);
      assert c[1..] == chains[q];
      mem := mem[q := mem[q].(totLen := Diff16(mem[p].totLen, |mem[p].data|))];
      mem := mem[p := mem[p].(next := NULL)];
      mem := mem[p := mem[p].(totLen := |mem[p].data|)];
      chains := CutChains(chains, c, 0);
      ghost var m := mem;
      assert mem == Detached(old(mem), p);
      BytesStep(old(mem), old(chains), p);
      var n := Drop(q);
      DropOutside(m, CutChains(old(chains), c, 0), c[1..], n, p);
      DropFirst(m, c[1..], n);
      gone := n;
      r := if n % 256 > 0 then NULL else q;
    }

    /** One round of `pbuf_free_header`: the head `f` is unlinked, its successor passes to the
        caller, and the caller's reference to `f` is dropped. */
    method PopHead(f: nat) returns (p: nat)
      requires Valid() && f in mem && !Linked(mem, f) && Held(held, f) >= 1
      modifies this
      ensures Valid() && mem == Popped(old(mem), f) && p == old(mem)[f].next
      ensures p != NULL ==> p in mem && p != f && !Linked(mem, p) && Held(held, p) >= 1
      ensures p in old(chains) && p != NULL ==> p in chains && chains[p] == old(chains)[p]
      ensures ChainOf(mem, chains, p) == ChainOf(old(mem), old(chains), p)
    {
      hide Wf, Counted, Totals, Linked, CutChains, Sized, AfterDrop, ChainsWithout, Popped;
      ChainStep(mem, chains, f);
      BytesStep(mem, chains, f);
      WfParts(mem, chains);
      CountedAt(mem, held, NULL, f);
      PopIsDrop(mem, f);
      PopLinked(mem, f);
      CutWf(mem, chains, f, 0);
      UnlinkCounted(mem, held, f);
      UnlinkSized(mem, f);
      ghost var c := chains[f];
      CutChainsGet(chains, c, 0, f);
      p := mem[f].next;
      CutChainsGet(chains, c, 0, p);
      mem := mem[f := mem[f].(next := NULL)];
      assert mem == Unlinked(old(mem), f);
      chains := CutChains(chains, c, 0);
      assert chains[f] == [f];
      if p != NULL {
        TakeOver(mem, held, p);
        held := held[p := Held(held, p) + 1];
      }
      ghost var m1, ch1 := mem, chains;
      var _, gone := Free(f);
      DropOutside(m1, ch1, [f], gone, p);
    }

    /** `pbuf_remove_header`: hides `n` bytes at the start of `p`; fails if it has fewer. */
    method RemoveHeader(p: nat, n: nat) returns (ok: bool)
      requires Valid() && p in mem && !Linked(mem, p)
      modifies this`mem
      ensures Valid() && (Totals(mem) <==> Totals(old(mem)))
      ensures ok <==> n <= |old(mem)[p].data|
      ensures mem == if ok then Shortened(old(mem), p, n) else old(mem)
      ensures ok ==> Bytes(mem, chains, p) == Bytes(old(mem), chains, p)[n..]
      ensures !Linked(mem, p)
    {
      hide Wf, Counted, Totals, Linked, Diff16, Flat;
      if n > |mem[p].data| {
        return false;
      }
      ShortenKeeps(mem, chains, held, p, n);
      SameLinks(mem, Shortened(mem, p, n), chains);
      if n == 0 {
        DiffZero(mem[p].totLen);
        assert mem == Shortened(mem, p, 0);
        return true;
      }
      mem := mem[p := mem[p].(data := mem[p].data[n..], totLen := Diff16(mem[p].totLen, n))];
      return true;
    }

    /** The whole pbufs that `pbuf_free_header` removes: as long as at least a whole pbuf is
        to be removed, the head is popped. */
    method PopFront(q: nat, size: nat) returns (p: nat, left: nat)
      requires Valid() && (q == NULL || (q in mem && !Linked(mem, q) && Held(held, q) >= 1))
      modifies this
      ensures Valid()
      ensures p == NULL || (p in mem && !Linked(mem, p) && Held(held, p) >= 1)
      ensures left == 0 || p == NULL || left < |mem[p].data|
      ensures Suffix(Bytes(mem, chains, p), left) == Suffix(Bytes(old(mem), old(chains), q), size)
      ensures var c := ChainOf(old(mem), old(chains), q); var k := WholePbufs(old(mem), c, size);
              && PoppedAll(old(mem), mem, c[..k]) && ChainOf(mem, chains, p) == c[k..]
              && p == (if k < |c| then c[k] else NULL)
    {
      hide Wf, Counted, Totals, Linked, Bytes, Sized, Popped, Suffix, PoppedAll, ChainOf, WholePbufs;
      ghost var c := ChainOf(mem, chains, q);
      p, left := q, size;
      ghost var k := 0;
      DropStart(mem, chains, q);
      PoppedNone(mem);
      assert c[0..] == c && c[..0] == [];
      while left > 0 && p != NULL && left >= |mem[p].data|
        invariant Valid() && k <= |c| && p == if k < |c| then c[k] else NULL
        invariant p != NULL ==> p in mem && !Linked(mem, p) && Held(held, p) >= 1
        invariant ChainOf(mem, chains, p) == c[k..]
        invariant Suffix(Bytes(mem, chains, p), left) == Suffix(Bytes(old(mem), old(chains), q), size)
        invariant PoppedAll(old(mem), mem, c[..k]) && k + WholePbufs(old(mem), c[k..], left) == WholePbufs(old(mem), c, size)
        decreases |c| - k
      {
        PopReady(old(mem), old(chains), old(held), q, k);
        PoppedKeeps(old(mem), mem, c[..k], p);
        WholeStep(old(mem), c, k, left);
        BytesStep(mem, chains, p);
        label before:
        var f := p;
        left := left - |mem[p].data|;
        p := PopHead(f);
        PopBytes(old@before(mem), mem, old@before(chains), chains, f);
        SuffixStep(old@before(mem)[f].data, Bytes(mem, chains, p), left);
        PoppedMore(old(mem), old@before(mem), c, k);
        TailStep(c, k);
        k := k + 1;
      }
      if k < |c| {
        PopReady(old(mem), old(chains), old(held), q, k);
        PoppedKeeps(old(mem), mem, c[..k], p);
      }
      WholeEnd(old(mem), c, k, left);
    }

    /** `pbuf_free_header`: removes `size` bytes from the front of the chain of the head `q`.
        The contents left are the suffix, reached through a head that the caller holds.
        Totals stay right exactly if every pbuf within these bytes that somebody else still
        refers to was the whole of what its total says: such a pbuf is unlinked but its total
        is not adjusted. */
    method FreeHeader(q: nat, size: nat) returns (r: nat)
      requires Valid() && (q == NULL || (q in mem && !Linked(mem, q) && Held(held, q) >= 1))
      modifies this
      ensures Valid()
      ensures r == NULL || (r in mem && !Linked(mem, r) && Held(held, r) >= 1)
      ensures Bytes(mem, chains, r) == Suffix(Bytes(old(mem), old(chains), q), size)
      ensures var c := ChainOf(old(mem), old(chains), q); var k := WholePbufs(old(mem), c, size);
              && FrontRemoved(old(mem), mem, c, k)
              && ChainOf(mem, chains, r) == c[k..] && r == (if k < |c| then c[k] else NULL)
              && (Totals(old(mem)) ==> (Totals(mem) <==> AllPopCleanly(old(mem), c[..k])))
    {
      hide Wf, Counted, Totals, Linked, Bytes, Sized, ChainOf, FrontRemoved, PoppedAll, AllPopCleanly, Suffix, WholePbufs;
      DropStart(mem, chains, q);
      var left;
      r, left := PopFront(q, size);
      ghost var m, c := mem, ChainOf(old(mem), old(chains), q);
      ghost var k := WholePbufs(old(mem), c, size);
      if Totals(old(mem)) { FrontTotals(old(mem), old(chains), mem, q, k); }
      HideFront(r, left);
      FrontIsRemoved(old(mem), old(chains), m, mem, q, k);
    }

    /** The last step of `pbuf_free_header`: hides what is left to remove in the head. */
    method HideFront(r: nat, left: nat)
      requires Valid() && (r == NULL || (r in mem && !Linked(mem, r) && Held(held, r) >= 1))
      requires left == 0 || r == NULL || left < |mem[r].data|
      modifies this`mem
      ensures Valid() && (r == NULL || (r in mem && !Linked(mem, r)))
      ensures Bytes(mem, chains, r) == Suffix(Bytes(old(mem), chains, r), left)
      ensures ChainOf(mem, chains, r) == ChainOf(old(mem), chains, r) && (Totals(mem) <==> Totals(old(mem)))
      ensures forall x :: x in old(mem) <==> x in mem
      ensures forall x :: x in old(mem) ==> mem[x].next == old(mem)[x].next && mem[x].ref == old(mem)[x].ref
      ensures forall x :: x in old(mem) && x != r ==> mem[x] == old(mem)[x]
    {
      hide Wf, Counted, Totals, Linked, Bytes, Sized;
      BytesNull(mem, chains);
      SuffixZero(Bytes(mem, chains, r));
      if left > 0 && r != NULL {
        BytesStep(mem, chains, r);
        var ok := RemoveHeader(r, left);
      }
    }

    /** The loop of `pbuf_realloc`: steps over the pbufs that stay whole. */
    method FindCut(p: nat, newLen: nat) returns (q: nat, rem: nat, ghost k: nat)
      requires Valid() && Totals(mem) && p in mem && p in chains && newLen < mem[p].totLen
      modifies this`mem
      ensures CutPoint(old(mem), chains[p], k, rem, newLen) && q == chains[p][k]
      ensures mem == Reduced(old(mem), chains[p][..k], old(mem)[p].totLen - newLen)
      ensures q in mem && mem[q] == old(mem)[q]
    {
      hide Wf, Counted, Totals, Sized, Reduced, Flat, Diff16;
      ghost var c := chains[p];
      var shrink := mem[p].totLen - newLen;
      rem, q, k := newLen, p, 0;
      SearchStart(mem, chains, p, shrink);
      SearchAt(old(mem), chains, p, 0, shrink);
      while rem > |mem[q].data|
        invariant k < |c| && q == c[k] && q in mem && q in old(mem) && mem[q] == old(mem)[q]
        invariant mem == Reduced(old(mem), c[..k], shrink)
        invariant |Flat(old(mem), c[..k])| + rem == newLen
        decreases |c| - k
      {
        SearchAt(old(mem), chains, p, k, shrink);
        SearchGoesOn(old(mem), chains, p, k, rem, newLen);
        SearchAt(old(mem), chains, p, k + 1, shrink);
        rem := rem - |mem[q].data|;
        mem := mem[q := mem[q].(totLen := Diff16(mem[q].totLen, shrink))];
        q := mem[q].next;
        k := k + 1;
      }
    }

    /** `pbuf_realloc`: the chain of the head `p` is shrunk to `newLen` bytes; it never grows.
        The pbufs behind the cut lose the reference of the removed link.  (The link is removed
        before, not after, its target is freed; nothing can tell the difference.) */
    method Realloc(p: nat, newLen: nat)
      returns (ghost k: nat, ghost rem: nat, ghost gone: nat)
      requires Valid() && Totals(mem) && p in mem && !Linked(mem, p)
      modifies this
      ensures Valid() && Totals(mem) && held == old(held) && p in mem && p in old(chains)
      ensures newLen >= old(mem)[p].totLen ==> mem == old(mem) && chains == old(chains)
      ensures newLen < old(mem)[p].totLen ==>
        var c := old(chains)[p];
        && Bytes(mem, chains, p) == Prefix(Bytes(old(mem), old(chains), p), newLen)
        && CutPoint(old(mem), c, k, rem, newLen) && gone <= |c[k + 1..]|
        && mem == AfterDrop(Shrunk(old(mem), c, k, rem, old(mem)[p].totLen - newLen), c[k + 1..], gone)
    {
      hide Wf, Counted, Totals, Sized, Linked, Reduced, Flat, Diff16, CutChains, Prefix, AfterDrop, ChainsWithout;
      SearchStart(mem, chains, p, 0);
      k, rem, gone := 0, 0, 0;
      if newLen >= mem[p].totLen {
        return;
      }
      var q, left;
      q, left, k := FindCut(p, newLen);
      rem := left;
      ghost var c := chains[p];
      ShrunkKeeps(old(mem), chains, held, p, k, rem, newLen);
      ChainAt(old(mem), chains, p, k);
      var next := mem[q].next;
      mem := mem[q := mem[q].(data := mem[q].data[..left])];
      mem := mem[q := mem[q].(totLen := |mem[q].data|)];
      mem := mem[q := mem[q].(next := NULL)];
      assert mem == Shrunk(old(mem), c, k, rem, old(mem)[p].totLen - newLen);
      chains := CutChains(chains, c, k);
      ShrunkFields(old(mem), old(chains), p, k, rem, old(mem)[p].totLen - newLen);
      RestOfCut(old(mem), mem, old(chains), p, k);
      ghost var m := mem;
      var n := Drop(next);
      gone := n;
      FrontStays(old(mem), m, old(chains), p, k, gone);
    }
  }
}
