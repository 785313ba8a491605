/** Chains of packet buffers that belong to one caller, as TCP hands them over: each pbuf has just
    one reference. */
module PbufOwned {
  import opened PbufStore
  import opened PbufLinking

  /** The chain of `p` belongs to one caller: every pbuf has just one reference, the caller's for
      the head and the chain's own links for the others. */
  ghost predicate Owned(mem: Mem, chains: Chains, held: map<nat, nat>, p: nat) {
    p != NULL ==> p in mem && p in chains && Held(held, p) == 1 && Single(mem, chains[p])
  }

  ghost predicate Single(mem: Mem, c: seq<nat>) {
    forall x :: x in c ==> x in mem && mem[x].ref == 1
  }

  lemma OwnedIsHead(mem: Mem, chains: Chains, held: map<nat, nat>, p: nat)
    requires Wf(mem, chains) && Counted(mem, held, NULL) && Owned(mem, chains, held, p) && p != NULL
    ensures mem[p].ref == 1 && !Linked(mem, p) && chains[p] == [p] + ChainOf(mem, chains, mem[p].next)
  {
    assert p in chains[p];
    CountedAt(mem, held, NULL, p);
  }

  /** Taking a reference to the second pbuf and freeing the first removes the first and leaves
      the second with one reference. */
  lemma ChopEffect(mem: Mem, chains: Chains, ptr: nat, m1: Mem, gone: nat)
    requires Wf(mem, chains) && ptr in mem && ptr in chains && Single(mem, chains[ptr])
    requires var next := mem[ptr].next;
             m1 == if next == NULL then mem else if next in mem then mem[next := mem[next].(ref := mem[next].ref + 1)] else map[]
    requires var c := chains[ptr];
             && gone <= |c| && (forall j :: 0 <= j < gone ==> c[j] in m1 && m1[c[j]].ref == 1)
             && (gone < |c| ==> c[gone] in m1 && m1[c[gone]].ref > 1)
    ensures gone == 1 && AfterDrop(m1, chains[ptr], gone) == mem - {ptr}
    ensures ChainsWithout(chains, chains[ptr][..gone]) == chains - {ptr}
  {
    hide Wf;
    ChainStep(mem, chains, ptr);
    var c, next := chains[ptr], mem[ptr].next;
    assert c[0] == ptr && ptr in c;
    if next != NULL {
      ChainStep(mem, chains, next);
      assert c[1] == next && next in c;
      ChainDistinct(mem, chains, ptr, 0, 1);
    }
    assert c[..1] == [ptr];
    assert Without(m1, c[..1]) == m1 - {ptr};
  }

  lemma ChopBytes(mem: Mem, chains: Chains, ptr: nat)
    requires Wf(mem, chains) && ptr in mem && ptr in chains && Single(mem, chains[ptr])
    ensures Bytes(mem, chains, ptr) == mem[ptr].data + Bytes(mem - {ptr}, chains - {ptr}, mem[ptr].next)
    ensures ChainOf(mem - {ptr}, chains - {ptr}, mem[ptr].next) == ChainOf(mem, chains, mem[ptr].next)
  {
    hide Wf, Flat;
    ChainStep(mem, chains, ptr);
    BytesStep(mem, chains, ptr);
    assert ptr in chains[ptr];
    NotBehind(mem, chains, ptr);
    PopBytes(mem, mem - {ptr}, chains, chains - {ptr}, ptr);
  }

  /** A pbuf does not come again in the rest of its chain. */
  lemma NotBehind(mem: Mem, chains: Chains, p: nat)
    requires Wf(mem, chains) && p in mem
    ensures mem[p].next != p && p !in ChainOf(mem, chains, mem[p].next)
  {
    hide Wf;
    ChainStep(mem, chains, p);
    var c, rest := chains[p], ChainOf(mem, chains, mem[p].next);
    if p in rest {
      var i :| 0 <= i < |rest| && rest[i] == p;
      assert c[i + 1] == rest[i];
      ChainDistinct(mem, chains, p, 0, i + 1);
    }
  }

  lemma ChopOwned(mem: Mem, chains: Chains, held: map<nat, nat>, held': map<nat, nat>, ptr: nat)
    requires Wf(mem, chains) && Counted(mem, held, NULL) && ptr != NULL && Owned(mem, chains, held, ptr)
    requires mem[ptr].next != NULL ==> Held(held', mem[ptr].next) == Held(held, mem[ptr].next) + 1
    ensures Owned(mem - {ptr}, chains - {ptr}, held', mem[ptr].next)
  {
    hide Wf;
    var next := mem[ptr].next;
    ChainStep(mem, chains, ptr);
    NotBehind(mem, chains, ptr);
    if next != NULL {
      ChainStep(mem, chains, next);
      assert next in chains[ptr] && next in chains[next];
      LinkedBy(mem, ptr);
      CountedAt(mem, held, NULL, next);
      forall x | x in chains[next] ensures x in mem - {ptr} && mem[x].ref == 1 { assert x in chains[ptr]; }
    }
  }

  /** Joining two chains of the same owner gives a chain of that owner. */
  lemma CatOwned(mem: Mem, chains: Chains, held: map<nat, nat>, h: nat, t: nat)
    requires CatReady(mem, chains, h, t) && Owned(mem, chains, held, h) && Owned(mem, chains, held, t)
    requires h != NULL && t != NULL && |chains[h]| > 0 && Last(chains, h) in mem
    ensures Owned(Concatenated(mem, chains[h], Last(chains, h), t), CatChains(chains, chains[h], t),
                  held[t := Held(held, t) - 1], h)
  {
    hide Wf, Linked, Concatenated, CatChains;
    CatFields(mem, chains[h], Last(chains, h), t);
    CatChainsAt(chains, chains[h], t, h);
    ChainStep(mem, chains, h);
    assert h in chains[h];
  }

  /** Freeing a chain of one owner frees all of it. */
  lemma FreeOwned(mem: Mem, c: seq<nat>, gone: nat)
    requires Single(mem, c) && gone <= |c| && (gone < |c| ==> c[gone] in mem && mem[c[gone]].ref > 1)
    ensures gone == |c| && c[..gone] == c && AfterDrop(mem, c, gone) == Without(mem, c)
  {
    forall j | 0 <= j < |c| ensures c[j] in mem && mem[c[j]].ref == 1 { assert c[j] in c; }
    assert c[..|c|] == c;
  }

  lemma OwnedOrNull(mem: Mem, chains: Chains, held: map<nat, nat>, p: nat)
    requires Owned(mem, chains, held, p)
    ensures p != NULL ==> p in mem
  {
  }

  lemma OwnedSingle(mem: Mem, chains: Chains, held: map<nat, nat>, p: nat)
    requires Owned(mem, chains, held, p) && p != NULL
    ensures p in mem && p in chains && Single(mem, chains[p])
  {
  }

  /** Freeing the whole chain of one head leaves another one alone. */
  lemma OthersStay(mem: Mem, chains: Chains, held: map<nat, nat>, mem': Mem, chains': Chains, held': map<nat, nat>,
                   p: nat, q: nat)
    requires Wf(mem, chains) && Counted(mem, held, NULL) && Owned(mem, chains, held, p) && Owned(mem, chains, held, q)
    requires q != NULL && q != p && mem' == Without(mem, chains[q]) && held' == held[q := 0]
    requires chains' == ChainsWithout(chains, chains[q])
    ensures Owned(mem', chains', held', p) && Bytes(mem', chains', p) == Bytes(mem, chains, p)
  {
    hide Wf, Counted, Flat;
    BytesNull(mem, chains);
    BytesNull2(mem, mem', chains, chains');
    if p != NULL {
      OwnedIsHead(mem, chains, held, p);
      OwnedIsHead(mem, chains, held, q);
      CatFacts(mem, chains, p, q);
      ChainStep(mem, chains, p);
      assert p in chains[p];
      FlatSame(mem, mem', chains[p]);
    }
  }

  lemma BytesNull2(mem: Mem, mem': Mem, chains: Chains, chains': Chains)
    requires NULL !in mem && forall x :: x in mem' ==> x in mem
    ensures Bytes(mem', chains', NULL) == [] && Bytes(mem, chains, NULL) == []
  {
  }

  /** A chain is determined by the links of its pbufs. */
  lemma {:induction false} ChainUnique(mem: Mem, chains: Chains, mem': Mem, chains': Chains, y: nat)
    requires Wf(mem, chains) && Wf(mem', chains') && y in mem && y in chains
    requires forall x :: x in chains[y] ==> x in mem && x in mem' && mem'[x].next == mem[x].next
    ensures y in chains' && chains'[y] == chains[y]
    decreases |chains[y]|
  {
    hide Wf;
    ChainStep(mem, chains, y);
    assert y in chains[y];
    ChainStep(mem', chains', y);
    var next := mem[y].next;
    if next != NULL {
      ChainStep(mem, chains, next);
      forall x | x in chains[next] ensures x in mem && x in mem' && mem'[x].next == mem[x].next {
        assert x in chains[y];
      }
      ChainUnique(mem, chains, mem', chains', next);
    }
  }

  /** Only pbufs of the chain of `p` are touched, and none of them gets a new link. */
  ghost predicate OnlyChain(mem: Mem, mem': Mem, c: seq<nat>) {
    && (forall x :: x in mem && x !in c ==> x in mem' && mem'[x] == mem[x])
    && (forall x :: x in mem' ==> x in mem && mem'[x].next == mem[x].next)
  }

  /** Work on one chain leaves the owner of another one with what was there. */
  lemma OtherHead(mem: Mem, chains: Chains, held: map<nat, nat>, mem': Mem, chains': Chains, held': map<nat, nat>,
                  p: nat, y: nat)
    requires Wf(mem, chains) && Counted(mem, held, NULL) && Wf(mem', chains') && Counted(mem', held', NULL)
    requires Owned(mem, chains, held, p) && Owned(mem, chains, held, y) && p != NULL && y != NULL && y != p
    requires OnlyChain(mem, mem', chains[p])
    ensures Owned(mem', chains', held', y) && Bytes(mem', chains', y) == Bytes(mem, chains, y)
    ensures y !in chains[p]
  {
    hide Wf, Counted, Flat;
    OwnedIsHead(mem, chains, held, p);
    OwnedIsHead(mem, chains, held, y);
    CatFacts(mem, chains, y, p);
    assert y in chains[y];
    ChainUnique(mem, chains, mem', chains', y);
    FlatSame(mem, mem', chains[y]);
    CountedAt(mem', held', NULL, y);
  }

  /** What `pbuf_free_header` leaves belongs to the same owner. */
  lemma RestOwned(mem: Mem, chains: Chains, held: map<nat, nat>, mem': Mem, chains': Chains, held': map<nat, nat>,
                  p: nat, r: nat, k: nat)
    requires Wf(mem, chains) && Counted(mem, held, NULL) && Wf(mem', chains') && Counted(mem', held', NULL)
    requires Owned(mem, chains, held, p) && p != NULL && k <= |chains[p]|
    requires r != NULL ==> r in mem' && !Linked(mem', r)
    requires ChainOf(mem', chains', r) == chains[p][k..] && FrontRemoved(mem, mem', chains[p], k)
    ensures Owned(mem', chains', held', r) && OnlyChain(mem, mem', chains[p])
    ensures forall x :: x in chains[p] && x in mem' ==> x in ChainOf(mem', chains', r)
  {
    hide Wf, Counted, Linked;
    var c := chains[p];
    forall x | x in c[k..] ensures x in c { var j :| 0 <= j < |c[k..]| && c[k..][j] == x; assert c[k + j] == x; }
    forall x | x in c[..k] ensures x in c && x !in mem' { var j :| 0 <= j < |c[..k]| && c[..k][j] == x; assert c[j] == x; }
    forall x | x in c ensures x in c[..k] || x in c[k..] {
      var j :| 0 <= j < |c| && c[j] == x;
      if j < k { assert c[..k][j] == x; } else { assert c[k..][j - k] == x; }
    }
    if r != NULL {
      ChainStep(mem', chains', r);
      assert r in chains'[r];
      CountedAt(mem', held', NULL, r);
    }
  }
}
