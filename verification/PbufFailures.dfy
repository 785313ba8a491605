/** Calls of lwip/src/core/pbuf.c that do not keep what its comments promise: a chain from which
    `pbuf_dechain` returns a pbuf that is gone, and one of which `pbuf_free_header` leaves a
    pbuf with a wrong total. */
module PbufFailures {
  import opened PbufStore
  import opened PbufLinking
  import opened PbufPool
  import opened PbufOwned

  /** A further pbuf leaves the chains of an owner alone. */
  lemma AllocOwned(mem: Mem, chains: Chains, held: map<nat, nat>, p: nat, q: nat, b: Pbuf)
    requires Owned(mem, chains, held, p) && p != NULL && q !in mem && b.ref == 1
    ensures Owned(mem[q := b], chains[q := [q]], held[q := 1], p)
    ensures Owned(mem[q := b], chains[q := [q]], held[q := 1], q)
  {
  }

  /** `pbuf_alloc` and `pbuf_cat` build a chain of `n` pbufs. */
  method BuildChain(n: nat) returns (pool: Pool)
    requires n > 0
    ensures fresh(pool) && pool.Valid() && Totals(pool.mem)
    ensures Owned(pool.mem, pool.chains, pool.held, 1) && |pool.chains[1]| == n
  {
    hide Wf, Counted, Totals, Linked, Sized, Concatenated, CatChains, Flat, Single;
    pool := new Pool();
    pool.Alloc(1, []);
    OwnedAlone(pool.mem, pool.chains, pool.held);
    var i := 1;
    while i < n
      invariant 1 <= i <= n && fresh(pool) && pool.Valid() && Totals(pool.mem)
      invariant Owned(pool.mem, pool.chains, pool.held, 1) && |pool.chains[1]| == i
      invariant forall x :: x in pool.mem ==> x <= i
    {
      i := i + 1;
      AllocOwned(pool.mem, pool.chains, pool.held, 1, i, Pbuf(NULL, [], 0, 1));
      pool.Alloc(i, []);
      AddLast(pool, i);
    }
  }

  lemma OwnedAlone(mem: Mem, chains: Chains, held: map<nat, nat>)
    requires mem == map[1 := Pbuf(NULL, [], 0, 1)] && held == map[1 := 1] && 1 in chains && chains[1] == [1]
    ensures Owned(mem, chains, held, 1)
  {
  }

  method AddLast(pool: Pool, q: nat)
    requires pool.Valid() && Totals(pool.mem) && q != 1 && q != NULL && q in pool.chains && pool.chains[q] == [q]
    requires Owned(pool.mem, pool.chains, pool.held, 1) && Owned(pool.mem, pool.chains, pool.held, q)
    modifies pool
    ensures pool.Valid() && Totals(pool.mem) && pool.mem.Keys == old(pool.mem.Keys)
    ensures Owned(pool.mem, pool.chains, pool.held, 1) && 1 in old(pool.chains)
    ensures |pool.chains[1]| == |old(pool.chains)[1]| + 1
  {
    hide Wf, Counted, Totals, Linked, Sized, Concatenated, CatChains, Flat, Single;
    OwnedIsHead(pool.mem, pool.chains, pool.held, 1);
    OwnedIsHead(pool.mem, pool.chains, pool.held, q);
    CatFacts(pool.mem, pool.chains, 1, q);
    CatOwned(pool.mem, pool.chains, pool.held, 1, q);
    CatFields(pool.mem, pool.chains[1], Last(pool.chains, 1), q);
    CatChainsAt(pool.chains, pool.chains[1], q, 1);
    pool.Cat(1, q);
  }

  /** `pbuf_dechain` of a chain that belongs to one caller deallocates all pbufs behind the
      head.  It returns a pointer all the same exactly if their number is a multiple of 256
      other than 0. */
  method DechainOwned(pool: Pool, p: nat) returns (r: nat)
    requires pool.Valid() && Totals(pool.mem) && Owned(pool.mem, pool.chains, pool.held, p) && p != NULL
    modifies pool
    ensures pool.Valid() && r !in pool.mem && p in old(pool.chains) && |old(pool.chains)[p]| > 0
    ensures var c := old(pool.chains)[p]; var n := |c| - 1; r == if n > 0 && n % 256 == 0 then c[1] else NULL
    ensures p in old(pool.mem) && Single(old(pool.mem), old(pool.chains)[p]) && NULL !in old(pool.chains)[p]
  {
    hide Wf, Counted, Totals, Linked, Sized, Flat, AfterDrop;
    ghost var mem, chains := pool.mem, pool.chains;
    OwnedIsHead(mem, chains, pool.held, p);
    ghost var gone;
    r, gone := pool.Dechain(p);
    RestGone(mem, chains, p, gone);
    BytesNull(pool.mem, pool.chains);
  }

  /** Behind a head of one owner everything is deallocated. */
  lemma RestGone(mem: Mem, chains: Chains, p: nat, gone: nat)
    requires Wf(mem, chains) && p in mem && p in chains && |chains[p]| > 0 && Single(mem, chains[p])
    requires gone <= |chains[p]| - 1
    requires gone < |chains[p][1..]| ==> chains[p][1..][gone] in Detached(mem, p) && Detached(mem, p)[chains[p][1..][gone]].ref > 1
    ensures gone == |chains[p]| - 1 && mem[p].next == (if gone > 0 then chains[p][1] else NULL)
    ensures NULL !in mem && NULL !in chains[p]
  {
    hide Wf;
    var c := chains[p];
    ChainStep(mem, chains, p);
    if mem[p].next != NULL { ChainStep(mem, chains, mem[p].next); }
    BytesNull(mem, chains);
  }

  /** With 256 pbufs behind the head, the second pbuf comes back, which is gone. `before` is the
      memory with the chain `c`. */
  method DechainDangles() returns (pool: Pool, r: nat, ghost before: Mem, ghost c: seq<nat>)
    ensures |c| == 257 && Single(before, c) && pool.Valid()
    ensures r == c[1] && r != NULL && r in before && r !in pool.mem
  {
    hide Wf, Counted, Totals, Linked, Sized, Flat;
    pool := BuildChain(257);
    before, c := pool.mem, pool.chains[1];
    r := DechainOwned(pool, 1);
    assert c[1] in c;
  }

  /** The head of a chain of two pbufs with a byte each is held twice; freeing a header of one byte
      leaves it alone with the total of both. */
  method TotalGoesStale() returns (pool: Pool, r: nat, ghost before: Mem)
    ensures TwoPbufs(before) && Totals(before) && pool.Valid() && !Totals(pool.mem) && r == 2
    ensures 1 in pool.mem && pool.mem[1] == Pbuf(NULL, [0], 2, 1)
  {
    hide Wf, Counted, Totals, Linked, Sized, Flat, AllPopCleanly, WholePbufs, FrontRemoved, Concatenated, CatChains;
    pool := new Pool();
    pool.Alloc(1, [0]);
    pool.Alloc(2, [0]);
    CatTwo(pool.mem, pool.chains, pool.held);
    pool.Cat(1, 2);
    pool.Ref(1);
    before := pool.mem;
    DropStart(before, pool.chains, 1);
    RefOnlyHead(before, pool.held);
    RemoveOne(before);
    r := pool.FreeHeader(1, 1);
    SurvivesFront(before, pool.mem);
  }

  ghost predicate TwoPbufs(mem: Mem) {
    mem == map[1 := Pbuf(2, [0], 2, 2), 2 := Pbuf(NULL, [0], 1, 1)]
  }

  lemma CatTwo(mem: Mem, chains: Chains, held: map<nat, nat>)
    requires mem == map[1 := Pbuf(NULL, [0], 1, 1), 2 := Pbuf(NULL, [0], 1, 1)] && held == map[1 := 1, 2 := 1]
    requires Wf(mem, chains) && 1 in chains && 2 in chains && chains[1] == [1] && chains[2] == [2]
    ensures CatReady(mem, chains, 1, 2) && Held(held, 2) == 1
    ensures Concatenated(mem, [1], 1, 2) == map[1 := Pbuf(2, [0], 2, 1), 2 := Pbuf(NULL, [0], 1, 1)]
    ensures var ch := CatChains(chains, [1], 2); 1 in ch && ch[1] == [1, 2]
  {
    hide Wf;
  }

  lemma RefOnlyHead(mem: Mem, held: map<nat, nat>)
    requires TwoPbufs(mem) && Counted(mem, held, NULL)
    ensures !Linked(mem, 1) && Held(held, 1) >= 1
  {
    CountedAt(mem, held, NULL, 1);
  }

  lemma RemoveOne(mem: Mem)
    requires TwoPbufs(mem)
    ensures WholePbufs(mem, [1, 2], 1) == 1 && !AllPopCleanly(mem, [1, 2][..1])
  {
    assert [1, 2][1..] == [2] && [1, 2][..1] == [1];
    assert WholePbufs(mem, [2], 0) == 0;
    assert 1 in [1];
  }

  lemma SurvivesFront(mem: Mem, mem': Mem)
    requires TwoPbufs(mem) && FrontRemoved(mem, mem', [1, 2], 1)
    ensures 1 in mem' && mem'[1] == Pbuf(NULL, [0], 2, 1)
  {
    assert [1, 2][..1] == [1] && 1 in [1];
  }
}
