/** The raw TCP echo server (lwip-contrib/apps/tcpecho_raw/tcpecho_raw.c): one connection, as its
    callbacks drive it. What comes in is kept as a chain of pbufs and handed to `tcp_write` pbuf
    by pbuf. */
module Echo {
  import opened MachineInts
  import opened PbufStore
  import opened PbufLinking
  import opened PbufPool
  import opened PbufOwned

  datatype Phase = Accepted | Received | Closing

  /** What `tcp_write` may answer. */
  datatype Outcome = Taken | NoMemory | Failed

  // -------------------------------------------------------------- the connection

  class Connection {
    const pool: Pool
    /** What `tcp_write` and `tcp_sndbuf` answer, call by call. */
    const answers: nat -> Outcome
    const rooms: nat -> nat
    var calls: nat
    var looks: nat

    var live: bool       // the state block exists
    var phase: Phase
    var p: nat           // the chain to echo

    /** Data accepted before the remote side closed, data handed to `tcp_write`, and the window
        credited for it; `trashed` is the credit for data that came later. */
    ghost var accepted: seq<byte>
    ghost var written: seq<byte>
    ghost var credited: nat
    ghost var trashed: nat

    ghost predicate Valid()
      reads this, pool
    {
      && pool.Valid()
      && (live ==> Echoing(pool.mem, pool.chains, pool.held, p, accepted, written, credited))
      && (live && phase.Accepted? ==> p == NULL && accepted == [])
    }

    /** Since look `firstLook` at the room and call `firstCall` of `tcp_write`, as much was handed over
        as goes: the chain has ended, or the last call was refused, or the next pbuf is longer than
        the room that was last seen. */
    ghost predicate Pushed(firstLook: nat, firstCall: nat)
      reads this, pool
    {
      && looks > firstLook && calls >= firstCall
      && (p != NULL ==>
            p in pool.mem && ((calls > firstCall && !answers(calls - 1).Taken?) || |pool.mem[p].data| > rooms(looks - 1)))
    }

    /** `tcpecho_raw_accept`. */
    constructor (pool: Pool, answers: nat -> Outcome, rooms: nat -> nat)
      requires pool.Valid()
      ensures Valid() && live && phase.Accepted? && this.pool == pool && accepted == []
    {
      this.pool, this.answers, this.rooms := pool, answers, rooms;
      calls, looks, live, phase, p := 0, 0, true, Accepted, NULL;
      accepted, written, credited, trashed := [], [], 0, 0;
      new;
      BytesNull(pool.mem, pool.chains);
    }

    /** Moving on to the next pbuf and chopping the first off the chain. */
    method Chop() returns (ptr: nat)
      requires pool.Valid() && p != NULL && Owned(pool.mem, pool.chains, pool.held, p)
      modifies this`p, pool
      ensures pool.Valid() && ptr == old(p) && p == old(pool.mem)[ptr].next
      ensures pool.mem == old(pool.mem) - {ptr} && pool.chains == old(pool.chains) - {ptr}
      ensures Owned(pool.mem, pool.chains, pool.held, p)
    {
      hide Wf, Counted, Sized, Linked, AfterDrop, ChainsWithout;
      ptr := p;
      ghost var mem, chains, held := pool.mem, pool.chains, pool.held;
      OwnedIsHead(mem, chains, held, ptr);
      ChainStep(mem, chains, ptr);
      p := pool.mem[ptr].next;
      if p != NULL { ChainStep(mem, chains, p); assert p in chains[ptr]; }
      NotBehind(mem, chains, ptr);
      pool.Ref(p);
      ghost var m1 := pool.mem;
      var _, gone := pool.Free(ptr);
      ChopEffect(mem, chains, ptr, m1, gone);
      ChopOwned(mem, chains, held, pool.held, ptr);
    }

    /** One round of `tcpecho_raw_send`: the first pbuf is handed over and chopped off. */
    method EchoOne() returns (err: Outcome)
      requires pool.Valid() && Echoing(pool.mem, pool.chains, pool.held, p, accepted, written, credited) && p != NULL
      modifies this`p, this`calls, this`written, this`credited, pool
      ensures pool.Valid() && Echoing(pool.mem, pool.chains, pool.held, p, accepted, written, credited)
      ensures calls == old(calls) + 1 && err == answers(old(calls))
      ensures !err.Taken? ==> p == old(p) && pool.mem == old(pool.mem) && pool.chains == old(pool.chains) && written == old(written)
      ensures err.Taken? ==>
        && old(p) in old(pool.mem) && p == old(pool.mem)[old(p)].next && pool.mem == old(pool.mem) - {old(p)}
        && ChainOf(pool.mem, pool.chains, p) == ChainOf(old(pool.mem), old(pool.chains), p)
        && written == old(written) + old(pool.mem)[old(p)].data
    {
      hide Wf, Counted, Sized, Linked, Bytes, Owned, ChainOf;
      OwnedSingle(pool.mem, pool.chains, pool.held, p);
      err := answers(calls);
      calls := calls + 1;
      if err.Taken? {
        ChopBytes(pool.mem, pool.chains, p);
        var data := pool.mem[p].data;
        written := written + data;
        var _ := Chop();
        credited := credited + |data|;
      }
    }

    /** `tcpecho_raw_send`: hands over pbuf after pbuf as long as there is room. */
    method Send() returns (ghost k: nat)
      requires Valid() && live && !phase.Accepted?
      modifies this`p, this`calls, this`looks, this`written, this`credited, pool
      ensures Valid() && old(written) <= written
      ensures var c := ChainOf(old(pool.mem), old(pool.chains), old(p));
              k <= |c| && pool.mem == Without(old(pool.mem), c[..k]) && p == if k < |c| then c[k] else NULL
      ensures Pushed(old(looks), old(calls))
    {
      hide Wf, Counted, Sized, Linked, Without, Owned, ChainOf, Echoing, Bytes;
      ghost var c := ChainOf(pool.mem, pool.chains, p);
      k := 0;
      var err := Taken;
      EchoingParts(pool.mem, pool.chains, pool.held, p, accepted, written, credited);
      DropStart(pool.mem, pool.chains, p);
      assert c[0..] == c;
      var room := rooms(looks);
      looks := looks + 1;
      while err.Taken? && p != NULL && |pool.mem[p].data| <= room
        invariant Valid() && old(written) <= written && (p != NULL ==> p in pool.mem)
        invariant k <= |c| && p == (if k < |c| then c[k] else NULL) && ChainOf(pool.mem, pool.chains, p) == c[k..]
        invariant pool.mem == Without(old(pool.mem), c[..k])
        invariant looks > old(looks) && room == rooms(looks - 1) && calls >= old(calls)
        invariant !err.Taken? ==> calls > old(calls) && answers(calls - 1) == err
        decreases |c| - k, err.Taken?
      {
        NextInChain(pool.mem, pool.chains, p, c, k);
        WithoutNext(old(pool.mem), c, k);
        err := EchoOne();
        if err.Taken? {
          k := k + 1;
          EchoingParts(pool.mem, pool.chains, pool.held, p, accepted, written, credited);
        }
        room := rooms(looks);
        looks := looks + 1;
      }
    }

    /** `tcpecho_raw_free`: frees the whole chain, if there is one. */
    method Release()
      requires pool.Valid() && Owned(pool.mem, pool.chains, pool.held, p)
      modifies this`p, this`live, pool
      ensures pool.Valid() && !live && pool.mem == Without(old(pool.mem), ChainOf(old(pool.mem), old(pool.chains), old(p)))
    {
      hide Wf, Counted, Sized, Linked, AfterDrop, ChainsWithout;
      if p != NULL {
        ghost var mem, c := pool.mem, pool.chains[p];
        var _, gone := pool.Free(p);
        FreeOwned(mem, c, gone);
      } else {
        DropStart(pool.mem, pool.chains, p);
      }
      live := false;
    }

    /** `tcpecho_raw_close`. */
    method Close()
      requires Valid() && live && p == NULL
      modifies this`p, this`live, pool
      ensures Valid() && !live && written == accepted && credited == |accepted| && pool.mem == old(pool.mem)
    {
      hide Wf, Counted, Sized, Linked;
      BytesNull(pool.mem, pool.chains);
      DropStart(pool.mem, pool.chains, p);
      Release();
    }

    /** `tcpecho_raw_error`: the connection is gone, and so is what was not echoed. */
    method Error()
      requires Valid()
      modifies this`p, this`live, pool
      ensures Valid() && !live
      ensures old(live) ==> pool.mem == Without(old(pool.mem), ChainOf(old(pool.mem), old(pool.chains), old(p)))
    {
      if live { Release(); }
    }

    /** `tcpecho_raw_poll` and `tcpecho_raw_sent`: more is sent, or the connection is closed if the
        remote side has closed and nothing is left to echo. */
    method Resume()
      requires Valid() && live
      modifies this, pool
      ensures Valid() && accepted == old(accepted) && old(written) <= written && phase == old(phase)
      ensures !live ==> old(phase).Closing? && written == accepted && credited == |accepted|
      ensures !live <==> old(p) == NULL && old(phase).Closing?
      ensures old(p) != NULL ==> Pushed(old(looks), old(calls))
    {
      hide Wf, Counted, Sized, Linked, Echoing;
      if p != NULL {
        var _ := Send();
      } else if phase.Closing? {
        Close();
      }
    }

    /** `tcpecho_raw_recv`: `q` is the chain that came in, null if the remote side has closed;
        `ok` is false if TCP reports an error with it. */
    method Recv(q: nat, ok: bool)
      requires Valid() && live && Owned(pool.mem, pool.chains, pool.held, q)
      requires q != NULL ==> q != p
      modifies this, pool
      ensures Valid() && old(written) <= written
      ensures q == NULL ==> phase.Closing? && accepted == old(accepted) && (!live ==> written == accepted && credited == |accepted|)
      ensures q != NULL ==> live && phase == if ok && !old(phase).Closing? then Phase.Received else old(phase)
      ensures q == NULL ==> (!live <==> old(p) == NULL)
      ensures if q == NULL then old(p) != NULL ==> Pushed(old(looks), old(calls))
              else ok && !old(phase).Closing? && old(p) == NULL ==> Pushed(old(looks), old(calls))
      ensures q != NULL && old(p) != NULL ==> p == old(p) && written == old(written)
      ensures q != NULL && (!ok || old(phase).Closing?) ==>
        q in old(pool.chains) && pool.mem == Without(old(pool.mem), old(pool.chains)[q])
      ensures trashed == old(trashed) + if q != NULL && ok && old(phase).Closing? then TotLen(old(pool.mem), q) else 0
      ensures accepted == old(accepted) +
        if q != NULL && ok && !old(phase).Closing? then Bytes(old(pool.mem), old(pool.chains), q) else []
    {
      hide Wf, Counted, Sized, Linked, Bytes, Without, Owned, CatReady, AfterDrop, ChainsWithout;
      if q == NULL {
        phase := Closing;
        if p == NULL {
          Close();
        } else {
          var _ := Send();
        }
      } else if !ok {
        OwnedSingle(pool.mem, pool.chains, pool.held, q);
        Discard(q);
      } else if phase.Closing? {
        OwnedSingle(pool.mem, pool.chains, pool.held, q);
        trashed := trashed + pool.mem[q].totLen;
        Discard(q);
      } else if p == NULL {
        phase := Received;
        BytesNull(pool.mem, pool.chains);
        accepted := accepted + Bytes(pool.mem, pool.chains, q);
        p := q;
        var _ := Send();
      } else {
        Append(q);
      }
    }

    /** Data that is thrown away: all its pbufs are freed, and what is to be echoed stays. */
    method Discard(q: nat)
      requires Valid() && live && q != NULL && q != p && Owned(pool.mem, pool.chains, pool.held, q)
      modifies pool
      ensures Valid() && pool.mem == Without(old(pool.mem), old(pool.chains)[q])
    {
      hide Wf, Counted, Sized, Linked, AfterDrop, ChainsWithout, Bytes, Single;
      ghost var mem, chains, held := pool.mem, pool.chains, pool.held;
      var _, gone := pool.Free(q);
      FreeOwned(mem, chains[q], gone);
      OthersStay(mem, chains, held, pool.mem, pool.chains, pool.held, p, q);
    }

    /** More data behind what is still to be echoed. */
    method Append(q: nat)
      requires Valid() && live && phase.Received? && p != NULL && q != NULL && q != p
      requires Owned(pool.mem, pool.chains, pool.held, q)
      modifies this`accepted, pool
      ensures Valid() && accepted == old(accepted) + Bytes(old(pool.mem), old(pool.chains), q)
    {
      hide Wf, Counted, Sized, Linked, Concatenated, CatChains, Bytes, Single;
      OwnedIsHead(pool.mem, pool.chains, pool.held, p);
      OwnedIsHead(pool.mem, pool.chains, pool.held, q);
      CatFacts(pool.mem, pool.chains, p, q);
      CatOwned(pool.mem, pool.chains, pool.held, p, q);
      accepted := accepted + Bytes(pool.mem, pool.chains, q);
      pool.Cat(p, q);
    }
  }

  /** What is written and what is still to be echoed make up what was accepted. */
  ghost predicate Echoing(mem: Mem, chains: Chains, held: map<nat, nat>, p: nat, accepted: seq<byte>,
                          written: seq<byte>, credited: nat) {
    Owned(mem, chains, held, p) && accepted == written + Bytes(mem, chains, p) && credited == |written|
  }

  lemma NextInChain(mem: Mem, chains: Chains, ptr: nat, c: seq<nat>, k: nat)
    requires Wf(mem, chains) && ptr in mem && k < |c| && ptr == c[k] && ChainOf(mem, chains, ptr) == c[k..]
    ensures mem[ptr].next == (if k + 1 < |c| then c[k + 1] else NULL) && ChainOf(mem, chains, mem[ptr].next) == c[k + 1..]
  {
    hide Wf;
    ChainStep(mem, chains, ptr);
    assert c[k..] == [ptr] + ChainOf(mem, chains, mem[ptr].next);
    assert c[k + 1..] == c[k..][1..];
    if mem[ptr].next != NULL {
      ChainStep(mem, chains, mem[ptr].next);
      assert c[k + 1] == c[k + 1..][0];
    }
  }

  lemma EchoingParts(mem: Mem, chains: Chains, held: map<nat, nat>, p: nat, accepted: seq<byte>, written: seq<byte>,
                     credited: nat)
    requires Echoing(mem, chains, held, p, accepted, written, credited)
    ensures p != NULL ==> p in mem
  {
  }
}
