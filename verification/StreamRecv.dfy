/** Reading from a TCP socket (`lwip_recv_tcp`, lwip/src/api/sockets.c; `netconn_recv_data_tcp`,
    lwip/src/api/api_lib.c; `lwip_netconn_do_recv`, `recv_tcp` and `netconn_drain`,
    lwip/src/api/api_msg.c), on top of the packet buffers.

    What is posted to the mailbox during a call is as if posted before it: a call takes from the
    front what the network adds at the back. */
module StreamRecv {
  import opened MachineInts
  import opened PbufStore
  import opened PbufLinking
  import opened PbufPool
  import opened PbufContents
  import opened PbufOwned

  datatype RecvErr = Fine | WouldBlock | Timeout | Closed | NotConnected | Reset | Fatal

  /** What the receive mailbox holds: a chain of pbufs, the end of the stream, or an error. */
  datatype Msg = Data(p: nat) | Fin | Fault(err: RecvErr)

  // --------------------------------------------------------------------- the stream

  /** The chains in a mailbox. */
  function Pointers(ms: seq<Msg>): seq<nat> {
    if ms == [] then [] else PointerOf(ms[0]) + Pointers(ms[1..])
  }

  /** All chains that the socket holds: what is left of the last one comes first. */
  function Heads(last: nat, ms: seq<Msg>): seq<nat> {
    (if last == NULL then [] else [last]) + Pointers(ms)
  }

  /** Their contents, one after the other. */
  ghost function Stream(mem: Mem, chains: Chains, heads: seq<nat>): seq<byte> {
    if heads == [] then [] else Bytes(mem, chains, heads[0]) + Stream(mem, chains, heads[1..])
  }

  /** The chains at the front of a mailbox, up to the first message that is none. */
  function Leading(ms: seq<Msg>): seq<nat> {
    if ms == [] || !ms[0].Data? then [] else [ms[0].p] + Leading(ms[1..])
  }

  /** The bytes that can be read without waiting: what is left of the last chain, and what is at
      the front of the mailbox unless the end of the stream comes before it. */
  ghost function Available(mem: Mem, chains: Chains, last: nat, ms: seq<Msg>, fetch: bool): seq<byte> {
    (if last == NULL then [] else Bytes(mem, chains, last)) + if fetch then Stream(mem, chains, Leading(ms)) else []
  }

  /** The same for a peek: only one chain is looked at. */
  ghost function Peekable(mem: Mem, chains: Chains, last: nat, ms: seq<Msg>, fetch: bool): seq<byte> {
    if last != NULL then Bytes(mem, chains, last)
    else if fetch && ms != [] && ms[0].Data? then Bytes(mem, chains, ms[0].p) else []
  }

  /** The first `n` bytes, or all if there are fewer. */
  function UpTo(s: seq<byte>, n: nat): seq<byte> {
    if n < |s| then s[..n] else s
  }

  /** Of `d` the bytes `out` have been read and `now` is left. */
  ghost predicate Reading(d: seq<byte>, out: seq<byte>, now: seq<byte>) {
    d == out + now
  }

  lemma ReadingStart(d: seq<byte>)
    ensures Reading(d, [], d)
  {
  }

  lemma ReadMore(d: seq<byte>, out: seq<byte>, now: seq<byte>, copied: seq<byte>, now': seq<byte>)
    requires Reading(d, out, now) && now == copied + now'
    ensures Reading(d, out + copied, now')
  {
  }

  lemma ReadingIs(d: seq<byte>, out: seq<byte>, now: seq<byte>, len: nat)
    requires Reading(d, out, now)
    ensures (d == [] <==> out == [] && now == []) && (out == [] ==> now == d)
    ensures |out| == len || (now == [] && |out| <= len) ==> out == UpTo(d, len)
  {
  }

  lemma UpToLength(s: seq<byte>, n: nat)
    ensures |UpTo(s, n)| <= n && UpTo(s, n) <= s && (s == [] ==> UpTo(s, n) == []) && (n > 0 && s != [] ==> UpTo(s, n) != [])
    ensures |UpTo(s, n)| < n ==> UpTo(s, n) == s
  {
  }

  /** Why nothing can be read: the mailbox is gone, an error is in it, the stream has ended, or
      there is nothing yet. */
  function Reason(open: bool, finPending: bool, ms: seq<Msg>, pending: RecvErr, alive: bool, nowait: bool): RecvErr {
    if !open then NotConnected
    else if !finPending && ms == [] then (if pending != Fine then pending else if nowait then WouldBlock else Timeout)
    else if !finPending && ms[0].Fault? && !ms[0].err.Closed? then ms[0].err
    else if alive then Closed
    else if pending == Fine then Reset else pending
  }

  /** The end of the stream is next. */
  predicate EndsHere(finPending: bool, ms: seq<Msg>) {
    finPending || (ms != [] && (ms[0].Fin? || ms[0] == Fault(Closed)))
  }

  lemma {:induction false} LeadingIn(ms: seq<Msg>)
    ensures forall p :: p in Leading(ms) ==> p in Pointers(ms)
  {
    if ms != [] && ms[0].Data? { LeadingIn(ms[1..]); }
  }

  /** Fetching moves the first chain without changing what can be read. */
  lemma FetchAvailable(mem: Mem, chains: Chains, ms: seq<Msg>)
    requires ms != [] && ms[0].Data? && ms[0].p != NULL
    ensures Available(mem, chains, NULL, ms, true) == Available(mem, chains, ms[0].p, ms[1..], true)
  {
    hide Bytes, Stream;
    StreamCons(mem, chains, ms[0].p, Leading(ms[1..]));
    assert [] + Stream(mem, chains, Leading(ms)) == Stream(mem, chains, Leading(ms));
  }

  lemma NothingAvailable(mem: Mem, chains: Chains, ms: seq<Msg>, fetch: bool)
    requires !fetch || ms == [] || !ms[0].Data?
    ensures Available(mem, chains, NULL, ms, fetch) == [] && Peekable(mem, chains, NULL, ms, fetch) == []
  {
  }

  /** Reading `n` bytes of the last chain, of which `r` is left or nothing. */
  lemma TakeAvailable(mem: Mem, chains: Chains, mem': Mem, chains': Chains, p: nat, r: nat, ms: seq<Msg>, fetch: bool, n: nat)
    requires p != NULL && n <= |Bytes(mem, chains, p)|
    requires forall y :: y in Pointers(ms) ==> Bytes(mem', chains', y) == Bytes(mem, chains, y)
    requires if r == NULL then n == |Bytes(mem, chains, p)| else Bytes(mem', chains', r) == Bytes(mem, chains, p)[n..]
    ensures Available(mem, chains, p, ms, fetch) == Bytes(mem, chains, p)[..n] + Available(mem', chains', r, ms, fetch)
  {
    hide Bytes, Stream;
    LeadingIn(ms);
    StreamSame(mem, chains, mem', chains', Leading(ms));
    var b, s := Bytes(mem, chains, p), if fetch then Stream(mem, chains, Leading(ms)) else [];
    assert b == b[..n] + b[n..] && b[..n] + b[n..] + s == b[..n] + (b[n..] + s);
    if r == NULL { assert b[n..] == []; }
  }

  lemma PeekIsFirst(mem: Mem, chains: Chains, last: nat, ms: seq<Msg>, fetch: bool)
    ensures last != NULL ==> Peekable(mem, chains, last, ms, fetch) == Bytes(mem, chains, last)
    ensures last == NULL && fetch && ms != [] && ms[0].Data? ==>
              Peekable(mem, chains, last, ms, fetch) == Bytes(mem, chains, ms[0].p)
    ensures last != NULL ==> Bytes(mem, chains, last) <= Available(mem, chains, last, ms, fetch)
  {
  }

  /** A chain as TCP delivers it: owned, not empty, and no longer than `tot_len` can tell. */
  ghost predicate HeadOk(mem: Mem, chains: Chains, held: map<nat, nat>, p: nat) {
    p != NULL && Owned(mem, chains, held, p) && 0 < |Bytes(mem, chains, p)| <= 0xffff
  }

  ghost predicate Distinct(heads: seq<nat>) {
    forall i, j :: 0 <= i < j < |heads| ==> heads[i] != heads[j]
  }

  ghost predicate HeadsOk(mem: Mem, chains: Chains, held: map<nat, nat>, heads: seq<nat>) {
    Distinct(heads) && forall p :: p in heads ==> HeadOk(mem, chains, held, p)
  }

  function PointerOf(m: Msg): seq<nat> {
    if m.Data? then [m.p] else []
  }

  lemma {:induction false} PointersAppend(a: seq<Msg>, m: Msg)
    ensures Pointers(a + [m]) == Pointers(a) + PointerOf(m)
  {
    hide PointerOf;
    if a == [] {
      assert [m][1..] == [] && a + [m] == [m];
      assert PointerOf(m) + [] == PointerOf(m) && [] + PointerOf(m) == PointerOf(m);
    } else {
      assert (a + [m])[1..] == a[1..] + [m] && (a + [m])[0] == a[0];
      PointersAppend(a[1..], m);
      assert PointerOf(a[0]) + Pointers(a[1..]) + PointerOf(m) == PointerOf(a[0]) + (Pointers(a[1..]) + PointerOf(m));
    }
  }

  lemma HeadsAppend(last: nat, ms: seq<Msg>, m: Msg)
    ensures Heads(last, ms + [m]) == Heads(last, ms) + PointerOf(m)
  {
    hide Pointers, PointerOf;
    PointersAppend(ms, m);
  }

  lemma HeadsOkMore(mem: Mem, chains: Chains, held: map<nat, nat>, heads: seq<nat>, p: nat)
    requires HeadsOk(mem, chains, held, heads) && HeadOk(mem, chains, held, p) && p !in heads
    ensures HeadsOk(mem, chains, held, heads + [p])
  {
    hide HeadOk;
  }

  lemma StreamCons(mem: Mem, chains: Chains, p: nat, rest: seq<nat>)
    ensures Stream(mem, chains, [p] + rest) == Bytes(mem, chains, p) + Stream(mem, chains, rest)
  {
    hide Bytes;
    assert ([p] + rest)[1..] == rest;
  }

  lemma {:induction false} StreamAppend(mem: Mem, chains: Chains, heads: seq<nat>, p: nat)
    ensures Stream(mem, chains, heads + [p]) == Stream(mem, chains, heads) + Bytes(mem, chains, p)
  {
    hide Bytes;
    if heads == [] {
      assert [p][1..] == [];
    } else {
      assert (heads + [p])[1..] == heads[1..] + [p];
      StreamAppend(mem, chains, heads[1..], p);
    }
  }

  lemma {:induction false} StreamSame(mem: Mem, chains: Chains, mem': Mem, chains': Chains, heads: seq<nat>)
    requires forall p :: p in heads ==> Bytes(mem', chains', p) == Bytes(mem, chains, p)
    ensures Stream(mem', chains', heads) == Stream(mem, chains, heads)
  {
    hide Bytes;
    if heads != [] { StreamSame(mem, chains, mem', chains', heads[1..]); }
  }

  lemma DistinctTail(heads: seq<nat>)
    requires Distinct(heads) && heads != []
    ensures Distinct(heads[1..]) && heads[0] !in heads[1..]
  {
  }

  /** Chains are not empty. */
  lemma SomethingAvailable(mem: Mem, chains: Chains, held: map<nat, nat>, last: nat, ms: seq<Msg>, fetch: bool)
    requires HeadsOk(mem, chains, held, Heads(last, ms))
    ensures last != NULL || (fetch && ms != [] && ms[0].Data?) ==>
              Available(mem, chains, last, ms, fetch) != [] && Peekable(mem, chains, last, ms, fetch) != []
  {
    hide Bytes, Owned;
    if last != NULL {
      assert last in Heads(last, ms);
    } else if fetch && ms != [] && ms[0].Data? {
      assert Heads(last, ms)[0] == ms[0].p && ms[0].p in Heads(last, ms);
      StreamCons(mem, chains, ms[0].p, Leading(ms[1..]));
    }
  }

  /** Work on the first chain leaves the others as they are. */
  lemma OthersKept(mem: Mem, chains: Chains, held: map<nat, nat>, mem': Mem, chains': Chains, held': map<nat, nat>,
                   heads: seq<nat>)
    requires Wf(mem, chains) && Counted(mem, held, NULL) && Wf(mem', chains') && Counted(mem', held', NULL)
    requires heads != [] && HeadsOk(mem, chains, held, heads) && heads[0] in chains
    requires OnlyChain(mem, mem', chains[heads[0]])
    ensures HeadsOk(mem', chains', held', heads[1..])
    ensures Stream(mem', chains', heads[1..]) == Stream(mem, chains, heads[1..])
    ensures forall y :: y in heads[1..] ==> y !in chains[heads[0]] && Bytes(mem', chains', y) == Bytes(mem, chains, y)
  {
    hide Wf, Counted, OnlyChain, Bytes, Owned, Stream;
    DistinctTail(heads);
    forall y | y in heads[1..]
      ensures HeadOk(mem', chains', held', y) && Bytes(mem', chains', y) == Bytes(mem, chains, y) && y !in chains[heads[0]]
    {
      assert y in heads && heads[0] in heads;
      OtherHead(mem, chains, held, mem', chains', held', heads[0], y);
    }
    StreamSame(mem, chains, mem', chains', heads[1..]);
  }

  // --------------------------------------------------------------------- the socket

  function Sum(s: seq<nat>): nat {
    if s == [] then 0 else Sum(s[..|s| - 1]) + s[|s| - 1]
  }

  lemma SumMore(s: seq<nat>, x: nat)
    ensures Sum(s + [x]) == Sum(s) + x
  {
    assert (s + [x])[..|s|] == s;
  }

  /** The whole stream: what was returned, what is left of the last chain, and the mailbox. */
  ghost predicate Conserved(posted: seq<byte>, returned: seq<byte>, mem: Mem, chains: Chains, heads: seq<nat>) {
    posted == returned + Stream(mem, chains, heads)
  }

  lemma PostKeeps(posted: seq<byte>, returned: seq<byte>, mem: Mem, chains: Chains, heads: seq<nat>, p: nat)
    requires Conserved(posted, returned, mem, chains, heads)
    ensures Conserved(posted + Bytes(mem, chains, p), returned, mem, chains, heads + [p])
  {
    hide Bytes, Stream;
    StreamAppend(mem, chains, heads, p);
    var s, b := Stream(mem, chains, heads), Bytes(mem, chains, p);
    assert returned + s + b == returned + (s + b);
  }

  lemma Regroup(a: seq<byte>, b: seq<byte>, n: nat, s: seq<byte>)
    requires n <= |b|
    ensures a + (b + s) == a + b[..n] + (b[n..] + s)
  {
    assert b == b[..n] + b[n..];
  }

  /** Reading `n` bytes from the first chain, of which `r` is left, or nothing. */
  lemma ReadKeeps(posted: seq<byte>, returned: seq<byte>, mem: Mem, chains: Chains, mem': Mem, chains': Chains,
                  p: nat, rest: seq<nat>, n: nat, r: nat)
    requires Conserved(posted, returned, mem, chains, [p] + rest) && n <= |Bytes(mem, chains, p)|
    requires Stream(mem', chains', rest) == Stream(mem, chains, rest)
    requires if r == NULL then n == |Bytes(mem, chains, p)|
             else Bytes(mem', chains', r) == Bytes(mem, chains, p)[n..]
    ensures Conserved(posted, returned + Bytes(mem, chains, p)[..n], mem', chains', (if r == NULL then [] else [r]) + rest)
  {
    hide Bytes, Stream;
    var b, s := Bytes(mem, chains, p), Stream(mem, chains, rest);
    StreamCons(mem, chains, p, rest);
    Regroup(returned, b, n, s);
    if r == NULL {
      assert b[n..] == [] && b[n..] + s == s && [] + rest == rest;
    } else {
      StreamCons(mem', chains', r, rest);
    }
  }

  class Socket {
    const pool: Pool
    var lastdata: nat
    var mbox: seq<Msg>
    var open: bool            // the mailbox exists
    var finPending: bool      // NETCONN_FIN_RX_PENDING
    var nonblocking: bool
    var pendingErr: RecvErr
    var alive: bool           // the pcb exists

    /** Data posted to the mailbox, data returned to the caller, and window credit given to
        `tcp_recved`. */
    ghost var posted: seq<byte>
    ghost var returned: seq<byte>
    ghost var credited: nat

    /** The socket owns its chains. As long as the receive side is not shut down, the stream is
        conserved and all data returned has been credited but `due` bytes, the latter unless the
        pcb is gone. */
    ghost predicate ValidBut(due: nat)
      reads this, pool
    {
      && pool.Valid() && Totals(pool.mem)
      && HeadsOk(pool.mem, pool.chains, pool.held, Heads(lastdata, mbox))
      && (open ==> Conserved(posted, returned, pool.mem, pool.chains, Heads(lastdata, mbox)))
      && (open && alive ==> credited + due == |returned|)
      && (finPending ==> lastdata == NULL)
      && forall m :: m in mbox && m.Fault? ==> !m.err.Fine?
    }

    ghost predicate Valid()
      reads this, pool
    {
      ValidBut(0)
    }

    constructor (pool: Pool, nonblocking: bool)
      requires pool.Valid() && Totals(pool.mem)
      ensures Valid() && open && alive && posted == [] && returned == [] && this.pool == pool
    {
      this.pool, this.nonblocking := pool, nonblocking;
      lastdata, mbox, open, finPending, pendingErr, alive := NULL, [], true, false, Fine, true;
      posted, returned, credited := [], [], 0;
    }

    /** `recv_tcp`: a chain, the end of the stream or an error is posted unless the mailbox is
        full; without mailbox a chain is credited and freed. */
    method Post(m: Msg, full: bool)
      requires Valid() && (m.Fault? ==> !m.err.Fine?)
      requires m.Data? ==> HeadOk(pool.mem, pool.chains, pool.held, m.p) && m.p !in Heads(lastdata, mbox)
      modifies this`mbox, this`posted, this`credited, pool
      ensures Valid()
      ensures open && !full ==>
        && mbox == old(mbox) + [m] && pool.mem == old(pool.mem)
        && posted == old(posted) + if m.Data? then Bytes(old(pool.mem), old(pool.chains), m.p) else []
      ensures !open || full ==> posted == old(posted) && mbox == old(mbox)
      ensures credited == old(credited) + if !open && m.Data? then |Bytes(old(pool.mem), old(pool.chains), m.p)| else 0
      ensures !open && m.Data? ==> m.p !in pool.mem
    {
      hide Wf, Counted, Sized, Linked, Bytes, Stream, Totals, Conserved, Owned, HeadsOk, Heads;
      if !open {
        if m.Data? {
          OwnedOrNull(pool.mem, pool.chains, pool.held, m.p);
          TotalIsLength(pool.mem, pool.chains, m.p);
          credited := credited + pool.mem[m.p].totLen;
          Discard(m.p);
        }
      } else if !full {
        HeadsAppend(lastdata, mbox, m);
        ghost var heads := Heads(lastdata, mbox);
        if m.Data? {
          PostKeeps(posted, returned, pool.mem, pool.chains, heads, m.p);
          HeadsOkMore(pool.mem, pool.chains, pool.held, heads, m.p);
          posted := posted + Bytes(pool.mem, pool.chains, m.p);
        } else {
          assert heads + [] == heads;
        }
        mbox := mbox + [m];
      }
    }

    /** A chain that is not among those of the socket is freed. */
    method Discard(p: nat)
      requires pool.Valid() && Totals(pool.mem) && HeadOk(pool.mem, pool.chains, pool.held, p)
      requires HeadsOk(pool.mem, pool.chains, pool.held, Heads(lastdata, mbox)) && p !in Heads(lastdata, mbox)
      modifies pool
      ensures pool.Valid() && Totals(pool.mem) && pool.mem == Without(old(pool.mem), old(pool.chains)[p]) && p !in pool.mem
      ensures HeadsOk(pool.mem, pool.chains, pool.held, Heads(lastdata, mbox))
      ensures Stream(pool.mem, pool.chains, Heads(lastdata, mbox)) ==
              Stream(old(pool.mem), old(pool.chains), Heads(lastdata, mbox))
    {
      hide Wf, Counted, Sized, Linked, Bytes, Stream, Totals, Owned;
      ghost var mem, chains, held, heads := pool.mem, pool.chains, pool.held, Heads(lastdata, mbox);
      FreeWhole(p);
      assert ([p] + heads)[1..] == heads && forall y :: y in [p] + heads ==> y == p || y in heads;
      OthersKept(mem, chains, held, pool.mem, pool.chains, pool.held, [p] + heads);
    }

    /** `pbuf_free` of a chain of one owner. */
    method FreeWhole(p: nat)
      requires pool.Valid() && Totals(pool.mem) && p != NULL && Owned(pool.mem, pool.chains, pool.held, p)
      modifies pool
      ensures pool.Valid() && Totals(pool.mem) && p in old(pool.chains)
      ensures pool.mem == Without(old(pool.mem), old(pool.chains)[p]) && p !in pool.mem
      ensures OnlyChain(old(pool.mem), pool.mem, old(pool.chains)[p])
    {
      hide Wf, Counted, Sized, Linked, Totals, AfterDrop, ChainsWithout;
      ghost var mem, chains := pool.mem, pool.chains;
      ChainStep(mem, chains, p);
      var _, gone := pool.Free(p);
      FreeOwned(mem, chains[p], gone);
      assert p in chains[p];
    }

    /** `netconn_recv_data`: what comes first in the mailbox becomes the current chain. */
    method Fetch(dontblock: bool, ghost due: nat) returns (e: RecvErr)
      requires ValidBut(due) && lastdata == NULL && !finPending
      modifies this`mbox, this`pendingErr, this`lastdata
      ensures ValidBut(due) && (lastdata != NULL ==> e.Fine?)
      ensures old(mbox) == [] ==>
                && mbox == [] && lastdata == NULL && pendingErr == Fine
                && e == (if old(pendingErr) != Fine then old(pendingErr)
                         else if nonblocking || dontblock then WouldBlock else Timeout)
      ensures old(mbox) != [] ==>
                var m := old(mbox)[0];
                && mbox == old(mbox)[1..] && pendingErr == old(pendingErr) && lastdata == (if m.Data? then m.p else NULL)
                && e == (if m.Fault? && !m.err.Closed? then m.err else Fine) && (m.Data? ==> lastdata != NULL)
    {
      hide Wf, Counted, Sized, Linked, Bytes, Stream, Totals, Conserved, HeadsOk;
      if mbox == [] {
        if nonblocking || dontblock || !pendingErr.Fine? {
          e := if pendingErr.Fine? then WouldBlock else pendingErr;
          pendingErr := Fine;
        } else {
          e := Timeout;
        }
        return;
      }
      var m := mbox[0];
      FetchHeads(pool.mem, pool.chains, pool.held, mbox);
      mbox := mbox[1..];
      match m {
        case Data(p) =>
          lastdata := p;
          e := Fine;
        case Fin => e := Fine;
        case Fault(err) => e := if err.Closed? then Fine else err;
      }
    }

    /** `netconn_drain`: everything in the mailbox is freed. */
    method Drain()
      requires pool.Valid() && Totals(pool.mem) && lastdata == NULL
      requires HeadsOk(pool.mem, pool.chains, pool.held, Heads(lastdata, mbox))
      modifies this`mbox, pool
      ensures pool.Valid() && Totals(pool.mem) && mbox == []
      ensures forall y :: y in Pointers(old(mbox)) ==> y !in pool.mem
    {
      hide Wf, Counted, Sized, Linked, Bytes, Stream, Totals, Owned;
      assert Heads(NULL, mbox) == Pointers(mbox);
      while mbox != []
        invariant pool.Valid() && Totals(pool.mem) && HeadsOk(pool.mem, pool.chains, pool.held, Pointers(mbox))
        invariant forall y :: y in Pointers(old(mbox)) ==> y in Pointers(mbox) || y !in pool.mem
        decreases |mbox|
      {
        var m := mbox[0];
        ghost var heads := Pointers(mbox);
        mbox := mbox[1..];
        if m.Data? {
          ghost var mem, chains, held := pool.mem, pool.chains, pool.held;
          assert m.p == heads[0] && m.p in heads && heads[1..] == Pointers(mbox);
          FreeWhole(m.p);
          assert heads == [m.p] + Pointers(mbox);
          OthersKept(mem, chains, held, pool.mem, pool.chains, pool.held, heads);
        } else {
          assert heads == Pointers(mbox);
        }
      }
    }

    /** `netconn_recv_data_tcp` without automatic window update. On the end of the stream the
        receive side is shut down, unless `nofin` says that the caller cannot handle it now. */
    method RecvData(dontblock: bool, nofin: bool, ghost due: nat) returns (e: RecvErr)
      requires ValidBut(due) && lastdata == NULL && (if nofin then !finPending else due == 0)
      modifies this`mbox, this`lastdata, this`finPending, this`pendingErr, this`open, pool
      ensures ValidBut(due) && (lastdata != NULL <==> e.Fine?) && (e.Fine? ==> !finPending)
      ensures (nofin ==> open == old(open)) && (open ==> old(open) && pool.mem == old(pool.mem) && pool.chains == old(pool.chains))
      ensures (!old(open) ==> e.NotConnected?) && (old(open) && !open ==> e.Closed?)
      ensures if old(open) && !old(finPending) && old(mbox) != [] && old(mbox)[0].Data?
              then lastdata == old(mbox)[0].p != NULL && mbox == old(mbox)[1..] && open
              else lastdata == NULL && !e.Fine?
                   && (!nofin ==> e == Reason(old(open), old(finPending), old(mbox), old(pendingErr), alive, nonblocking || dontblock))
      ensures old(open) && EndsHere(old(finPending), old(mbox)) ==>
                if nofin then finPending && open && e.WouldBlock? && mbox == old(mbox)[1..] && pendingErr == old(pendingErr)
                else !finPending && if alive then !open && mbox == [] && forall y :: y in Pointers(old(mbox)) ==> y !in pool.mem
                                    else open && pendingErr == Fine
    {
      hide Wf, Counted, Sized, Linked, Bytes, Stream, Totals, Conserved, HeadsOk;
      if !open { return NotConnected; }
      if finPending {
        finPending := false;
      } else {
        e := Fetch(dontblock, due);
        if !e.Fine? || lastdata != NULL { return; }
        if nofin {
          finPending := true;
          return WouldBlock;
        }
      }
      if !alive {
        e := if pendingErr.Fine? then Reset else pendingErr;
        pendingErr := Fine;
        return;
      }
      open := false;
      Drain();
      NoHeads(pool.mem, pool.chains, pool.held);
      return Closed;
    }

    /** `lwip_netconn_do_recv`: the credit is given in pieces that fit a `u16_t`. */
    method DoRecv(len: nat) returns (pieces: seq<nat>)
      modifies this`credited
      ensures (forall i :: 0 <= i < |pieces| ==> pieces[i] <= 0xffff) && (alive ==> Sum(pieces) == len)
      ensures credited == old(credited) + Sum(pieces) && (!alive ==> pieces == [])
    {
      pieces := [];
      if alive {
        var remaining, more := len, true;
        while more
          invariant 0 <= remaining && Sum(pieces) + remaining == len && (!more ==> remaining == 0)
          invariant credited == old(credited) + Sum(pieces)
          invariant forall i :: 0 <= i < |pieces| ==> pieces[i] <= 0xffff
          decreases remaining, more
        {
          var recved := if remaining > 0xffff then 0xffff else remaining;
          SumMore(pieces, recved);
          pieces := pieces + [recved];
          credited := credited + recved;
          remaining := remaining - recved;
          more := remaining != 0;
        }
      }
    }

    /** What is read from the current chain is taken off: what is left stays, nothing left is
        freed. */
    method Consume(n: nat)
      requires pool.Valid() && Totals(pool.mem) && lastdata != NULL
      requires HeadsOk(pool.mem, pool.chains, pool.held, Heads(lastdata, mbox))
      requires n <= |Bytes(pool.mem, pool.chains, lastdata)|
      modifies this`lastdata, pool
      ensures pool.Valid() && Totals(pool.mem) && HeadsOk(pool.mem, pool.chains, pool.held, Heads(lastdata, mbox))
      ensures lastdata == NULL <==> n == |Bytes(old(pool.mem), old(pool.chains), old(lastdata))|
      ensures lastdata != NULL ==> Bytes(pool.mem, pool.chains, lastdata) == Bytes(old(pool.mem), old(pool.chains), old(lastdata))[n..]
      ensures Stream(pool.mem, pool.chains, Pointers(mbox)) == Stream(old(pool.mem), old(pool.chains), Pointers(mbox))
      ensures forall y :: y in Pointers(mbox) ==> Bytes(pool.mem, pool.chains, y) == Bytes(old(pool.mem), old(pool.chains), y)
      ensures old(lastdata) in old(pool.chains)
      ensures forall x :: x in old(pool.chains)[old(lastdata)] && x in pool.mem ==> x in ChainOf(pool.mem, pool.chains, lastdata)
    {
      hide Wf, Counted, Sized, Linked, Bytes, Stream, Totals, ChainOf, FrontRemoved, OnlyChain, Suffix, WholePbufs, AllPopCleanly;
      var p := lastdata;
      ghost var mem, chains, held, rest := pool.mem, pool.chains, pool.held, Pointers(mbox);
      ghost var heads := Heads(p, mbox);
      assert heads[0] == p && p in heads && heads[1..] == rest;
      OwnedIsHead(mem, chains, held, p);
      TotalIsLength(mem, chains, p);
      DropStart(mem, chains, p);
      if pool.mem[p].totLen - n > 0 {
        var r := pool.FreeHeader(p, n);
        ghost var k := WholePbufs(mem, chains[p], n);
        RestOwned(mem, chains, held, pool.mem, pool.chains, pool.held, p, r, k);
        CleanPops(mem, chains[p], k);
        BytesNull(pool.mem, pool.chains);
        SuffixNonempty(mem, chains, pool.mem, pool.chains, p, r, n);
        lastdata := r;
        OthersKept(mem, chains, held, pool.mem, pool.chains, pool.held, heads);
        RestHeads(pool.mem, pool.chains, pool.held, chains[p], k, r, rest);
      } else {
        FreeWhole(p);
        lastdata := NULL;
        OthersKept(mem, chains, held, pool.mem, pool.chains, pool.held, heads);
        assert [] + rest == rest;
      }
    }

    /** What can be read now, given the memory and the last chain. */
    ghost function Now(mem: Mem, chains: Chains, last: nat): seq<byte>
      reads this
    {
      Available(mem, chains, last, mbox, open && !finPending)
    }

    /** What a peek can see now. */
    ghost function First(): seq<byte>
      reads this, pool
    {
      Peekable(pool.mem, pool.chains, lastdata, mbox, open && !finPending)
    }

    /** One round of `lwip_recv_tcp` that has a chain: what is copied from it. */
    method TakeFrom(left: nat, peek: bool, ghost due: nat) returns (copied: seq<byte>)
      requires ValidBut(due) && lastdata != NULL && !finPending
      modifies this`lastdata, this`returned, pool
      ensures var b := Bytes(old(pool.mem), old(pool.chains), old(lastdata));
              && copied == UpTo(b, left) && |b| > 0
              && (peek ==> pool.mem == old(pool.mem) && pool.chains == old(pool.chains))
      ensures if peek then lastdata == old(lastdata) && returned == old(returned) else returned == old(returned) + copied
      ensures ValidBut(if peek then due else due + |copied|)
      ensures !peek ==> Now(old(pool.mem), old(pool.chains), old(lastdata)) == copied + Now(pool.mem, pool.chains, lastdata)
    {
      hide Wf, Counted, Sized, Linked, Bytes, Stream, Totals, Conserved;
      var p := lastdata;
      ghost var mem, chains, heads := pool.mem, pool.chains, Heads(p, mbox);
      assert heads[0] == p && p in heads && heads == [p] + Pointers(mbox);
      OwnedOrNull(mem, chains, pool.held, p);
      TotalIsLength(mem, chains, p);
      var copylen := if left > pool.mem[p].totLen then pool.mem[p].totLen else left;
      copied := CopyPartial(pool.mem, pool.chains, p, copylen, 0);
      SliceFront(Bytes(mem, chains, p), copylen);
      if !peek {
        Consume(copylen);
        if open {
          ReadKeeps(posted, returned, mem, chains, pool.mem, pool.chains, p, Pointers(mbox), copylen, lastdata);
        }
        TakeAvailable(mem, chains, pool.mem, pool.chains, p, lastdata, mbox, open && !finPending, copylen);
        returned := returned + copied;
      }
    }

    /** The first half of a round: the last chain, or one from the network if there is none. */
    method HaveChain(dontblock: bool, nofin: bool, ghost due: nat) returns (err: RecvErr)
      requires ValidBut(due) && (lastdata == NULL ==> if nofin then !finPending else due == 0)
      modifies this`mbox, this`lastdata, this`finPending, this`pendingErr, this`open, pool
      ensures ValidBut(due) && (open ==> old(open)) && (nofin ==> open == old(open))
      ensures err.Fine? ==>
        && lastdata != NULL && !finPending && open == old(open) && pool.mem == old(pool.mem) && pool.chains == old(pool.chains)
        && Now(pool.mem, pool.chains, lastdata) == old(Now(pool.mem, pool.chains, lastdata)) != []
        && Bytes(pool.mem, pool.chains, lastdata) == old(First()) != []
      ensures !err.Fine? ==>
        && lastdata == NULL && old(lastdata) == NULL && old(Now(pool.mem, pool.chains, lastdata)) == [] && old(First()) == []
        && (!nofin ==> err == Reason(old(open), old(finPending), old(mbox), old(pendingErr), alive, nonblocking || dontblock))
    {
      hide Wf, Counted, Sized, Linked, Bytes, Stream, Totals, Conserved, Available, Peekable, Owned;
      PeekIsFirst(pool.mem, pool.chains, lastdata, mbox, open && !finPending);
      err := Fine;
      if lastdata == NULL {
        ghost var ms, can, mem, chains := mbox, open && !finPending, pool.mem, pool.chains;
        err := RecvData(dontblock, nofin, due);
        if !err.Fine? {
          NothingAvailable(mem, chains, ms, can);
          return;
        }
        FetchAvailable(mem, chains, ms);
      }
      assert lastdata in Heads(lastdata, mbox);
      PeekIsFirst(pool.mem, pool.chains, lastdata, mbox, open && !finPending);
    }

    /** One round: there is no chain to be had, or bytes are copied from it. */
    method ReadRound(left: nat, peek: bool, dontblock: bool, nofin: bool, ghost due: nat) returns (err: RecvErr, copied: seq<byte>)
      requires ValidBut(due) && (lastdata == NULL ==> if nofin then !finPending else due == 0)
      modifies this`mbox, this`lastdata, this`finPending, this`pendingErr, this`open, this`returned, pool
      ensures ValidBut(if peek then due else due + |copied|) && (open ==> old(open)) && |copied| <= left
      ensures err.Fine? ==> !finPending && old(First()) != [] && copied == UpTo(old(First()), left) && (left > 0 ==> copied != [])
      ensures err.Fine? ==>
        if peek then lastdata != NULL && Bytes(pool.mem, pool.chains, lastdata) == old(First()) && returned == old(returned)
        else && old(Now(pool.mem, pool.chains, lastdata)) == copied + Now(pool.mem, pool.chains, lastdata) != []
             && returned == old(returned) + copied
      ensures !err.Fine? ==>
        && copied == [] && returned == old(returned)
        && lastdata == NULL && old(lastdata) == NULL && old(Now(pool.mem, pool.chains, lastdata)) == [] && old(First()) == []
        && (!nofin ==> err == Reason(old(open), old(finPending), old(mbox), old(pendingErr), alive, nonblocking || dontblock))
    {
      hide Wf, Counted, Sized, Linked, Bytes, Stream, Totals, Conserved, HeadsOk, Heads, Available, Peekable, Reason, UpTo;
      err := HaveChain(dontblock, nofin, due);
      if !err.Fine? {
        return err, [];
      }
      UpToLength(Bytes(pool.mem, pool.chains, lastdata), left);
      copied := TakeFrom(left, peek, due);
    }

    /** The loop of `lwip_recv_tcp`: collects bytes until there are enough or no more without
        waiting. An error counts only if nothing was collected. */
    method ReadLoop(len: nat, peek: bool, dontwait: bool) returns (err: RecvErr, out: seq<byte>)
      requires Valid()
      modifies this`mbox, this`lastdata, this`finPending, this`pendingErr, this`open, this`returned, pool
      ensures ValidBut(if peek then 0 else |out|) && |out| <= len && (!err.Fine? ==> out == [])
      ensures returned == if peek then old(returned) else old(returned) + out
      ensures open ==> old(open)
      ensures peek && out != [] ==> lastdata != NULL && out <= Bytes(pool.mem, pool.chains, lastdata)
      ensures !peek && |out| < len && open ==> lastdata == NULL
      ensures var d := if peek then Peekable(old(pool.mem), old(pool.chains), old(lastdata), old(mbox), old(open) && !old(finPending))
                       else Available(old(pool.mem), old(pool.chains), old(lastdata), old(mbox), old(open) && !old(finPending));
              && out == UpTo(d, len)
              && err == (if d != [] then Fine
                         else Reason(old(open), old(finPending), old(mbox), old(pendingErr), alive, nonblocking || dontwait))
    {
      hide Wf, Counted, Sized, Linked, Bytes, Stream, Totals, Conserved, HeadsOk, Reading, Heads, Available, Peekable, Reason, UpTo;
      var left: nat, dontblock, nofin := len, dontwait, false;
      ghost var fetch := open && !finPending;
      ghost var d := Available(pool.mem, pool.chains, lastdata, mbox, fetch);
      ghost var d1 := Peekable(pool.mem, pool.chains, lastdata, mbox, fetch);
      out := [];
      var more := true;
      ReadingStart(d);
      while more
        invariant ValidBut(if peek then 0 else |out|) && |out| + left == len && (nofin <==> |out| > 0 || !more)
        invariant returned == if peek then old(returned) else old(returned) + out
        invariant nofin && lastdata == NULL ==> !finPending
        invariant open ==> old(open)
        invariant !more ==> left == 0 || peek
        invariant peek && out != [] ==> !more && lastdata != NULL && out <= Bytes(pool.mem, pool.chains, lastdata)
        invariant !peek ==> Reading(d, out, Now(pool.mem, pool.chains, lastdata))
        invariant out == [] && more ==>
          && mbox == old(mbox) && lastdata == old(lastdata) && pool.mem == old(pool.mem) && pool.chains == old(pool.chains)
          && open == old(open) && finPending == old(finPending) && pendingErr == old(pendingErr) && dontblock == dontwait
        invariant !more ==> if peek then d1 != [] && out == UpTo(d1, len) else d != []
        decreases more, left
      {
        ghost var was := Now(pool.mem, pool.chains, lastdata);
        if !peek { ReadingIs(d, out, was, len); }
        var copied;
        err, copied := ReadRound(left, peek, dontblock, nofin, |out|);
        if !err.Fine? {
          UpToLength(d1, len);
          return (if |out| > 0 then Fine else err), out;
        }
        if peek { UpToLength(d1, len); }
        if !peek { ReadMore(d, out, was, copied, Now(pool.mem, pool.chains, lastdata)); }
        out := out + copied;
        left := left - |copied|;
        dontblock, nofin := true, true;
        more := left > 0 && !peek;
      }
      if !peek { ReadingIs(d, out, Now(pool.mem, pool.chains, lastdata), len); }
      err := Fine;
    }

    /** `lwip_recv_tcp`. A read that does not peek returns the next bytes of the stream and credits
        them to the window; a peek returns them without either. If there is something to read, it
        returns as much of it as is asked for. Otherwise the result is 0 if the stream has ended
        and negative on an error. */
    method Recv(len: nat, peek: bool, dontwait: bool) returns (n: int, out: seq<byte>)
      requires Valid()
      modifies this, pool
      ensures Valid() && |out| <= len && n <= |out| && (n >= 0 ==> n == |out|) && posted == old(posted)
      ensures returned == if peek then old(returned) else old(returned) + out
      ensures open && alive && !peek ==> credited == old(credited) + |out|
      ensures peek ==> credited == old(credited)
      ensures open ==> |old(returned)| <= |posted| && out <= posted[|old(returned)|..]
      ensures open && !peek && 0 <= n < len ==> lastdata == NULL
      ensures var fetch := old(open) && !old(finPending);
              var d := if peek then Peekable(old(pool.mem), old(pool.chains), old(lastdata), old(mbox), fetch)
                       else Available(old(pool.mem), old(pool.chains), old(lastdata), old(mbox), fetch);
              && out == (if len < |d| then d[..len] else d) && (d != [] ==> n == |out|)
              && (d == [] ==> n == 0 || n == -1)
              && (d == [] ==> (n == 0 <==>
                    || (&& old(open) && (old(finPending) || (old(mbox) != [] && (old(mbox)[0].Fin? || old(mbox)[0] == Fault(Closed))))
                        && (old(alive) || old(pendingErr).Closed?))
                    || (fetch && old(mbox) == [] && old(pendingErr).Closed?)))
    {
      hide Wf, Counted, Sized, Linked, Bytes, Stream, Totals, Conserved, HeadsOk, Available, Peekable, Heads;
      SomethingAvailable(pool.mem, pool.chains, pool.held, lastdata, mbox, open && !finPending);
      var err;
      err, out := ReadLoop(len, peek, dontwait);
      if open { NextBytes(posted, old(returned), out, returned, pool.mem, pool.chains, lastdata, mbox, peek); }
      if !err.Fine? {
        return (if err.Closed? then 0 else -1), out;
      }
      if |out| > 0 && !peek {
        var _ := DoRecv(|out|);
      }
      n := |out|;
    }
  }

  lemma FetchHeads(mem: Mem, chains: Chains, held: map<nat, nat>, ms: seq<Msg>)
    requires ms != [] && HeadsOk(mem, chains, held, Heads(NULL, ms))
    ensures Heads(NULL, ms) == Heads(if ms[0].Data? then ms[0].p else NULL, ms[1..])
    ensures ms[0].Data? ==> ms[0].p != NULL
  {
    hide Bytes, Owned;
    assert Heads(NULL, ms) == Pointers(ms);
    if ms[0].Data? { assert ms[0].p in Pointers(ms); }
  }

  lemma NoHeads(mem: Mem, chains: Chains, held: map<nat, nat>)
    ensures HeadsOk(mem, chains, held, Heads(NULL, []))
  {
  }

  /** Pbufs with one reference are removed without a trace. */
  lemma CleanPops(mem: Mem, c: seq<nat>, k: nat)
    requires Single(mem, c) && k <= |c|
    ensures AllPopCleanly(mem, c[..k])
  {
  }

  lemma SuffixNonempty(mem: Mem, chains: Chains, mem': Mem, chains': Chains, p: nat, r: nat, n: nat)
    requires n < |Bytes(mem, chains, p)| && Bytes(mem', chains', r) == Suffix(Bytes(mem, chains, p), n)
    requires NULL !in mem'
    ensures r != NULL && Bytes(mem', chains', r) == Bytes(mem, chains, p)[n..]
  {
  }

  lemma RestHeads(mem: Mem, chains: Chains, held: map<nat, nat>, c: seq<nat>, k: nat, r: nat, rest: seq<nat>)
    requires HeadsOk(mem, chains, held, rest) && HeadOk(mem, chains, held, r) && k < |c| && r == c[k]
    requires forall y :: y in rest ==> y !in c
    ensures HeadsOk(mem, chains, held, [r] + rest)
  {
    hide HeadOk;
    assert r in c;
  }

  lemma SliceFront(s: seq<byte>, n: nat)
    requires n <= |s|
    ensures Slice(s, 0, n) == s[..n] && (n == |s| ==> s[..n] == s)
  {
  }

  /** What a read gives comes next in the stream. */
  lemma NextBytes(posted: seq<byte>, before: seq<byte>, out: seq<byte>, returned: seq<byte>, mem: Mem, chains: Chains,
                  last: nat, mbox: seq<Msg>, peek: bool)
    requires Conserved(posted, returned, mem, chains, Heads(last, mbox))
    requires if peek && out != [] then returned == before && last != NULL && out <= Bytes(mem, chains, last)
             else returned == if peek then before else before + out
    ensures |before| <= |posted| && out <= posted[|before|..]
  {
    hide Bytes, Stream;
    var s := Stream(mem, chains, Heads(last, mbox));
    if peek && out != [] {
      StreamCons(mem, chains, last, Pointers(mbox));
      assert posted[|before|..] == s;
    } else if !peek {
      assert posted[|before|..] == out + s;
    }
  }
}
