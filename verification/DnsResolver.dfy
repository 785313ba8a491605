/** The DNS resolver as the code runs it (lwip/src/core/dns.c): the tables are changed in place,
    and every function is proved to do to them what its counterpart on values does. */
module DnsResolver {
  import opened MachineInts
  import opened DnsName
  import opened DnsTable
  import opened DnsInvariants
  import opened DnsMessage
  import P = DnsProgress

  // ----------------------------------------------------------- transaction ids

  /** The transaction ids of the outstanding entries. */
  function UsedIds(table: seq<Entry>): set<nat> {
    if table == [] then {} else
      var e := table[|table| - 1];
      UsedIds(table[..|table| - 1]) + if e.state.Asking? then {e.txid} else {}
  }

  lemma {:induction false} UsedIdsAre(table: seq<Entry>, txid: nat)
    ensures txid in UsedIds(table) <==> exists j :: 0 <= j < |table| && table[j].state.Asking? && table[j].txid == txid
  {
    if table != [] {
      var n := |table| - 1;
      UsedIdsAre(table[..n], txid);
      if txid in UsedIds(table[..n]) {
        var j :| 0 <= j < n && table[..n][j].state.Asking? && table[..n][j].txid == txid;
        assert table[j].state.Asking? && table[j].txid == txid;
      }
    }
  }

  lemma {:induction false} FewUsedIds(table: seq<Entry>)
    ensures |UsedIds(table)| <= |table|
    ensures (exists i :: 0 <= i < |table| && !table[i].state.Asking?) ==> |UsedIds(table)| < |table|
  {
    if table != [] {
      var n := |table| - 1;
      FewUsedIds(table[..n]);
      if i :| 0 <= i < |table| && !table[i].state.Asking? {
        if i < n { assert !table[..n][i].state.Asking?; }
      }
    }
  }

  ghost predicate DrawsBeyond(gen: nat -> nat, start: nat, used: set<nat>) {
    exists k :: start <= k && gen(k) !in used
  }

  /** The generator gets past any ids that fewer than `n` entries can use. */
  ghost predicate Fair(gen: nat -> nat, n: nat) {
    forall start, used :: |used| < n ==> DrawsBeyond(gen, start, used)
  }

  /** The generator that counts: `++dns_txid`, a `u16_t`. */
  function Counter(k: nat): nat { k % 0x10000 }

  lemma {:induction false} CounterDistinct(start: nat, m: nat) returns (s: set<nat>)
    requires m <= 0x10000
    ensures |s| == m && forall x :: x in s ==> exists k :: start <= k < start + m && Counter(k) == x
  {
    if m == 0 {
      s := {};
    } else {
      var s1 := CounterDistinct(start, m - 1);
      var x := Counter(start + m - 1);
      if x in s1 {
        var k :| start <= k < start + m - 1 && Counter(k) == x;
        assert false by { SameCounter(k, start + m - 1); }
      }
      s := s1 + {x};
      assert Counter(start + m - 1) == x;
    }
  }

  lemma SameCounter(a: nat, b: nat)
    requires a < b && Counter(a) == Counter(b)
    ensures b - a >= 0x10000
  {
  }

  /** It draws a free id at the latest with as many draws as the table has entries. */
  lemma CounterEnds(start: nat, n: nat, used: set<nat>)
    requires |used| < n <= 0x10000
    ensures exists k :: start <= k < start + n && Counter(k) !in used
  {
    var s := CounterDistinct(start, n);
    if s <= used { Smaller(s, used); }
    var x :| x in s && x !in used;
    var k :| start <= k < start + n && Counter(k) == x;
  }

  /** With the counting generator, `dns_create_txid` takes at most as many draws as there are
      entries: `end - start` draws of which all but the last were taken. */
  lemma CountingDraws(table: seq<Entry>, start: nat, end: nat)
    requires start < end && |table| <= 0x10000 && exists i :: 0 <= i < |table| && !table[i].state.Asking?
    requires forall k :: start <= k < end - 1 ==> Counter(k) in UsedIds(table)
    ensures end - start <= |table|
  {
    hide UsedIds;
    FewUsedIds(table);
    if end - start > |table| { CounterEnds(start, |table|, UsedIds(table)); }
  }

  lemma Smaller(a: set<nat>, b: set<nat>)
    requires a <= b
    ensures |a| <= |b|
  {
    assert b == a + (b - a);
  }

  lemma CounterFair(n: nat)
    requires n <= 0x10000
    ensures Fair(Counter, n)
  {
    forall start: nat, used: set<nat> | |used| < n ensures DrawsBeyond(Counter, start, used) {
      CounterEnds(start, n, used);
    }
  }

  // --------------------------------------------------------------- loop by loop

  /** The requests while `dns_call_found` has come as far as slot `r`. */
  lemma ServedStep(reqs: seq<Request>, i: nat, name: seq<byte>, answer: Answer, r: nat)
    requires r < |reqs|
    ensures var q := reqs[r];
            && Served(reqs[..r + 1], i) == Served(reqs[..r], i) + [Flushed(q, i)]
            && Calls(reqs[..r + 1], i, name, answer) == Calls(reqs[..r], i, name, answer) +
               (if q.found.Callback? && q.entry == i then [Call(q.found.id, name, answer)] else [])
  {
    assert reqs[..r + 1][..r] == reqs[..r];
  }

  class Resolver {
    const gen: nat -> nat
    var drawn: nat
    var table: seq<Entry>
    var requests: seq<Request>
    var pcbs: seq<bool>
    var seqno: byte
    var lastPcb: nat
    var servers: seq<nat>
    ghost var log: seq<Call>

    ghost function View(): Dns
      reads this
    {
      Dns(table, requests, pcbs, seqno, lastPcb, servers, log)
    }

    /** The generator of transaction ids gets past those that the table can hold. */
    ghost predicate Valid()
      reads this
    {
      Inv(View()) && Fair(gen, |table|)
    }

    constructor (gen: nat -> nat, entries: nat, ports: nat, servers: seq<nat>)
      requires |servers| > 0 && Fair(gen, entries)
      ensures Valid() && P.Initial(View()) && |table| == entries && |pcbs| == ports && this.servers == servers
    {
      this.gen := gen;
      drawn, seqno, lastPcb, log := 0, 0, 0, [];
      table := seq(entries, _ => Entry(Unused, 0, 0, 0, 0, 0, 0, 0, [], Ipv4));
      requests := seq(entries, _ => Request(NoCallback, 0));
      pcbs := seq(ports, _ => false);
      this.servers := servers;
      new;
      P.InitialInv(View());
    }

    /** `dns_call_found`. */
    method CallFound(i: nat, answer: Answer)
      requires i < |table| == |requests|
      modifies this`table, this`requests, this`pcbs, this`log
      ensures View() == DnsTable.CallFound(old(View()), i, answer)
    {
      hide DnsTable.Served, DnsTable.Calls;
      var name := table[i].name;
      if answer.Address? {
        table := table[i := table[i].(addrType := if |answer.bytes| == 16 then Ipv6 else Ipv4)];
      }
      TellRequests(i, name, answer);
      var none := |pcbs|;
      var j := 0;
      var p := table[i].pcb;
      while j < |requests|
        invariant j <= |requests|
        invariant forall k :: 0 <= k < j && k != i && table[k].state.Asking? ==> table[k].pcb != p
      {
        if j != i && table[j].state.Asking? && table[j].pcb == p {
          table := table[i := table[i].(pcb := none)];
          break;
        }
        j := j + 1;
      }
      SharedIs(old(table), table, i, p, j < |requests|);
      if table[i].pcb < none {
        pcbs := pcbs[table[i].pcb := false];
        table := table[i := table[i].(pcb := none)];
      }
    }

    /** The loop that calls the callbacks. */
    method TellRequests(i: nat, name: seq<byte>, answer: Answer)
      modifies this`requests, this`log
      ensures requests == Served(old(requests), i) && log == old(log) + Calls(old(requests), i, name, answer)
    {
      hide Served, Calls;
      ghost var reqs := requests;
      var r := 0;
      NoneServed(i, name, answer);
      while r < |requests|
        invariant r <= |requests| == |reqs| && requests[r..] == reqs[r..]
        invariant requests[..r] == Served(reqs[..r], i) && log == old(log) + Calls(reqs[..r], i, name, answer)
      {
        ServedStep(reqs, i, name, answer, r);
        assert requests[r] == requests[r..][0] == reqs[r];
        if requests[r].found.Callback? && requests[r].entry == i {
          log := log + [Call(requests[r].found.id, name, answer)];
          requests := requests[r := requests[r].(found := NoCallback)];
        }
        r := r + 1;
      }
      assert reqs[..r] == reqs && requests[..r] == requests;
    }

    /** The loop that looks for an outstanding entry with this id. */
    method Taken(txid: nat) returns (taken: bool)
      ensures taken <==> txid in UsedIds(table)
      ensures !taken ==> FreeTxid(table, txid)
    {
      hide UsedIds;
      UsedIdsAre(table, txid);
      for i := 0 to |table|
        invariant forall j :: 0 <= j < i && table[j].state.Asking? ==> table[j].txid != txid
      {
        if table[i].state.Asking? && table[i].txid == txid { return true; }
      }
      return false;
    }

    /** `dns_create_txid`: the first draw that no outstanding entry uses. */
    method CreateTxid() returns (txid: nat)
      requires Fair(gen, |table|) && exists i :: 0 <= i < |table| && !table[i].state.Asking?
      modifies this`drawn
      ensures FreeTxid(table, txid) && old(drawn) < drawn && gen(drawn - 1) == txid
      ensures forall k :: old(drawn) <= k < drawn - 1 ==> gen(k) in UsedIds(table)
    {
      hide UsedIds, FreeTxid;
      FewUsedIds(table);
      assert DrawsBeyond(gen, drawn, UsedIds(table));
      ghost var last: nat :| drawn <= last && gen(last) !in UsedIds(table);
      while true
        invariant old(drawn) <= drawn <= last
        invariant forall k :: old(drawn) <= k < drawn ==> gen(k) in UsedIds(table)
        decreases last - drawn
      {
        txid := gen(drawn);
        drawn := drawn + 1;
        var taken := Taken(txid);
        if !taken { return; }
      }
    }

    method FindClosed() returns (i: nat)
      ensures i == FirstClosed(pcbs, 0)
    {
      i := 0;
      while i < |pcbs| && pcbs[i]
        invariant i <= |pcbs| && FirstClosed(pcbs, i) == FirstClosed(pcbs, 0)
      {
        i := i + 1;
      }
    }

    /** The loop that looks for an open source port behind the last one used. */
    method FindOpen() returns (idx: nat)
      ensures idx == NextOpen(pcbs, lastPcb + 1, |pcbs|)
    {
      var n: nat := 0;
      idx := lastPcb + 1;
      while n < |pcbs|
        invariant n <= |pcbs| && NextOpen(pcbs, idx, |pcbs| - n) == NextOpen(pcbs, lastPcb + 1, |pcbs|)
      {
        if idx >= |pcbs| { idx := 0; }
        if pcbs[idx] { return; }
        n, idx := n + 1, idx + 1;
      }
      return |pcbs|;
    }

    /** `dns_alloc_pcb`; `ports` is the number of draws that finding a new port takes. */
    method AllocPcb(bound: bool, ports: nat) returns (p: nat)
      modifies this`pcbs, this`lastPcb, this`drawn
      ensures (pcbs, lastPcb, p) == DnsTable.AllocPcb(old(pcbs), old(lastPcb), bound)
    {
      hide FirstClosed, NextOpen;
      p := FindClosed();
      if p < |pcbs| {
        drawn := drawn + ports;
        if bound {
          pcbs := pcbs[p := true];
          lastPcb := p;
          return;
        }
      }
      p := FindOpen();
      if p < |pcbs| { lastPcb := p; }
    }

    /** `dns_send`, as far as it touches the tables. */
    method Send(i: nat)
      requires i < |table| == |requests|
      modifies this`table, this`requests, this`pcbs, this`log
      ensures View() == DnsTable.Send(old(View()), i)
    {
      hide DnsTable.CallFound;
      if ServerAt(servers, table[i].server) == 0 {
        CallFound(i, NoAddress);
        table := table[i := table[i].(state := Unused)];
      }
    }

    /** `dns_check_entry`. */
    method CheckEntry(i: nat) returns (ghost txid: nat)
      requires i < |table| == |requests| && Fair(gen, |table|)
      modifies this
      ensures View() == DnsTable.CheckEntry(old(View()), i, txid)
      ensures old(table)[i].state.New? ==> FreeTxid(old(table), txid)
    {
      hide DnsTable.CallFound, DnsTable.Send;
      var e := table[i];
      txid := 0;
      match e.state {
        case New =>
          var id := CreateTxid();
          txid := id;
          table := table[i := e.(txid := id, state := Asking, server := 0, tmr := 1, retries := 0)];
          Send(i);
        case Asking =>
          CheckAsking(i);
        case Done =>
          if e.ttl <= 1 {
            table := table[i := e.(ttl := 0, state := Unused)];
          } else {
            table := table[i := e.(ttl := e.ttl - 1)];
          }
        case Unused =>
      }
    }

    method CheckAsking(i: nat)
      requires i < |table| == |requests|
      modifies this`table, this`requests, this`pcbs, this`log
      ensures View() == DnsTable.CheckAsking(old(View()), i)
    {
      hide DnsTable.CallFound, DnsTable.Send;
      var e := table[i].(tmr := (table[i].tmr + 255) % 256);
      if e.tmr > 0 {
        table := table[i := e];
        return;
      }
      e := e.(retries := (e.retries + 1) % 256);
      if e.retries == MAX_RETRIES {
        if ServerAt(servers, e.server + 1) != 0 {
          table := table[i := e.(server := e.server + 1, tmr := 1, retries := 0)];
        } else {
          table := table[i := e];
          CallFound(i, NoAddress);
          table := table[i := table[i].(state := Unused)];
          return;
        }
      } else {
        table := table[i := e.(tmr := e.retries)];
      }
      Send(i);
    }

    /** `dns_tmr`. */
    method Tmr()
      requires Valid()
      modifies this
      ensures Valid() && View() == P.Do(old(View()), P.Tick)
    {
      hide DnsTable.CheckEntry, InvBut, Fair;
      ghost var d := View();
      for i := 0 to |table|
        invariant |table| == |d.table| && View() == Ticked(d, i) && Valid()
      {
        Sizes(View());
        NoNew(View(), i);
        CheckEntryKeeps(View(), i, 0);
        ghost var before := View();
        ghost var txid := CheckEntry(i);
        TxidUnused(before, i, txid);
      }
    }

    /** `dns_correct_response`. */
    method CorrectResponse(i: nat, bytes: seq<byte>, ttl: nat)
      requires i < |table| == |requests|
      modifies this`table, this`requests, this`pcbs, this`log
      ensures View() == DnsTable.CorrectResponse(old(View()), i, bytes, ttl)
    {
      hide DnsTable.CallFound;
      var t := if ttl > MAX_TTL then MAX_TTL else ttl;
      table := table[i := table[i].(state := Done, ttl := t)];
      CallFound(i, Address(bytes));
      if t == 0 {
        table := table[i := table[i].(state := Unused)];
      }
    }

    /** The part of `dns_recv` that acts on what the message says. */
    method Act(i: nat, reply: Reply) returns (ghost txid: nat)
      requires i < |table| == |requests| && Fair(gen, |table|) && table[i].state.Asking?
      modifies this
      ensures View() == Received(old(View()), i, reply, txid) && OwnTxid(old(table), i, txid)
    {
      hide DnsTable.CallFound, DnsTable.CheckEntry, DnsTable.CorrectResponse, Fair;
      var e := table[i];
      txid := OtherId(table, i);
      match reply {
        case Ignored =>
        case Failure =>
          if ServerAt(servers, e.server + 1) != 0 {
            table := table[i := e.(retries := MAX_RETRIES - 1, tmr := 1)];
            ghost var d := View();
            ghost var id := CheckEntry(i);
            TxidUnused(d, i, id);
            TxidUnused(d, i, txid);
          } else {
            CallFound(i, NoAddress);
            table := table[i := table[i].(state := Unused)];
          }
        case Found(bytes, ttl) => CorrectResponse(i, bytes, ttl);
        case Nothing =>
          if e.addrType.Ipv4Ipv6? || e.addrType.Ipv6Ipv4? {
            table := table[i := e.(addrType := if e.addrType.Ipv4Ipv6? then Ipv6 else Ipv4, state := New)];
            ghost var before := table;
            txid := CheckEntry(i);
            OwnOf(old(table), before, i, txid);
          } else {
            CallFound(i, NoAddress);
            table := table[i := table[i].(state := Unused)];
          }
      }
    }

    /** `dns_recv`. */
    method Recv(msg: seq<byte>, sender: nat, behind: nat -> byte) returns (ghost txid: nat)
      requires Valid() && |msg| <= 0xFFFF
      modifies this
      ensures Valid() && P.Possible(old(View()), P.Message(msg, sender, txid, behind))
      ensures View() == P.Do(old(View()), P.Message(msg, sender, txid, behind))
    {
      hide InvBut, Received, U16, Fair;
      Sizes(View());
      ghost var d := View();
      txid := OtherId(table, |table|);
      if |msg| < HEADER + QUERY { return; }
      var id := U16(msg, 0);
      var i := 0;
      while i < |table| && !(table[i].state.Asking? && table[i].txid == id)
        invariant i <= |table| && P.Target(table, id, i) == P.Target(table, id, 0)
      {
        i := i + 1;
      }
      if i == |table| { return; }
      var reply := ReadReply(msg, table[i], sender == ServerAt(servers, table[i].server), behind);
      txid := Act(i, reply);
      ReceivedKeeps(d, i, reply, txid);
      ReceivedSize(d, i, reply, txid);
    }

    /** `dns_setserver`. */
    method SetServer(n: nat, address: nat)
      requires Valid()
      modifies this`servers
      ensures Valid() && View() == P.Do(old(View()), P.SetServer(n, address))
    {
      hide InvBut, Fair;
      if n < |servers| {
        ServerKeeps(View(), n, address);
        servers := servers[n := address];
      }
    }

    /** The loops that look for the same question and for a place among the requests. */
    method FindDuplicate(name: seq<byte>, t: AddrType) returns (i: nat, r: nat)
      ensures var dup, f := Duplicate(table, name, t, 0), FreeRequest(requests, 0);
              if dup < |table| && f < |requests| then i == dup && r == f else i == |table|
    {
      hide SameQuestion;
      i, r := 0, 0;
      while i < |table|
        invariant i <= |table|
        invariant Duplicate(table, name, t, i) == Duplicate(table, name, t, 0) || FreeRequest(requests, 0) == |requests|
      {
        var same := Asked(table[i], name, t);
        if same {
          r := FindRequest();
          if r < |requests| { return; }
        }
        i := i + 1;
      }
    }

    method FindRequest() returns (r: nat)
      ensures r == FreeRequest(requests, 0)
    {
      r := 0;
      while r < |requests| && requests[r].found.Callback?
        invariant r <= |requests| && FreeRequest(requests, r) == FreeRequest(requests, 0)
      {
        r := r + 1;
      }
    }

    /** The search for an unused entry or the oldest answered one. */
    method FindEntry() returns (i: nat)
      ensures i == Pick(table, seqno)
    {
      var lseq: byte, lseqi: nat := 0, |table|;
      i := 0;
      while i < |table|
        invariant i <= |table| && (lseqi, lseq) == Oldest(table, seqno, i)
        invariant FirstUnused(table, i) == FirstUnused(table, 0)
      {
        if table[i].state.Unused? { return; }
        if table[i].state.Done? {
          var age := Age(seqno, table[i]);
          if age > lseq {
            lseq, lseqi := age, i;
          }
        }
        i := i + 1;
      }
      i := lseqi;
    }

    /** `dns_enqueue`. */
    method Enqueue(name: seq<byte>, found: Found, t: AddrType, bound: bool, ports: nat)
        returns (err: DnsTable.Err, ghost txid: nat)
      requires Valid()
      modifies this
      ensures Valid() && P.Possible(old(View()), P.Ask(name, found, t, bound, txid))
      ensures (View(), err) == DnsTable.Enqueue(old(View()), name, found, t, bound, txid)
    {
      hide InvBut, Fair, DnsTable.CheckEntry, Pick, DnsTable.AllocPcb, Duplicate;
      ghost var d := View();
      Sizes(d);
      txid := OtherId(table, |table|);
      var i, r := FindDuplicate(name, t);
      if i < |table| {
        requests := requests[r := Request(found, i)];
        err := InProgress;
      } else {
        err, txid := Fill(name, found, t, bound, ports, txid);
      }
      EnqueueKeeps(d, name, found, t, bound, txid);
      P.EnqueueSizes(d, name, found, t, bound, txid);
    }

    /** The rest of `dns_enqueue`, for a question that is new. */
    method Fill(name: seq<byte>, found: Found, t: AddrType, bound: bool, ports: nat, ghost id: nat)
        returns (err: DnsTable.Err, ghost txid: nat)
      requires |requests| == |table| && Fair(gen, |table|) && FreeTxid(table, id)
      requires !(Duplicate(table, name, t, 0) < |table| && FreeRequest(requests, 0) < |requests|)
      modifies this
      ensures (View(), err) == DnsTable.Enqueue(old(View()), name, found, t, bound, txid) && FreeTxid(old(table), txid)
    {
      hide Fair, DnsTable.CheckEntry, Pick, DnsTable.AllocPcb, Duplicate, DnsTable.Enqueue, FreeRequest;
      ghost var d := View();
      NewQuestion(d, name, found, t, bound, id);
      txid := id;
      var i := FindEntry();
      if i == |table| { return Mem, id; }
      var r := FindRequest();
      if r == |requests| { return Mem, id; }
      var p := AllocPcb(bound, ports);
      var n := if |name| < 255 then name else name[..255];
      var e := table[i].(state := New, seqno := seqno, addrType := t, name := n, pcb := p);
      if p >= |pcbs| {
        table := table[i := e.(state := Unused)];
        requests := requests[r := Request(NoCallback, i)];
        return Mem, id;
      }
      table := table[i := e];
      requests := requests[r := Request(found, i)];
      seqno := (seqno + 1) % 256;
      ghost var before := table;
      txid := CheckEntry(i);
      FreeBefore(old(table), before, i, txid);
      NewQuestion(d, name, found, t, bound, txid);
      err := InProgress;
    }
  }

  lemma NoneServed(i: nat, name: seq<byte>, answer: Answer)
    ensures Served([], i) == [] && Calls([], i, name, answer) == []
  {
  }

  lemma SharedIs(before: seq<Entry>, after: seq<Entry>, i: nat, p: nat, shared: bool)
    requires i < |before| == |after|
    requires forall j :: 0 <= j < |before| && j != i ==> after[j] == before[j]
    requires if shared then exists j :: 0 <= j < |after| && j != i && after[j].state.Asking? && after[j].pcb == p
             else forall j :: 0 <= j < |after| && j != i && after[j].state.Asking? ==> after[j].pcb != p
    ensures Shared(before, i, p) == shared
  {
  }

  lemma Sizes(d: Dns)
    requires Inv(d)
    ensures |d.requests| == |d.table|
  {
  }

  lemma NoNew(d: Dns, i: nat)
    requires Inv(d) && i < |d.table|
    ensures !d.table[i].state.New?
  {
  }

  /** Only a new entry is given a transaction id. */
  lemma TxidUnused(d: Dns, i: nat, txid: nat)
    requires i < |d.table| && !d.table[i].state.New?
    ensures DnsTable.CheckEntry(d, i, txid) == DnsTable.CheckEntry(d, i, 0)
  {
  }

  /** Some transaction id that no other entry uses; it stands for the draw that is not made. */
  ghost function OtherId(table: seq<Entry>, i: nat): (id: nat)
    ensures OwnTxid(table, i, id)
  {
    OtherIdAbove(table)
  }

  /** An id above all those in the table. */
  ghost function OtherIdAbove(table: seq<Entry>): (id: nat)
    ensures forall j :: 0 <= j < |table| ==> table[j].txid < id
  {
    if table == [] then 0 else
      var n := |table| - 1;
      var id := OtherIdAbove(table[..n]);
      assert forall j :: 0 <= j < n ==> table[..n][j].txid < id;
      if table[n].txid >= id then table[n].txid + 1 else id
  }

  lemma OwnOf(before: seq<Entry>, after: seq<Entry>, i: nat, txid: nat)
    requires |before| == |after| && (forall j :: 0 <= j < |before| && j != i ==> after[j] == before[j])
    requires FreeTxid(after, txid)
    ensures OwnTxid(before, i, txid)
  {
  }

  lemma ReceivedSize(d: Dns, i: nat, reply: Reply, txid: nat)
    requires Inv(d) && i < |d.table| && d.table[i].state.Asking?
    ensures |Received(d, i, reply, txid).table| == |d.table|
  {
    hide Received, InvBut;
    P.ReceivedAdvances(d, i, reply, txid);
  }

  lemma FreeBefore(before: seq<Entry>, after: seq<Entry>, i: nat, txid: nat)
    requires i < |before| == |after| && !before[i].state.Asking?
    requires forall j :: 0 <= j < |before| && j != i ==> after[j] == before[j]
    requires FreeTxid(after, txid)
    ensures FreeTxid(before, txid)
  {
  }

  /** `lwip_strnicmp` and the rest of the test for the same question. */
  method Asked(e: Entry, name: seq<byte>, t: AddrType) returns (same: bool)
    ensures same <==> SameQuestion(e, name, t)
  {
    if !e.state.Asking? || |name| != |e.name| { return false; }
    for i := 0 to |name|
      invariant forall k :: 0 <= k < i ==> Lower(name[k]) == Lower(e.name[k])
    {
      if Lower(name[i]) != Lower(e.name[i]) { return false; }
    }
    return e.addrType == t;
  }

  /** The three ways in which a question that nobody asked yet ends. */
  lemma NewQuestion(d: Dns, name: seq<byte>, found: Found, t: AddrType, bound: bool, txid: nat)
    requires !(Duplicate(d.table, name, t, 0) < |d.table| && FreeRequest(d.requests, 0) < |d.requests|)
    ensures Pick(d.table, d.seqno) <= |d.table| && FreeRequest(d.requests, 0) <= |d.requests|
    ensures var i, f, r := Pick(d.table, d.seqno), FreeRequest(d.requests, 0), DnsTable.Enqueue(d, name, found, t, bound, txid);
            var (pcbs, last, p) := DnsTable.AllocPcb(d.pcbs, d.lastPcb, bound);
            var n := if |name| < 255 then name else name[..255];
            if i == |d.table| || f == |d.requests| then r == (d, Mem) else
              && !d.table[i].state.Asking?
              && var e := d.table[i].(state := New, seqno := d.seqno, addrType := t, name := n, pcb := p);
              && var d' := d.(pcbs := pcbs, lastPcb := last);
              if p == |pcbs| then
                r == (SetEntry(d'.(requests := d.requests[f := Request(NoCallback, i)]), i, e.(state := Unused)), Mem)
              else
                r == (DnsTable.CheckEntry(SetEntry(d'.(requests := d.requests[f := Request(found, i)],
                                                       seqno := (d.seqno + 1) % 256), i, e), i, txid), InProgress)
  {
    hide DnsTable.CheckEntry, DnsTable.AllocPcb, Duplicate;
  }
}
