/** Every request that the resolver accepts is called back exactly once, within a bounded number
    of timer ticks, whatever else happens. */
module DnsProgress {
  import opened MachineInts
  import opened DnsName
  import opened DnsTable
  import opened DnsInvariants
  import opened DnsMessage

  // ----------------------------------------------------------- counting callbacks

  /** How many request slots hold callback `id`. */
  function PendingCount(reqs: seq<Request>, id: nat): nat {
    if reqs == [] then 0 else PendingCount(reqs[..|reqs| - 1], id) + One(reqs[|reqs| - 1].found == Callback(id))
  }

  /** How often callback `id` was called. */
  function LogCount(log: seq<Call>, id: nat): nat {
    if log == [] then 0 else LogCount(log[..|log| - 1], id) + One(log[|log| - 1].id == id)
  }

  function Tally(d: Dns, id: nat): nat { PendingCount(d.requests, id) + LogCount(d.log, id) }

  lemma {:induction false} LogCountAppend(a: seq<Call>, b: seq<Call>, id: nat)
    ensures LogCount(a + b, id) == LogCount(a, id) + LogCount(b, id)
    decreases |b|
  {
    if b == [] {
      assert a + b == a;
    } else {
      assert (a + b)[..|a + b| - 1] == a + b[..|b| - 1];
      LogCountAppend(a, b[..|b| - 1], id);
    }
  }

  /** Calling back moves callbacks from the requests to the log, one for one. */
  lemma {:induction false} ServedCount(reqs: seq<Request>, i: nat, name: seq<byte>, answer: Answer, id: nat)
    ensures PendingCount(reqs, id) == PendingCount(Served(reqs, i), id) + LogCount(Calls(reqs, i, name, answer), id)
  {
    if reqs != [] {
      var init, q := reqs[..|reqs| - 1], reqs[|reqs| - 1];
      ServedCount(init, i, name, answer, id);
      assert Served(reqs, i)[..|reqs| - 1] == Served(init, i);
      var last := if q.found.Callback? && q.entry == i then [Call(q.found.id, name, answer)] else [];
      LogCountAppend(Calls(init, i, name, answer), last, id);
      if last != [] { assert last[..0] == []; }
    }
  }

  lemma {:induction false} UpdateCount(reqs: seq<Request>, f: nat, q: Request, id: nat)
    requires f < |reqs|
    ensures PendingCount(reqs[f := q], id) + One(reqs[f].found == Callback(id)) ==
            PendingCount(reqs, id) + One(q.found == Callback(id))
  {
    var n := |reqs| - 1;
    if f < n {
      UpdateCount(reqs[..n], f, q, id);
      assert reqs[f := q][..n] == reqs[..n][f := q];
    } else {
      assert reqs[f := q][..n] == reqs[..n];
    }
  }

  // ------------------------------------------------------------------ one entry

  /** The ticks that an outstanding entry can last: those of the present try, of the tries after
      it, of the servers after this one, and of the other address family. */
  function Rank(servers: nat, e: Entry): nat {
    e.tmr + (if e.retries == 0 then 6 else if e.retries == 1 then 5 else if e.retries == 2 then 3 else 0)
    + (if e.server < servers then 7 * (servers - 1 - e.server) else 0)
    + (if HasFallback(e.addrType) then 7 * servers else 0)
  }

  lemma RankBound(d: Dns, e: Entry)
    requires EntryOk(d, e) && e.state.Asking?
    ensures 1 <= Rank(|d.servers|, e) <= 14 * |d.servers|
  {
  }

  /** An operation on entry `i`: either the entry goes on, `drop` ticks nearer to its end, or all
      its callbacks are called. */
  ghost predicate Advances(d: Dns, d': Dns, i: nat, drop: nat) {
    && i < |d.table| == |d'.table| && d'.servers == d.servers
    && (forall j :: 0 <= j < |d.table| && j != i ==> d'.table[j] == d.table[j])
    && ((&& d'.requests == d.requests && d'.log == d.log
         && (d.table[i].state.Asking? ==>
               d'.table[i].state.Asking? && Rank(|d.servers|, d'.table[i]) + drop <= Rank(|d.servers|, d.table[i])))
        || exists name, answer :: CalledBack(d, d', i, name, answer))
  }

  ghost predicate CalledBack(d: Dns, d': Dns, i: nat, name: seq<byte>, answer: Answer) {
    d'.requests == Served(d.requests, i) && d'.log == d.log + Calls(d.requests, i, name, answer)
  }

  lemma AdvancesTally(d: Dns, d': Dns, i: nat, drop: nat, id: nat)
    requires Advances(d, d', i, drop)
    ensures Tally(d', id) == Tally(d, id)
  {
    hide PendingCount, LogCount, Served, Calls, Rank;
    if d'.requests != d.requests || d'.log != d.log {
      var name, answer :| CalledBack(d, d', i, name, answer);
      ServedCount(d.requests, i, name, answer, id);
      LogCountAppend(d.log, Calls(d.requests, i, name, answer), id);
    }
  }

  lemma AbandonAdvances(d: Dns, i: nat, e: Entry, drop: nat)
    requires i < |d.table|
    ensures Advances(d, Abandon(SetEntry(d, i, e), i), i, drop)
  {
    hide Served, Calls, Shared, Rank;
    assert CalledBack(d, Abandon(SetEntry(d, i, e), i), i, e.name, NoAddress);
  }

  lemma SendAdvances(d: Dns, i: nat, e: Entry, drop: nat)
    requires i < |d.table| && e.state.Asking?
    requires d.table[i].state.Asking? ==> Rank(|d.servers|, e) + drop <= Rank(|d.servers|, d.table[i])
    ensures Advances(d, Send(SetEntry(d, i, e), i), i, drop)
  {
    hide Abandon, Rank;
    AbandonAdvances(d, i, e, drop);
  }

  /** A tick brings an outstanding entry one nearer to its end. */
  lemma CheckAskingAdvances(d: Dns, i: nat)
    requires i < |d.table| && d.table[i].state.Asking? && EntryOk(d, d.table[i])
    ensures Advances(d, CheckAsking(d, i), i, 1)
  {
    hide Abandon, Send;
    var e := d.table[i].(tmr := (d.table[i].tmr + 255) % 256);
    var e' := e.(retries := (e.retries + 1) % 256);
    if e.tmr > 0 {
    } else if e'.retries != MAX_RETRIES {
      SendAdvances(d, i, e'.(tmr := e'.retries), 1);
    } else if Backup(d, e') {
      SendAdvances(d, i, e'.(server := e'.server + 1, tmr := 1, retries := 0), 1);
    } else {
      AbandonAdvances(d, i, e', 1);
    }
  }

  lemma CheckEntryAdvances(d: Dns, i: nat, txid: nat)
    requires Inv(d) && i < |d.table|
    ensures Advances(d, CheckEntry(d, i, txid), i, 1)
  {
    hide CheckAsking, Rank, Served, Calls;
    if d.table[i].state.Asking? { CheckAskingAdvances(d, i); }
  }

  /** Opening a new question under way. */
  lemma CheckNewAdvances(d: Dns, i: nat, e: Entry, txid: nat)
    requires i < |d.table| && e.state.New? && d.table[i].state.Asking? && EntryOk(d, d.table[i]) && |d.servers| > 0
    requires e.addrType == Fallback(d.table[i].addrType) && HasFallback(d.table[i].addrType)
    ensures Advances(d, CheckEntry(SetEntry(d, i, e), i, txid), i, 1)
  {
    hide Send;
    var e' := e.(txid := txid, state := Asking, server := 0, tmr := 1, retries := 0);
    assert SetEntry(SetEntry(d, i, e), i, e') == SetEntry(d, i, e');
    SendAdvances(d, i, e', 1);
  }

  /** No reply puts off the end. */
  lemma ReceivedAdvances(d: Dns, i: nat, reply: Reply, txid: nat)
    requires Inv(d) && i < |d.table| && d.table[i].state.Asking?
    ensures Advances(d, Received(d, i, reply, txid), i, 0)
  {
    hide Abandon, CheckEntry, CorrectResponse;
    var e := d.table[i];
    assert EntryOk(d, e);
    match reply {
      case Ignored =>
      case Failure =>
        if Backup(d, e) { FailoverAdvances(d, i, txid); } else { SelfSet(d, i); AbandonAdvances(d, i, e, 0); }
      case Found(bytes, ttl) => CorrectAdvances(d, i, bytes, ttl);
      case Nothing =>
        if HasFallback(e.addrType) {
          CheckNewAdvances(d, i, e.(addrType := Fallback(e.addrType), state := New), txid);
          WeakerDrop(d, Received(d, i, reply, txid), i);
        } else {
          SelfSet(d, i);
          AbandonAdvances(d, i, e, 0);
        }
    }
  }

  lemma SelfSet(d: Dns, i: nat)
    requires i < |d.table|
    ensures SetEntry(d, i, d.table[i]) == d
  {
  }

  lemma WeakerDrop(d: Dns, d': Dns, i: nat)
    requires Advances(d, d', i, 1)
    ensures Advances(d, d', i, 0)
  {
  }

  lemma FailoverAdvances(d: Dns, i: nat, txid: nat)
    requires i < |d.table| && d.table[i].state.Asking? && EntryOk(d, d.table[i]) && Backup(d, d.table[i])
    ensures Advances(d, CheckEntry(SetEntry(d, i, d.table[i].(retries := MAX_RETRIES - 1, tmr := 1)), i, txid), i, 0)
  {
    hide Send;
    var e := d.table[i].(retries := MAX_RETRIES - 1, tmr := 1);
    var e' := e.(server := e.server + 1, tmr := 1, retries := 0);
    assert SetEntry(SetEntry(d, i, e), i, e') == SetEntry(d, i, e');
    SendAdvances(d, i, e', 0);
  }

  lemma CorrectAdvances(d: Dns, i: nat, bytes: seq<byte>, ttl: nat)
    requires i < |d.table|
    ensures Advances(d, CorrectResponse(d, i, bytes, ttl), i, 0)
  {
    hide Served, Calls, Shared, Rank;
    assert CalledBack(d, CorrectResponse(d, i, bytes, ttl), i, d.table[i].name, Address(bytes));
  }

  // --------------------------------------------------------------- one request slot

  /** Whoever waits in slot `r` afterwards has waited there before, and is `drop` ticks nearer to
      the end. */
  ghost predicate SlotKept(d: Dns, d': Dns, r: nat, drop: nat) {
    && r < |d.requests| == |d'.requests| && |d'.table| == |d.table| && |d'.servers| == |d.servers|
    && (d'.requests[r].found.Callback? ==>
          var q := d.requests[r];
          && d'.requests[r] == q && q.entry < |d.table| && d'.table[q.entry].state.Asking?
          && Rank(|d.servers|, d'.table[q.entry]) + drop <= Rank(|d.servers|, d.table[q.entry]))
  }

  lemma SlotThen(d: Dns, d1: Dns, d2: Dns, r: nat, a: nat, b: nat)
    requires SlotKept(d, d1, r, a) && SlotKept(d1, d2, r, b)
    ensures SlotKept(d, d2, r, a + b)
  {
    hide Rank;
  }

  lemma AdvancesSlot(d: Dns, d': Dns, i: nat, drop: nat, r: nat)
    requires Inv(d) && Advances(d, d', i, drop) && r < |d.requests|
    ensures SlotKept(d, d', r, if d.requests[r].entry == i then drop else 0)
  {
    hide Served, Calls, Rank;
    var q := d.requests[r];
    assert RequestOk(d, q);
    if exists name, answer :: CalledBack(d, d', i, name, answer) { ServedAt(d.requests, i); }
  }

  lemma {:induction false} TickedSlot(d: Dns, n: nat, r: nat)
    requires Inv(d) && n <= |d.table| && r < |d.requests|
    ensures SlotKept(d, Ticked(d, n), r, if d.requests[r].entry < n then 1 else 0)
  {
    hide CheckEntry, Rank, InvBut, Advances;
    if n == 0 {
      SlotSame(d, r);
    } else {
      var d1 := Ticked(d, n - 1);
      TickedSlot(d, n - 1, r);
      TickedKeeps(d, n - 1);
      CheckEntryAdvances(d1, n - 1, 0);
      AdvancesSlot(d1, Ticked(d, n), n - 1, 1, r);
    }
  }

  lemma SlotSame(d: Dns, r: nat)
    requires Inv(d) && r < |d.requests|
    ensures SlotKept(d, d, r, 0)
  {
    assert RequestOk(d, d.requests[r]);
  }

  lemma {:induction false} TickedTally(d: Dns, n: nat, id: nat)
    requires Inv(d) && n <= |d.table|
    ensures Tally(Ticked(d, n), id) == Tally(d, id)
  {
    hide CheckEntry, Tally, InvBut, Advances;
    if n > 0 {
      TickedTally(d, n - 1, id);
      TickedKeeps(d, n - 1);
      CheckEntryAdvances(Ticked(d, n - 1), n - 1, 0);
      AdvancesTally(Ticked(d, n - 1), Ticked(d, n), n - 1, 1, id);
    }
  }

  // ------------------------------------------------------------------- requests

  /** Filling a free request slot for callback `found` adds it to the count. */
  lemma FillTally(d: Dns, f: nat, q: Request, id: nat)
    requires f < |d.requests| && d.requests[f].found.NoCallback?
    ensures Tally(d.(requests := d.requests[f := q]), id) == Tally(d, id) + One(q.found == Callback(id))
  {
    hide PendingCount, LogCount;
    UpdateCount(d.requests, f, q, id);
  }

  /** The state in which a new question is checked for the first time, and its entry. */
  ghost predicate Queued(d: Dns, d1: Dns, i: nat, f: nat, found: Found) {
    && i < |d.table| == |d1.table| && f < |d.requests| && d.requests[f].found.NoCallback? && !Live(d.table[i])
    && d1.table[i].state.New? && (forall j :: 0 <= j < |d.table| && j != i ==> d1.table[j] == d.table[j])
    && d1.requests == d.requests[f := Request(found, i)] && d1.log == d.log && d1.servers == d.servers
  }

  /** What `dns_enqueue` does to the requests and the log. */
  lemma EnqueueCases(d: Dns, name: seq<byte>, found: Found, t: AddrType, bound: bool, txid: nat)
      returns (kind: nat, d1: Dns, i: nat, f: nat)
    requires Inv(d)
    ensures var (d', err) := Enqueue(d, name, found, t, bound, txid);
            && kind < 3
            && (kind == 0 ==> err.InProgress? && f < |d.requests| && d.requests[f].found.NoCallback?
                              && d' == d.(requests := d.requests[f := Request(found, i)]))
            && (kind == 1 ==> err.InProgress? && Queued(d, d1, i, f, found) && d' == CheckEntry(d1, i, txid))
            && (kind == 2 ==> err.Mem? && Refused(d, d'))
  {
    hide CheckEntry, EntryOk, AllocPcb, Pick, Duplicate, InvBut;
    var dup := Duplicate(d.table, name, t, 0);
    f, i, d1, kind := FreeRequest(d.requests, 0), dup, d, 0;
    if dup == |d.table| || f == |d.requests| {
      i := Pick(d.table, d.seqno);
      kind := 2;
      if i < |d.table| && f < |d.requests| {
        var (pcbs, last, p) := AllocPcb(d.pcbs, d.lastPcb, bound);
        var n := if |name| < 255 then name else name[..255];
        var e := d.table[i].(state := New, seqno := d.seqno, addrType := t, name := n, pcb := p);
        if p != |pcbs| {
          kind := 1;
          d1 := SetEntry(d.(pcbs := pcbs, lastPcb := last, requests := d.requests[f := Request(found, i)],
                            seqno := (d.seqno + 1) % 256), i, e);
        }
      }
    }
  }

  /** A request that is turned away leaves all other requests and their entries alone. */
  ghost predicate Refused(d: Dns, d': Dns) {
    && |d'.requests| == |d.requests| && d'.log == d.log && |d'.table| == |d.table| && d'.servers == d.servers
    && (forall r :: 0 <= r < |d.requests| ==>
          (d'.requests[r] == d.requests[r] || (d'.requests[r].found.NoCallback? && d.requests[r].found.NoCallback?)))
    && (forall j :: 0 <= j < |d.table| && Live(d.table[j]) ==> d'.table[j] == d.table[j])
  }

  lemma {:induction false} SameFoundCount(a: seq<Request>, b: seq<Request>, id: nat)
    requires |a| == |b| && forall r :: 0 <= r < |a| ==> a[r].found == b[r].found
    ensures PendingCount(a, id) == PendingCount(b, id)
  {
    if a != [] { SameFoundCount(a[..|a| - 1], b[..|a| - 1], id); }
  }

  /** Checking a new question serves nobody or everybody who waits for it. */
  lemma FirstCheckAdvances(d: Dns, i: nat, txid: nat)
    requires i < |d.table| && d.table[i].state.New?
    ensures Advances(d, CheckEntry(d, i, txid), i, 0)
  {
    hide Send;
    SendAdvances(d, i, d.table[i].(txid := txid, state := Asking, server := 0, tmr := 1, retries := 0), 0);
  }

  lemma EnqueueTally(d: Dns, name: seq<byte>, found: Found, t: AddrType, bound: bool, txid: nat, id: nat)
    requires Inv(d)
    ensures var (d', err) := Enqueue(d, name, found, t, bound, txid);
            Tally(d', id) == Tally(d, id) + One(err.InProgress? && found == Callback(id))
  {
    hide CheckEntry, Enqueue, InvBut, PendingCount, LogCount, Advances;
    var d' := Enqueue(d, name, found, t, bound, txid).0;
    var kind, d1, i, f := EnqueueCases(d, name, found, t, bound, txid);
    if kind == 0 {
      FillTally(d, f, Request(found, i), id);
    } else if kind == 1 {
      FillTally(d, f, Request(found, i), id);
      FirstCheckAdvances(d1, i, txid);
      AdvancesTally(d1, d', i, 0, id);
    } else {
      SameFoundCount(d.requests, d'.requests, id);
    }
  }

  /** The one slot that a request may fill; all others are kept. */
  lemma EnqueueSlots(d: Dns, name: seq<byte>, found: Found, t: AddrType, bound: bool, txid: nat) returns (f: nat)
    requires Inv(d)
    ensures var (d', err) := Enqueue(d, name, found, t, bound, txid);
            && |d'.requests| == |d.requests| && (forall r :: 0 <= r < |d.requests| && r != f ==> SlotKept(d, d', r, 0))
            && (f < |d.requests| ==>
                  && d.requests[f].found.NoCallback?
                  && (d'.requests[f].found.Callback? ==> d'.requests[f].found == found && err.InProgress?))
  {
    hide CheckEntry, Enqueue, Rank, Served, Calls;
    var d' := Enqueue(d, name, found, t, bound, txid).0;
    var kind, d1, i;
    kind, d1, i, f := EnqueueCases(d, name, found, t, bound, txid);
    forall r | 0 <= r < |d.requests| ensures RequestOk(d, d.requests[r]) {}
    if kind == 2 {
      f := |d.requests|;
    } else if kind == 1 {
      FirstCheckAdvances(d1, i, txid);
      if d'.requests != d1.requests || d'.log != d1.log {
        var name', answer :| CalledBack(d1, d', i, name', answer);
        ServedAt(d1.requests, i);
      }
    }
  }

  // ------------------------------------------------------------------ whole runs

  /** What happens to the resolver: a request, a message, a tick of the timer, a change of the
      servers. `txid` is what `dns_create_txid` draws if it is called, `bound` whether a new
      source port can be had, `behind` what lies behind a name in memory. */
  datatype Step =
    | Ask(name: seq<byte>, found: Found, t: AddrType, bound: bool, txid: nat)
    | Message(msg: seq<byte>, sender: nat, txid: nat, behind: nat -> byte)
    | Tick
    | SetServer(n: nat, address: nat)

  /** The first outstanding entry from `i` on with this transaction id. */
  function Target(table: seq<Entry>, txid: nat, i: nat): (f: nat)
    requires i <= |table|
    ensures i <= f <= |table| && (f < |table| ==> table[f].state.Asking? && table[f].txid == txid)
    ensures forall k :: i <= k < f && table[k].state.Asking? ==> table[k].txid != txid
    decreases |table| - i
  {
    if i == |table| || (table[i].state.Asking? && table[i].txid == txid) then i else Target(table, txid, i + 1)
  }

  /** `dns_recv`. */
  ghost function Receive(d: Dns, msg: seq<byte>, sender: nat, txid: nat, behind: nat -> byte): Dns {
    if |msg| < HEADER + QUERY then d else
      var i := Target(d.table, U16(msg, 0), 0);
      if i == |d.table| then d else
        var e := d.table[i];
        Received(d, i, ReplyTo(msg, e, sender == ServerAt(d.servers, e.server), behind), txid)
  }

  /** The draws of transaction ids end with one that no other outstanding entry uses. */
  ghost predicate Possible(d: Dns, step: Step) {
    match step
    case Ask(_, _, _, _, txid) => FreeTxid(d.table, txid)
    case Message(msg, _, txid, _) => |msg| >= HEADER + QUERY ==> OwnTxid(d.table, Target(d.table, U16(msg, 0), 0), txid)
    case Tick => true
    case SetServer(n, _) => n < |d.servers|
  }

  ghost function Do(d: Dns, step: Step): Dns {
    match step
    case Ask(name, found, t, bound, txid) => Enqueue(d, name, found, t, bound, txid).0
    case Message(msg, sender, txid, behind) => Receive(d, msg, sender, txid, behind)
    case Tick => Ticked(d, |d.table|)
    case SetServer(n, address) => if n < |d.servers| then d.(servers := d.servers[n := address]) else d
  }

  lemma StepKeepsInv(d: Dns, step: Step)
    requires Inv(d) && Possible(d, step)
    ensures Inv(Do(d, step))
  {
    hide InvBut, Enqueue, Received, Ticked, ReplyTo, U16;
    match step {
      case Ask(name, found, t, bound, txid) => EnqueueKeeps(d, name, found, t, bound, txid);
      case Message(msg, sender, txid, behind) =>
        if |msg| >= HEADER + QUERY {
          var i := Target(d.table, U16(msg, 0), 0);
          if i < |d.table| {
            ReceivedKeeps(d, i, ReplyTo(msg, d.table[i], sender == ServerAt(d.servers, d.table[i].server), behind), txid);
          }
        }
      case Tick => TickedKeeps(d, |d.table|);
      case SetServer(n, address) => ServerKeeps(d, n, address);
    }
  }

  /** Whether a step accepts a request with callback `id`. */
  ghost predicate Accepts(d: Dns, step: Step, id: nat) {
    step.Ask? && step.found == Callback(id) && Enqueue(d, step.name, step.found, step.t, step.bound, step.txid).1.InProgress?
  }

  /** Nothing is called twice or forgotten: a step keeps the number of places where a callback
      is waiting or was called, and adds one if it accepts it. */
  lemma StepTally(d: Dns, step: Step, id: nat)
    requires Inv(d) && Possible(d, step)
    ensures Tally(Do(d, step), id) == Tally(d, id) + One(Accepts(d, step, id))
  {
    hide InvBut, Enqueue, Received, Ticked, ReplyTo, Advances, U16;
    match step {
      case Ask(name, found, t, bound, txid) => EnqueueTally(d, name, found, t, bound, txid, id);
      case Message(msg, sender, txid, behind) =>
        if |msg| >= HEADER + QUERY {
          var i := Target(d.table, U16(msg, 0), 0);
          if i < |d.table| {
            ReceivedAdvances(d, i, ReplyTo(msg, d.table[i], sender == ServerAt(d.servers, d.table[i].server), behind), txid);
            AdvancesTally(d, Do(d, step), i, 0, id);
          }
        }
      case Tick => TickedTally(d, |d.table|, id);
      case SetServer(n, address) =>
    }
  }

  /** A step fills at most one slot, and only a request that is accepted does. */
  lemma StepSlots(d: Dns, step: Step, id: nat) returns (f: nat)
    requires Inv(d) && Possible(d, step)
    ensures |Do(d, step).requests| == |d.requests|
    ensures forall r :: 0 <= r < |d.requests| && r != f ==> SlotKept(d, Do(d, step), r, One(step.Tick?))
    ensures f < |d.requests| ==>
              d.requests[f].found.NoCallback? && (Do(d, step).requests[f].found == Callback(id) ==> Accepts(d, step, id))
  {
    hide InvBut, Enqueue, Received, Ticked, ReplyTo, Advances, U16, SlotKept;
    f := |d.requests|;
    if step.Ask? {
      f := EnqueueSlots(d, step.name, step.found, step.t, step.bound, step.txid);
    } else {
      StepKeepsInv(d, step);
      InvSizes(d);
      forall r | 0 <= r < |d.requests| ensures SlotKept(d, Do(d, step), r, One(step.Tick?)) { StepSlot(d, step, r); }
      if f == 0 { NoSlots(d, step); } else { KeptFound(d, Do(d, step), 0, One(step.Tick?)); }
    }
  }

  lemma InvSizes(d: Dns)
    requires Inv(d)
    ensures |d.requests| == |d.table|
  {
  }

  lemma NoSlots(d: Dns, step: Step)
    requires |d.requests| == |d.table| == 0 && !step.Ask?
    ensures Do(d, step).requests == d.requests
  {
    hide Received, ReplyTo, U16;
  }

  lemma StepSlot(d: Dns, step: Step, r: nat)
    requires Inv(d) && Possible(d, step) && !step.Ask? && r < |d.requests|
    ensures SlotKept(d, Do(d, step), r, One(step.Tick?))
  {
    hide InvBut, Enqueue, Received, Ticked, ReplyTo, Advances, U16, Rank;
    SlotSame(d, r);
    match step {
      case Message(msg, sender, txid, behind) =>
        if |msg| >= HEADER + QUERY {
          var i := Target(d.table, U16(msg, 0), 0);
          if i < |d.table| {
            ReceivedAdvances(d, i, ReplyTo(msg, d.table[i], sender == ServerAt(d.servers, d.table[i].server), behind), txid);
            AdvancesSlot(d, Do(d, step), i, 0, r);
          }
        }
      case Tick =>
        TickedSlot(d, |d.table|, r);
      case SetServer(n, address) =>
    }
  }

  lemma RequestEntry(d: Dns, r: nat)
    requires Inv(d) && r < |d.requests| && d.requests[r].found.Callback?
    ensures d.requests[r].entry < |d.table| && d.table[d.requests[r].entry].state.Asking?
    ensures 1 <= Rank(|d.servers|, d.table[d.requests[r].entry]) <= 14 * |d.servers|
  {
    assert RequestOk(d, d.requests[r]);
    RankBound(d, d.table[d.requests[r].entry]);
  }

  ghost predicate Run(d: Dns, steps: seq<Step>, d': Dns)
    decreases |steps|
  {
    if steps == [] then d' == d else Possible(d, steps[0]) && Run(Do(d, steps[0]), steps[1..], d')
  }

  function Ticks(steps: seq<Step>): nat {
    if steps == [] then 0 else One(steps[0].Tick?) + Ticks(steps[1..])
  }

  /** How many requests with callback `id` a run accepts. */
  ghost function Accepted(d: Dns, steps: seq<Step>, id: nat): nat
    decreases |steps|
  {
    if steps == [] then 0 else One(Accepts(d, steps[0], id)) + Accepted(Do(d, steps[0]), steps[1..], id)
  }

  /** In every reachable state: transaction ids are distinct, a source port is open exactly while
      an outstanding entry uses it, and every request points to an outstanding entry. */
  lemma {:induction false} RunKeepsInv(d: Dns, steps: seq<Step>, d': Dns)
    requires Inv(d) && Run(d, steps, d')
    ensures Inv(d')
    decreases |steps|
  {
    hide Inv, Do, Possible;
    if steps != [] {
      StepKeepsInv(d, steps[0]);
      RunKeepsInv(Do(d, steps[0]), steps[1..], d');
    }
  }

  lemma {:induction false} RunTally(d: Dns, steps: seq<Step>, d': Dns, id: nat)
    requires Inv(d) && Run(d, steps, d')
    ensures Tally(d', id) == Tally(d, id) + Accepted(d, steps, id)
    decreases |steps|
  {
    hide Inv, Do, Possible, Tally, Accepts;
    if steps != [] {
      StepKeepsInv(d, steps[0]);
      StepTally(d, steps[0], id);
      RunTally(Do(d, steps[0]), steps[1..], d', id);
    }
  }

  // ------------------------------------------------- counting those who wait for long

  /** How many request slots outside `s` hold callback `id`. */
  ghost function PendingOutside(reqs: seq<Request>, id: nat, s: set<nat>): nat {
    if reqs == [] then 0 else
      var n := |reqs| - 1;
      PendingOutside(reqs[..n], id, s) + One(reqs[n].found == Callback(id) && n !in s)
  }

  lemma {:induction false} OutsideNone(reqs: seq<Request>, id: nat)
    ensures PendingOutside(reqs, id, {}) == PendingCount(reqs, id)
  {
    if reqs != [] { OutsideNone(reqs[..|reqs| - 1], id); }
  }

  lemma {:induction false} OutsideAll(reqs: seq<Request>, id: nat, s: set<nat>)
    requires forall r :: 0 <= r < |reqs| && reqs[r].found == Callback(id) ==> r in s
    ensures PendingOutside(reqs, id, s) == 0
  {
    if reqs != [] { OutsideAll(reqs[..|reqs| - 1], id, s); }
  }

  /** If only slot `f` is new, the number grows by one at most. */
  lemma {:induction false} OutsideGrows(a: seq<Request>, b: seq<Request>, id: nat, s: set<nat>, s': set<nat>, f: nat, new_: bool)
    requires |a| == |b|
    requires forall r :: 0 <= r < |a| && r != f && b[r].found == Callback(id) && r !in s' ==> a[r].found == Callback(id) && r !in s
    requires f < |a| && b[f].found == Callback(id) ==> new_
    ensures PendingOutside(b, id, s') <= PendingOutside(a, id, s) + One(f < |a| && new_)
  {
    if a != [] {
      var n := |a| - 1;
      OutsideGrows(a[..n], b[..n], id, s, s', f, new_);
    }
  }

  /** Of the slots `s` that hold callback `id` at the start of a run, those that still do have
      come nearer to their end with every tick; what else waits was accepted in between. */
  lemma {:induction false} RunPending(d: Dns, steps: seq<Step>, d': Dns, id: nat, s: set<nat>) returns (s': set<nat>)
    requires Inv(d) && Run(d, steps, d')
    requires forall r :: r in s ==> r < |d.requests| && d.requests[r].found == Callback(id)
    ensures s' <= s && forall r :: r in s' ==> SlotKept(d, d', r, Ticks(steps)) && d'.requests[r].found == Callback(id)
    ensures PendingOutside(d'.requests, id, s') <= PendingOutside(d.requests, id, s) + Accepted(d, steps, id)
    decreases |steps|
  {
    hide Inv, Do, Possible, SlotKept, PendingOutside, Accepts;
    if steps == [] {
      s' := s;
      forall r | r in s' ensures SlotKept(d, d', r, 0) { SlotSame(d, r); }
    } else {
      var d1 := Do(d, steps[0]);
      var f := StepSlots(d, steps[0], id);
      StepKeepsInv(d, steps[0]);
      var s1 := set r | r in s && r < |d1.requests| && d1.requests[r].found == Callback(id);
      s' := RunPending(d1, steps[1..], d', id, s1);
      forall r | 0 <= r < |d.requests| && r != f && d1.requests[r].found == Callback(id)
        ensures d.requests[r].found == Callback(id)
      {
        KeptFound(d, d1, r, One(steps[0].Tick?));
      }
      OutsideGrows(d.requests, d1.requests, id, s, s1, f, Accepts(d, steps[0], id));
      forall r | r in s' ensures SlotKept(d, d', r, Ticks(steps)) {
        assert r in s1 && r != f;
        SlotThen(d, d1, d', r, One(steps[0].Tick?), Ticks(steps[1..]));
      }
    }
  }

  lemma KeptFound(d: Dns, d': Dns, r: nat, drop: nat)
    requires SlotKept(d, d', r, drop)
    ensures r < |d.requests| == |d'.requests|
    ensures d'.requests[r].found.Callback? ==> d.requests[r].found == d'.requests[r].found
  {
    hide Rank;
  }

  /** Whoever waits is called back within 14 ticks for every server, seven for each server and
      address family, whatever messages arrive and whatever is asked in between: those who wait
      afterwards were accepted in the meantime. */
  lemma WaitsAtMost(d: Dns, steps: seq<Step>, d': Dns, id: nat)
    requires Inv(d) && Run(d, steps, d') && Ticks(steps) >= 14 * |d.servers|
    ensures PendingCount(d'.requests, id) <= Accepted(d, steps, id)
    ensures LogCount(d'.log, id) >= LogCount(d.log, id) + PendingCount(d.requests, id)
  {
    hide Run, Do, LogCount, PendingCount, PendingOutside, Rank, InvBut, Accepted, SlotKept;
    var s := set r | 0 <= r < |d.requests| && d.requests[r].found == Callback(id);
    var s' := RunPending(d, steps, d', id, s);
    RunKeepsInv(d, steps, d');
    OutsideAll(d.requests, id, s);
    forall r | r in s' ensures false { TooLong(d, d', r, Ticks(steps)); }
    assert s' == {};
    OutsideNone(d'.requests, id);
    RunTally(d, steps, d', id);
  }

  /** Nobody waits for longer than that. */
  lemma TooLong(d: Dns, d': Dns, r: nat, ticks: nat)
    requires Inv(d) && Inv(d') && SlotKept(d, d', r, ticks) && d'.requests[r].found.Callback?
    ensures ticks < 14 * |d.servers|
  {
    hide Rank, InvBut;
    RequestEntry(d, r);
    RequestEntry(d', r);
  }

  /** The resolver after start-up. */
  ghost predicate Initial(d: Dns) {
    && |d.requests| == |d.table| && |d.servers| > 0 && d.log == []
    && (forall i :: 0 <= i < |d.table| ==> d.table[i].state.Unused?)
    && (forall r :: 0 <= r < |d.requests| ==> d.requests[r].found.NoCallback?)
    && (forall p :: 0 <= p < |d.pcbs| ==> !d.pcbs[p])
  }

  lemma InitialInv(d: Dns)
    requires Initial(d)
    ensures Inv(d)
  {
    forall i | 0 <= i < |d.table| ensures EntryOk(d, d.table[i]) {}
    forall r | 0 <= r < |d.requests| ensures RequestOk(d, d.requests[r]) {}
  }

  lemma {:induction false} NothingPending(reqs: seq<Request>, id: nat)
    requires forall r :: 0 <= r < |reqs| ==> reqs[r].found.NoCallback?
    ensures PendingCount(reqs, id) == 0
  {
    if reqs != [] { NothingPending(reqs[..|reqs| - 1], id); }
  }

  /** A callback is called once for every time that it was accepted, unless it still waits. */
  lemma WaitingOrCalled(d0: Dns, steps: seq<Step>, d: Dns, id: nat)
    requires Initial(d0) && Run(d0, steps, d)
    ensures PendingCount(d.requests, id) + LogCount(d.log, id) == Accepted(d0, steps, id)
  {
    hide Run, Do, PendingCount, Accepted;
    InitialInv(d0);
    RunTally(d0, steps, d, id);
    NothingPending(d0.requests, id);
  }

  /** Every request that is accepted with a callback has that callback called exactly once: after
      any run, once 14 ticks for every server have passed, each has been called back that was
      accepted before, and those who wait were accepted since. */
  lemma CalledExactlyOnce(d0: Dns, before: seq<Step>, d1: Dns, after: seq<Step>, d: Dns, id: nat)
    requires Initial(d0) && Run(d0, before, d1) && Run(d1, after, d) && Ticks(after) >= 14 * |d1.servers|
    ensures PendingCount(d.requests, id) + LogCount(d.log, id) == Accepted(d0, before, id) + Accepted(d1, after, id)
    ensures PendingCount(d.requests, id) <= Accepted(d1, after, id) && LogCount(d.log, id) >= Accepted(d0, before, id)
  {
    hide Run, PendingCount, LogCount, Accepted, InvBut, Ticks;
    InitialInv(d0);
    RunKeepsInv(d0, before, d1);
    WaitingOrCalled(d0, before, d1, id);
    RunTally(d1, after, d, id);
    WaitsAtMost(d1, after, d, id);
  }

  // -------------------------------------------------------- what a reachable state is

  /** In every reachable state: outstanding entries have distinct transaction ids, a source port
      is open exactly while an outstanding entry uses it, every callback waits for an outstanding
      entry, and no entry is new. */
  lemma ReachableState(d0: Dns, steps: seq<Step>, d: Dns)
    requires Initial(d0) && Run(d0, steps, d)
    ensures forall a, b :: 0 <= a < b < |d.table| && d.table[a].state.Asking? && d.table[b].state.Asking? ==>
              d.table[a].txid != d.table[b].txid
    ensures forall p :: 0 <= p < |d.pcbs| ==>
              (d.pcbs[p] <==> exists i :: 0 <= i < |d.table| && d.table[i].state.Asking? && d.table[i].pcb == p)
    ensures forall r :: 0 <= r < |d.requests| && d.requests[r].found.Callback? ==>
              d.requests[r].entry < |d.table| && d.table[d.requests[r].entry].state.Asking?
    ensures forall i :: 0 <= i < |d.table| ==> !d.table[i].state.New?
  {
    hide Run, Do, Initial;
    InitialInv(d0);
    RunKeepsInv(d0, steps, d);
    forall p | 0 <= p < |d.pcbs|
      ensures d.pcbs[p] <==> exists i :: 0 <= i < |d.table| && d.table[i].state.Asking? && d.table[i].pcb == p
    {
      if d.pcbs[p] {
        assert UsedPcb(d.table, p);
        var j :| 0 <= j < |d.table| && Live(d.table[j]) && d.table[j].pcb == p;
        assert d.table[j].state.Asking?;
      } else {
        forall i | 0 <= i < |d.table| && d.table[i].state.Asking? ensures d.table[i].pcb != p {
          assert EntryOk(d, d.table[i]);
        }
      }
    }
    forall r | 0 <= r < |d.requests| && d.requests[r].found.Callback?
      ensures d.requests[r].entry < |d.table| && d.table[d.requests[r].entry].state.Asking?
    {
      assert RequestOk(d, d.requests[r]);
    }
  }

  lemma NoPcbIff(pcbs: seq<bool>, last: nat, bound: bool)
    ensures AllocPcb(pcbs, last, bound).2 == |pcbs| <==>
            if bound then pcbs == [] else forall p :: 0 <= p < |pcbs| ==> !pcbs[p]
  {
    hide AllocPcb, StepsTo;
    AllocPcbIs(pcbs, last, bound);
    if bound && pcbs != [] && !(exists q :: 0 <= q < |pcbs| && !pcbs[q]) { assert pcbs[0]; }
  }

  /** An entry that a new question may get. */
  predicate Usable(d: Dns, e: Entry) {
    e.state.Unused? || (e.state.Done? && Age(d.seqno, e) != 0)
  }

  lemma PickIff(d: Dns)
    ensures Pick(d.table, d.seqno) == |d.table| <==> forall i :: 0 <= i < |d.table| ==> !Usable(d, d.table[i])
  {
    var i := Pick(d.table, d.seqno);
    if i < |d.table| { assert Usable(d, d.table[i]); }
  }

  /** A request is turned away exactly if there is no free request slot, or the question is new
      and there is no entry for it or no source port. An answered entry is no place for it if its
      age is a multiple of 256. */
  lemma RefusedIff(d: Dns, name: seq<byte>, found: Found, t: AddrType, bound: bool, txid: nat)
    ensures Enqueue(d, name, found, t, bound, txid).1.Mem? <==>
            || (forall r :: 0 <= r < |d.requests| ==> d.requests[r].found.Callback?)
            || (&& (forall i :: 0 <= i < |d.table| ==> !SameQuestion(d.table[i], name, t))
                && (|| (forall i :: 0 <= i < |d.table| ==> !Usable(d, d.table[i]))
                    || (if bound then d.pcbs == [] else forall p :: 0 <= p < |d.pcbs| ==> !d.pcbs[p])))
  {
    hide AllocPcb, Pick, SameQuestion, Usable, CheckEntry;
    PickIff(d);
    NoPcbIff(d.pcbs, d.lastPcb, bound);
  }

  lemma EnqueueSizes(d: Dns, name: seq<byte>, found: Found, t: AddrType, bound: bool, txid: nat)
    requires Inv(d)
    ensures |Enqueue(d, name, found, t, bound, txid).0.table| == |d.table|
  {
    hide Enqueue, CheckEntry, Rank, Served, Calls;
    var kind, d1, i, f := EnqueueCases(d, name, found, t, bound, txid);
    if kind == 1 { FirstCheckAdvances(d1, i, txid); }
  }
}
