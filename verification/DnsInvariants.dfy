/** What every operation of the DNS resolver keeps. */
module DnsInvariants {
  import opened MachineInts
  import opened DnsName
  import opened DnsTable

  // ------------------------------------------------------------------ invariant

  /** An entry that a request may wait for. */
  predicate Live(e: Entry) { e.state.New? || e.state.Asking? }

  /** The timers of an outstanding entry, and its source port. */
  predicate EntryOk(d: Dns, e: Entry) {
    && (Live(e) ==> e.pcb < |d.pcbs| && d.pcbs[e.pcb])
    && (e.state.Asking? ==>
          && e.server < |d.servers| && 1 <= e.tmr && e.retries < MAX_RETRIES
          && (if e.retries == 0 then e.tmr == 1 else e.tmr <= e.retries))
  }

  predicate RequestOk(d: Dns, q: Request) {
    q.found.Callback? ==> q.entry < |d.table| && Live(d.table[q.entry])
  }

  ghost predicate UsedPcb(table: seq<Entry>, p: nat) {
    exists j :: 0 <= j < |table| && Live(table[j]) && table[j].pcb == p
  }

  ghost predicate TxidsApart(table: seq<Entry>) {
    forall a, b :: 0 <= a < b < |table| && table[a].state.Asking? && table[b].state.Asking? ==>
      table[a].txid != table[b].txid
  }

  /** The tables are consistent; at most entry `x` has its question still to be sent. */
  ghost predicate InvBut(d: Dns, x: int) {
    && |d.requests| == |d.table| && |d.servers| > 0
    && (forall i :: 0 <= i < |d.table| ==> EntryOk(d, d.table[i]))
    && (forall i :: 0 <= i < |d.table| && i != x ==> !d.table[i].state.New?)
    && (forall r :: 0 <= r < |d.requests| ==> RequestOk(d, d.requests[r]))
    && (forall p :: 0 <= p < |d.pcbs| && d.pcbs[p] ==> UsedPcb(d.table, p))
    && TxidsApart(d.table)
  }

  /** What holds between operations: no entry is new. */
  ghost predicate Inv(d: Dns) { InvBut(d, -1) }

  /** The transaction id is used by no outstanding entry. */
  predicate FreeTxid(table: seq<Entry>, txid: nat) {
    forall j :: 0 <= j < |table| && table[j].state.Asking? ==> table[j].txid != txid
  }

  // ------------------------------------------------------------- giving an answer

  lemma {:induction false} ServedAt(reqs: seq<Request>, i: nat)
    ensures forall r :: 0 <= r < |reqs| ==> Served(reqs, i)[r] == Flushed(reqs[r], i)
  {
    if reqs != [] { ServedAt(reqs[..|reqs| - 1], i); }
  }

  /** The end of an entry: the callbacks are told, its source port is closed unless another
      outstanding entry uses it, and it is no longer outstanding. */
  lemma SettleKeeps(d: Dns, i: nat, e: Entry, answer: Answer, state: EntryState)
    requires InvBut(d, i) && i < |d.table| && Live(d.table[i]) && e.pcb == d.table[i].pcb
    requires state.Unused? || state.Done?
    ensures var d1 := CallFound(SetEntry(d, i, e), i, answer);
            InvBut(SetEntry(d1, i, d1.table[i].(state := state)), -1)
  {
    hide Served, Calls;
    var d1 := CallFound(SetEntry(d, i, e), i, answer);
    var d2 := SetEntry(d1, i, d1.table[i].(state := state));
    ServedAt(d.requests, i);
    SettleEntries(d, i, d2, Shared(SetEntry(d, i, e).table, i, e.pcb));
    SettlePcbs(d, i, d2, Shared(SetEntry(d, i, e).table, i, e.pcb));
  }

  lemma SettleEntries(d: Dns, i: nat, d2: Dns, shared: bool)
    requires InvBut(d, i) && i < |d.table| == |d2.table| && d2.servers == d.servers
    requires forall j :: 0 <= j < |d.table| && j != i ==> d2.table[j] == d.table[j]
    requires !Live(d2.table[i]) && d.table[i].pcb < |d.pcbs|
    requires shared <==> Shared(d2.table, i, d.table[i].pcb)
    requires d2.pcbs == if shared then d.pcbs else d.pcbs[d.table[i].pcb := false]
    ensures forall j :: 0 <= j < |d2.table| ==> EntryOk(d2, d2.table[j]) && !d2.table[j].state.New?
  {
    forall j | 0 <= j < |d2.table| ensures EntryOk(d2, d2.table[j]) && !d2.table[j].state.New? {
      if j != i { assert EntryOk(d, d.table[j]) && !d.table[j].state.New?; }
    }
  }

  lemma SettlePcbs(d: Dns, i: nat, d2: Dns, shared: bool)
    requires InvBut(d, i) && i < |d.table| == |d2.table|
    requires forall j :: 0 <= j < |d.table| && j != i ==> d2.table[j] == d.table[j]
    requires d.table[i].pcb < |d.pcbs|
    requires shared <==> Shared(d2.table, i, d.table[i].pcb)
    requires d2.pcbs == if shared then d.pcbs else d.pcbs[d.table[i].pcb := false]
    ensures forall p :: 0 <= p < |d2.pcbs| && d2.pcbs[p] ==> UsedPcb(d2.table, p)
  {
    forall p | 0 <= p < |d2.pcbs| && d2.pcbs[p] ensures UsedPcb(d2.table, p) {
      assert UsedPcb(d.table, p);
      var j :| 0 <= j < |d.table| && Live(d.table[j]) && d.table[j].pcb == p;
      if j == i {
        var k :| 0 <= k < |d2.table| && k != i && d2.table[k].state.Asking? && d2.table[k].pcb == p;
        assert Live(d2.table[k]);
      } else {
        assert Live(d2.table[j]);
      }
    }
  }

  lemma AbandonKeeps(d: Dns, i: nat, e: Entry)
    requires InvBut(d, i) && i < |d.table| && Live(d.table[i]) && e.pcb == d.table[i].pcb
    ensures Inv(Abandon(SetEntry(d, i, e), i))
  {
    hide InvBut, CallFound;
    SettleKeeps(d, i, e, NoAddress, Unused);
  }

  // --------------------------------------------------------- asking and asking again

  /** The transaction id differs from that of all other outstanding entries. */
  predicate OwnTxid(table: seq<Entry>, i: nat, txid: nat) {
    forall j :: 0 <= j < |table| && j != i && table[j].state.Asking? ==> table[j].txid != txid
  }

  /** A live entry is filled anew and stays live. */
  lemma ReplaceKeeps(d: Dns, i: nat, e: Entry)
    requires InvBut(d, i) && i < |d.table| && Live(d.table[i]) && Live(e) && e.pcb == d.table[i].pcb && EntryOk(d, e)
    requires e.state.Asking? ==> OwnTxid(d.table, i, e.txid)
    ensures InvBut(SetEntry(d, i, e), i) && (e.state.Asking? ==> Inv(SetEntry(d, i, e)))
  {
    var d' := SetEntry(d, i, e);
    forall j | 0 <= j < |d'.table| ensures EntryOk(d', d'.table[j]) { assert EntryOk(d, d.table[j]); }
    forall r | 0 <= r < |d'.requests| ensures RequestOk(d', d'.requests[r]) { assert RequestOk(d, d.requests[r]); }
    forall p | 0 <= p < |d'.pcbs| && d'.pcbs[p] ensures UsedPcb(d'.table, p) {
      assert UsedPcb(d.table, p);
      var j :| 0 <= j < |d.table| && Live(d.table[j]) && d.table[j].pcb == p;
      assert Live(d'.table[j]) && d'.table[j].pcb == p;
    }
  }

  lemma SendKeeps(d: Dns, i: nat)
    requires Inv(d) && i < |d.table| && d.table[i].state.Asking?
    ensures Inv(Send(d, i))
  {
    hide Abandon;
    if ServerAt(d.servers, d.table[i].server) == 0 {
      assert SetEntry(d, i, d.table[i]) == d;
      AbandonKeeps(d, i, d.table[i]);
    }
  }

  lemma AskKeeps(d: Dns, i: nat, e: Entry)
    requires InvBut(d, i) && i < |d.table| && Live(d.table[i]) && e.state.Asking? && e.pcb == d.table[i].pcb
    requires EntryOk(d, e) && OwnTxid(d.table, i, e.txid)
    ensures Inv(Send(SetEntry(d, i, e), i)) && Inv(SetEntry(d, i, e))
  {
    hide InvBut, EntryOk, Send;
    ReplaceKeeps(d, i, e);
    SendKeeps(SetEntry(d, i, e), i);
  }

  lemma OwnTxidAt(d: Dns, i: nat)
    requires InvBut(d, i) && i < |d.table| && d.table[i].state.Asking?
    ensures OwnTxid(d.table, i, d.table[i].txid)
  {
  }

  lemma CheckAskingKeeps(d: Dns, i: nat)
    requires Inv(d) && i < |d.table| && d.table[i].state.Asking?
    ensures Inv(CheckAsking(d, i))
  {
    hide Send, Abandon;
    OwnTxidAt(d, i);
    var e := d.table[i].(tmr := (d.table[i].tmr + 255) % 256);
    var e' := e.(retries := (e.retries + 1) % 256);
    assert EntryOk(d, d.table[i]);
    if e.tmr > 0 {
      AskKeeps(d, i, e);
    } else if e'.retries != MAX_RETRIES {
      AskKeeps(d, i, e'.(tmr := e'.retries));
    } else if Backup(d, e') {
      AskKeeps(d, i, e'.(server := e'.server + 1, tmr := 1, retries := 0));
    } else {
      AbandonKeeps(d, i, e');
    }
  }

  lemma CheckNewKeeps(d: Dns, i: nat, txid: nat)
    requires InvBut(d, i) && i < |d.table| && d.table[i].state.New? && FreeTxid(d.table, txid)
    ensures Inv(CheckEntry(d, i, txid))
  {
    hide Send;
    assert EntryOk(d, d.table[i]);
    AskKeeps(d, i, d.table[i].(txid := txid, state := Asking, server := 0, tmr := 1, retries := 0));
  }

  lemma CheckEntryKeeps(d: Dns, i: nat, txid: nat)
    requires Inv(d) && i < |d.table|
    ensures Inv(CheckEntry(d, i, txid)) && |CheckEntry(d, i, txid).table| == |d.table|
  {
    hide CheckAsking;
    if d.table[i].state.Asking? {
      CheckAskingKeeps(d, i);
      CheckAskingSize(d, i);
    } else if d.table[i].state.Done? {
      DoneKeeps(d, i, CheckEntry(d, i, txid).table[i]);
    }
  }

  lemma CheckAskingSize(d: Dns, i: nat)
    requires i < |d.table|
    ensures |CheckAsking(d, i).table| == |d.table|
  {
  }

  /** An entry that is not live changes and stays so. */
  lemma DoneKeeps(d: Dns, i: nat, e: Entry)
    requires Inv(d) && i < |d.table| && !Live(d.table[i]) && !Live(e)
    ensures Inv(SetEntry(d, i, e))
  {
    var d' := SetEntry(d, i, e);
    forall j | 0 <= j < |d'.table| ensures EntryOk(d', d'.table[j]) { assert EntryOk(d, d.table[j]); }
    forall r | 0 <= r < |d'.requests| ensures RequestOk(d', d'.requests[r]) { assert RequestOk(d, d.requests[r]); }
    forall p | 0 <= p < |d'.pcbs| && d'.pcbs[p] ensures UsedPcb(d'.table, p) {
      assert UsedPcb(d.table, p);
      var j :| 0 <= j < |d.table| && Live(d.table[j]) && d.table[j].pcb == p;
      assert Live(d'.table[j]) && d'.table[j].pcb == p;
    }
  }

  lemma {:induction false} TickedKeeps(d: Dns, n: nat)
    requires Inv(d) && n <= |d.table|
    ensures Inv(Ticked(d, n)) && |Ticked(d, n).table| == |d.table|
  {
    hide Inv, CheckEntry;
    if n > 0 {
      TickedKeeps(d, n - 1);
      CheckEntryKeeps(Ticked(d, n - 1), n - 1, 0);
    }
  }

  // -------------------------------------------------------------------- answers

  lemma ReceivedKeeps(d: Dns, i: nat, reply: Reply, txid: nat)
    requires Inv(d) && i < |d.table| && d.table[i].state.Asking?
    requires OwnTxid(d.table, i, txid)
    ensures Inv(Received(d, i, reply, txid))
  {
    hide CallFound, CheckEntry, Abandon;
    var e := d.table[i];
    assert EntryOk(d, e);
    OwnTxidAt(d, i);
    match reply {
      case Ignored =>
      case Failure =>
        if Backup(d, e) {
          ReplaceKeeps(d, i, e.(retries := MAX_RETRIES - 1, tmr := 1));
          CheckEntryKeeps(SetEntry(d, i, e.(retries := MAX_RETRIES - 1, tmr := 1)), i, txid);
        } else {
          assert SetEntry(d, i, e) == d;
          AbandonKeeps(d, i, e);
        }
      case Found(bytes, ttl) => CorrectKeeps(d, i, bytes, ttl);
      case Nothing =>
        if HasFallback(e.addrType) {
          var e' := e.(addrType := Fallback(e.addrType), state := New);
          ReplaceKeeps(d, i, e');
          CheckNewKeeps(SetEntry(d, i, e'), i, txid);
        } else {
          assert SetEntry(d, i, e) == d;
          AbandonKeeps(d, i, e);
        }
    }
  }

  lemma CorrectKeeps(d: Dns, i: nat, bytes: seq<byte>, ttl: nat)
    requires Inv(d) && i < |d.table| && d.table[i].state.Asking?
    ensures Inv(CorrectResponse(d, i, bytes, ttl))
  {
    hide InvBut, CallFound;
    var t := if ttl > MAX_TTL then MAX_TTL else ttl;
    var e := d.table[i].(state := Done, ttl := t);
    AskingBut(d, i);
    SettleKeeps(d, i, e, Address(bytes), if t == 0 then Unused else Done);
    var d1 := CallFound(SetEntry(d, i, e), i, Address(bytes));
    if t != 0 { assert SetEntry(d1, i, d1.table[i].(state := Done)) == d1; }
  }

  lemma AskingBut(d: Dns, i: nat)
    requires Inv(d)
    ensures InvBut(d, i)
  {
  }

  // ------------------------------------------------------------------- requests

  /** A request slot that was free is filled with a request for a live entry, or left free. */
  lemma RequestKeeps(d: Dns, f: nat, q: Request, x: int)
    requires InvBut(d, x) && f < |d.requests| && RequestOk(d, q)
    ensures InvBut(d.(requests := d.requests[f := q]), x)
  {
    var d' := d.(requests := d.requests[f := q]);
    forall j | 0 <= j < |d'.table| ensures EntryOk(d', d'.table[j]) { assert EntryOk(d, d.table[j]); }
    forall r | 0 <= r < |d'.requests| ensures RequestOk(d', d'.requests[r]) { assert RequestOk(d, d.requests[r]); }
  }

  /** An entry that was not live becomes a new question on an open source port. */
  lemma NewKeeps(d: Dns, i: nat, e: Entry, last: nat, seqno: byte)
    requires Inv(d) && i < |d.table| && !Live(d.table[i]) && e.state.New? && e.pcb < |d.pcbs|
    ensures InvBut(SetEntry(d.(pcbs := d.pcbs[e.pcb := true], lastPcb := last, seqno := seqno), i, e), i)
  {
    var d' := SetEntry(d.(pcbs := d.pcbs[e.pcb := true], lastPcb := last, seqno := seqno), i, e);
    forall j | 0 <= j < |d'.table| ensures EntryOk(d', d'.table[j]) { assert EntryOk(d, d.table[j]); }
    forall r | 0 <= r < |d'.requests| ensures RequestOk(d', d'.requests[r]) { assert RequestOk(d, d.requests[r]); }
    forall p | 0 <= p < |d'.pcbs| && d'.pcbs[p] ensures UsedPcb(d'.table, p) {
      if p == e.pcb {
        assert Live(d'.table[i]);
      } else {
        assert UsedPcb(d.table, p);
        var j :| 0 <= j < |d.table| && Live(d.table[j]) && d.table[j].pcb == p;
        assert Live(d'.table[j]) && d'.table[j].pcb == p;
      }
    }
  }

  lemma LastKeeps(d: Dns, last: nat)
    requires Inv(d)
    ensures Inv(d.(lastPcb := last))
  {
    var d' := d.(lastPcb := last);
    forall j | 0 <= j < |d'.table| ensures EntryOk(d', d'.table[j]) { assert EntryOk(d, d.table[j]); }
    forall r | 0 <= r < |d'.requests| ensures RequestOk(d', d'.requests[r]) { assert RequestOk(d, d.requests[r]); }
  }

  lemma EnqueueKeeps(d: Dns, name: seq<byte>, found: Found, t: AddrType, bound: bool, txid: nat)
    requires Inv(d) && FreeTxid(d.table, txid)
    ensures Inv(Enqueue(d, name, found, t, bound, txid).0)
  {
    hide CheckEntry, InvBut, EntryOk, AllocPcb, Pick, Duplicate, SameQuestion;
    var dup, f := Duplicate(d.table, name, t, 0), FreeRequest(d.requests, 0);
    var i := Pick(d.table, d.seqno);
    if dup < |d.table| && f < |d.requests| {
      DuplicateLive(d, name, t);
      RequestKeeps(d, f, Request(found, dup), -1);
    } else if i < |d.table| && f < |d.requests| {
      var (pcbs, last, p) := AllocPcb(d.pcbs, d.lastPcb, bound);
      var n := if |name| < 255 then name else name[..255];
      var e := d.table[i].(state := New, seqno := d.seqno, addrType := t, name := n, pcb := p);
      if p == |pcbs| {
        LastKeeps(d, last);
        var d1 := d.(pcbs := pcbs, lastPcb := last);
        DoneKeeps(d1, i, e.(state := Unused));
        RequestKeeps(SetEntry(d1, i, e.(state := Unused)), f, Request(NoCallback, i), -1);
      } else {
        NewKeeps(d, i, e, last, (d.seqno + 1) % 256);
        var d1 := SetEntry(d.(pcbs := pcbs, lastPcb := last, seqno := (d.seqno + 1) % 256), i, e);
        RequestKeeps(d1, f, Request(found, i), i);
        CheckNewKeeps(d1.(requests := d.requests[f := Request(found, i)]), i, txid);
      }
    }
  }

  lemma DuplicateLive(d: Dns, name: seq<byte>, t: AddrType)
    ensures var dup := Duplicate(d.table, name, t, 0); dup < |d.table| ==> Live(d.table[dup])
  {
  }

  lemma ServerKeeps(d: Dns, n: nat, a: nat)
    requires Inv(d) && n < |d.servers|
    ensures Inv(d.(servers := d.servers[n := a]))
  {
    var d' := d.(servers := d.servers[n := a]);
    forall j | 0 <= j < |d'.table| ensures EntryOk(d', d'.table[j]) { assert EntryOk(d, d.table[j]); }
    forall r | 0 <= r < |d'.requests| ensures RequestOk(d', d'.requests[r]) { assert RequestOk(d, d.requests[r]); }
  }
}
