/** The tables of the DNS resolver (lwip/src/core/dns.c) and what its functions do to them, on
    values: entries with their timers, requests that wait for an entry, and UDP source ports.

    The configuration is that of this repository: IPv4 and IPv6, all three `LWIP_DNS_SECURE`
    options, no multicast queries, as many requests as table entries. The number of entries,
    of source ports and of servers is left open. A found-callback is an entry of `log`; it does
    not call back into the resolver. */
module DnsTable {
  import opened MachineInts
  import opened DnsName

  const MAX_RETRIES: nat := 4
  const MAX_TTL: nat := 604800

  datatype EntryState = Unused | New | Asking | Done

  datatype AddrType = Ipv4 | Ipv6 | Ipv4Ipv6 | Ipv6Ipv4

  predicate IsV6(t: AddrType) { t.Ipv6Ipv4? || t.Ipv6? }

  /** Whether the other address family is still to be tried. */
  predicate HasFallback(t: AddrType) { t.Ipv4Ipv6? || t.Ipv6Ipv4? }

  function Fallback(t: AddrType): AddrType { if t.Ipv4Ipv6? then Ipv6 else Ipv4 }

  /** `struct dns_table_entry`. */
  datatype Entry = Entry(state: EntryState, txid: nat, server: nat, tmr: byte, retries: byte, seqno: byte, pcb: nat,
                         ttl: nat, name: seq<byte>, addrType: AddrType)

  datatype Found = NoCallback | Callback(id: nat)

  /** `struct dns_req_entry`: the callback with its argument, and the entry it waits for. */
  datatype Request = Request(found: Found, entry: nat)

  datatype Answer = NoAddress | Address(bytes: seq<byte>)

  datatype Call = Call(id: nat, name: seq<byte>, answer: Answer)

  /** `pcbs` tells which source ports are open; server 0 is the "any" address, which stands for
      no server. */
  datatype Dns = Dns(table: seq<Entry>, requests: seq<Request>, pcbs: seq<bool>, seqno: byte, lastPcb: nat,
                     servers: seq<nat>, log: seq<Call>)

  function SetEntry(d: Dns, i: nat, e: Entry): Dns
    requires i < |d.table|
  {
    d.(table := d.table[i := e])
  }

  // -------------------------------------------------------------- calling back

  function Flushed(q: Request, i: nat): Request {
    if q.found.Callback? && q.entry == i then q.(found := NoCallback) else q
  }

  /** The requests once those for entry `i` are served. */
  function Served(reqs: seq<Request>, i: nat): (r: seq<Request>)
    ensures |r| == |reqs|
  {
    if reqs == [] then [] else Served(reqs[..|reqs| - 1], i) + [Flushed(reqs[|reqs| - 1], i)]
  }

  /** The calls that this makes. */
  function Calls(reqs: seq<Request>, i: nat, name: seq<byte>, answer: Answer): seq<Call> {
    if reqs == [] then [] else
      var q := reqs[|reqs| - 1];
      Calls(reqs[..|reqs| - 1], i, name, answer)
      + if q.found.Callback? && q.entry == i then [Call(q.found.id, name, answer)] else []
  }

  /** Whether an outstanding entry other than `i` uses the source port `p`. */
  predicate Shared(table: seq<Entry>, i: nat, p: nat) {
    exists j :: 0 <= j < |table| && j != i && table[j].state.Asking? && table[j].pcb == p
  }

  /** `dns_call_found`. */
  function CallFound(d: Dns, i: nat, answer: Answer): (r: Dns)
    requires i < |d.table|
    ensures |r.table| == |d.table| && r.table[i].state == d.table[i].state
  {
    var e := d.table[i];
    var t := if answer.NoAddress? then e.addrType else if |answer.bytes| == 16 then Ipv6 else Ipv4;
    var p := e.pcb;
    var shared := Shared(d.table, i, p);
    var none := |d.pcbs|;
    d.(requests := Served(d.requests, i),
       log := d.log + Calls(d.requests, i, e.name, answer),
       pcbs := if !shared && p < none then d.pcbs[p := false] else d.pcbs,
       table := d.table[i := e.(addrType := t, pcb := if shared || p < none then none else p)])
  }

  /** Giving up on an entry: the callbacks are told, and the entry is free. */
  function Abandon(d: Dns, i: nat): Dns
    requires i < |d.table|
  {
    var d' := CallFound(d, i, NoAddress);
    SetEntry(d', i, d'.table[i].(state := Unused))
  }

  // ------------------------------------------------------- asking and asking again

  function ServerAt(servers: seq<nat>, n: nat): nat {
    if n < |servers| then servers[n] else 0
  }

  /** `dns_send`: what is sent leaves no trace in the tables, unless the server has gone. */
  function Send(d: Dns, i: nat): Dns
    requires i < |d.table|
  {
    if ServerAt(d.servers, d.table[i].server) == 0 then Abandon(d, i) else d
  }

  /** `dns_backupserver_available`. */
  predicate Backup(d: Dns, e: Entry) {
    ServerAt(d.servers, e.server + 1) != 0
  }

  /** `dns_check_entry` for an entry that waits for an answer; the timer is a `u8_t`. */
  function CheckAsking(d: Dns, i: nat): Dns
    requires i < |d.table|
  {
    var e := d.table[i].(tmr := (d.table[i].tmr + 255) % 256);
    if e.tmr > 0 then SetEntry(d, i, e) else
      var e' := e.(retries := (e.retries + 1) % 256);
      if e'.retries != MAX_RETRIES then Send(SetEntry(d, i, e'.(tmr := e'.retries)), i)
      else if Backup(d, e') then Send(SetEntry(d, i, e'.(server := e'.server + 1, tmr := 1, retries := 0)), i)
      else Abandon(SetEntry(d, i, e'), i)
  }

  /** `dns_check_entry`; `txid` is what `dns_create_txid` draws if it is called. */
  function CheckEntry(d: Dns, i: nat, txid: nat): Dns
    requires i < |d.table|
  {
    var e := d.table[i];
    match e.state
    case New => Send(SetEntry(d, i, e.(txid := txid, state := Asking, server := 0, tmr := 1, retries := 0)), i)
    case Asking => CheckAsking(d, i)
    case Done => SetEntry(d, i, if e.ttl <= 1 then e.(ttl := 0, state := Unused) else e.(ttl := e.ttl - 1))
    case Unused => d
  }

  /** `dns_tmr`, up to entry `n`. */
  function Ticked(d: Dns, n: nat): (r: Dns)
    requires n <= |d.table|
  {
    if n == 0 then d else var d' := Ticked(d, n - 1); if n - 1 < |d'.table| then CheckEntry(d', n - 1, 0) else d'
  }

  // -------------------------------------------------------------------- answers

  /** What a message says to the entry it is for. */
  datatype Reply = Ignored | Failure | Nothing | Found(bytes: seq<byte>, ttl: nat)

  /** `dns_correct_response`. */
  function CorrectResponse(d: Dns, i: nat, bytes: seq<byte>, ttl: nat): Dns
    requires i < |d.table|
  {
    var t := if ttl > MAX_TTL then MAX_TTL else ttl;
    var d' := CallFound(SetEntry(d, i, d.table[i].(state := Done, ttl := t)), i, Address(bytes));
    if t == 0 then SetEntry(d', i, d'.table[i].(state := Unused)) else d'
  }

  /** The rest of `dns_recv` once the message is read. */
  function Received(d: Dns, i: nat, reply: Reply, txid: nat): Dns
    requires i < |d.table|
  {
    var e := d.table[i];
    match reply
    case Ignored => d
    case Failure =>
      if Backup(d, e) then CheckEntry(SetEntry(d, i, e.(retries := MAX_RETRIES - 1, tmr := 1)), i, txid) else Abandon(d, i)
    case Found(bytes, ttl) => CorrectResponse(d, i, bytes, ttl)
    case Nothing =>
      if HasFallback(e.addrType)
      then CheckEntry(SetEntry(d, i, e.(addrType := Fallback(e.addrType), state := New)), i, txid) else Abandon(d, i)
  }

  // ------------------------------------------------------------------- requests

  /** The first request slot from `r` on that is free. */
  function FreeRequest(reqs: seq<Request>, r: nat): (f: nat)
    requires r <= |reqs|
    ensures r <= f <= |reqs| && (f < |reqs| ==> reqs[f].found.NoCallback?)
    ensures forall k :: r <= k < f ==> reqs[k].found.Callback?
    decreases |reqs| - r
  {
    if r == |reqs| || reqs[r].found.NoCallback? then r else FreeRequest(reqs, r + 1)
  }

  ghost predicate SameQuestion(e: Entry, name: seq<byte>, t: AddrType) {
    e.state.Asking? && SameName(name, e.name) && e.addrType == t
  }

  /** The first outstanding entry from `i` on that asks the same. */
  ghost function Duplicate(table: seq<Entry>, name: seq<byte>, t: AddrType, i: nat): (f: nat)
    requires i <= |table|
    ensures i <= f <= |table| && (f < |table| ==> SameQuestion(table[f], name, t))
    ensures forall k :: i <= k < f ==> !SameQuestion(table[k], name, t)
    decreases |table| - i
  {
    if i == |table| || SameQuestion(table[i], name, t) then i else Duplicate(table, name, t, i + 1)
  }

  /** How long ago the entry was filled, in requests modulo 256. */
  function Age(seqno: byte, e: Entry): byte {
    (seqno + 256 - e.seqno) % 256
  }

  /** The answered entry before `i` that is oldest by `Age`, the first of several; entries of
      age 0 are not seen. */
  function Oldest(table: seq<Entry>, seqno: byte, i: nat): (o: (nat, byte))
    requires i <= |table|
    ensures if o.1 == 0 then o.0 == |table| && forall k :: 0 <= k < i && table[k].state.Done? ==> Age(seqno, table[k]) == 0
            else && o.0 < i && table[o.0].state.Done? && Age(seqno, table[o.0]) == o.1
                 && forall k :: 0 <= k < i && table[k].state.Done? ==>
                      Age(seqno, table[k]) <= o.1 && (k < o.0 ==> Age(seqno, table[k]) < o.1)
  {
    if i == 0 then (|table|, 0) else
      var o := Oldest(table, seqno, i - 1);
      if table[i - 1].state.Done? && Age(seqno, table[i - 1]) > o.1 then (i - 1, Age(seqno, table[i - 1])) else o
  }

  function FirstUnused(table: seq<Entry>, i: nat): (f: nat)
    requires i <= |table|
    ensures i <= f <= |table| && (f < |table| ==> table[f].state.Unused?)
    ensures forall k :: i <= k < f ==> !table[k].state.Unused?
    decreases |table| - i
  {
    if i == |table| || table[i].state.Unused? then i else FirstUnused(table, i + 1)
  }

  /** The entry that a new question gets: the first unused one, or else the answered one that is
      oldest, the first of several; the table's size if there is none. */
  function Pick(table: seq<Entry>, seqno: byte): (i: nat)
    ensures i <= |table|
    ensures i < |table| && table[i].state.Unused? ==> forall k :: 0 <= k < i ==> !table[k].state.Unused?
    ensures i < |table| && !table[i].state.Unused? ==>
              && table[i].state.Done? && Age(seqno, table[i]) != 0
              && (forall k :: 0 <= k < |table| ==> !table[k].state.Unused?)
              && (forall k :: 0 <= k < |table| && table[k].state.Done? ==>
                    Age(seqno, table[k]) <= Age(seqno, table[i]) && (k < i ==> Age(seqno, table[k]) < Age(seqno, table[i])))
    ensures i == |table| ==> forall k :: 0 <= k < |table| ==>
              !table[k].state.Unused? && (table[k].state.Done? ==> Age(seqno, table[k]) == 0)
  {
    var u := FirstUnused(table, 0);
    if u < |table| then u else Oldest(table, seqno, |table|).0
  }

  function FirstClosed(pcbs: seq<bool>, i: nat): (f: nat)
    requires i <= |pcbs|
    ensures i <= f <= |pcbs| && (f < |pcbs| ==> !pcbs[f]) && forall k :: i <= k < f ==> pcbs[k]
    decreases |pcbs| - i
  {
    if i == |pcbs| || !pcbs[i] then i else FirstClosed(pcbs, i + 1)
  }

  /** The next open source port from `idx` on, round the end, within `n` steps. */
  function NextOpen(pcbs: seq<bool>, idx: nat, n: nat): (f: nat)
    ensures f <= |pcbs| && (f < |pcbs| ==> pcbs[f])
    decreases n
  {
    if n == 0 then |pcbs| else
      var k := if idx >= |pcbs| then 0 else idx;
      if k < |pcbs| && pcbs[k] then k else NextOpen(pcbs, k + 1, n - 1)
  }

  /** `dns_alloc_pcb`; `bound` tells whether `dns_alloc_random_port` succeeds. */
  function AllocPcb(pcbs: seq<bool>, last: nat, bound: bool): (r: (seq<bool>, nat, nat))
    ensures |r.0| == |pcbs| && r.2 <= |pcbs| && (r.2 < |pcbs| ==> r.0[r.2])
    ensures r.0 == if r.2 < |pcbs| then pcbs[r.2 := true] else pcbs
  {
    var i := FirstClosed(pcbs, 0);
    if i < |pcbs| && bound then (pcbs[i := true], i, i) else
      var k := NextOpen(pcbs, last + 1, |pcbs|);
      if k < |pcbs| then (pcbs, k, k) else (pcbs, last, |pcbs|)
  }

  /** The steps from port `from` on, round the end of `n` ports, to port `q`. */
  function StepsTo(from: nat, q: nat, n: nat): int {
    if q >= from then q - from else q + n - from
  }

  /** Of the open ports the one is found that comes first, if it comes within `n` steps. */
  lemma {:induction false} NextOpenFirst(pcbs: seq<bool>, idx: nat, n: nat, q: nat)
    requires q < |pcbs| && pcbs[q]
    ensures var k := if idx >= |pcbs| then 0 else idx; var f := NextOpen(pcbs, idx, n);
            if StepsTo(k, q, |pcbs|) < n then f < |pcbs| && StepsTo(k, f, |pcbs|) <= StepsTo(k, q, |pcbs|)
            else f < |pcbs| ==> StepsTo(k, f, |pcbs|) < n
    decreases n
  {
    var k := if idx >= |pcbs| then 0 else idx;
    if n > 0 && !pcbs[k] { NextOpenFirst(pcbs, k + 1, n - 1, q); }
  }

  /** `dns_alloc_pcb` opens the first closed port if it can be bound. Otherwise it takes the open
      port that comes first behind the last one taken, and fails exactly if none is open. */
  lemma AllocPcbIs(pcbs: seq<bool>, last: nat, bound: bool)
    ensures var (pcbs', last', p) := AllocPcb(pcbs, last, bound);
            var from := if last + 1 >= |pcbs| then 0 else last + 1;
            if bound && exists q :: 0 <= q < |pcbs| && !pcbs[q]
            then p < |pcbs| && !pcbs[p] && (forall q :: 0 <= q < p ==> pcbs[q]) && pcbs' == pcbs[p := true] && last' == p
            else && pcbs' == pcbs && (p < |pcbs| <==> exists q :: 0 <= q < |pcbs| && pcbs[q])
                 && (p < |pcbs| ==> pcbs[p] && last' == p && forall q :: 0 <= q < |pcbs| && pcbs[q] ==>
                       StepsTo(from, p, |pcbs|) <= StepsTo(from, q, |pcbs|))
  {
    hide NextOpen, StepsTo;
    var from := if last + 1 >= |pcbs| then 0 else last + 1;
    forall q | 0 <= q < |pcbs| && pcbs[q]
      ensures NextOpen(pcbs, last + 1, |pcbs|) < |pcbs|
      ensures StepsTo(from, NextOpen(pcbs, last + 1, |pcbs|), |pcbs|) <= StepsTo(from, q, |pcbs|)
    {
      assert StepsTo(from, q, |pcbs|) < |pcbs| by { StepsBound(from, q, |pcbs|); }
      NextOpenFirst(pcbs, last + 1, |pcbs|, q);
    }
  }

  lemma StepsBound(from: nat, q: nat, n: nat)
    requires from < n && q < n
    ensures 0 <= StepsTo(from, q, n) < n
  {
  }

  datatype Err = InProgress | Mem

  /** `dns_enqueue`. */
  ghost function Enqueue(d: Dns, name: seq<byte>, found: Found, t: AddrType, bound: bool, txid: nat): (r: (Dns, Err)) {
    var dup, f := Duplicate(d.table, name, t, 0), FreeRequest(d.requests, 0);
    if dup < |d.table| && f < |d.requests| then
      (d.(requests := d.requests[f := Request(found, dup)]), InProgress)
    else
      var i := Pick(d.table, d.seqno);
      if i == |d.table| || f == |d.requests| then (d, Mem) else
        var (pcbs, last, p) := AllocPcb(d.pcbs, d.lastPcb, bound);
        var n := if |name| < 255 then name else name[..255];
        var e := d.table[i].(state := New, seqno := d.seqno, addrType := t, name := n, pcb := p);
        var d' := d.(pcbs := pcbs, lastPcb := last);
        if p == |pcbs| then
          (SetEntry(d'.(requests := d.requests[f := Request(NoCallback, i)]), i, e.(state := Unused)), Mem)
        else
          (CheckEntry(SetEntry(d'.(requests := d.requests[f := Request(found, i)], seqno := (d.seqno + 1) % 256), i, e),
                      i, txid), InProgress)
  }
}
