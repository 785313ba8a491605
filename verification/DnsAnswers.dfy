/** What the DNS resolver (lwip/src/core/dns.c) does from end to end: what a request asks, how a
    response comes to those who wait, and how long an answer is kept. */
module DnsAnswers {
  import opened MachineInts
  import opened DnsName
  import opened DnsTable
  import opened DnsInvariants
  import opened DnsMessage
  import opened DnsProgress
  import opened DnsTimeout

  // --------------------------------------------------------------- what a request asks

  /** The first free request slot is `f`. */
  ghost predicate FirstFree(reqs: seq<Request>, f: nat) {
    f < |reqs| && reqs[f].found.NoCallback? && forall k :: 0 <= k < f ==> reqs[k].found.Callback?
  }

  /** A request for what an outstanding entry already asks waits for the first such entry, and
      nothing is sent. */
  lemma JoinsQuestion(d: Dns, name: seq<byte>, found: Found, t: AddrType, bound: bool, txid: nat, i: nat, f: nat)
    requires i < |d.table| && SameQuestion(d.table[i], name, t) && forall k :: 0 <= k < i ==> !SameQuestion(d.table[k], name, t)
    requires FirstFree(d.requests, f)
    ensures Enqueue(d, name, found, t, bound, txid) == (d.(requests := d.requests[f := Request(found, i)]), InProgress)
  {
    hide SameQuestion;
  }

  /** The entry that a new question makes. */
  function Fresh(e: Entry, name: seq<byte>, t: AddrType, seqno: byte, p: nat, txid: nat): Entry {
    Entry(Asking, txid, 0, 1, 0, seqno, p, e.ttl, if |name| < 255 then name else name[..255], t)
  }

  /** A new question that is accepted takes the picked entry, the first free request slot and a
      source port, and asks the first server for the first 255 bytes of the name and for the address
      type, with the id that was drawn. If there is no server, who asked is told at once. */
  lemma AsksQuestion(d: Dns, name: seq<byte>, found: Found, t: AddrType, bound: bool, txid: nat, f: nat)
    requires Inv(d) && FirstFree(d.requests, f) && forall k :: 0 <= k < |d.table| ==> !SameQuestion(d.table[k], name, t)
    requires Enqueue(d, name, found, t, bound, txid).1.InProgress?
    ensures var d', i := Enqueue(d, name, found, t, bound, txid).0, Pick(d.table, d.seqno);
            var (pcbs, last, p) := AllocPcb(d.pcbs, d.lastPcb, bound);
            && i < |d.table| && p < |pcbs| && d'.seqno == (d.seqno + 1) % 256 && d'.servers == d.servers
            && if ServerAt(d.servers, 0) != 0 then
                 && d'.table == d.table[i := Fresh(d.table[i], name, t, d.seqno, p, txid)]
                 && d'.requests == d.requests[f := Request(found, i)] && d'.log == d.log && d'.pcbs == pcbs && d'.lastPcb == last
               else
                 && |d'.table| == |d.table| && d'.table[i].state.Unused?
                 && (found.Callback? ==> Call(found.id, Fresh(d.table[i], name, t, d.seqno, p, txid).name, NoAddress) in d'.log)
  {
    hide SameQuestion, Pick, AllocPcb, InvBut, Abandon;
    var i := Pick(d.table, d.seqno);
    var (pcbs, last, p) := AllocPcb(d.pcbs, d.lastPcb, bound);
    var e := Fresh(d.table[i], name, t, d.seqno, p, txid);
    var d1 := d.(pcbs := pcbs, lastPcb := last, requests := d.requests[f := Request(found, i)], seqno := (d.seqno + 1) % 256);
    SetTwice(d1, i, e.(state := New, txid := d.table[i].txid, server := d.table[i].server, tmr := d.table[i].tmr,
                       retries := d.table[i].retries), e);
    if ServerAt(d.servers, 0) == 0 {
      AbandonTime(d1, i, e);
      AbandonSeqno(SetEntry(d1, i, e), i);
      CallsCarry(d1.requests, i, e.name, NoAddress);
      assert d1.requests[f] == Request(found, i);
    }
  }

  lemma AbandonSeqno(d: Dns, i: nat)
    requires i < |d.table|
    ensures Abandon(d, i).seqno == d.seqno && Abandon(d, i).servers == d.servers
  {
  }

  // ------------------------------------------------------------- which messages count

  /** A message changes something only if it is a response from the server that was asked, with one
      question, which is for the name, the type and the class that were asked. */
  lemma OnlyAnswersCount(msg: seq<byte>, e: Entry, sender: bool, behind: nat -> byte)
    requires !ReplyTo(msg, e, sender, behind).Ignored?
    ensures sender && |msg| >= HEADER + QUERY && msg[2] >= 128 && U16(msg, 4) == 1
    ensures var r := CompareFrom(Memory(e.name, behind), 0, msg, HEADER);
            && r != FAIL && r + QUERY <= |msg|
            && U16(msg, r) == (if IsV6(e.addrType) then 28 else 1) && U16(msg, r + 2) == 1
    ensures ReplyTo(msg, e, sender, behind).Failure? <==> msg[3] % 16 != 0
  {
    hide ReadAnswers;
    ReadNeverFails(msg, CompareFrom(Memory(e.name, behind), 0, msg, HEADER) + QUERY, if |msg| >= 8 then U16(msg, 6) else 0,
                   IsV6(e.addrType));
  }

  lemma {:induction false} ReadNeverFails(msg: seq<byte>, off: nat, n: nat, v6: bool)
    ensures !ReadAnswers(msg, off, n, v6).Failure?
    decreases n
  {
    hide U16, U32;
    if n > 0 && off < |msg| {
      var r := SkipFrom(msg, off);
      if r != FAIL && r + RECORD <= |msg| { ReadNeverFails(msg, r + RECORD + U16(msg, r + 8), n - 1, v6); }
    }
  }

  /** A message for nobody, by its id, changes nothing. */
  lemma StrangerIgnored(d: Dns, msg: seq<byte>, sender: nat, txid: nat, behind: nat -> byte)
    requires |msg| < HEADER + QUERY || FreeTxid(d.table, U16(msg, 0))
    ensures Do(d, Message(msg, sender, txid, behind)) == d
  {
    hide U16, ReplyTo, Received;
  }

  lemma ResponseId(txid: nat, flags2: byte, name: seq<byte>, v6: bool, rs: seq<Record>)
    requires txid < 0x10000
    ensures var msg := Response(txid, flags2, name, v6, rs); |msg| >= HEADER + QUERY && U16(msg, 0) == txid
  {
    hide Wire, AllBytes;
    assert Response(txid, flags2, name, v6, rs)[..2] == Word(txid);
    assert |Question(v6)| == 4;
  }

  /** The response to the question of an outstanding entry does to it what the records say: whoever
      waits gets the first address of the family asked for. */
  lemma ResponseReaches(d: Dns, i: nat, flags2: byte, name: seq<byte>, rs: seq<Record>, sender: nat, txid: nat, behind: nat -> byte)
    requires Inv(d) && i < |d.table| && d.table[i].state.Asking? && d.table[i].txid < 0x10000
    requires ResponseOk(name, rs) && SameName(d.table[i].name, name) && Readable(Labels(d.table[i].name))
    requires |Response(d.table[i].txid, flags2, name, IsV6(d.table[i].addrType), rs)| <= 0xFFFF
    requires sender == ServerAt(d.servers, d.table[i].server)
    ensures var e := d.table[i]; var v6 := IsV6(e.addrType);
            Do(d, Message(Response(e.txid, flags2, name, v6, rs), sender, txid, behind))
            == Received(d, i, if flags2 % 16 != 0 then Failure else FirstAddress(rs, v6), txid)
  {
    hide ReplyTo, Response, U16, Received, SameName, Readable, Labels, RecordOk;
    var e := d.table[i];
    ResponseId(e.txid, flags2, name, IsV6(e.addrType), rs);
    ResponseRead(e.txid, flags2, name, rs, e, behind);
    var j := Target(d.table, e.txid, 0);
    assert j < |d.table| && j == i;
  }

  // ---------------------------------------------------------- how long an answer is kept

  /** The step does not give the answered entry `i` to a new question. */
  predicate Keeps(d: Dns, step: Step, i: nat) {
    step.Ask? ==> Pick(d.table, d.seqno) != i
  }

  lemma AskKeeps(d: Dns, step: Step, i: nat)
    requires Inv(d) && step.Ask? && i < |d.table| && Pick(d.table, d.seqno) != i
    ensures |Do(d, step).table| == |d.table| && Do(d, step).table[i] == d.table[i]
  {
    hide CheckEntry, Pick, AllocPcb, InvBut, SameQuestion;
    var j := Pick(d.table, d.seqno);
    var dup, f := Duplicate(d.table, step.name, step.t, 0), FreeRequest(d.requests, 0);
    if !(dup < |d.table| && f < |d.requests|) && j < |d.table| && f < |d.requests| {
      var (pcbs, last, p) := AllocPcb(d.pcbs, d.lastPcb, step.bound);
      if p != |pcbs| {
        var n := if |step.name| < 255 then step.name else step.name[..255];
        var e := d.table[j].(state := New, seqno := d.seqno, addrType := step.t, name := n, pcb := p);
        var d1 := SetEntry(d.(pcbs := pcbs, lastPcb := last, requests := d.requests[f := Request(step.found, j)],
                              seqno := (d.seqno + 1) % 256), j, e);
        FirstCheckAdvances(d1, j, step.txid);
      }
    }
  }

  /** What a tick makes of an answered entry. */
  function Aged(e: Entry): Entry {
    if e.ttl <= 1 then e.(ttl := 0, state := Unused) else e.(ttl := e.ttl - 1)
  }

  lemma {:induction false} TickedAnswer(d: Dns, n: nat, i: nat)
    requires Inv(d) && n <= |d.table| && i < |d.table| && d.table[i].state.Done?
    ensures |Ticked(d, n).table| == |d.table| && Ticked(d, n).table[i] == if n <= i then d.table[i] else Aged(d.table[i])
  {
    hide CheckAsking, InvBut, Advances;
    if n > 0 {
      var d1 := Ticked(d, n - 1);
      TickedKeeps(d, n - 1);
      TickedAnswer(d, n - 1, i);
      if n - 1 != i {
        CheckEntryAdvances(d1, n - 1, 0);
        OtherEntry(d1, Ticked(d, n), n - 1, 1, i);
      }
    }
  }

  lemma AnswerStep(d: Dns, step: Step, i: nat)
    requires Inv(d) && Possible(d, step) && i < |d.table| && d.table[i].state.Done? && Keeps(d, step, i)
    ensures |Do(d, step).table| == |d.table|
    ensures Do(d, step).table[i] == if step.Tick? then Aged(d.table[i]) else d.table[i]
  {
    hide InvBut, Enqueue, Received, Ticked, ReplyTo, Advances, U16, Pick;
    match step {
      case Ask(name, found, t, bound, txid) => AskKeeps(d, step, i);
      case Message(msg, sender, txid, behind) =>
        if |msg| >= HEADER + QUERY {
          var j := Target(d.table, U16(msg, 0), 0);
          if j < |d.table| {
            ReceivedAdvances(d, j, ReplyTo(msg, d.table[j], sender == ServerAt(d.servers, d.table[j].server), behind), txid);
            OtherEntry(d, Do(d, step), j, 0, i);
          }
        }
      case Tick => TickedAnswer(d, |d.table|, i);
      case SetServer(n, address) =>
    }
  }

  ghost predicate KeptThroughout(d: Dns, steps: seq<Step>, i: nat)
    decreases |steps|
  {
    steps != [] ==> Keeps(d, steps[0], i) && KeptThroughout(Do(d, steps[0]), steps[1..], i)
  }

  /** An answer is kept for exactly its time to live in ticks, unless its entry is given to another
      question; then the entry is free. */
  lemma {:induction false} AnswerLasts(d: Dns, steps: seq<Step>, d': Dns, i: nat)
    requires Inv(d) && Run(d, steps, d') && KeptThroughout(d, steps, i)
    requires i < |d.table| && d.table[i].state.Done? && Ticks(steps) <= d.table[i].ttl
    ensures i < |d'.table|
    ensures Ticks(steps) < d.table[i].ttl || Ticks(steps) == 0 ==> d'.table[i] == d.table[i].(ttl := d.table[i].ttl - Ticks(steps))
    decreases |steps|
  {
    hide InvBut, Do, Possible, Keeps;
    if steps != [] {
      StepKeepsInv(d, steps[0]);
      AnswerStep(d, steps[0], i);
      if Do(d, steps[0]).table[i].state.Done? { AnswerLasts(Do(d, steps[0]), steps[1..], d', i); }
      else { TableSize(Do(d, steps[0]), steps[1..], d'); }
    }
  }

  lemma AnswerExpires(d: Dns, steps: seq<Step>, d1: Dns, i: nat)
    requires Inv(d) && Run(d, steps, d1) && KeptThroughout(d, steps, i)
    requires i < |d.table| && d.table[i].state.Done? && Ticks(steps) + 1 == d.table[i].ttl
    ensures |Do(d1, Tick).table| > i && Do(d1, Tick).table[i].state.Unused?
  {
    hide InvBut, Run, Do, KeptThroughout;
    AnswerLasts(d, steps, d1, i);
    RunKeepsInv(d, steps, d1);
    AnswerStep(d1, Tick, i);
  }

  lemma {:induction false} TableSize(d: Dns, steps: seq<Step>, d': Dns)
    requires Inv(d) && Run(d, steps, d')
    ensures |d'.table| == |d.table|
    decreases |steps|
  {
    hide Do, Possible, InvBut;
    if steps != [] {
      StepKeepsInv(d, steps[0]);
      StepSize(d, steps[0]);
      TableSize(Do(d, steps[0]), steps[1..], d');
    }
  }

  lemma StepSize(d: Dns, step: Step)
    requires Inv(d) && Possible(d, step)
    ensures |Do(d, step).table| == |d.table|
  {
    hide InvBut, Enqueue, Received, Ticked, ReplyTo, U16, CheckEntry;
    var _ := StepSlots(d, step, 0);
    StepKeepsInv(d, step);
    InvSizes(d);
    InvSizes(Do(d, step));
  }
}
