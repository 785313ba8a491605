/** A run of the DNS resolver (lwip/src/core/dns.c) after which it turns requests away although an
    entry of its table holds no more than an old answer: the age of that entry, a `u8_t`, has come
    round to 0. */
module DnsFailures {
  import opened MachineInts
  import opened DnsName
  import opened DnsTable
  import opened DnsInvariants
  import opened DnsMessage
  import opened DnsProgress

  /** The name that entry `k` asks for: one letter. */
  function Letter(k: nat): seq<byte>
    requires k < 5
  {
    [97 + k]
  }

  /** A table as in this repository's configuration: the first entry holds an answer and was the
      first to be filled, the entries from 1 to `j` ask, the others are unused. */
  ghost predicate Answered(d: Dns, j: nat, seqno: nat) {
    && |d.table| == |d.requests| == |d.pcbs| == 4 && d.servers == [1, 0] && 1 <= j <= 4 && seqno < 256 && d.seqno == seqno
    && d.table[0].state.Done? && d.table[0].seqno == 0
    && (forall k :: 1 <= k < j ==> EntryAsks(d.table[k], k))
    && (forall k :: j <= k < 4 ==> d.table[k].state.Unused?)
    && (forall k :: 0 <= k < 4 ==> (d.requests[k].found.Callback? <==> k < j - 1) && (d.pcbs[k] <==> k < j - 1))
    && (forall k :: 0 <= k < j - 1 ==> d.requests[k].entry == k + 1)
  }

  predicate EntryAsks(e: Entry, k: nat) {
    k < 5 && e.state.Asking? && e.name == Letter(k) && e.txid == k && e.addrType.Ipv4? && e.server == 0 && e.pcb == k - 1
  }

  function AskFor(k: nat, id: nat): Step
    requires k < 5
  {
    Ask(Letter(k), Callback(id), Ipv4, true, k)
  }

  /** The server tells entry `k` that the name does not exist. */
  function Refusal(k: nat): Step
    requires k < 5
  {
    Message(Response(k, 3, Letter(k), false, []), 1, 0, i => 0)
  }

  lemma OtherLetters(table: seq<Entry>, j: nat)
    requires |table| == 4 && 1 <= j < 5 && table[0].state.Done?
    requires forall k :: 1 <= k < j && k < 4 ==> EntryAsks(table[k], k)
    requires forall k :: j <= k < 4 ==> table[k].state.Unused?
    ensures forall k :: 0 <= k < 4 ==> !SameQuestion(table[k], Letter(j), Ipv4)
    ensures FreeTxid(table, j) && (forall k :: 1 <= k < j && k < 4 ==> !table[k].state.Unused?)
  {
    forall k | 0 <= k < 4 ensures !SameQuestion(table[k], Letter(j), Ipv4) {
      if table[k].state.Asking? {
        assert EntryAsks(table[k], k);
        assert Lower(Letter(j)[0]) != Lower(Letter(k)[0]);
      }
    }
  }

  /** Another question gets the next entry, request slot and port. */
  lemma NextPlaces(d: Dns, j: nat, seqno: nat)
    requires Answered(d, j, seqno) && j < 4
    ensures var (pcbs, last, p) := AllocPcb(d.pcbs, d.lastPcb, true);
            && Duplicate(d.table, Letter(j), Ipv4, 0) == 4 && FreeRequest(d.requests, 0) == j - 1
            && Pick(d.table, d.seqno) == j && p == j - 1 && pcbs == d.pcbs[j - 1 := true] && FreeTxid(d.table, j)
  {
    hide SameQuestion, Letter, Pick, AllocPcb;
    OtherLetters(d.table, j);
    AllocPcbIs(d.pcbs, d.lastPcb, true);
    assert !d.pcbs[j - 1] && d.table[j].state.Unused?;
  }

  lemma AskNext(d: Dns, j: nat, seqno: nat, id: nat)
    requires Answered(d, j, seqno) && j < 4
    ensures Possible(d, AskFor(j, id)) && Answered(Do(d, AskFor(j, id)), j + 1, (seqno + 1) % 256)
    ensures Accepts(d, AskFor(j, id), id)
  {
    hide SameQuestion, Letter, Pick, AllocPcb, Duplicate, FreeRequest;
    NextPlaces(d, j, seqno);
    LetterLength(j);
  }

  lemma LetterLength(k: nat)
    requires k < 5
    ensures |Letter(k)| == 1
  {
  }

  // ------------------------------------------------------------------------ messages

  lemma ResponseTxid(txid: nat, flags2: byte, name: seq<byte>, rs: seq<Record>)
    requires txid < 0x10000
    ensures var msg := Response(txid, flags2, name, false, rs); |msg| >= HEADER + QUERY && U16(msg, 0) == txid
  {
    hide Wire, AllBytes;
    assert Response(txid, flags2, name, false, rs)[..2] == Word(txid);
    assert |Question(false)| == 4;
  }

  lemma LetterReadable(k: nat)
    requires k < 5
    ensures SameName(Letter(k), Letter(k)) && Readable(Labels(Letter(k))) && |Wire(Letter(k))| == 3
  {
    CutIs(Letter(k), 1);
    WireLength(Letter(k));
  }

  lemma RefusalRead(k: nat, e: Entry)
    requires k < 5 && EntryAsks(e, k)
    ensures ReplyTo(Response(k, 3, Letter(k), false, []), e, true, i => 0) == Failure
  {
    hide Wire, Labels, Readable, SameName, Letter, ReplyTo;
    LetterReadable(k);
    LetterLength(k);
    ResponseRead(k, 3, Letter(k), [], e, i => 0);
  }

  lemma RefusalFrees(d: Dns, seqno: nat)
    requires Answered(d, 2, seqno)
    ensures Possible(d, Refusal(1)) && Answered(Do(d, Refusal(1)), 1, seqno)
  {
    hide ReplyTo, Response, U16, Letter;
    ResponseTxid(1, 3, Letter(1), []);
    assert EntryAsks(d.table[1], 1);
    RefusalRead(1, d.table[1]);
    ServedAt(d.requests, 1);
  }

  // --------------------------------------------------------------------- the first answer

  function EmptyEntry(): Entry { Entry(Unused, 0, 0, 0, 0, 0, 0, 0, [], Ipv4) }

  /** The resolver after start-up, with one server set. */
  function Start(): Dns {
    var e, q := EmptyEntry(), Request(NoCallback, 0);
    Dns([e, e, e, e], [q, q, q, q], [false, false, false, false], 0, 0, [1, 0], [])
  }

  ghost predicate FirstAsks(d: Dns) {
    && |d.table| == |d.requests| == |d.pcbs| == 4 && d.servers == [1, 0] && d.seqno == 1
    && d.table[0].state.Asking? && d.table[0].name == Letter(0) && d.table[0].txid == 0 && d.table[0].addrType.Ipv4?
    && d.table[0].server == 0 && d.table[0].pcb == 0 && d.table[0].seqno == 0
    && (forall k :: 1 <= k < 4 ==> d.table[k].state.Unused? && d.requests[k].found.NoCallback? && !d.pcbs[k])
    && d.requests[0].found.Callback? && d.requests[0].entry == 0
  }

  lemma StartsInitial()
    ensures Initial(Start()) && Possible(Start(), AskFor(0, 0))
  {
  }

  /** The first question gets the first entry, the first request slot and the first port. */
  lemma FirstPlaces()
    ensures var d := Start(); var (pcbs, last, p) := AllocPcb(d.pcbs, d.lastPcb, true);
            && Duplicate(d.table, Letter(0), Ipv4, 0) == 4 && FreeRequest(d.requests, 0) == 0
            && Pick(d.table, d.seqno) == 0 && p == 0 && pcbs == d.pcbs[0 := true]
  {
    hide Letter, Pick, AllocPcb, SameName;
    var d := Start();
    AllocPcbIs(d.pcbs, d.lastPcb, true);
    assert !d.pcbs[0] && d.table[0].state.Unused?;
  }

  lemma FirstQuestion()
    ensures FirstAsks(Do(Start(), AskFor(0, 0))) && Accepts(Start(), AskFor(0, 0), 0)
  {
    hide Letter, Pick, AllocPcb, Duplicate, FreeRequest;
    FirstPlaces();
    LetterLength(0);
  }

  /** The address of the first name, for a week. */
  function FirstRecord(): Record { Record([192, 12], 1, 1, MAX_TTL, [10, 0, 0, 1]) }

  function FirstReply(): Step {
    Message(Response(0, 0, Letter(0), false, [FirstRecord()]), 1, 0, i => 0)
  }

  lemma FirstReplyRead(e: Entry)
    requires e.name == Letter(0) && e.addrType.Ipv4?
    ensures ReplyTo(Response(0, 0, Letter(0), false, [FirstRecord()]), e, true, i => 0) == Found([10, 0, 0, 1], MAX_TTL)
  {
    hide Wire, Labels, Readable, SameName, Letter, ReplyTo, RecordBytes;
    LetterReadable(0);
    LetterLength(0);
    RecordLength(FirstRecord());
    assert AllBytes([FirstRecord()]) == RecordBytes(FirstRecord()) + AllBytes([]);
    ResponseRead(0, 0, Letter(0), [FirstRecord()], e, i => 0);
  }

  lemma FirstAnswer(d: Dns)
    requires FirstAsks(d)
    ensures Possible(d, FirstReply()) && Answered(Do(d, FirstReply()), 1, 1)
  {
    hide ReplyTo, Response, U16, Letter;
    ResponseTxid(0, 0, Letter(0), [FirstRecord()]);
    FirstReplyRead(d.table[0]);
    ServedAt(d.requests, 0);
  }

  // ------------------------------------------------------------------------ the whole run

  lemma RunCons(d: Dns, step: Step, steps: seq<Step>, d': Dns)
    requires Possible(d, step) && Run(Do(d, step), steps, d')
    ensures Run(d, [step] + steps, d')
    ensures Accepted(d, [step] + steps, 0) == One(Accepts(d, step, 0)) + Accepted(Do(d, step), steps, 0)
  {
    hide Do, Possible, Accepts;
    assert ([step] + steps)[1..] == steps;
  }

  /** Three more questions are asked and wait for their answers. */
  lemma AskThree(d: Dns, seqno: nat) returns (steps: seq<Step>, d': Dns)
    requires Answered(d, 1, seqno) && seqno == 253
    ensures Run(d, steps, d') && Answered(d', 4, 0) && Accepted(d, steps, 0) == 3
  {
    hide Do, Possible, Answered, Run, Accepts, Accepted;
    AskNext(d, 1, seqno, 0);
    var d1 := Do(d, AskFor(1, 0));
    AskNext(d1, 2, seqno + 1, 0);
    var d2 := Do(d1, AskFor(2, 0));
    AskNext(d2, 3, seqno + 2, 0);
    d' := Do(d2, AskFor(3, 0));
    RunNone(d');
    RunCons(d2, AskFor(3, 0), [], d');
    assert [AskFor(3, 0)] + [] == [AskFor(3, 0)];
    RunCons(d1, AskFor(2, 0), [AskFor(3, 0)], d');
    steps := [AskFor(1, 0)] + ([AskFor(2, 0)] + [AskFor(3, 0)]);
    RunCons(d, AskFor(1, 0), [AskFor(2, 0)] + [AskFor(3, 0)], d');
  }

  lemma RunNone(d: Dns)
    ensures Run(d, [], d) && Accepted(d, [], 0) == 0
  {
  }

  /** Questions that are refused by the server come and go until the age of the answer is 0. */
  lemma {:induction false} ComesRound(d: Dns, seqno: nat) returns (steps: seq<Step>, d': Dns)
    requires Answered(d, 1, seqno) && 1 <= seqno <= 253
    ensures Run(d, steps, d') && Answered(d', 4, 0) && Accepted(d, steps, 0) == 256 - seqno
    decreases 253 - seqno
  {
    hide Do, Possible, Answered, Run, Accepted;
    if seqno == 253 {
      steps, d' := AskThree(d, seqno);
    } else {
      AskNext(d, 1, seqno, 0);
      var d1 := Do(d, AskFor(1, 0));
      RefusalFrees(d1, seqno + 1);
      var rest;
      rest, d' := ComesRound(Do(d1, Refusal(1)), seqno + 1);
      RunCons(d1, Refusal(1), rest, d');
      RunCons(d, AskFor(1, 0), [Refusal(1)] + rest, d');
      steps := [AskFor(1, 0)] + ([Refusal(1)] + rest);
    }
  }

  /** After such a run a question for a further name is turned away, though the first entry only
      holds an answer, a request slot is free and a source port can be had. */
  lemma OldAnswerBlocks() returns (steps: seq<Step>, d: Dns)
    ensures Initial(Start()) && Run(Start(), steps, d) && Accepted(Start(), steps, 0) == 256 && |d.table| == |d.requests| == |d.pcbs| == 4
    ensures d.table[0].state.Done? && Age(d.seqno, d.table[0]) == 0 && d.requests[3].found.NoCallback? && !d.pcbs[3]
    ensures forall found, bound :: Enqueue(d, Letter(4), found, Ipv4, bound, 4).1.Mem?
  {
    hide Do, Possible, Run, Initial, FirstAsks, Enqueue, SameQuestion, Accepted;
    StartsInitial();
    FirstQuestion();
    var d1 := Do(Start(), AskFor(0, 0));
    FirstAnswer(d1);
    var rest;
    rest, d := ComesRound(Do(d1, FirstReply()), 1);
    RunCons(d1, FirstReply(), rest, d);
    steps := [AskFor(0, 0)] + ([FirstReply()] + rest);
    RunCons(Start(), AskFor(0, 0), [FirstReply()] + rest, d);
    OtherLetters(d.table, 4);
    forall found, bound ensures Enqueue(d, Letter(4), found, Ipv4, bound, 4).1.Mem? {
      RefusedIff(d, Letter(4), found, Ipv4, bound, 4);
    }
  }
}
