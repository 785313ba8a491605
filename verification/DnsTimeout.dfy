/** When an outstanding DNS question ends and what those who wait for it are told
    (lwip/src/core/dns.c). */
module DnsTimeout {
  import opened MachineInts
  import opened DnsName
  import opened DnsTable
  import opened DnsInvariants
  import opened DnsMessage
  import opened DnsProgress

  /** Every callback that waits for the entry is called with the name and the answer, and nobody
      else is. */
  lemma {:induction false} CallsCarry(reqs: seq<Request>, i: nat, name: seq<byte>, answer: Answer)
    ensures forall r :: 0 <= r < |reqs| && reqs[r].found.Callback? && reqs[r].entry == i ==>
              Call(reqs[r].found.id, name, answer) in Calls(reqs, i, name, answer)
    ensures forall c :: c in Calls(reqs, i, name, answer) ==>
              && c.name == name && c.answer == answer
              && exists r :: 0 <= r < |reqs| && reqs[r].found == Callback(c.id) && reqs[r].entry == i
  {
    if reqs != [] {
      var n := |reqs| - 1;
      CallsCarry(reqs[..n], i, name, answer);
      forall c | c in Calls(reqs, i, name, answer)
        ensures c.name == name && c.answer == answer
        ensures exists r :: 0 <= r < |reqs| && reqs[r].found == Callback(c.id) && reqs[r].entry == i
      {
        if c in Calls(reqs[..n], i, name, answer) {
          var r :| 0 <= r < n && reqs[..n][r].found == Callback(c.id) && reqs[..n][r].entry == i;
          assert reqs[r].found == Callback(c.id) && reqs[r].entry == i;
        } else {
          assert reqs[n].found == Callback(c.id) && reqs[n].entry == i;
        }
      }
      forall r | 0 <= r < |reqs| && reqs[r].found.Callback? && reqs[r].entry == i
        ensures Call(reqs[r].found.id, name, answer) in Calls(reqs, i, name, answer)
      {
        if r < n { assert reqs[..n][r] == reqs[r]; }
      }
    }
  }

  // ------------------------------------------------------------------- how long it takes

  /** The ticks in which the servers from `n` on are asked in vain: seven for each, up to the
      first that is not set. */
  function AllAsked(servers: seq<nat>, n: nat): nat
    decreases if n < |servers| then |servers| - n else 0
  {
    if ServerAt(servers, n) == 0 then 0 else 7 + AllAsked(servers, n + 1)
  }

  /** The ticks until an outstanding entry is given up, if no message comes for it and the servers
      stay. */
  function TicksLeft(servers: seq<nat>, e: Entry): nat {
    e.tmr + if e.retries == MAX_RETRIES - 1 then AllAsked(servers, e.server + 1)
            else if ServerAt(servers, e.server) == 0 then 0
            else (if e.retries == 0 then 6 else if e.retries == 1 then 5 else 3) + AllAsked(servers, e.server + 1)
  }

  /** Entry `i`, which asked for `name`, is given up and all who wait for it are told. */
  ghost predicate GivenUp(d: Dns, d': Dns, i: nat, name: seq<byte>) {
    && i < |d.table| == |d'.table| && d'.servers == d.servers && d'.table[i].state.Unused?
    && d'.requests == Served(d.requests, i) && d'.log == d.log + Calls(d.requests, i, name, NoAddress)
  }

  /** Entry `i` goes on with `left` ticks to its end, and nobody is told. */
  ghost predicate GoesOn(d: Dns, d': Dns, i: nat, name: seq<byte>, left: int) {
    && i < |d.table| == |d'.table| && d'.servers == d.servers && d'.table[i].state.Asking? && d'.table[i].name == name
    && d'.requests == d.requests && d'.log == d.log && TicksLeft(d.servers, d'.table[i]) == left
  }

  lemma AbandonTime(d: Dns, i: nat, e: Entry)
    requires i < |d.table|
    ensures GivenUp(d, Abandon(SetEntry(d, i, e), i), i, e.name)
  {
    hide Served, Calls, Shared;
  }

  lemma SendTime(d: Dns, i: nat, e: Entry)
    requires i < |d.table| && e.state.Asking?
    ensures if ServerAt(d.servers, e.server) == 0 then GivenUp(d, Send(SetEntry(d, i, e), i), i, e.name)
            else GoesOn(d, Send(SetEntry(d, i, e), i), i, e.name, TicksLeft(d.servers, e))
  {
    hide Served, Calls, Abandon, TicksLeft;
    AbandonTime(d, i, e);
  }

  /** What the timer makes of an entry leaves it a tick less. */
  lemma NextTry(d: Dns, e: Entry)
    requires EntryOk(d, e) && e.state.Asking?
    ensures var left, srv := TicksLeft(d.servers, e), ServerAt(d.servers, e.server);
            && left > 0
            && (e.tmr > 1 ==> TicksLeft(d.servers, e.(tmr := e.tmr - 1)) == left - 1 > 0)
            && (e.tmr == 1 && e.retries < 3 ==>
                  if srv == 0 then left == 1 else TicksLeft(d.servers, e.(retries := e.retries + 1, tmr := e.retries + 1)) == left - 1 > 0)
            && (e.tmr == 1 && e.retries == 3 ==>
                  if Backup(d, e) then TicksLeft(d.servers, e.(server := e.server + 1, tmr := 1, retries := 0)) == left - 1 > 0
                  else left == 1)
  {
  }

  /** A tick brings the end of an entry nearer by one, and gives it up if it was the last. */
  lemma CheckAskingTime(d: Dns, i: nat)
    requires Inv(d) && i < |d.table| && d.table[i].state.Asking?
    ensures var d', name, left := CheckAsking(d, i), d.table[i].name, TicksLeft(d.servers, d.table[i]);
            left > 0 && if left == 1 then GivenUp(d, d', i, name) else GoesOn(d, d', i, name, left - 1)
  {
    hide InvBut, TicksLeft, Send, Abandon, GivenUp, GoesOn;
    var e := d.table[i];
    EntryIsOk(d, i);
    NextTry(d, e);
    if e.tmr > 1 {
      SetTime(d, i, e.(tmr := e.tmr - 1));
    } else if e.retries < 3 {
      SendTime(d, i, e.(retries := e.retries + 1, tmr := e.retries + 1));
    } else if Backup(d, e) {
      SendTime(d, i, e.(server := e.server + 1, tmr := 1, retries := 0));
    } else {
      AbandonTime(d, i, e.(tmr := 0, retries := 4));
    }
  }

  lemma EntryIsOk(d: Dns, i: nat)
    requires Inv(d) && i < |d.table|
    ensures EntryOk(d, d.table[i])
  {
  }

  lemma SetTime(d: Dns, i: nat, e: Entry)
    requires i < |d.table| && e.state.Asking?
    ensures GoesOn(d, SetEntry(d, i, e), i, e.name, TicksLeft(d.servers, e))
  {
  }

  /** Who waits for entry `i` goes on waiting for it. */
  ghost predicate WaitersStay(d: Dns, d': Dns, i: nat) {
    |d'.requests| == |d.requests| &&
    forall r :: 0 <= r < |d.requests| && d.requests[r].found.Callback? && d.requests[r].entry == i ==>
      d'.requests[r] == d.requests[r]
  }

  /** Who waits for entry `i` has been told that there is no address. */
  ghost predicate Told(d: Dns, d': Dns, i: nat)
    requires i < |d.table|
  {
    d.log <= d'.log &&
    forall r :: 0 <= r < |d.requests| && d.requests[r].found.Callback? && d.requests[r].entry == i ==>
      Call(d.requests[r].found.id, d.table[i].name, NoAddress) in d'.log[|d.log|..]
  }

  ghost predicate Untouched(d: Dns, d': Dns, i: nat) {
    && i < |d.table| == |d'.table| && d'.table[i] == d.table[i] && d'.servers == d.servers && d.log <= d'.log
    && WaitersStay(d, d', i)
  }

  /** Entry `i` is a tick nearer to its end, or has come to it. */
  ghost predicate Timed(d: Dns, d': Dns, i: nat) {
    && i < |d.table| == |d'.table| && d'.servers == d.servers && d.log <= d'.log
    && var left := TicksLeft(d.servers, d.table[i]);
       if left == 1 then d'.table[i].state.Unused? && Told(d, d', i)
       else && d'.table[i].state.Asking? && d'.table[i].name == d.table[i].name && WaitersStay(d, d', i)
            && TicksLeft(d'.servers, d'.table[i]) == left - 1
  }

  lemma OtherEntry(d: Dns, d': Dns, j: nat, drop: nat, i: nat)
    requires Advances(d, d', j, drop) && i < |d.table| && i != j
    ensures Untouched(d, d', i)
  {
    hide Served, Calls, Rank;
    if exists name, answer :: CalledBack(d, d', j, name, answer) { ServedAt(d.requests, j); }
  }

  lemma UntouchedThen(a: Dns, b: Dns, c: Dns, i: nat)
    requires Untouched(a, b, i) && Untouched(b, c, i)
    ensures Untouched(a, c, i)
  {
  }

  lemma InLater(a: seq<Call>, b: seq<Call>, c: seq<Call>, x: Call)
    requires a <= b <= c
    ensures a <= c
    ensures x in b[|a|..] || x in c[|b|..] ==> x in c[|a|..]
  {
    if x in b[|a|..] {
      var k :| 0 <= k < |b[|a|..]| && b[|a|..][k] == x;
      assert c[|a|..][k] == x;
    } else if x in c[|b|..] {
      var k :| 0 <= k < |c[|b|..]| && c[|b|..][k] == x;
      assert c[|a|..][|b| - |a| + k] == x;
    }
  }

  lemma UntouchedTimed(a: Dns, b: Dns, c: Dns, i: nat)
    requires Untouched(a, b, i) && Timed(b, c, i)
    ensures Timed(a, c, i)
  {
    hide TicksLeft;
    forall x ensures a.log <= c.log && (x in c.log[|b.log|..] ==> x in c.log[|a.log|..]) { InLater(a.log, b.log, c.log, x); }
  }

  lemma TimedUntouched(a: Dns, b: Dns, c: Dns, i: nat)
    requires Timed(a, b, i) && Untouched(b, c, i)
    ensures Timed(a, c, i)
  {
    hide TicksLeft;
    forall x ensures a.log <= c.log && (x in b.log[|a.log|..] ==> x in c.log[|a.log|..]) { InLater(a.log, b.log, c.log, x); }
  }

  lemma CheckTimed(d: Dns, i: nat)
    requires Inv(d) && i < |d.table| && d.table[i].state.Asking?
    ensures Timed(d, CheckEntry(d, i, 0), i)
  {
    hide Served, Calls, TicksLeft, InvBut, CheckAsking;
    CheckAskingTime(d, i);
    CallsCarry(d.requests, i, d.table[i].name, NoAddress);
    var calls := Calls(d.requests, i, d.table[i].name, NoAddress);
    assert (d.log + calls)[|d.log|..] == calls;
  }

  /** A tick of `dns_tmr`, as one entry sees it. */
  lemma {:induction false} TickedTimed(d: Dns, n: nat, i: nat)
    requires Inv(d) && n <= |d.table| && i < |d.table| && d.table[i].state.Asking?
    ensures if n <= i then Untouched(d, Ticked(d, n), i) else Timed(d, Ticked(d, n), i)
  {
    hide CheckEntry, InvBut, Advances, Untouched, Timed;
    if n == 0 {
      UntouchedSame(d, i);
    } else {
      var d1, d2 := Ticked(d, n - 1), Ticked(d, n);
      TickedKeeps(d, n - 1);
      TickedTimed(d, n - 1, i);
      if n - 1 == i {
        UntouchedState(d, d1, i);
        CheckTimed(d1, i);
        UntouchedTimed(d, d1, d2, i);
      } else {
        CheckEntryAdvances(d1, n - 1, 0);
        OtherEntry(d1, d2, n - 1, 1, i);
        if n - 1 < i { UntouchedThen(d, d1, d2, i); } else { TimedUntouched(d, d1, d2, i); }
      }
    }
  }

  lemma UntouchedSame(d: Dns, i: nat)
    requires i < |d.table|
    ensures Untouched(d, d, i)
  {
  }

  lemma UntouchedState(d: Dns, d': Dns, i: nat)
    requires Untouched(d, d', i)
    ensures i < |d.table| == |d'.table| && d'.table[i] == d.table[i]
  {
  }

  // ------------------------------------------------------------------------ whole runs

  /** The step brings no message for entry `i` and leaves the servers alone. */
  ghost predicate Silent(d: Dns, step: Step, i: nat)
    requires i < |d.table|
  {
    match step
    case Message(msg, sender, _, behind) =>
      || |msg| < HEADER + QUERY || Target(d.table, U16(msg, 0), 0) != i
      || ReplyTo(msg, d.table[i], sender == ServerAt(d.servers, d.table[i].server), behind).Ignored?
    case SetServer(_, _) => false
    case _ => true
  }

  ghost predicate SilentRun(d: Dns, steps: seq<Step>, i: nat)
    decreases |steps|
  {
    steps == [] || (i < |d.table| && Silent(d, steps[0], i) && SilentRun(Do(d, steps[0]), steps[1..], i))
  }

  lemma AskUntouched(d: Dns, step: Step, i: nat)
    requires Inv(d) && step.Ask? && i < |d.table| && d.table[i].state.Asking?
    ensures Untouched(d, Do(d, step), i)
  {
    hide CheckEntry, Enqueue, InvBut, Advances, Rank;
    var kind, d1, j, f := EnqueueCases(d, step.name, step.found, step.t, step.bound, step.txid);
    if kind == 1 {
      FirstCheckAdvances(d1, j, step.txid);
      OtherEntry(d1, Do(d, step), j, 0, i);
    }
  }

  lemma SilentStep(d: Dns, step: Step, i: nat)
    requires Inv(d) && Possible(d, step) && i < |d.table| && d.table[i].state.Asking? && Silent(d, step, i)
    ensures if step.Tick? then Timed(d, Do(d, step), i) else Untouched(d, Do(d, step), i)
  {
    hide InvBut, Enqueue, Received, Ticked, ReplyTo, Advances, U16, Untouched, Timed;
    match step {
      case Ask(name, found, t, bound, txid) => AskUntouched(d, step, i);
      case Message(msg, sender, txid, behind) =>
        UntouchedSame(d, i);
        if |msg| >= HEADER + QUERY {
          var j := Target(d.table, U16(msg, 0), 0);
          if j == i {
            NothingReceived(d, i, txid);
          } else if j < |d.table| {
            ReceivedAdvances(d, j, ReplyTo(msg, d.table[j], sender == ServerAt(d.servers, d.table[j].server), behind), txid);
            OtherEntry(d, Do(d, step), j, 0, i);
          }
        }
      case Tick => TickedTimed(d, |d.table|, i);
    }
  }

  lemma NothingReceived(d: Dns, i: nat, txid: nat)
    requires i < |d.table|
    ensures Received(d, i, Ignored, txid) == d
  {
  }

  /** As long as no message comes for an entry, it is outstanding for `TicksLeft` ticks exactly, and
      who waits for it waits: whatever is asked and whatever is answered to others. */
  lemma {:induction false} TimeoutComes(d: Dns, steps: seq<Step>, d': Dns, i: nat)
    requires Inv(d) && i < |d.table| && d.table[i].state.Asking? && Run(d, steps, d') && SilentRun(d, steps, i)
    requires Ticks(steps) < TicksLeft(d.servers, d.table[i])
    ensures i < |d'.table| && d'.table[i].state.Asking? && d'.table[i].name == d.table[i].name && d.log <= d'.log
    ensures TicksLeft(d'.servers, d'.table[i]) + Ticks(steps) == TicksLeft(d.servers, d.table[i])
    ensures WaitersStay(d, d', i)
    decreases |steps|
  {
    hide InvBut, Do, Possible, Silent, TicksLeft;
    if steps != [] {
      var d1 := Do(d, steps[0]);
      StepKeepsInv(d, steps[0]);
      SilentStep(d, steps[0], i);
      TimeoutComes(d1, steps[1..], d', i);
    }
  }

  /** With the last of these ticks everybody who waits for the entry is told that there is no
      address, and the entry is free. */
  lemma TimeoutTells(d: Dns, steps: seq<Step>, d1: Dns, i: nat)
    requires Inv(d) && i < |d.table| && d.table[i].state.Asking? && Run(d, steps, d1) && SilentRun(d, steps, i)
    requires Ticks(steps) + 1 == TicksLeft(d.servers, d.table[i])
    ensures var d' := Do(d1, Tick);
            && i < |d1.table| == |d'.table| && d'.table[i].state.Unused? && Told(d1, d', i) && Told(d, d', i)
  {
    hide InvBut, Do, TicksLeft;
    TimeoutComes(d, steps, d1, i);
    RunKeepsInv(d, steps, d1);
    SilentStep(d1, Tick, i);
    var d' := Do(d1, Tick);
    forall x ensures d.log <= d'.log && (x in d'.log[|d1.log|..] ==> x in d'.log[|d.log|..]) { InLater(d.log, d1.log, d'.log, x); }
  }

  // --------------------------------------------------------------- what a message does

  /** The ticks that a message without an address leaves to its entry: after a failure those of
      the next servers, without an answer those of the other address family. */
  function LeftAfter(servers: seq<nat>, e: Entry, reply: Reply): nat {
    match reply
    case Failure => AllAsked(servers, e.server + 1)
    case Nothing => if HasFallback(e.addrType) then AllAsked(servers, 0) else 0
    case _ => TicksLeft(servers, e)
  }

  /** An address that was found goes to all who wait for the entry and stays for its time to live,
      at most the maximum. Otherwise they are told at once that there is none, exactly if no
      server is left to be asked; if there is one, the entry goes on, with that server's time. */
  lemma AnswerDelivered(d: Dns, i: nat, reply: Reply, txid: nat)
    requires Inv(d) && i < |d.table| && d.table[i].state.Asking?
    ensures var d', e := Received(d, i, reply, txid), d.table[i];
            var left := LeftAfter(d.servers, e, reply);
            if reply.Found? then
              && d'.log == d.log + Calls(d.requests, i, e.name, Address(reply.bytes)) && d'.requests == Served(d.requests, i)
              && d'.table[i].ttl == (if reply.ttl < MAX_TTL then reply.ttl else MAX_TTL)
              && d'.table[i].state == (if reply.ttl == 0 then Unused else Done) && d'.table[i].name == e.name
              && d'.table[i].addrType == (if |reply.bytes| == 16 then Ipv6 else Ipv4)
            else if left == 0 then GivenUp(d, d', i, e.name)
            else GoesOn(d, d', i, e.name, left)
  {
    hide Served, Calls, Shared, InvBut, Send, Abandon, GivenUp, GoesOn;
    var e := d.table[i];
    EntryIsOk(d, i);
    match reply {
      case Found(bytes, ttl) =>
      case Ignored =>
        hide TicksLeft;
        NextTry(d, e);
        SetTime(d, i, e);
        assert SetEntry(d, i, e) == d;
      case Failure =>
        AbandonTime(d, i, e);
        assert SetEntry(d, i, e) == d;
        SendTime(d, i, e.(server := e.server + 1, tmr := 1, retries := 0));
        if Backup(d, e) { FailureIsNext(d, i, txid); }
      case Nothing =>
        AbandonTime(d, i, e);
        assert SetEntry(d, i, e) == d;
        SendTime(d, i, e.(addrType := Fallback(e.addrType), txid := txid, server := 0, tmr := 1, retries := 0));
        if HasFallback(e.addrType) { FallbackIsNew(d, i, txid); }
    }
  }

  lemma SendAsks(d: Dns, i: nat, e: Entry)
    requires i < |d.table|
    ensures var d' := Send(SetEntry(d, i, e), i); |d'.table| == |d.table| && (d'.table[i].state.Asking? ==> d'.table[i] == e)
  {
    hide Served, Calls, Shared;
  }

  lemma AbandonEnds(d: Dns, i: nat)
    requires i < |d.table|
    ensures |Abandon(d, i).table| == |d.table| && Abandon(d, i).table[i].state.Unused?
  {
    hide Served, Calls, Shared;
  }

  /** What is asked next after a message without an address: after a failure the same of the next
      server, without an answer the other address family, as the last, of the first. */
  lemma NextQuestion(d: Dns, i: nat, reply: Reply, txid: nat)
    requires i < |d.table| && d.table[i].state.Asking? && (reply.Failure? || reply.Nothing?)
    ensures |Received(d, i, reply, txid).table| == |d.table|
    ensures var e, e' := d.table[i], Received(d, i, reply, txid).table[i];
            e'.state.Asking? ==>
              if reply.Failure? then e'.addrType == e.addrType && e'.server == e.server + 1 && e'.txid == e.txid
              else && HasFallback(e.addrType) && !HasFallback(e'.addrType) && (IsV6(e'.addrType) <==> !IsV6(e.addrType))
                   && e'.server == 0 && e'.txid == txid
  {
    hide Send, Abandon;
    var e := d.table[i];
    AbandonEnds(d, i);
    if reply.Failure? {
      SendAsks(d, i, e.(server := e.server + 1, tmr := 1, retries := 0));
      if Backup(d, e) { FailureIsNext(d, i, txid); }
    } else {
      SendAsks(d, i, e.(addrType := Fallback(e.addrType), txid := txid, server := 0, tmr := 1, retries := 0));
      if HasFallback(e.addrType) { FallbackIsNew(d, i, txid); }
    }
  }

  /** An answer without an address makes an entry that began with both families ask for the second
      one if there is a server, and ends every other entry. */
  lemma SecondFamily(d: Dns, i: nat, txid: nat)
    requires i < |d.table| && d.table[i].state.Asking?
    ensures |Received(d, i, Nothing, txid).table| == |d.table|
    ensures var t, e' := d.table[i].addrType, Received(d, i, Nothing, txid).table[i];
            && (e'.state.Asking? <==> (t.Ipv4Ipv6? || t.Ipv6Ipv4?) && ServerAt(d.servers, 0) != 0)
            && (e'.state.Asking? ==> e'.addrType == if t.Ipv4Ipv6? then Ipv6 else Ipv4)
  {
    hide Abandon;
    var e := d.table[i];
    AbandonEnds(d, i);
    AbandonEnds(SetEntry(d, i, e.(addrType := Fallback(e.addrType), txid := txid, server := 0, tmr := 1, retries := 0)), i);
    if HasFallback(e.addrType) { FallbackIsNew(d, i, txid); }
  }

  lemma SetTwice(d: Dns, i: nat, a: Entry, b: Entry)
    requires i < |d.table|
    ensures SetEntry(SetEntry(d, i, a), i, b) == SetEntry(d, i, b)
  {
    assert d.table[i := a][i := b] == d.table[i := b];
  }

  lemma FailureIsNext(d: Dns, i: nat, txid: nat)
    requires i < |d.table| && d.table[i].state.Asking? && Backup(d, d.table[i])
    ensures Received(d, i, Failure, txid) ==
            Send(SetEntry(d, i, d.table[i].(server := d.table[i].server + 1, tmr := 1, retries := 0)), i)
  {
    hide Send, Abandon;
    var e := d.table[i];
    SetTwice(d, i, e.(retries := MAX_RETRIES - 1, tmr := 1), e.(server := e.server + 1, tmr := 1, retries := 0));
  }

  lemma FallbackIsNew(d: Dns, i: nat, txid: nat)
    requires i < |d.table| && d.table[i].state.Asking? && HasFallback(d.table[i].addrType)
    ensures var e := d.table[i];
            Received(d, i, Nothing, txid) ==
            Send(SetEntry(d, i, e.(addrType := Fallback(e.addrType), txid := txid, server := 0, tmr := 1, retries := 0)), i)
  {
    hide Send, Abandon;
    var e := d.table[i].(addrType := Fallback(d.table[i].addrType));
    SetTwice(d, i, e.(state := New), e.(txid := txid, server := 0, tmr := 1, retries := 0));
  }

  // ---------------------------------------------------------- both address families

  /** What may become of the address family that an entry asks for: it stays, or the other one is
      asked for and no further one is left. */
  predicate FamilyStep(t: AddrType, t': AddrType) {
    t' == t || (HasFallback(t) && !HasFallback(t') && (IsV6(t') <==> !IsV6(t)))
  }

  lemma CheckFamily(d: Dns, i: nat)
    requires i < |d.table| && d.table[i].state.Asking?
    ensures |CheckAsking(d, i).table| == |d.table|
    ensures CheckAsking(d, i).table[i].state.Asking? ==> CheckAsking(d, i).table[i].addrType == d.table[i].addrType
  {
    hide Served, Calls, Shared;
  }

  lemma {:induction false} TickedFamily(d: Dns, n: nat, i: nat)
    requires Inv(d) && n <= |d.table| && i < |d.table| && d.table[i].state.Asking?
    ensures |Ticked(d, n).table| == |d.table|
    ensures Ticked(d, n).table[i].state.Asking? ==> Ticked(d, n).table[i].addrType == d.table[i].addrType
    ensures n <= i ==> Ticked(d, n).table[i] == d.table[i]
  {
    hide CheckAsking, InvBut, Advances;
    if n > 0 {
      var d1 := Ticked(d, n - 1);
      TickedKeeps(d, n - 1);
      TickedFamily(d, n - 1, i);
      if n - 1 == i {
        CheckFamily(d1, i);
      } else {
        CheckEntryAdvances(d1, n - 1, 0);
        OtherEntry(d1, Ticked(d, n), n - 1, 1, i);
      }
    }
  }

  lemma FoundIsDone(d: Dns, i: nat, reply: Reply, txid: nat)
    requires i < |d.table| && reply.Found?
    ensures |Received(d, i, reply, txid).table| == |d.table| && !Received(d, i, reply, txid).table[i].state.Asking?
  {
    hide Served, Calls, Shared;
  }

  lemma StepFamily(d: Dns, step: Step, i: nat)
    requires Inv(d) && Possible(d, step) && i < |d.table| && d.table[i].state.Asking?
    ensures |Do(d, step).table| == |d.table|
    ensures Do(d, step).table[i].state.Asking? ==> FamilyStep(d.table[i].addrType, Do(d, step).table[i].addrType)
  {
    hide InvBut, Enqueue, Received, Ticked, ReplyTo, Advances, U16, IsV6, HasFallback;
    match step {
      case Ask(name, found, t, bound, txid) => AskUntouched(d, step, i);
      case Message(msg, sender, txid, behind) =>
        if |msg| >= HEADER + QUERY {
          var j := Target(d.table, U16(msg, 0), 0);
          if j < |d.table| {
            var reply := ReplyTo(msg, d.table[j], sender == ServerAt(d.servers, d.table[j].server), behind);
            if j == i {
              if reply.Failure? || reply.Nothing? { NextQuestion(d, i, reply, txid); }
              else if reply.Ignored? { NothingReceived(d, i, txid); }
              else { FoundIsDone(d, i, reply, txid); }
            } else {
              ReceivedAdvances(d, j, reply, txid);
              OtherEntry(d, Do(d, step), j, 0, i);
            }
          }
        }
      case Tick => TickedFamily(d, |d.table|, i);
      case SetServer(n, address) =>
    }
  }

  /** Entry `i` is outstanding in every state of the run. */
  ghost predicate AsksThroughout(d: Dns, steps: seq<Step>, i: nat)
    decreases |steps|
  {
    i < |d.table| && d.table[i].state.Asking? && (steps != [] ==> AsksThroughout(Do(d, steps[0]), steps[1..], i))
  }

  /** As long as an entry is outstanding it asks for the family it began with, or else for the
      other one as the last. */
  lemma {:induction false} FamiliesInTurn(d: Dns, steps: seq<Step>, d': Dns, i: nat)
    requires Inv(d) && Run(d, steps, d') && AsksThroughout(d, steps, i)
    ensures i < |d'.table| && d'.table[i].state.Asking? && FamilyStep(d.table[i].addrType, d'.table[i].addrType)
    decreases |steps|
  {
    hide InvBut, Do, Possible, IsV6, HasFallback;
    if steps != [] {
      StepKeepsInv(d, steps[0]);
      StepFamily(d, steps[0], i);
      FamiliesInTurn(Do(d, steps[0]), steps[1..], d', i);
    }
  }

  /** An entry that may ask for both families is given up on an answer without an address only when
      the other family has been asked for, unless the first server has gone. */
  lemma GivenUpAfterBoth(d: Dns, steps: seq<Step>, d': Dns, i: nat, txid: nat)
    requires Inv(d) && Run(d, steps, d') && AsksThroughout(d, steps, i) && HasFallback(d.table[i].addrType)
    requires i < |d'.table| && !Received(d', i, Nothing, txid).table[i].state.Asking? && ServerAt(d'.servers, 0) != 0
    ensures IsV6(d'.table[i].addrType) <==> !IsV6(d.table[i].addrType)
  {
    hide InvBut, Run, Do, AsksThroughout;
    FamiliesInTurn(d, steps, d', i);
    RunKeepsInv(d, steps, d');
    if HasFallback(d'.table[i].addrType) { FallbackIsNew(d', i, txid); }
  }
}
