/** What the events of lwip/src/api/sockets.c do to the counters of a socket, and how they come to
    the threads in `lwip_select`. */
module SelectEvents {
  import opened MachineInts
  import opened Select

  // ------------------------------------------------------------- what the counters are

  /** The event callback for `evt` on socket `s` changes the counters. */
  predicate Arrives(st: State, step: Step, s: nat, evt: Event) {
    step.Update? && st.core == Callback(s, evt)
  }

  /** `alloc_socket` writes the field `w` of socket `s`. */
  predicate Writes(st: State, step: Step, s: nat, w: Write) {
    step.Init? && step.a in st.allocs && st.allocs[step.a].s == s && st.allocs[step.a].next == w
  }

  /** The messages received less those taken, starting with `n`, since `alloc_socket` last wrote
      `rcvevent` of `s`. */
  ghost function Received(st: State, steps: seq<Step>, s: nat, n: int): int
    decreases |steps|
  {
    if steps == [] || |st.leaked| != |st.socks| || !Enabled(st, steps[0]) then n
    else
      var n' := if Arrives(st, steps[0], s, RcvPlus) then n + 1
                else if steps[0] == Minus(s, RcvMinus) then n - 1
                else if Writes(st, steps[0], s, Rcv) then 0 else n;
      Received(Do(st, steps[0]), steps[1..], s, n')
  }

  /** What was last said about room to write on `s`. */
  ghost function LastSend(st: State, steps: seq<Step>, s: nat, b: bool): bool
    decreases |steps|
  {
    if steps == [] || |st.leaked| != |st.socks| || !Enabled(st, steps[0]) then b
    else
      var b' := if Arrives(st, steps[0], s, SendPlus) then true
                else if steps[0] == Minus(s, SendMinus) then false
                else if Writes(st, steps[0], s, Send) then st.allocs[steps[0].a].writable else b;
      LastSend(Do(st, steps[0]), steps[1..], s, b')
  }

  /** Whether there was an error on `s` since `alloc_socket` last cleared it. */
  ghost function Erred(st: State, steps: seq<Step>, s: nat, b: bool): bool
    decreases |steps|
  {
    if steps == [] || |st.leaked| != |st.socks| || !Enabled(st, steps[0]) then b
    else
      var b' := if Arrives(st, steps[0], s, Error) then true else if Writes(st, steps[0], s, Err) then false else b;
      Erred(Do(st, steps[0]), steps[1..], s, b')
  }

  /** The callbacks under way are those that raise an event, and `rcvevent` is an `s16_t`. */
  predicate Typed(st: State) {
    && (st.core.Callback? ==> st.core.evt.RcvPlus? || st.core.evt.SendPlus? || st.core.evt.Error?)
    && forall s :: 0 <= s < |st.socks| ==> -0x8000 <= st.socks[s].rcv <= 0x7fff
  }

  /** What a step does to the event counters of socket `s`. */
  ghost predicate Counted(st: State, step: Step, st': State, s: nat) {
    && s < |st.socks| == |st'.socks|
    && st'.socks[s].rcv == (if Arrives(st, step, s, RcvPlus) then (if st.socks[s].rcv == 0x7fff then -0x8000 else st.socks[s].rcv + 1)
                            else if step == Minus(s, RcvMinus) then st.socks[s].rcv - 1
                            else if Writes(st, step, s, Rcv) then 0 else st.socks[s].rcv)
    && (st'.socks[s].send <==> if Arrives(st, step, s, SendPlus) then true else if step == Minus(s, SendMinus) then false
                               else if Writes(st, step, s, Send) then st.allocs[step.a].writable else st.socks[s].send)
    && (st'.socks[s].err <==> if Arrives(st, step, s, Error) then true else if Writes(st, step, s, Err) then false else st.socks[s].err)
  }

  lemma ThreadCounts(st: State, step: Step, s: nat)
    requires Enabled(st, step) && |st.leaked| == |st.socks| && s < |st.socks|
    requires step.IncOne? || step.ScanOne? || step.DecOne?
    ensures Counted(st, step, Do(st, step), s)
  {
    hide DoInc, DoScan, DoDec, Do;
    ThreadStep(st, step, step.t);
    assert Do(st, step).socks[s].(waiting := 0) == st.socks[s].(waiting := 0);
  }

  lemma StepCounts(st: State, step: Step, s: nat)
    requires Enabled(st, step) && |st.leaked| == |st.socks| && Typed(st) && s < |st.socks|
    ensures Counted(st, step, Do(st, step), s)
  {
    hide EventFor, Without, DoInc, DoScan, DoDec, Changed, Written;
    if step.IncOne? || step.ScanOne? || step.DecOne? {
      ThreadCounts(st, step, s);
    } else if step.Init? {
      WrittenCounts(st.allocs[step.a], st.socks[st.allocs[step.a].s]);
    } else if step.Minus? {
      ChangedCounts(st.socks[step.s], step.evt);
    } else if step.Update? {
      ChangedCounts(st.socks[st.core.s], st.core.evt);
    }
  }

  lemma ChangedCounts(k: Sock, evt: Event)
    ensures var k' := Changed(k, evt).0;
            && k'.rcv == (if evt.RcvPlus? then (if k.rcv == 0x7fff then -0x8000 else k.rcv + 1)
                          else if evt.RcvMinus? then k.rcv - 1 else k.rcv)
            && k'.send == (evt.SendPlus? || (k.send && !evt.SendMinus?)) && k'.err == (evt.Error? || k.err)
  {
  }

  lemma WrittenCounts(p: Alloc, k: Sock)
    ensures var k' := Written(p, k);
            && k'.rcv == (if p.next.Rcv? then 0 else k.rcv) && k'.send == (if p.next.Send? then p.writable else k.send)
            && k'.err == (if p.next.Err? then false else k.err)
  {
  }

  lemma StepTyped(st: State, step: Step)
    requires Enabled(st, step) && |st.leaked| == |st.socks| && Typed(st)
    ensures Typed(Do(st, step)) && |Do(st, step).socks| == |st.socks|
  {
    hide EventFor, Without, DoInc, DoScan, DoDec, DoInit;
    var st' := Do(st, step);
    if step.IncOne? || step.ScanOne? || step.DecOne? {
      ThreadStep(st, step, step.t);
    } else if step.Init? {
      InitFrame(st, step.a);
    }
    forall s | 0 <= s < |st'.socks| ensures -0x8000 <= st'.socks[s].rcv <= 0x7fff { StepCounts(st, step, s); }
  }

  /** The same number in 16 bits. */
  predicate Same16(a: int, b: int) {
    (a - b) % 0x10000 == 0
  }

  lemma Same16Next(a: int, b: int)
    requires Same16(a, b)
    ensures Same16(if a == 0x7fff then -0x8000 else a + 1, b + 1) && Same16(a - 1, b - 1) && Same16(0, 0)
  {
  }

  /** Over any run the counters say what has happened: `rcvevent` is the number of messages received
      less those taken, in 16 bits, since `alloc_socket` last wrote it; `sendevent` is what was last
      said; `errevent` tells whether there was an error. */
  lemma {:induction false} CountersTell(st: State, steps: seq<Step>, st': State, s: nat, n: int)
    requires Run(st, steps, st') && Typed(st) && s < |st.socks| && Same16(st.socks[s].rcv, n)
    ensures s < |st'.socks| && -0x8000 <= st'.socks[s].rcv <= 0x7fff
    ensures Same16(st'.socks[s].rcv, Received(st, steps, s, n))
    ensures st'.socks[s].send == LastSend(st, steps, s, st.socks[s].send)
    ensures st'.socks[s].err == Erred(st, steps, s, st.socks[s].err)
    decreases |steps|
  {
    hide Do, Enabled, Writes, Arrives, Same16;
    if steps != [] {
      var next := Do(st, steps[0]);
      Same16Next(st.socks[s].rcv, n);
      StepCounts(st, steps[0], s);
      StepTyped(st, steps[0]);
      var n' := if Arrives(st, steps[0], s, RcvPlus) then n + 1
                else if steps[0] == Minus(s, RcvMinus) then n - 1
                else if Writes(st, steps[0], s, Rcv) then 0 else n;
      CountersTell(next, steps[1..], st', s, n');
    }
  }

  // --------------------------------------------------------- how a sleeper is woken up

  /** The callback under way makes an event true that `x` waits for on its socket. */
  predicate MakesTrue(st: State, x: Sel) {
    && st.core.Callback? && st.core.s < |st.socks|
    && var k, s := st.socks[st.core.s], st.core.s;
       || (st.core.evt.RcvPlus? && k.rcv == 0 && s in x.rset)
       || (st.core.evt.SendPlus? && !k.send && s in x.wset)
       || (st.core.evt.Error? && s in x.eset)
  }

  /** Such a callback starts a walk that has every sleeping thread before it, with that event. */
  lemma EventStartsWalk(st: State, t: nat)
    requires Inv(st) && Enabled(st, Update) && InPhase(st, t, Waiting) && st.core.s < st.sels[t].maxfd && MakesTrue(st, st.sels[t])
    ensures var c, s := Do(st, Update).core, st.core.s;
            && c.Walk? && c.s == s && t in c.todo
            && ((c.rcv && s in st.sels[t].rset) || (c.send && s in st.sels[t].wset) || (c.err && s in st.sels[t].eset))
  {
    hide WaitingExact, SelsOk, ListExact;
    RelierCounted(st, t, st.core.s);
  }

  /** Thread `t` sleeps and is signalled, or a walk for an event it waits for has it before it. */
  ghost predicate Coming(st: State, t: nat) {
    InPhase(st, t, Waiting) && (st.sels[t].signalled || exists s :: WillBeTold(st.core, t, st.sels[t], s))
  }

  lemma StaysComing(st: State, step: Step, t: nat)
    requires Inv(st) && Coming(st, t) && Enabled(st, step) && |st.leaked| == |st.socks| && step != Wake(t) && step != Timeout(t)
    ensures Coming(Do(st, step), t) && (step.End? ==> Do(st, step).sels[t].signalled)
  {
    hide Inv, WillBeTold, EventFor, Without, Changed, DoInc, DoScan, DoDec, DoInit, DoWalk, DoUpdate;
    var st' := Do(st, step);
    StillAsleep(st, step, t);
    if !st.sels[t].signalled && !st'.sels[t].signalled {
      var s :| WillBeTold(st.core, t, st.sels[t], s);
      if step.WalkOne? || step.End? || step.Update? || step.Begin? { OnTheWay(st, step, t, s); }
      else { SameCore(st, step, t); }
      assert WillBeTold(st'.core, t, st'.sels[t], s);
    } else if step.End? && !st.sels[t].signalled {
      assert false;
    }
  }

  lemma StillAsleep(st: State, step: Step, t: nat)
    requires InPhase(st, t, Waiting) && Enabled(st, step) && |st.leaked| == |st.socks| && step != Wake(t) && step != Timeout(t)
    ensures InPhase(Do(st, step), t, Waiting) && (st.sels[t].signalled ==> Do(st, step).sels[t].signalled)
    ensures step.End? ==> Do(st, step).sels == st.sels
  {
    hide EventFor, Without, Changed, DoInc, DoScan, DoDec, DoInit;
    if step.IncOne? || step.ScanOne? || step.DecOne? { ThreadStep(st, step, step.t); }
    else if step.Init? { InitFrame(st, step.a); }
  }

  /** The steps of the callback: the walk comes nearer to the thread or tells it. */
  lemma OnTheWay(st: State, step: Step, t: nat, s: nat)
    requires InPhase(st, t, Waiting) && !st.sels[t].signalled && WillBeTold(st.core, t, st.sels[t], s)
    requires Enabled(st, step) && |st.leaked| == |st.socks| && (step.WalkOne? || step.End? || step.Update? || step.Begin?)
    ensures step.WalkOne? && t in Do(st, step).sels
    ensures Do(st, step).sels[t].signalled || WillBeTold(Do(st, step).core, t, Do(st, step).sels[t], s)
  {
    hide EventFor;
    assert st.core.todo == [st.core.todo[0]] + st.core.todo[1..];
  }

  lemma SameCore(st: State, step: Step, t: nat)
    requires InPhase(st, t, Waiting) && Enabled(st, step) && |st.leaked| == |st.socks| && step != Wake(t) && step != Timeout(t)
    requires !step.WalkOne? && !step.End? && !step.Update? && !step.Begin?
    ensures Do(st, step).core == st.core && t in Do(st, step).sels && Do(st, step).sels[t] == st.sels[t]
  {
    hide Without, Changed, DoInc, DoScan, DoDec, DoInit;
    if step.IncOne? || step.ScanOne? || step.DecOne? { ThreadStep(st, step, step.t); }
    else if step.Init? { InitFrame(st, step.a); }
  }

  ghost predicate LeavesAsleep(steps: seq<Step>, t: nat) {
    forall i :: 0 <= i < |steps| ==> steps[i] != Wake(t) && steps[i] != Timeout(t)
  }

  ghost predicate Ends(steps: seq<Step>) {
    exists i :: 0 <= i < |steps| && steps[i].End?
  }

  lemma {:induction false} RunComing(st: State, steps: seq<Step>, st': State, t: nat)
    requires Inv(st) && Coming(st, t) && Run(st, steps, st') && LeavesAsleep(steps, t)
    ensures Coming(st', t) && (Ends(steps) || st.sels[t].signalled ==> st'.sels[t].signalled)
    decreases |steps|
  {
    hide Inv, Do, Enabled, Coming;
    if steps != [] {
      var next := Do(st, steps[0]);
      StepKeepsInv(st, steps[0]);
      assert steps[0] != Wake(t);
      StaysComing(st, steps[0], t);
      ComingSel(st, t);
      StillAsleep(st, steps[0], t);
      ComingSel(next, t);
      RunComing(next, steps[1..], st', t);
      if Ends(steps) && !steps[0].End? {
        var i :| 0 <= i < |steps| && steps[i].End?;
        assert steps[1..][i - 1].End?;
      }
    }
  }

  lemma ComingSel(st: State, t: nat)
    requires Coming(st, t)
    ensures InPhase(st, t, Waiting)
  {
  }

  /** An event comes to everybody who sleeps for it: when the callback that made it true has ended,
      whatever else has happened in between, a thread that still sleeps has been signalled and can
      wake up. */
  lemma SleeperIsTold(st: State, t: nat, steps: seq<Step>, st': State)
    requires Inv(st) && Enabled(st, Update) && InPhase(st, t, Waiting) && st.core.s < st.sels[t].maxfd && MakesTrue(st, st.sels[t])
    requires |st.leaked| == |st.socks| && Run(Do(st, Update), steps, st') && LeavesAsleep(steps, t) && Ends(steps)
    ensures t in st'.sels && st'.sels[t].signalled && Enabled(st', Wake(t))
  {
    hide WaitingExact, ListExact, Run, Do, SelsOk, LeavesAsleep, Ends;
    var next := Do(st, Update);
    EventStartsWalk(st, t);
    UpdateKeepsSels(st);
    StepKeepsInv(st, Update);
    assert WillBeTold(next.core, t, next.sels[t], st.core.s);
    RunKeepsInv(next, steps, st');
    RunComing(next, steps, st', t);
    SelOkAt(st', t);
  }

  lemma UpdateKeepsSels(st: State)
    requires Enabled(st, Update) && |st.leaked| == |st.socks|
    ensures Do(st, Update).sels == st.sels
  {
  }

  /** A thread is signalled only by a walk that comes to it with an event that it waits for; */
  lemma SignalHasReason(st: State, step: Step, t: nat)
    requires Enabled(st, step) && |st.leaked| == |st.socks| && t in st.sels && !st.sels[t].signalled
    requires t in Do(st, step).sels && Do(st, step).sels[t].signalled
    ensures step.WalkOne? && st.core.todo[0] == t
    ensures var c, x := st.core, st.sels[t];
            (c.rcv && c.s in x.rset) || (c.send && c.s in x.wset) || (c.err && c.s in x.eset)
  {
    hide Without, Changed, DoInc, DoScan, DoDec, DoInit;
    if step.IncOne? || step.ScanOne? || step.DecOne? { ThreadStep(st, step, step.t); }
    else if step.Init? { InitFrame(st, step.a); }
  }

  /** and a walk starts only from a callback, with the events that are true of its socket then. */
  lemma WalkHasReason(st: State, step: Step)
    requires Enabled(st, step) && |st.leaked| == |st.socks| && !st.core.Walk? && Do(st, step).core.Walk?
    ensures var c, st' := Do(st, step).core, Do(st, step);
            && step.Update? && c.s == st.core.s < |st'.socks| && c.todo == st.list
            && (c.rcv <==> st'.socks[c.s].rcv > 0) && (c.send <==> st'.socks[c.s].send) && (c.err <==> st'.socks[c.s].err)
  {
    hide Without, Changed, DoInc, DoScan, DoDec, DoInit;
    if step.IncOne? || step.ScanOne? || step.DecOne? { ThreadStep(st, step, step.t); }
    else if step.Init? { InitFrame(st, step.a); }
  }

  /** It starts exactly if somebody is counted there and the callback may have made an event true. */
  lemma WalkStartsIff(st: State)
    requires Enabled(st, Update) && Typed(st) && |st.leaked| == |st.socks|
    ensures var k, evt := st.socks[st.core.s], st.core.evt;
            Do(st, Update).core.Walk? <==>
              k.waiting > 0 && (evt.Error? || (evt.RcvPlus? && (k.rcv <= 0 || k.rcv == 0x7fff)) || (evt.SendPlus? && !k.send))
  {
  }

  /** What a step does to the rest of socket `s`: it is open from the claim to the close, its close is
      pending from a deferred close to the next claim, and data is left as the last read says until
      `alloc_socket` clears it. */
  lemma StepSocket(st: State, step: Step, s: nat)
    requires Enabled(st, step) && |st.leaked| == |st.socks| && s < |st.socks|
    ensures s < |Do(st, step).socks|
    ensures var k, k' := st.socks[s], Do(st, step).socks[s];
            && k'.open == (if step.Claim? && step.s == s then true else if step == Close(s, false) then false else k.open)
            && k'.closing == (if step.Claim? && step.s == s then false else if step == Close(s, true) then true else k.closing)
            && k'.lastdata == (if step.SetLastdata? && step.s == s then step.value
                               else if Writes(st, step, s, Lastdata) then false else k.lastdata)
  {
    hide EventFor, Without, DoInc, DoScan, DoDec, Changed, Written;
    if step.IncOne? || step.ScanOne? || step.DecOne? {
      ThreadStep(st, step, step.t);
      assert Do(st, step).socks[s].(waiting := 0) == st.socks[s].(waiting := 0);
    } else if step.Init? {
      WrittenRest(st.allocs[step.a], st.socks[st.allocs[step.a].s]);
    } else if step.Minus? {
      ChangedRest(st.socks[step.s], step.evt);
    } else if step.Update? {
      ChangedRest(st.socks[st.core.s], st.core.evt);
    }
  }

  lemma ChangedRest(k: Sock, evt: Event)
    ensures var k' := Changed(k, evt).0; k'.open == k.open && k'.closing == k.closing && k'.lastdata == k.lastdata
  {
  }

  lemma WrittenRest(p: Alloc, k: Sock)
    ensures var k' := Written(p, k);
            k'.open == k.open && k'.closing == k.closing && k'.lastdata == (if p.next.Lastdata? then false else k.lastdata)
  {
  }

  /** A thread in `lwip_select` watches what it was asked to, from its entry on. */
  lemma SetsStay(st: State, step: Step, t: nat)
    requires Enabled(st, step) && |st.leaked| == |st.socks|
    ensures step.Enter? && step.t == t ==>
              var x := Do(st, step).sels; t in x && x[t].rset == step.rset && x[t].wset == step.wset && x[t].eset == step.eset
                                          && x[t].maxfd == step.maxfd && x[t].phase.ToLink?
    ensures t in st.sels && !(step.Enter? && step.t == t) ==>
              && t in Do(st, step).sels
              && var x, x' := st.sels[t], Do(st, step).sels[t];
                 x'.rset == x.rset && x'.wset == x.wset && x'.eset == x.eset && x'.maxfd == x.maxfd
  {
    hide EventFor, Without, Changed, Written, DoInc, DoScan, DoDec;
    if step.IncOne? || step.ScanOne? || step.DecOne? {
      ThreadStep(st, step, step.t);
      LoopKeepsSets(st, step, step.t);
    }
  }

  predicate SameSets(x: Sel, x': Sel) {
    x'.rset == x.rset && x'.wset == x.wset && x'.eset == x.eset && x'.maxfd == x.maxfd
  }

  lemma LoopKeepsSets(st: State, step: Step, t: nat)
    requires Enabled(st, step) && |st.leaked| == |st.socks| && (step == IncOne(t) || step == ScanOne(t) || step == DecOne(t))
    ensures t in Do(st, step).sels && SameSets(st.sels[t], Do(st, step).sels[t])
  {
    hide DoInc, DoScan, DoDec;
    match step {
      case IncOne(_) => IncSets(st, t);
      case ScanOne(_) => ScanSets(st, t);
      case DecOne(_) => DecSets(st, t);
    }
  }

  lemma IncSets(st: State, t: nat)
    requires t in st.sels && st.sels[t].phase.Inc?
    ensures t in DoInc(st, t).sels && SameSets(st.sels[t], DoInc(st, t).sels[t])
  {
    hide Watches, CanGet;
  }

  lemma ScanSets(st: State, t: nat)
    requires t in st.sels && st.sels[t].phase.Scan?
    ensures t in DoScan(st, t).sels && SameSets(st.sels[t], DoScan(st, t).sels[t])
  {
    hide Watches, CanGet, ScanSees;
  }

  lemma DecSets(st: State, t: nat)
    requires t in st.sels && st.sels[t].phase.Dec? && |st.leaked| == |st.socks|
    ensures t in DoDec(st, t).sels && SameSets(st.sels[t], DoDec(st, t).sels[t])
  {
    hide Watches, CanGet;
  }

  // --------------------------------------------------------------- what a scan sees

  /** The second scan notes a socket exactly if an event that the thread waits for is true, or if
      data is left from the last read; once it has noted one, the thread does not go to sleep. */
  lemma ScanNotes(st: State, t: nat)
    requires Inv(st) && Enabled(st, ScanOne(t)) && |st.leaked| == |st.socks|
    ensures var x, x', i := st.sels[t], Do(st, ScanOne(t)).sels[t], st.sels[t].phase.i;
            if i < x.maxfd && !(st.fullDuplex && i < |st.socks| && st.socks[i].closing && Watches(x, i)) then
              && x'.phase == Scan(i + 1) && i < |st.socks|
              && (x'.saw <==> || x.saw || ((st.socks[i].rcv > 0 || st.socks[i].lastdata) && i in x.rset)
                              || (st.socks[i].send && i in x.wset) || (st.socks[i].err && i in x.eset))
            else x'.saw == x.saw && (x'.phase.Waiting? <==> i >= x.maxfd && !x.saw) && (x'.phase.Waiting? || x'.phase.Dec?)
  {
    hide WaitingExact, SelsOk, ListExact;
    SelOkAt(st, t);
  }
}
