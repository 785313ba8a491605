/** `lwip_select` and the events that wake it up (lwip/src/api/sockets.c), as a state machine
    over the steps that other threads can see, interleaved in any order.

    A step is what the code does in one go under `SYS_ARCH_PROTECT` or under the core lock, or
    a single access outside of both: `alloc_socket` claims a slot under protection and then
    writes its fields one by one without. The core lock is held by one event callback from the
    change of the event counters to the end of its walk over the list of waiting selects;
    linking and unlinking take it too. */
module Select {
  import opened MachineInts

  /** `struct lwip_sock`, as far as events go: `lastdata` tells whether data is left from the
      last read; `closing` is `fd_free_pending`, `waiting` is `select_waiting`. */
  datatype Sock = Sock(open: bool, closing: bool, lastdata: bool, rcv: int, send: bool, err: bool, waiting: nat)

  datatype Event = RcvPlus | RcvMinus | SendPlus | SendMinus | Error

  /** Where a thread stands inside `lwip_select`. */
  datatype Phase =
    | Outside
    | ToLink
    | Inc(i: nat)
    | Scan(i: nat)
    | Waiting
    | Dec(i: nat)
    | ToUnlink

  /** A thread and its `struct lwip_select_cb`: `limit` is `maxfdp2`, `saw` whether the second
      scan has found anything, `sem` the count of the semaphore. */
  datatype Sel = Sel(phase: Phase, rset: set<nat>, wset: set<nat>, eset: set<nat>, maxfd: nat,
                     limit: nat, saw: bool, signalled: bool, sem: nat)

  /** What the holder of the core lock is doing. */
  datatype Core =
    | Free
    | Callback(s: nat, evt: Event)
    | Walk(s: nat, rcv: bool, send: bool, err: bool, todo: seq<nat>)

  /** What `alloc_socket` does next, once it has claimed a slot. */
  datatype Write = Lastdata | Check | Rcv | Send | Err

  datatype Alloc = Alloc(s: nat, writable: bool, next: Write)

  /** `allocs` are the calls of `alloc_socket` under way. `leaked` counts, by socket, the increments
      of `select_waiting` that a select has left behind; `failed` holds the sockets on which the
      assertion of `alloc_socket` has failed. */
  datatype State = State(fullDuplex: bool, socks: seq<Sock>, sels: map<nat, Sel>, list: seq<nat>, core: Core,
                         allocs: map<nat, Alloc>, leaked: seq<nat>, failed: set<nat>)

  datatype Step =
    | Claim(a: nat, s: nat, writable: bool)
    | Init(a: nat)
    | Close(s: nat, deferred: bool)
    | SetLastdata(s: nat, value: bool)
    | Minus(s: nat, evt: Event)
    | Begin(s: nat, evt: Event)
    | Update
    | WalkOne
    | End
    | Enter(t: nat, rset: set<nat>, wset: set<nat>, eset: set<nat>, maxfd: nat)
    | Link(t: nat)
    | IncOne(t: nat)
    | ScanOne(t: nat)
    | Wake(t: nat)
    | Timeout(t: nat)
    | DecOne(t: nat)
    | Unlink(t: nat)

  // ------------------------------------------------------------------- meanings

  predicate Watches(x: Sel, s: nat) {
    s in x.rset || s in x.wset || s in x.eset
  }

  /** `tryget_socket_unconn_locked`: fails only for a socket whose close is pending, and only
      if sockets may be used by several threads at once. */
  predicate CanGet(st: State, s: nat) {
    s < |st.socks| && !(st.fullDuplex && st.socks[s].closing)
  }

  /** An event counter of `s` says that `x` has something to do. */
  predicate EventFor(x: Sel, s: nat, rcv: bool, send: bool, err: bool) {
    (rcv && s in x.rset) || (send && s in x.wset) || (err && s in x.eset)
  }

  predicate Ready(st: State, x: Sel, s: nat) {
    s < |st.socks| && EventFor(x, s, st.socks[s].rcv > 0, st.socks[s].send, st.socks[s].err)
  }

  /** What `lwip_selscan` takes for ready: data left over counts as well. */
  predicate ScanSees(st: State, x: Sel, s: nat) {
    Ready(st, x, s) || (s < |st.socks| && st.socks[s].lastdata && s in x.rset)
  }

  /** Increment of `rcvevent`, an `s16_t`. */
  function Inc16(x: int): int {
    if x == 0x7fff then -0x8000 else x + 1
  }

  /** Which events change the counters how, and whether waiters are looked for. */
  function Changed(k: Sock, evt: Event): (r: (Sock, bool)) {
    match evt
    case RcvPlus => (k.(rcv := Inc16(k.rcv)), Inc16(k.rcv) <= 1)
    case RcvMinus => (k.(rcv := k.rcv - 1), false)
    case SendPlus => (k.(send := true), !k.send)
    case SendMinus => (k.(send := false), false)
    case Error => (k.(err := true), true)
  }

  // ---------------------------------------------------------------------- steps

  predicate InPhase(st: State, t: nat, p: Phase) {
    t in st.sels && st.sels[t].phase == p
  }

  predicate Enabled(st: State, step: Step) {
    match step
    case Claim(a, s, _) => a !in st.allocs && s < |st.socks| && !st.socks[s].open
    case Init(a) => a in st.allocs && st.allocs[a].s < |st.socks|
    case Close(s, deferred) => s < |st.socks| && st.socks[s].open && (deferred ==> st.fullDuplex)
    case SetLastdata(s, _) => s < |st.socks|
    case Minus(s, evt) =>
      s < |st.socks| && ((evt.RcvMinus? && st.socks[s].rcv > -0x8000) || evt.SendMinus?)
    case Begin(s, evt) =>
      s < |st.socks| && st.core.Free? && st.socks[s].open && (evt.RcvPlus? || evt.SendPlus? || evt.Error?)
    case Update => st.core.Callback? && st.core.s < |st.socks|
    case WalkOne => st.core.Walk? && st.core.todo != [] && st.core.todo[0] in st.sels
    case End => st.core.Walk? && st.core.todo == []
    case Enter(t, _, _, _, maxfd) => maxfd <= |st.socks| && (t in st.sels ==> st.sels[t].phase.Outside?)
    case Link(t) => InPhase(st, t, ToLink) && st.core.Free?
    case IncOne(t) => t in st.sels && st.sels[t].phase.Inc?
    case ScanOne(t) => t in st.sels && st.sels[t].phase.Scan?
    case Wake(t) => InPhase(st, t, Waiting) && st.sels[t].sem > 0
    case Timeout(t) => InPhase(st, t, Waiting)
    case DecOne(t) => t in st.sels && st.sels[t].phase.Dec?
    case Unlink(t) => InPhase(st, t, ToUnlink) && st.core.Free?
  }

  function SetSel(st: State, t: nat, x: Sel): State {
    st.(sels := st.sels[t := x])
  }

  function AddWaiting(st: State, s: nat, d: int): State
    requires s < |st.socks| && st.socks[s].waiting + d >= 0
  {
    st.(socks := st.socks[s := st.socks[s].(waiting := st.socks[s].waiting + d)])
  }

  /** One round of the loop that raises `select_waiting`, which is a `u8_t`. */
  function DoInc(st: State, t: nat): State
    requires t in st.sels && st.sels[t].phase.Inc?
  {
    var x := st.sels[t];
    var i := x.phase.i;
    if i >= x.maxfd then SetSel(st, t, x.(phase := Scan(0), saw := false, limit := x.maxfd))
    else if !Watches(x, i) then SetSel(st, t, x.(phase := Inc(i + 1)))
    else if !CanGet(st, i) || st.socks[i].waiting >= 255 then SetSel(st, t, x.(phase := Dec(0), limit := i))
    else AddWaiting(SetSel(st, t, x.(phase := Inc(i + 1))), i, 1)
  }

  /** One round of the second scan; when it has found nothing the thread goes to sleep. */
  function DoScan(st: State, t: nat): State
    requires t in st.sels && st.sels[t].phase.Scan?
  {
    var x := st.sels[t];
    var i := x.phase.i;
    if i >= x.maxfd then SetSel(st, t, x.(phase := if x.saw then Dec(0) else Waiting))
    else if !Watches(x, i) then SetSel(st, t, x.(phase := Scan(i + 1)))
    else if !CanGet(st, i) then SetSel(st, t, x.(phase := Dec(0)))
    else SetSel(st, t, x.(phase := Scan(i + 1), saw := x.saw || ScanSees(st, x, i)))
  }

  /** One round of the loop that lowers `select_waiting`; a socket that cannot be obtained is
      passed over. */
  function DoDec(st: State, t: nat): State
    requires t in st.sels && st.sels[t].phase.Dec? && |st.leaked| == |st.socks|
  {
    var x := st.sels[t];
    var i := x.phase.i;
    if i >= x.limit then SetSel(st, t, x.(phase := ToUnlink))
    else
      var st' := SetSel(st, t, x.(phase := Dec(i + 1)));
      if !Watches(x, i) then st'
      else if !CanGet(st, i) then
        if i < |st.socks| then st'.(leaked := st.leaked[i := st.leaked[i] + 1]) else st'
      else if st.socks[i].waiting > 0 then AddWaiting(st', i, -1)
      else st'
  }

  function DoUpdate(st: State): State
    requires st.core.Callback? && st.core.s < |st.socks|
  {
    var s := st.core.s;
    var (k, check) := Changed(st.socks[s], st.core.evt);
    st.(socks := st.socks[s := k],
        core := if k.waiting > 0 && check then Walk(s, k.rcv > 0, k.send, k.err, st.list) else Free)
  }

  /** `select_check_waiters` for one element of the list. */
  function DoWalk(st: State): State
    requires st.core.Walk? && st.core.todo != [] && st.core.todo[0] in st.sels
  {
    var t, c := st.core.todo[0], st.core;
    var x := st.sels[t];
    var st' := st.(core := c.(todo := c.todo[1..]));
    if !x.signalled && EventFor(x, c.s, c.rcv, c.send, c.err)
    then SetSel(st', t, x.(signalled := true, sem := x.sem + 1)) else st'
  }

  /** The slot after the next access of `alloc_socket`. */
  function Written(p: Alloc, k: Sock): Sock {
    match p.next
    case Lastdata => k.(lastdata := false)
    case Check => k
    case Rcv => k.(rcv := 0)
    case Send => k.(send := p.writable)
    case Err => k.(err := false)
  }

  function Following(w: Write): Write {
    match w
    case Lastdata => Check
    case Check => Rcv
    case Rcv => Send
    case _ => Err
  }

  /** One access of `alloc_socket` after it has given up the protection; a failed assertion is
      noted and ignored. */
  function DoInit(st: State, a: nat): State
    requires a in st.allocs && st.allocs[a].s < |st.socks|
  {
    var p := st.allocs[a];
    var k := st.socks[p.s];
    st.(socks := st.socks[p.s := Written(p, k)],
        allocs := if p.next.Err? then st.allocs - {a} else st.allocs[a := p.(next := Following(p.next))],
        failed := if p.next.Check? && k.waiting != 0 then st.failed + {p.s} else st.failed)
  }

  function Without(l: seq<nat>, t: nat): seq<nat> {
    if l == [] then [] else (if l[0] == t then [] else [l[0]]) + Without(l[1..], t)
  }

  function Do(st: State, step: Step): State
    requires Enabled(st, step) && |st.leaked| == |st.socks|
  {
    match step
    case Claim(a, s, writable) =>
      st.(socks := st.socks[s := st.socks[s].(open := true, closing := false)],
          allocs := st.allocs[a := Alloc(s, writable, Lastdata)])
    case Init(a) => DoInit(st, a)
    case Close(s, deferred) =>
      var k := st.socks[s];
      st.(socks := st.socks[s := if deferred then k.(closing := true) else k.(open := false)])
    case SetLastdata(s, value) => st.(socks := st.socks[s := st.socks[s].(lastdata := value)])
    case Minus(s, evt) => st.(socks := st.socks[s := Changed(st.socks[s], evt).0])
    case Begin(s, evt) => st.(core := Callback(s, evt))
    case Update => DoUpdate(st)
    case WalkOne => DoWalk(st)
    case End => st.(core := Free)
    case Enter(t, r, w, e, maxfd) => SetSel(st, t, Sel(ToLink, r, w, e, maxfd, 0, false, false, 0))
    case Link(t) => SetSel(st, t, st.sels[t].(phase := Inc(0))).(list := [t] + st.list)
    case IncOne(t) => DoInc(st, t)
    case ScanOne(t) => DoScan(st, t)
    case Wake(t) => SetSel(st, t, st.sels[t].(phase := Dec(0), sem := st.sels[t].sem - 1))
    case Timeout(t) => SetSel(st, t, st.sels[t].(phase := Dec(0)))
    case DecOne(t) => DoDec(st, t)
    case Unlink(t) => SetSel(st, t, st.sels[t].(phase := Outside)).(list := Without(st.list, t))
  }

  // ------------------------------------------------------------------ invariants

  /** Whether `x` has raised `select_waiting` of `s` and not lowered it yet. */
  predicate Counts(x: Sel, s: nat) {
    && Watches(x, s)
    && match x.phase
       case Inc(i) => s < i
       case Scan(_) => s < x.limit
       case Waiting => s < x.limit
       case Dec(i) => i <= s < x.limit
       case _ => false
  }

  function Counters(sels: map<nat, Sel>, s: nat): set<nat> {
    set t | t in sels && Counts(sels[t], s)
  }

  /** `select_waiting` is the number of threads that count the socket, plus what leaked. */
  ghost predicate WaitingExact(st: State) {
    && |st.leaked| == |st.socks|
    && forall s :: 0 <= s < |st.socks| ==> st.socks[s].waiting == |Counters(st.sels, s)| + st.leaked[s]
  }

  predicate Listed(p: Phase) {
    p.Inc? || p.Scan? || p.Waiting? || p.Dec? || p.ToUnlink?
  }

  /** The list holds the threads between linking and unlinking, and a walk stays inside it. */
  ghost predicate ListExact(st: State) {
    && (forall t :: t in st.list <==> t in st.sels && Listed(st.sels[t].phase))
    && (st.core.Walk? ==> forall t :: t in st.core.todo ==> t in st.list)
  }

  predicate SelOk(x: Sel, n: nat) {
    && x.maxfd <= n && x.limit <= x.maxfd
    && (x.phase.Inc? ==> x.phase.i <= x.maxfd)
    && (x.phase.Scan? ==> x.phase.i <= x.maxfd && x.limit == x.maxfd)
    && (x.phase.Waiting? ==> x.limit == x.maxfd && !x.saw)
    && (x.phase.Inc? || x.phase.Scan? || x.phase.Waiting? ==> x.sem == if x.signalled then 1 else 0)
    && (x.phase.ToLink? ==> !x.signalled && x.sem == 0)
  }

  ghost predicate SelsOk(st: State) {
    forall t :: t in st.sels ==> SelOk(st.sels[t], |st.socks|)
  }

  /** Whether `x` relies on having found nothing on `s`. */
  predicate Scanned(x: Sel, s: nat) {
    (x.phase.Scan? && s < x.phase.i && !x.saw) || (x.phase.Waiting? && s < x.maxfd)
  }

  /** A walk for `s` is on its way to `t`, with an event that it waits for. */
  predicate WillBeTold(c: Core, t: nat, x: Sel, s: nat) {
    c.Walk? && c.s == s && t in c.todo && EventFor(x, s, c.rcv, c.send, c.err)
  }

  ghost predicate ToldAt(st: State, t: nat, s: nat)
    requires t in st.sels
  {
    var x := st.sels[t];
    Scanned(x, s) && !x.signalled && Ready(st, x, s) ==> WillBeTold(st.core, t, x, s)
  }

  /** Nothing is lost: whoever found nothing and has something now is about to be told. */
  ghost predicate NothingLost(st: State) {
    forall t, s :: t in st.sels && 0 <= s ==> ToldAt(st, t, s)
  }

  ghost predicate Inv(st: State) {
    WaitingExact(st) && ListExact(st) && SelsOk(st)
  }

  ghost predicate Initial(st: State) {
    && st.sels == map[] && st.list == [] && st.core.Free? && st.allocs == map[] && st.failed == {}
    && |st.leaked| == |st.socks|
    && (forall s :: 0 <= s < |st.socks| ==> st.socks[s].waiting == 0 && st.leaked[s] == 0)
  }

  lemma InitialInv(st: State)
    requires Initial(st)
    ensures Inv(st) && NothingLost(st)
  {
    forall s | 0 <= s < |st.socks| ensures st.socks[s].waiting == |Counters(st.sels, s)| + st.leaked[s] {
      assert Counters(st.sels, s) == {};
    }
  }

  // ------------------------------------------------------- counting the waiters

  lemma CountersChange(sels: map<nat, Sel>, t: nat, x: Sel, s: nat)
    ensures var before := t in sels && Counts(sels[t], s);
            |Counters(sels[t := x], s)| ==
            |Counters(sels, s)| + (if Counts(x, s) then 1 else 0) - (if before then 1 else 0)
  {
    var c, c' := Counters(sels, s), Counters(sels[t := x], s);
    var rest := c - {t};
    assert c' == if Counts(x, s) then rest + {t} else rest;
    assert c == if t in c then rest + {t} else rest;
  }

  lemma SelOkAt(st: State, t: nat)
    requires SelsOk(st) && t in st.sels
    ensures SelOk(st.sels[t], |st.socks|)
  {
  }

  lemma CounterPositive(sels: map<nat, Sel>, t: nat, s: nat)
    requires t in sels
    ensures Counts(sels[t], s) ==> |Counters(sels, s)| > 0
  {
    if Counts(sels[t], s) { assert t in Counters(sels, s); }
  }

  lemma IncKeepsWaiting(st: State, t: nat)
    requires WaitingExact(st) && SelsOk(st) && t in st.sels && st.sels[t].phase.Inc?
    ensures WaitingExact(DoInc(st, t))
  {
    hide Counters, CanGet, ScanSees, SelsOk;
    var x, i, st' := st.sels[t], st.sels[t].phase.i, DoInc(st, t);
    SelOkAt(st, t);
    forall s | 0 <= s < |st'.socks| ensures st'.socks[s].waiting == |Counters(st'.sels, s)| + st'.leaked[s] {
      CountersChange(st.sels, t, st'.sels[t], s);
    }
  }

  lemma ScanKeepsWaiting(st: State, t: nat)
    requires WaitingExact(st) && SelsOk(st) && t in st.sels && st.sels[t].phase.Scan?
    ensures WaitingExact(DoScan(st, t))
  {
    hide Counters, CanGet, ScanSees, SelsOk;
    var st' := DoScan(st, t);
    SelOkAt(st, t);
    forall s | 0 <= s < |st'.socks| ensures st'.socks[s].waiting == |Counters(st'.sels, s)| + st'.leaked[s] {
      CountersChange(st.sels, t, st'.sels[t], s);
    }
  }

  lemma DecKeepsWaiting(st: State, t: nat)
    requires WaitingExact(st) && SelsOk(st) && t in st.sels && st.sels[t].phase.Dec?
    ensures WaitingExact(DoDec(st, t))
  {
    hide Counters, CanGet, SelsOk;
    var x, i, st' := st.sels[t], st.sels[t].phase.i, DoDec(st, t);
    SelOkAt(st, t);
    CounterPositive(st.sels, t, i);
    forall s | 0 <= s < |st'.socks| ensures st'.socks[s].waiting == |Counters(st'.sels, s)| + st'.leaked[s] {
      CountersChange(st.sels, t, st'.sels[t], s);
    }
  }

  /** Steps of a thread that change what it counts for no socket. */
  lemma SameCounts(st: State, st': State, t: nat)
    requires WaitingExact(st) && t in st'.sels && st'.sels == st.sels[t := st'.sels[t]]
    requires |st'.socks| == |st.socks| && st'.leaked == st.leaked
    requires forall s :: 0 <= s < |st.socks| ==> st'.socks[s].waiting == st.socks[s].waiting
    requires forall s :: 0 <= s ==> (Counts(st'.sels[t], s) <==> t in st.sels && Counts(st.sels[t], s))
    ensures WaitingExact(st')
  {
    hide Counters, Counts;
    forall s | 0 <= s < |st'.socks| ensures st'.socks[s].waiting == |Counters(st'.sels, s)| + st'.leaked[s] {
      CountersChange(st.sels, t, st'.sels[t], s);
    }
  }

  lemma WalkKeepsWaiting(st: State)
    requires WaitingExact(st) && Enabled(st, WalkOne)
    ensures WaitingExact(DoWalk(st))
  {
    hide Counters, EventFor;
    if DoWalk(st).sels != st.sels { SameCounts(st, DoWalk(st), st.core.todo[0]); }
  }

  /** What `alloc_socket` leaves alone when it is not under protection. */
  lemma InitFrame(st: State, a: nat)
    requires Enabled(st, Init(a))
    ensures var st' := DoInit(st, a);
            && st'.sels == st.sels && st'.list == st.list && st'.core == st.core && st'.leaked == st.leaked
            && st'.fullDuplex == st.fullDuplex && |st'.socks| == |st.socks|
            && (forall s :: 0 <= s < |st.socks| ==> st'.socks[s].waiting == st.socks[s].waiting)
  {
    hide Written;
    InitEvents(st.allocs[a], st.socks[st.allocs[a].s]);
  }

  lemma SameThreads(st: State, st': State)
    requires WaitingExact(st) && st'.sels == st.sels && st'.leaked == st.leaked && |st'.socks| == |st.socks|
    requires forall s :: 0 <= s < |st.socks| ==> st'.socks[s].waiting == st.socks[s].waiting
    ensures WaitingExact(st')
  {
    hide Counters;
  }

  lemma OtherKeepsWaiting(st: State, step: Step)
    requires WaitingExact(st) && Enabled(st, step)
    requires !step.IncOne? && !step.ScanOne? && !step.DecOne? && !step.WalkOne?
    ensures WaitingExact(Do(st, step))
  {
    hide Ready, Counters, CanGet, EventFor, Without, DoInit;
    var st' := Do(st, step);
    if step.Enter? || step.Link? || step.Wake? || step.Timeout? || step.Unlink? {
      SameCounts(st, st', step.t);
    } else {
      if step.Init? { InitFrame(st, step.a); }
      SameThreads(st, st');
    }
  }

  /** Every step keeps the count exact. */
  lemma StepKeepsWaiting(st: State, step: Step)
    requires WaitingExact(st) && SelsOk(st) && Enabled(st, step)
    ensures WaitingExact(Do(st, step))
  {
    hide WaitingExact, SelsOk, DoInc, DoScan, DoDec;
    LeakedSize(st);
    match step {
      case IncOne(t) => IncKeepsWaiting(st, t);
      case ScanOne(t) => ScanKeepsWaiting(st, t);
      case DecOne(t) => DecKeepsWaiting(st, t);
      case WalkOne => WalkKeepsWaiting(st);
      case _ => OtherKeepsWaiting(st, step);
    }
  }

  // ----------------------------------------------- the list, and the local states

  lemma {:induction false} WithoutIs(l: seq<nat>, t: nat)
    ensures forall u :: u in Without(l, t) <==> u in l && u != t
  {
    if l != [] {
      WithoutIs(l[1..], t);
      assert l == [l[0]] + l[1..];
    }
  }

  /** What a step of thread `t` inside the loops of `lwip_select` leaves alone. */
  ghost predicate ThreadOnly(st: State, st': State, t: nat) {
    && t in st.sels && t in st'.sels && st'.sels == st.sels[t := st'.sels[t]]
    && st'.list == st.list && st'.core == st.core && |st'.socks| == |st.socks| && |st'.leaked| == |st.leaked|
    && forall s :: 0 <= s < |st.socks| ==> st'.socks[s].(waiting := 0) == st.socks[s].(waiting := 0)
  }

  predicate StaysListed(x: Sel, x': Sel, n: nat) {
    Listed(x.phase) && Listed(x'.phase) && (SelOk(x, n) ==> SelOk(x', n)) && x'.signalled == x.signalled
  }

  /** A thread that is raising or lowering the counters relies on no socket. */
  lemma RaisingReliesOnNothing(st: State, t: nat, s: nat)
    requires t in st.sels && (st.sels[t].phase.Inc? || st.sels[t].phase.Dec?) && |st.leaked| == |st.socks|
    ensures !Scanned((if st.sels[t].phase.Inc? then DoInc(st, t) else DoDec(st, t)).sels[t], s)
  {
    hide Watches, CanGet;
  }

  lemma IncOnly(st: State, t: nat)
    requires t in st.sels && st.sels[t].phase.Inc? && |st.leaked| == |st.socks|
    ensures ThreadOnly(st, DoInc(st, t), t)
  {
    hide Watches;
  }

  lemma IncStays(st: State, t: nat)
    requires t in st.sels && st.sels[t].phase.Inc? && |st.leaked| == |st.socks|
    ensures StaysListed(st.sels[t], DoInc(st, t).sels[t], |st.socks|)
  {
    hide Watches, CanGet;
  }

  lemma ScanOnly(st: State, t: nat)
    requires t in st.sels && st.sels[t].phase.Scan? && |st.leaked| == |st.socks|
    ensures ThreadOnly(st, DoScan(st, t), t)
  {
    hide Watches, ScanSees;
  }

  lemma ScanStays(st: State, t: nat)
    requires t in st.sels && st.sels[t].phase.Scan? && |st.leaked| == |st.socks|
    ensures StaysListed(st.sels[t], DoScan(st, t).sels[t], |st.socks|)
  {
    hide Watches, CanGet, ScanSees;
  }

  lemma DecOnly(st: State, t: nat)
    requires t in st.sels && st.sels[t].phase.Dec? && |st.leaked| == |st.socks|
    ensures ThreadOnly(st, DoDec(st, t), t)
  {
    hide Watches;
  }

  lemma DecStays(st: State, t: nat)
    requires t in st.sels && st.sels[t].phase.Dec? && |st.leaked| == |st.socks|
    ensures StaysListed(st.sels[t], DoDec(st, t).sels[t], |st.socks|)
  {
    hide Watches, CanGet;
  }

  lemma ThreadStep(st: State, step: Step, t: nat)
    requires Enabled(st, step) && |st.leaked| == |st.socks|
    requires step == IncOne(t) || step == ScanOne(t) || step == DecOne(t)
    ensures ThreadOnly(st, Do(st, step), t) && StaysListed(st.sels[t], Do(st, step).sels[t], |st.socks|)
  {
    hide ThreadOnly, StaysListed, DoInc, DoScan, DoDec;
    match step {
      case IncOne(_) => IncOnly(st, t); IncStays(st, t);
      case ScanOne(_) => ScanOnly(st, t); ScanStays(st, t);
      case DecOne(_) => DecOnly(st, t); DecStays(st, t);
    }
  }

  lemma ListThread(st: State, st': State, t: nat)
    requires ListExact(st) && st'.list == st.list && st'.core == st.core
    requires t in st.sels && t in st'.sels && st'.sels == st.sels[t := st'.sels[t]]
    requires Listed(st.sels[t].phase) == Listed(st'.sels[t].phase)
    ensures ListExact(st')
  {
  }

  lemma StepKeepsList(st: State, step: Step)
    requires Inv(st) && Enabled(st, step)
    ensures ListExact(Do(st, step))
  {
    hide NothingLost, SelsOk, DoInc, DoScan, DoDec, ListExact, Counters;
    var st' := Do(st, step);
    match step {
      case IncOne(t) => ThreadStep(st, step, t); ListThread(st, st', t);
      case ScanOne(t) => ThreadStep(st, step, t); ListThread(st, st', t);
      case DecOne(t) => ThreadStep(st, step, t); ListThread(st, st', t);
      case Wake(t) => ListThread(st, st', t);
      case Timeout(t) => ListThread(st, st', t);
      case _ => ListOther(st, step);
    }
  }

  lemma ListOther(st: State, step: Step)
    requires ListExact(st) && |st.leaked| == |st.socks| && Enabled(st, step)
    requires !step.IncOne? && !step.ScanOne? && !step.DecOne? && !step.Wake? && !step.Timeout?
    ensures ListExact(Do(st, step))
  {
    hide EventFor, Changed, Without, DoInit;
    match step {
      case Init(a) => InitFrame(st, a);
      case WalkOne => assert st.core.todo == [st.core.todo[0]] + st.core.todo[1..];
      case Unlink(t) => WithoutIs(st.list, t);
      case _ =>
    }
  }

  lemma StepKeepsSels(st: State, step: Step)
    requires Inv(st) && Enabled(st, step)
    ensures SelsOk(Do(st, step))
  {
    hide NothingLost, SelsOk, SelOk, Counters, Do, ListExact;
    var st' := Do(st, step);
    forall t | t in st'.sels ensures SelOk(st'.sels[t], |st'.socks|) {
      if t in st.sels { SelOkAt(st, t); }
      SelKeeps(st, step, t);
    }
    SelsOkFrom(st');
  }

  lemma SelsOkFrom(st: State)
    requires forall t :: t in st.sels ==> SelOk(st.sels[t], |st.socks|)
    ensures SelsOk(st)
  {
  }

  lemma SelKeeps(st: State, step: Step, t: nat)
    requires ListExact(st) && |st.leaked| == |st.socks| && Enabled(st, step) && t in Do(st, step).sels
    requires t in st.sels ==> SelOk(st.sels[t], |st.socks|)
    ensures SelOk(Do(st, step).sels[t], |Do(st, step).socks|)
  {
    hide EventFor, Changed, Without, DoInc, DoScan, DoDec, DoInit;
    if step.IncOne? || step.ScanOne? || step.DecOne? {
      ThreadStep(st, step, step.t);
    } else if step.Init? {
      InitFrame(st, step.a);
    } else if step.WalkOne? {
      assert st.core.todo[0] in st.list;
    }
  }

  lemma StepKeepsInv(st: State, step: Step)
    requires Inv(st) && Enabled(st, step)
    ensures Inv(Do(st, step))
  {
    hide WaitingExact, SelsOk, ListExact, Do;
    StepKeepsWaiting(st, step);
    StepKeepsList(st, step);
    StepKeepsSels(st, step);
  }

  lemma LeakedSize(st: State)
    requires WaitingExact(st)
    ensures |st.leaked| == |st.socks|
  {
  }

  // ------------------------------------------------------------- no lost wake-up

  /** A thread that relies on a socket is counted there and can be found in the list. */
  lemma RelierCounted(st: State, t: nat, s: nat)
    requires Inv(st) && t in st.sels && Scanned(st.sels[t], s) && Watches(st.sels[t], s)
    ensures t in st.list && s < |st.socks| && st.socks[s].waiting > 0
  {
    hide Counters;
    SelOkAt(st, t);
    CounterPositive(st.sels, t, s);
  }

  /** The event callback changes the counters: a thread that has something to do now and had
      nothing before will be met by the walk that starts. */
  lemma UpdateTells(st: State, t: nat, s: nat)
    requires Inv(st) && st.core.Callback? && st.core.s < |st.socks| && t in st.sels && ToldAt(st, t, s)
    ensures ToldAt(DoUpdate(st), t, s)
  {
    hide WaitingExact, SelsOk, ListExact, SelOk;
    var x, st' := st.sels[t], DoUpdate(st);
    if Scanned(x, s) && !x.signalled && Ready(st', x, s) {
      assert !Ready(st, x, s) && s == st.core.s;
      RelierCounted(st, t, s);
    }
  }

  lemma WalkTells(st: State, t: nat, s: nat)
    requires Inv(st) && Enabled(st, WalkOne) && t in st.sels && ToldAt(st, t, s)
    ensures ToldAt(DoWalk(st), t, s)
  {
    hide WaitingExact, SelsOk, ListExact;
    var todo := st.core.todo;
    assert todo == [todo[0]] + todo[1..];
  }

  /** Steps that make no socket readier leave what was promised in force. */
  lemma QuietTells(st: State, st': State, t: nat, s: nat)
    requires t in st.sels && t in st'.sels && ToldAt(st, t, s) && st'.core == st.core && |st'.socks| == |st.socks|
    requires forall k :: 0 <= k < |st.socks| ==>
      && (st'.socks[k].rcv > 0 ==> st.socks[k].rcv > 0) && (st'.socks[k].send ==> st.socks[k].send)
      && (st'.socks[k].err ==> st.socks[k].err)
    requires Scanned(st'.sels[t], s) && !st'.sels[t].signalled && Ready(st', st'.sels[t], s) ==>
      && Scanned(st.sels[t], s) && !st.sels[t].signalled
      && st'.sels[t].rset == st.sels[t].rset && st'.sels[t].wset == st.sels[t].wset && st'.sels[t].eset == st.sels[t].eset
    ensures ToldAt(st', t, s)
  {
  }

  /** The second scan: a thread relies on a socket only if it found it not ready. */
  lemma ScanTells(st: State, u: nat, t: nat, s: nat)
    requires Inv(st) && Enabled(st, ScanOne(u)) && t in st.sels && ToldAt(st, t, s)
    ensures ToldAt(DoScan(st, u), t, s)
  {
    hide WaitingExact, SelsOk, ListExact;
    var st' := DoScan(st, u);
    if t == u {
      SelOkAt(st, t);
      assert Scanned(st'.sels[t], s) && Ready(st', st'.sels[t], s) ==> Scanned(st.sels[t], s) || s == st.sels[t].phase.i;
    }
  }

  lemma LoopTells(st: State, step: Step, t: nat, s: nat)
    requires Inv(st) && Enabled(st, step) && (step.IncOne? || step.DecOne?) && |st.leaked| == |st.socks|
    requires t in st.sels && ToldAt(st, t, s)
    ensures t in Do(st, step).sels && ToldAt(Do(st, step), t, s)
  {
    hide WaitingExact, SelsOk, ListExact, Watches, DoInc, DoDec, Scanned, SelOk, Ready;
    ThreadStep(st, step, step.t);
    if t == step.t {
      RaisingReliesOnNothing(st, t, s);
    } else {
      QuietTells(st, Do(st, step), t, s);
    }
  }

  /** Thread `t` relies on `s`, waits for room to write there, and nobody is about to tell it. */
  predicate Unaware(st: State, t: nat, s: nat) {
    && t in st.sels && Scanned(st.sels[t], s) && !st.sels[t].signalled && s in st.sels[t].wset
    && !WillBeTold(st.core, t, st.sels[t], s)
  }

  /** `alloc_socket` is about to mark writable a socket that somebody relies on. */
  ghost predicate Overlooks(st: State, step: Step) {
    && step.Init? && step.a in st.allocs && st.allocs[step.a].next.Send? && st.allocs[step.a].writable
    && exists t :: Unaware(st, t, st.allocs[step.a].s)
  }

  /** The other accesses of `alloc_socket` make no socket ready, and this one is seen by whoever
      relies on no such socket. */
  lemma InitTells(st: State, a: nat, t: nat, s: nat)
    requires Enabled(st, Init(a)) && t in st.sels && ToldAt(st, t, s)
    requires st.allocs[a].next.Send? && st.allocs[a].writable && st.allocs[a].s == s ==> !Unaware(st, t, s)
    ensures t in DoInit(st, a).sels && ToldAt(DoInit(st, a), t, s)
  {
    hide Written;
    InitEvents(st.allocs[a], st.socks[st.allocs[a].s]);
  }

  /** The one access that can make a socket ready. */
  lemma InitEvents(p: Alloc, k: Sock)
    ensures var k' := Written(p, k);
            && (k'.rcv > 0 ==> k.rcv > 0) && (k'.err ==> k.err) && k'.waiting == k.waiting
            && (k'.send ==> k.send || (p.next.Send? && p.writable))
  {
  }

  lemma OtherTells(st: State, step: Step, t: nat, s: nat)
    requires Inv(st) && Enabled(st, step) && !step.Update? && !step.WalkOne? && !step.Init? && !step.ScanOne?
    requires |st.leaked| == |st.socks| && t in Do(st, step).sels && (t in st.sels ==> ToldAt(st, t, s))
    ensures ToldAt(Do(st, step), t, s)
  {
    hide WaitingExact, SelsOk, ListExact, Watches, Without, DoInc, DoDec;
    var st' := Do(st, step);
    if step.IncOne? || step.DecOne? {
      ThreadStep(st, step, step.t);
      LoopTells(st, step, t, s);
    } else if t in st.sels {
      if step.Minus? || step.Close? || step.SetLastdata? || step.Claim? {
        QuietTells(st, st', t, s);
      }
    }
  }

  lemma StepTellsAt(st: State, step: Step, t: nat, s: nat)
    requires Inv(st) && NothingLost(st) && Enabled(st, step) && !Overlooks(st, step)
    requires |st.leaked| == |st.socks| && t in Do(st, step).sels
    ensures ToldAt(Do(st, step), t, s)
  {
    hide Inv, ToldAt, Unaware, DoInc, DoScan, DoDec, DoInit, DoUpdate, DoWalk;
    KeepsThread(st, step, t);
    assert t in st.sels ==> ToldAt(st, t, s);
    match step {
      case Update => UpdateTells(st, t, s);
      case WalkOne => WalkTells(st, t, s);
      case Init(a) => InitTells(st, a, t, s);
      case ScanOne(u) => ScanTells(st, u, t, s);
      case _ => OtherTells(st, step, t, s);
    }
  }

  /** Only `Enter` adds a thread. */
  lemma KeepsThread(st: State, step: Step, t: nat)
    requires Enabled(st, step) && |st.leaked| == |st.socks| && t in Do(st, step).sels
    ensures t in st.sels || step.Enter?
  {
    hide EventFor, Changed, Without, DoInc, DoScan, DoDec, DoInit;
    if step.IncOne? || step.ScanOne? || step.DecOne? {
      ThreadStep(st, step, step.t);
    } else if step.Init? {
      InitFrame(st, step.a);
    }
  }

  /** A step loses a wake-up exactly if `alloc_socket` marks writable a socket that a thread relies
      on and nobody is about to tell it. */
  lemma StepTells(st: State, step: Step)
    requires Inv(st) && NothingLost(st) && Enabled(st, step) && |st.leaked| == |st.socks|
    ensures NothingLost(Do(st, step)) <==> !Overlooks(st, step)
  {
    hide Inv, ToldAt, Unaware, Do;
    var st' := Do(st, step);
    if Overlooks(st, step) {
      var t :| Unaware(st, t, st.allocs[step.a].s);
      OverlookedIsLost(st, step.a, t);
    } else {
      forall t, s | t in st'.sels && 0 <= s ensures ToldAt(st', t, s) { StepTellsAt(st, step, t, s); }
    }
  }

  lemma OverlookedIsLost(st: State, a: nat, t: nat)
    requires Enabled(st, Init(a)) && st.allocs[a].next.Send? && st.allocs[a].writable && Unaware(st, t, st.allocs[a].s)
    requires |st.leaked| == |st.socks|
    ensures t in Do(st, Init(a)).sels && !ToldAt(Do(st, Init(a)), t, st.allocs[a].s)
  {
  }

  // ------------------------------------------------------------------ whole runs

  /** `st'` comes out of `st` by `steps`, each possible when it is taken. */
  ghost predicate Run(st: State, steps: seq<Step>, st': State)
    decreases |steps|
  {
    if steps == [] then st' == st
    else |st.leaked| == |st.socks| && Enabled(st, steps[0]) && Run(Do(st, steps[0]), steps[1..], st')
  }

  lemma {:induction false} RunKeepsInv(st: State, steps: seq<Step>, st': State)
    requires Inv(st) && Run(st, steps, st')
    ensures Inv(st')
    decreases |steps|
  {
    hide Inv, Do, Enabled;
    if steps != [] {
      StepKeepsInv(st, steps[0]);
      RunKeepsInv(Do(st, steps[0]), steps[1..], st');
    }
  }

  /** Nothing is lost in any state of the run. */
  ghost predicate AlwaysTold(st: State, steps: seq<Step>)
    decreases |steps|
  {
    && NothingLost(st)
    && (steps != [] && |st.leaked| == |st.socks| && Enabled(st, steps[0]) ==> AlwaysTold(Do(st, steps[0]), steps[1..]))
  }

  /** No step of the run overlooks a thread. */
  ghost predicate NoneOverlooked(st: State, steps: seq<Step>)
    decreases |steps|
  {
    steps != [] && |st.leaked| == |st.socks| && Enabled(st, steps[0]) ==>
      !Overlooks(st, steps[0]) && NoneOverlooked(Do(st, steps[0]), steps[1..])
  }

  /** Exactly which runs lose no wake-up: those in which `alloc_socket` never marks writable a
      socket that a thread relies on. */
  lemma {:induction false} AlwaysToldIff(st: State, steps: seq<Step>, st': State)
    requires Inv(st) && NothingLost(st) && Run(st, steps, st')
    ensures AlwaysTold(st, steps) <==> NoneOverlooked(st, steps)
    ensures NoneOverlooked(st, steps) ==> NothingLost(st')
    decreases |steps|
  {
    hide Inv, Do, Enabled, NothingLost, Overlooks;
    if steps != [] {
      var next := Do(st, steps[0]);
      StepTells(st, steps[0]);
      StepKeepsInv(st, steps[0]);
      if NothingLost(next) {
        AlwaysToldIff(next, steps[1..], st');
      } else {
        assert !AlwaysTold(next, steps[1..]);
      }
    }
  }

  /** In such a run, whenever no callback is under way, a thread that sleeps although something it
      watches has happened has its semaphore signalled. */
  lemma NoLostWakeup(st0: State, steps: seq<Step>, st: State, t: nat, s: nat)
    requires Initial(st0) && Run(st0, steps, st) && NoneOverlooked(st0, steps) && st.core.Free?
    requires InPhase(st, t, Waiting) && s < st.sels[t].maxfd && Ready(st, st.sels[t], s)
    ensures st.sels[t].signalled && st.sels[t].sem == 1 && Enabled(st, Wake(t))
  {
    hide Run, Do, Initial, WaitingExact, ListExact, EventFor, NoneOverlooked, AlwaysTold;
    InitialInv(st0);
    RunKeepsInv(st0, steps, st);
    AlwaysToldIff(st0, steps, st);
    SelOkAt(st, t);
    assert ToldAt(st, t, s);
  }

  /** Nor does a callback under way pass it by: the walk it is in still has the thread before
      it, with an event that it waits for. */
  lemma WalkWillReach(st0: State, steps: seq<Step>, st: State, t: nat, s: nat)
    requires Initial(st0) && Run(st0, steps, st) && NoneOverlooked(st0, steps)
    requires InPhase(st, t, Waiting) && s < st.sels[t].maxfd && Ready(st, st.sels[t], s) && !st.sels[t].signalled
    ensures st.core.Walk? && t in st.core.todo && EventFor(st.sels[t], s, st.core.rcv, st.core.send, st.core.err)
  {
    hide Run, Do, Initial, WaitingExact, ListExact, NoneOverlooked, AlwaysTold;
    InitialInv(st0);
    RunKeepsInv(st0, steps, st);
    AlwaysToldIff(st0, steps, st);
    assert ToldAt(st, t, s);
  }

  /** What is left to do for the holder of the core lock. */
  function Remaining(c: Core): nat {
    match c
    case Free => 0
    case Callback(_, _) => 1
    case Walk(_, _, _, _, todo) => 1 + |todo|
  }

  /** A walk ends: it can always go on, its own steps bring it nearer to the end, and no other
      step touches it. */
  lemma WalkEnds(st: State, step: Step)
    requires Inv(st) && st.core.Walk?
    ensures Enabled(st, if st.core.todo == [] then End else WalkOne)
    ensures Enabled(st, step) ==>
      if step.WalkOne? || step.End? then Remaining(Do(st, step).core) + 1 == Remaining(st.core)
      else Do(st, step).core == st.core
  {
    hide NothingLost, SelsOk, DoInc, DoScan, DoDec, Counters, EventFor, Without, Changed;
    if st.core.todo != [] { assert st.core.todo[0] in st.list; }
    if step.IncOne? || step.ScanOne? || step.DecOne? {
      if Enabled(st, step) { ThreadStep(st, step, step.t); }
    }
  }

  // --------------------------------------------------------- what a select leaves

  /** The assertion where the counters are lowered holds. */
  lemma DecNeverUnderflows(st: State, t: nat)
    requires Inv(st) && t in st.sels && st.sels[t].phase.Dec?
    requires st.sels[t].phase.i < st.sels[t].limit && Watches(st.sels[t], st.sels[t].phase.i)
    ensures st.sels[t].phase.i < |st.socks| && st.socks[st.sels[t].phase.i].waiting > 0
  {
    hide NothingLost, ListExact, Counters;
    SelOkAt(st, t);
    CounterPositive(st.sels, t, st.sels[t].phase.i);
  }

  /** The assertion where a descriptor is allocated holds exactly if nobody waits on the
      descriptor and no select has left it counted. */
  lemma AllocAssertion(st: State, s: nat)
    requires Inv(st) && s < |st.socks|
    ensures st.socks[s].waiting == 0 <==> st.leaked[s] == 0 && forall t :: t in st.sels ==> !Counts(st.sels[t], s)
  {
    hide NothingLost, ListExact, Counts, SelsOk;
    if st.socks[s].waiting == 0 {
      forall t | t in st.sels ensures !Counts(st.sels[t], s) { CounterPositive(st.sels, t, s); }
    } else if st.leaked[s] == 0 {
      var t :| t in Counters(st.sels, s);
    }
  }

  /** The step raises `select_waiting` of `s` for thread `t`. */
  predicate Raises(st: State, step: Step, t: nat, s: nat) {
    && step == IncOne(t) && t in st.sels && st.sels[t].phase == Inc(s) && s < st.sels[t].maxfd && Watches(st.sels[t], s)
    && s < |st.socks| && !(st.fullDuplex && st.socks[s].closing) && st.socks[s].waiting < 255
  }

  /** The step is the one that should lower it again. */
  predicate ShouldLower(st: State, step: Step, t: nat, s: nat) {
    step == DecOne(t) && t in st.sels && st.sels[t].phase == Dec(s) && s < st.sels[t].limit && Watches(st.sels[t], s)
  }

  /** It does not if the close of the socket is pending. */
  predicate LeavesBehind(st: State, step: Step, t: nat, s: nat) {
    ShouldLower(st, step, t, s) && s < |st.socks| && st.fullDuplex && st.socks[s].closing
  }

  predicate Counting(st: State, t: nat, s: nat) {
    t in st.sels && Counts(st.sels[t], s)
  }

  lemma IncBalance(st: State, t: nat, s: nat)
    requires t in st.sels && st.sels[t].phase.Inc? && SelOk(st.sels[t], |st.socks|)
    ensures One(Counts(st.sels[t], s)) + One(Raises(st, IncOne(t), t, s)) == One(Counts(DoInc(st, t).sels[t], s))
  {
  }

  lemma ScanBalance(st: State, t: nat, s: nat)
    requires t in st.sels && st.sels[t].phase.Scan? && SelOk(st.sels[t], |st.socks|)
    ensures Counts(st.sels[t], s) == Counts(DoScan(st, t).sels[t], s)
  {
    hide CanGet, ScanSees;
  }

  lemma DecBalance(st: State, t: nat, s: nat)
    requires t in st.sels && st.sels[t].phase.Dec? && |st.leaked| == |st.socks|
    ensures One(Counts(st.sels[t], s)) == One(Counts(DoDec(st, t).sels[t], s)) + One(ShouldLower(st, DecOne(t), t, s))
  {
    hide CanGet;
  }

  lemma OtherBalance(st: State, step: Step, t: nat, s: nat)
    requires Enabled(st, step) && |st.leaked| == |st.socks| && !step.IncOne? && !step.ScanOne? && !step.DecOne?
    requires t in st.sels ==> SelOk(st.sels[t], |st.socks|)
    ensures Counting(st, t, s) == Counting(Do(st, step), t, s)
  {
    hide EventFor, Changed, Without, DoInit;
    if step.Init? { InitFrame(st, step.a); }
  }

  /** What thread `t` does in a step to `select_waiting` of `s`, and what the step does to it. */
  lemma StepBalance(st: State, step: Step, t: nat, s: nat)
    requires Inv(st) && Enabled(st, step) && |st.leaked| == |st.socks|
    ensures One(Counting(st, t, s)) + One(Raises(st, step, t, s)) ==
            One(Counting(Do(st, step), t, s)) + One(ShouldLower(st, step, t, s))
  {
    hide WaitingExact, ListExact, SelsOk, DoInc, DoScan, DoDec, Counts, SelOk, CanGet, Watches;
    if t in st.sels { SelOkAt(st, t); }
    if step.IncOne? || step.ScanOne? || step.DecOne? {
      ThreadStep(st, step, step.t);
      if step == IncOne(t) {
        IncBalance(st, t, s);
      } else if step == ScanOne(t) {
        ScanBalance(st, t, s);
      } else if step == DecOne(t) {
        DecBalance(st, t, s);
      }
    } else {
      OtherBalance(st, step, t, s);
    }
  }

  ghost function Raised(st: State, steps: seq<Step>, t: nat, s: nat): nat
    decreases |steps|
  {
    if steps == [] || |st.leaked| != |st.socks| || !Enabled(st, steps[0]) then 0
    else One(Raises(st, steps[0], t, s)) + Raised(Do(st, steps[0]), steps[1..], t, s)
  }

  ghost function Lowered(st: State, steps: seq<Step>, t: nat, s: nat): nat
    decreases |steps|
  {
    if steps == [] || |st.leaked| != |st.socks| || !Enabled(st, steps[0]) then 0
    else One(ShouldLower(st, steps[0], t, s) && !LeavesBehind(st, steps[0], t, s)) + Lowered(Do(st, steps[0]), steps[1..], t, s)
  }

  ghost function LeftBehind(st: State, steps: seq<Step>, t: nat, s: nat): nat
    decreases |steps|
  {
    if steps == [] || |st.leaked| != |st.socks| || !Enabled(st, steps[0]) then 0
    else One(LeavesBehind(st, steps[0], t, s)) + LeftBehind(Do(st, steps[0]), steps[1..], t, s)
  }

  lemma {:induction false} RunBalance(st: State, steps: seq<Step>, st': State, t: nat, s: nat)
    requires Inv(st) && Run(st, steps, st')
    ensures One(Counting(st, t, s)) + Raised(st, steps, t, s) ==
            One(Counting(st', t, s)) + Lowered(st, steps, t, s) + LeftBehind(st, steps, t, s)
    decreases |steps|
  {
    hide Inv, Do, Enabled, Counting, Raises, ShouldLower;
    if steps != [] {
      StepKeepsInv(st, steps[0]);
      StepBalance(st, steps[0], t, s);
      RunBalance(Do(st, steps[0]), steps[1..], st', t, s);
    }
  }

  /** A step that should lower the counter does so by one, unless it leaves the increment behind. */
  lemma LowersByOne(st: State, t: nat, s: nat)
    requires Inv(st) && Enabled(st, DecOne(t)) && ShouldLower(st, DecOne(t), t, s) && |st.leaked| == |st.socks|
    ensures s < |st.socks|
    ensures Do(st, DecOne(t)).socks[s].waiting == st.socks[s].waiting - One(!LeavesBehind(st, DecOne(t), t, s))
    ensures Do(st, DecOne(t)).leaked[s] == st.leaked[s] + One(LeavesBehind(st, DecOne(t), t, s))
  {
    hide ListExact, Counters;
    DecNeverUnderflows(st, t);
  }

  /** A whole call of `lwip_select`, from before it to after it, among any other steps: the
      increments it made are those it took back and those it left behind, and it leaves one behind
      exactly for each socket whose close was pending when it came to lower the counter. */
  lemma SelectCallBalance(st: State, steps: seq<Step>, st': State, t: nat, s: nat)
    requires Inv(st) && Run(st, steps, st')
    requires t in st.sels ==> st.sels[t].phase.Outside?
    requires t in st'.sels && st'.sels[t].phase.Outside?
    ensures Raised(st, steps, t, s) == Lowered(st, steps, t, s) + LeftBehind(st, steps, t, s)
  {
    hide Inv, Run, Raised, Lowered, LeftBehind;
    RunBalance(st, steps, st', t, s);
  }

  /** Steps change what leaked only by leaving something behind. */
  lemma LeakedChanges(st: State, step: Step)
    requires Inv(st) && Enabled(st, step) && |st.leaked| == |st.socks| && !st.fullDuplex
    ensures Do(st, step).leaked == st.leaked
  {
    hide WaitingExact, ListExact, SelsOk, EventFor, Changed, Without, Watches;
  }

  lemma FullDuplexStays(st: State, step: Step)
    requires Enabled(st, step) && |st.leaked| == |st.socks|
    ensures Do(st, step).fullDuplex == st.fullDuplex
  {
    hide EventFor, Changed, Without, Watches, CanGet, ScanSees;
  }

  lemma {:induction false} NoLeakWithoutFullDuplex(st: State, steps: seq<Step>, st': State)
    requires Inv(st) && Run(st, steps, st') && !st.fullDuplex
    ensures st'.leaked == st.leaked
    decreases |steps|
  {
    hide Inv, Do, Enabled;
    if steps != [] {
      StepKeepsInv(st, steps[0]);
      FullDuplexStays(st, steps[0]);
      LeakedChanges(st, steps[0]);
      NoLeakWithoutFullDuplex(Do(st, steps[0]), steps[1..], st');
    }
  }

  /** In the configuration of this repository each select takes back what it added: at the end
      of any run `select_waiting` is the number of threads between their increment and their
      decrement, and none of those has left `lwip_select`. */
  lemma SelectLeavesNothing(st0: State, steps: seq<Step>, st: State, s: nat)
    requires Initial(st0) && Run(st0, steps, st) && !st0.fullDuplex && s < |st.socks|
    ensures st.socks[s].waiting == |Counters(st.sels, s)|
    ensures forall t :: t in Counters(st.sels, s) ==> t in st.list && Watches(st.sels[t], s)
    ensures (forall t :: t in st.sels ==> st.sels[t].phase.Outside?) ==> st.socks[s].waiting == 0
  {
    hide Run, Do, NothingLost, SelsOk;
    InitialInv(st0);
    RunKeepsInv(st0, steps, st);
    NoLeakWithoutFullDuplex(st0, steps, st);
    if forall t :: t in st.sels ==> st.sels[t].phase.Outside? {
      assert Counters(st.sels, s) == {};
    }
  }

  // -------------------------------------------------- runs with one thread and one socket

  /** Thread 0 in state `x` and socket 0 in state `k`, with no callback under way. */
  function Tiny(fd: bool, k: Sock, x: Sel, list: seq<nat>, allocs: map<nat, Alloc>, leaked: nat, failed: set<nat>): State {
    State(fd, [k], map[0 := x], list, Free, allocs, [leaked], failed)
  }

  lemma OneStep(st: State, step: Step, steps: seq<Step>, next: State, st': State)
    requires |st.leaked| == |st.socks| && Enabled(st, step) && Do(st, step) == next && Run(next, steps, st')
    ensures Run(st, [step] + steps, st')
  {
    hide Do, Enabled;
    assert ([step] + steps)[1..] == steps;
  }

  lemma {:induction false} RunThen(st: State, p: seq<Step>, mid: State, q: seq<Step>, st': State)
    requires Run(st, p, mid) && Run(mid, q, st')
    ensures Run(st, p + q, st')
    decreases |p|
  {
    hide Do, Enabled;
    if p == [] {
      assert p + q == q;
    } else {
      RunThen(Do(st, p[0]), p[1..], mid, q, st');
      assert (p + q)[1..] == p[1..] + q && (p + q)[0] == p[0];
    }
  }

  lemma TwoSteps(st: State, one: Step, mid: State, two: Step, st': State)
    requires |st.leaked| == |st.socks| && Enabled(st, one) && Do(st, one) == mid
    requires |mid.leaked| == |mid.socks| && Enabled(mid, two) && Do(mid, two) == st'
    ensures Run(st, [one, two], st')
  {
    hide Do, Enabled;
    assert Run(st', [], st');
    OneStep(mid, two, [], st', st');
    assert [two] + [] == [two] && [one] + [two] == [one, two];
    OneStep(st, one, [two], mid, st');
  }

  lemma LastStep(st: State, step: Step, st': State)
    requires |st.leaked| == |st.socks| && Enabled(st, step) && Do(st, step) == st'
    ensures Run(st, [step], st')
  {
    hide Do, Enabled;
    assert Run(st', [], st') && [step] + [] == [step];
    OneStep(st, step, [], st', st');
  }

  /** A socket on which a scan finds nothing for thread 0, which watches only that socket. */
  predicate Quiet(fd: bool, k: Sock, x: Sel) {
    && x.maxfd == 1 && Watches(x, 0) && !x.saw && !x.signalled && k.waiting < 255 && !(fd && k.closing)
    && k.rcv <= 0 && !k.send && !k.err && !k.lastdata
  }

  lemma LinkAndRaise(fd: bool, k: Sock, x: Sel, allocs: map<nat, Alloc>, leaked: nat, failed: set<nat>)
    requires Quiet(fd, k, x) && x.phase.ToLink?
    ensures Run(Tiny(fd, k, x, [], allocs, leaked, failed), [Link(0), IncOne(0)],
                Tiny(fd, k.(waiting := k.waiting + 1), x.(phase := Inc(1)), [0], allocs, leaked, failed))
  {
    TwoSteps(Tiny(fd, k, x, [], allocs, leaked, failed), Link(0),
             Tiny(fd, k, x.(phase := Inc(0)), [0], allocs, leaked, failed), IncOne(0),
             Tiny(fd, k.(waiting := k.waiting + 1), x.(phase := Inc(1)), [0], allocs, leaked, failed));
  }

  lemma ScanFirst(fd: bool, k: Sock, x: Sel, allocs: map<nat, Alloc>, leaked: nat, failed: set<nat>)
    requires Quiet(fd, k, x) && x.phase == Inc(1)
    ensures Run(Tiny(fd, k, x, [0], allocs, leaked, failed), [IncOne(0), ScanOne(0)],
                Tiny(fd, k, x.(phase := Scan(1), limit := 1), [0], allocs, leaked, failed))
  {
    TwoSteps(Tiny(fd, k, x, [0], allocs, leaked, failed), IncOne(0),
             Tiny(fd, k, x.(phase := Scan(0), limit := 1), [0], allocs, leaked, failed), ScanOne(0),
             Tiny(fd, k, x.(phase := Scan(1), limit := 1), [0], allocs, leaked, failed));
  }

  function Sleeping(): seq<Step> {
    [Link(0), IncOne(0)] + ([IncOne(0), ScanOne(0)] + [ScanOne(0)])
  }

  /** The thread links itself, raises the counter, finds nothing and goes to sleep. */
  lemma FallsAsleep(fd: bool, k: Sock, x: Sel, allocs: map<nat, Alloc>, leaked: nat, failed: set<nat>)
    requires Quiet(fd, k, x) && k.waiting < 254 && x.phase.ToLink?
    ensures Run(Tiny(fd, k, x, [], allocs, leaked, failed), Sleeping(),
                Tiny(fd, k.(waiting := k.waiting + 1), x.(phase := Waiting, limit := 1), [0], allocs, leaked, failed))
  {
    hide Run;
    var k', x1 := k.(waiting := k.waiting + 1), x.(phase := Inc(1));
    var asleep := Tiny(fd, k', x.(phase := Waiting, limit := 1), [0], allocs, leaked, failed);
    var scanned := Tiny(fd, k', x.(phase := Scan(1), limit := 1), [0], allocs, leaked, failed);
    LinkAndRaise(fd, k, x, allocs, leaked, failed);
    ScanFirst(fd, k', x1, allocs, leaked, failed);
    LastStep(scanned, ScanOne(0), asleep);
    RunThen(Tiny(fd, k', x1, [0], allocs, leaked, failed), [IncOne(0), ScanOne(0)], scanned, [ScanOne(0)], asleep);
    RunThen(Tiny(fd, k, x, [], allocs, leaked, failed), [Link(0), IncOne(0)],
            Tiny(fd, k', x1, [0], allocs, leaked, failed), [IncOne(0), ScanOne(0)] + [ScanOne(0)], asleep);
  }

  function FreeSlot(): Sock {
    Sock(false, false, false, 0, false, false, 0)
  }

  /** Thread 0 in a select for room to write on socket 0. */
  function Writer(phase: Phase, limit: nat): Sel {
    Sel(phase, {}, {0}, {}, 1, limit, false, false, 0)
  }

  function Start(fd: bool, k: Sock): State {
    State(fd, [k], map[], [], Free, map[], [0], {})
  }

  // ------------------------------------------------------------ an increment left behind

  function LeakingRun(): seq<Step> {
    [Enter(0, {}, {0}, {}, 1)] + (Sleeping() + ([Close(0, true), Timeout(0)] + ([DecOne(0), DecOne(0)] + [Unlink(0)])))
  }

  function LeakEnd(): State {
    Tiny(true, FreeSlot().(open := true, waiting := 1, closing := true), Writer(Outside, 1), [], map[], 1, {})
  }

  lemma LeakLower()
    ensures Run(Tiny(true, FreeSlot().(open := true, waiting := 1, closing := true), Writer(Dec(0), 1), [0], map[], 0, {}),
                [DecOne(0), DecOne(0)] + [Unlink(0)], LeakEnd())
  {
    hide Run;
    var k := FreeSlot().(open := true, waiting := 1, closing := true);
    var low := Tiny(true, k, Writer(ToUnlink, 1), [0], map[], 1, {});
    TwoSteps(Tiny(true, k, Writer(Dec(0), 1), [0], map[], 0, {}), DecOne(0),
             Tiny(true, k, Writer(Dec(1), 1), [0], map[], 1, {}), DecOne(0), low);
    LastStep(low, Unlink(0), LeakEnd());
    RunThen(Tiny(true, k, Writer(Dec(0), 1), [0], map[], 0, {}), [DecOne(0), DecOne(0)], low, [Unlink(0)], LeakEnd());
  }

  /** If several threads may use a socket, a close during a select leaves `select_waiting`
      raised for good, with no thread in `lwip_select`. */
  lemma SelectCanLeak()
    ensures var start := Start(true, FreeSlot().(open := true)); Initial(start) && Run(start, LeakingRun(), LeakEnd())
    ensures LeakEnd().socks[0].waiting == 1 && LeakEnd().sels[0].phase.Outside?
  {
    hide Run;
    var k := FreeSlot().(open := true);
    var k1, k2 := k.(waiting := 1), k.(waiting := 1, closing := true);
    var linked, asleep := Tiny(true, k, Writer(ToLink, 0), [], map[], 0, {}), Tiny(true, k1, Writer(Waiting, 1), [0], map[], 0, {});
    var late := Tiny(true, k2, Writer(Dec(0), 1), [0], map[], 0, {});
    LeakLower();
    TwoSteps(asleep, Close(0, true), Tiny(true, k2, Writer(Waiting, 1), [0], map[], 0, {}), Timeout(0), late);
    RunThen(asleep, [Close(0, true), Timeout(0)], late, [DecOne(0), DecOne(0)] + [Unlink(0)], LeakEnd());
    FallsAsleep(true, k, Writer(ToLink, 0), map[], 0, {});
    RunThen(linked, Sleeping(), asleep, [Close(0, true), Timeout(0)] + ([DecOne(0), DecOne(0)] + [Unlink(0)]), LeakEnd());
    OneStep(Start(true, k), Enter(0, {}, {0}, {}, 1), LeakingRun()[1..], linked, LeakEnd());
  }

  // ------------------------------------------------------- what alloc_socket can do

  function Allocating(next: Write): map<nat, Alloc> {
    map[0 := Alloc(0, true, next)]
  }

  /** The slot is claimed and found without waiters; a select on it finds nothing and sleeps; then
      it is marked writable. */
  function OverlookingRun(): seq<Step> {
    [Claim(0, 0, true), Init(0)] + ([Init(0), Enter(0, {}, {0}, {}, 1)] + (Sleeping() + [Init(0), Init(0)]))
  }

  function OverlookedState(): State {
    Tiny(false, FreeSlot().(open := true, waiting := 1, send := true), Writer(Waiting, 1), [0], Allocating(Err), 0, {})
  }

  /** A lost wake-up in the configured build: the thread sleeps, the socket is ready, no callback
      is under way, and the semaphore is not signalled. The assertion of `alloc_socket` has held. */
  lemma WakeupCanBeLost()
    ensures var start := Start(false, FreeSlot()); Initial(start) && Run(start, OverlookingRun(), OverlookedState())
    ensures var st := OverlookedState();
            && st.core.Free? && st.failed == {} && InPhase(st, 0, Waiting) && Ready(st, st.sels[0], 0)
            && !st.sels[0].signalled && !Enabled(st, Wake(0))
  {
    hide Run;
    var k := FreeSlot().(open := true);
    var k1 := k.(waiting := 1);
    var claimed := Start(false, k).(allocs := Allocating(Check));
    var linked := Tiny(false, k, Writer(ToLink, 0), [], Allocating(Rcv), 0, {});
    var asleep := Tiny(false, k1, Writer(Waiting, 1), [0], Allocating(Rcv), 0, {});
    TwoSteps(asleep, Init(0), asleep.(allocs := Allocating(Send)), Init(0), OverlookedState());
    FallsAsleep(false, k, Writer(ToLink, 0), Allocating(Rcv), 0, {});
    RunThen(linked, Sleeping(), asleep, [Init(0), Init(0)], OverlookedState());
    TwoSteps(claimed, Init(0), claimed.(allocs := Allocating(Rcv)), Enter(0, {}, {0}, {}, 1), linked);
    RunThen(claimed, [Init(0), Enter(0, {}, {0}, {}, 1)], linked, Sleeping() + [Init(0), Init(0)], OverlookedState());
    TwoSteps(Start(false, FreeSlot()), Claim(0, 0, true), claimed.(allocs := Allocating(Lastdata)), Init(0), claimed);
    RunThen(Start(false, FreeSlot()), [Claim(0, 0, true), Init(0)], claimed, OverlookingRun()[2..], OverlookedState());
  }

  /** A descriptor is closed under a select and allocated again. */
  function ReuseRun(): seq<Step> {
    [Enter(0, {}, {0}, {}, 1)] + ([Link(0), IncOne(0)] + ([Close(0, false), Claim(0, 0, true)] + [Init(0), Init(0)]))
  }

  function ReuseEnd(): State {
    Tiny(false, FreeSlot().(open := true, waiting := 1), Writer(Inc(1), 0), [0], Allocating(Rcv), 0, {0})
  }

  /** The assertion of `alloc_socket` can fail in the configured build. */
  lemma AllocAssertionCanFail()
    ensures var start := Start(false, FreeSlot().(open := true)); Initial(start) && Run(start, ReuseRun(), ReuseEnd())
    ensures 0 in ReuseEnd().failed
  {
    hide Run;
    var k := FreeSlot().(open := true);
    var k1 := k.(waiting := 1);
    var linked, raised := Tiny(false, k, Writer(ToLink, 0), [], map[], 0, {}), Tiny(false, k1, Writer(Inc(1), 0), [0], map[], 0, {});
    var claimed := raised.(allocs := Allocating(Lastdata));
    TwoSteps(claimed, Init(0), raised.(allocs := Allocating(Check)), Init(0), ReuseEnd());
    TwoSteps(raised, Close(0, false), raised.(socks := [k1.(open := false)]), Claim(0, 0, true), claimed);
    RunThen(raised, [Close(0, false), Claim(0, 0, true)], claimed, [Init(0), Init(0)], ReuseEnd());
    LinkAndRaise(false, k, Writer(ToLink, 0), map[], 0, {});
    RunThen(linked, [Link(0), IncOne(0)], raised, [Close(0, false), Claim(0, 0, true)] + [Init(0), Init(0)], ReuseEnd());
    OneStep(Start(false, k), Enter(0, {}, {0}, {}, 1), ReuseRun()[1..], linked, ReuseEnd());
  }
}
