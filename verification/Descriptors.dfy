/** Life of a socket descriptor when several threads use it at once (`LWIP_NETCONN_FULLDUPLEX`,
    lwip/src/api/sockets.c), as a state machine over the sections that the code protects,
    interleaved in any order.

    A use is what one successful get opens and one done or free closes; a thread may have
    several. A descriptor fresh from `alloc_socket` is in use by the thread that made it. */
module Descriptors {

  datatype Conn = NoConn | Conn(id: nat)

  /** `struct lwip_sock`: `used` is `fd_used`, a `u8_t`; `pending` is `fd_free_pending`. */
  datatype Slot = Slot(conn: Conn, used: nat, pending: bool)

  datatype Use =
    | Seeking(i: nat)    // in the loop of alloc_socket
    | Trying(s: nat)     // counted, has not looked at the netconn yet
    | Using(s: nat)      // counted, has seen a netconn

  /** `next` numbers the netconns; `closed` holds those a close was asked for, `released` those
      handed to `netconn_delete`, in order. */
  datatype State = State(slots: seq<Slot>, uses: map<nat, Use>, next: nat, closed: set<nat>, released: seq<nat>)

  datatype Step =
    | Start(u: nat)
    | Try(u: nat)
    | Get(u: nat, s: nat)
    | Look(u: nat)
    | Done(u: nat)
    | Close(u: nat)

  predicate Holds(x: Use, s: nat) {
    (x.Trying? || x.Using?) && x.s == s
  }

  predicate Enabled(st: State, step: Step) {
    match step
    case Start(u) => u !in st.uses
    case Try(u) => u in st.uses && st.uses[u].Seeking?
    // `fd_used` must not wrap, which the code asserts
    case Get(u, s) => u !in st.uses && s < |st.slots| && (st.slots[s].pending || st.slots[s].used < 255)
    case Look(u) => u in st.uses && st.uses[u].Trying? && st.uses[u].s < |st.slots|
    case Done(u) => u in st.uses && !st.uses[u].Seeking? && st.uses[u].s < |st.slots| && st.slots[st.uses[u].s].used > 0
    case Close(u) => u in st.uses && st.uses[u].Using? && st.uses[u].s < |st.slots| && st.slots[st.uses[u].s].used > 0
  }

  /** `free_socket_locked` once the count has come down to zero. */
  function Release(st: State, s: nat): State
    requires s < |st.slots|
  {
    var k := st.slots[s];
    st.(slots := st.slots[s := k.(conn := NoConn, used := 0)],
        released := if k.conn.Conn? then st.released + [k.conn.id] else st.released)
  }

  /** One round of the search in `alloc_socket`. */
  function DoTry(st: State, u: nat): State
    requires Enabled(st, Try(u))
  {
    var i := st.uses[u].i;
    if i >= |st.slots| then st.(uses := st.uses - {u})
    else if st.slots[i].conn.NoConn? && st.slots[i].used == 0 then
      st.(slots := st.slots[i := Slot(Conn(st.next), 1, false)], uses := st.uses[u := Using(i)], next := st.next + 1)
    else st.(uses := st.uses[u := Seeking(i + 1)])
  }

  /** `sock_inc_used`. */
  function DoGet(st: State, u: nat, s: nat): State
    requires Enabled(st, Get(u, s))
  {
    var k := st.slots[s];
    if k.pending then st
    else st.(slots := st.slots[s := k.(used := k.used + 1)], uses := st.uses[u := Trying(s)])
  }

  /** `done_socket`. */
  function DoDone(st: State, u: nat): State
    requires Enabled(st, Done(u))
  {
    var s := st.uses[u].s;
    var k := st.slots[s];
    var st' := st.(uses := st.uses - {u});
    if k.used == 1 && k.pending then Release(st', s)
    else st'.(slots := st.slots[s := k.(used := k.used - 1)])
  }

  /** `free_socket`, at the end of `lwip_close`. */
  function DoClose(st: State, u: nat): State
    requires Enabled(st, Close(u))
  {
    var s := st.uses[u].s;
    var k := st.slots[s];
    var st' := st.(uses := st.uses - {u}, closed := if k.conn.Conn? then st.closed + {k.conn.id} else st.closed);
    if k.used > 1 then st'.(slots := st.slots[s := k.(used := k.used - 1, pending := true)])
    else Release(st', s)
  }

  function Do(st: State, step: Step): State
    requires Enabled(st, step)
  {
    match step
    case Start(u) => st.(uses := st.uses[u := Seeking(0)])
    case Try(u) => DoTry(st, u)
    case Get(u, s) => DoGet(st, u, s)
    case Look(u) =>
      if st.slots[st.uses[u].s].conn.Conn? then st.(uses := st.uses[u := Using(st.uses[u].s)]) else st
    case Done(u) => DoDone(st, u)
    case Close(u) => DoClose(st, u)
  }

  // ------------------------------------------------------------------ invariant

  function Holders(uses: map<nat, Use>, s: nat): set<nat> {
    set u | u in uses && Holds(uses[u], s)
  }

  /** `fd_used` is the number of uses. */
  ghost predicate Counted(st: State) {
    forall s :: 0 <= s < |st.slots| ==> st.slots[s].used == |Holders(st.uses, s)|
  }

  /** A use that has seen a netconn still has it. */
  ghost predicate Served(st: State) {
    forall u :: u in st.uses ==>
      match st.uses[u]
      case Seeking(_) => true
      case Trying(s) => s < |st.slots|
      case Using(s) => s < |st.slots| && st.slots[s].conn.Conn?
  }

  /** What a slot may look like: a close that is pending has users to wait for and a netconn to
      release, and is remembered as a close of that netconn. */
  predicate SlotOk(st: State, k: Slot) {
    && (k.conn.Conn? ==> k.conn.id < st.next && k.conn.id !in st.released && (k.conn.id in st.closed <==> k.pending))
    && (k.pending && k.used > 0 ==> k.conn.Conn?)
    && (k.pending && k.conn.Conn? ==> k.used > 0)
  }

  ghost predicate SlotsOk(st: State) {
    && (forall s :: 0 <= s < |st.slots| ==> SlotOk(st, st.slots[s]))
    && (forall a, b :: 0 <= a < |st.slots| && 0 <= b < |st.slots| && a != b && st.slots[a].conn.Conn? ==>
          st.slots[a].conn != st.slots[b].conn)
  }

  predicate InSlot(st: State, c: nat) {
    exists s :: 0 <= s < |st.slots| && st.slots[s].conn == Conn(c)
  }

  /** Every netconn is in a slot or was released, and whatever was released was closed. */
  ghost predicate Accounted(st: State) {
    && (forall c :: 0 <= c < st.next ==> InSlot(st, c) || c in st.released)
    && (forall c :: c in st.released ==> c < st.next && c in st.closed)
    && (forall c :: c in st.closed ==> c < st.next)
    && (forall i, j :: 0 <= i < j < |st.released| ==> st.released[i] != st.released[j])
  }

  ghost predicate Inv(st: State) {
    Counted(st) && Served(st) && SlotsOk(st) && Accounted(st)
  }

  ghost predicate Initial(st: State) {
    && st.uses == map[] && st.next == 0 && st.closed == {} && st.released == []
    && forall s :: 0 <= s < |st.slots| ==> st.slots[s] == Slot(NoConn, 0, false)
  }

  lemma InitialInv(st: State)
    requires Initial(st)
    ensures Inv(st)
  {
    forall s | 0 <= s < |st.slots| ensures st.slots[s].used == |Holders(st.uses, s)| {
      assert Holders(st.uses, s) == {};
    }
  }

  // ----------------------------------------------------------- counting the uses

  lemma HoldersSet(uses: map<nat, Use>, u: nat, x: Use, s: nat)
    ensures var before := u in uses && Holds(uses[u], s);
            |Holders(uses[u := x], s)| == |Holders(uses, s)| + (if Holds(x, s) then 1 else 0) - (if before then 1 else 0)
  {
    hide Holds;
    var h, h' := Holders(uses, s), Holders(uses[u := x], s);
    var rest := h - {u};
    forall v ensures v in h' <==> v in rest || (v == u && Holds(x, s)) {}
    assert h' == if Holds(x, s) then rest + {u} else rest;
    assert h == if u in h then rest + {u} else rest;
  }

  lemma HoldersDrop(uses: map<nat, Use>, u: nat, s: nat)
    requires u in uses
    ensures |Holders(uses - {u}, s)| == |Holders(uses, s)| - (if Holds(uses[u], s) then 1 else 0)
  {
    var h, h' := Holders(uses, s), Holders(uses - {u}, s);
    assert h' == h - {u};
  }

  lemma HolderCounted(st: State, u: nat, s: nat)
    requires Counted(st) && u in st.uses && Holds(st.uses[u], s) && s < |st.slots|
    ensures st.slots[s].used > 0
  {
    assert u in Holders(st.uses, s);
  }

  /** The count stays exact if it moves with the uses, slot by slot. */
  lemma StepKeepsCounted(st: State, step: Step)
    requires Counted(st) && Enabled(st, step)
    ensures Counted(Do(st, step))
  {
    hide Counted, Holders;
    var st' := Do(st, step);
    forall s | 0 <= s < |st'.slots| ensures st'.slots[s].used == |Holders(st'.uses, s)| {
      CountedAt(st, s);
      CountStep(st, step, s);
    }
    CountedFrom(st');
  }

  lemma CountedAt(st: State, s: nat)
    requires Counted(st) && s < |st.slots|
    ensures st.slots[s].used == |Holders(st.uses, s)|
  {
  }

  lemma CountedFrom(st: State)
    requires forall s :: 0 <= s < |st.slots| ==> st.slots[s].used == |Holders(st.uses, s)|
    ensures Counted(st)
  {
  }

  lemma CountStep(st: State, step: Step, s: nat)
    requires Enabled(st, step) && s < |st.slots| && st.slots[s].used == |Holders(st.uses, s)|
    ensures |Do(st, step).slots| == |st.slots| && Do(st, step).slots[s].used == |Holders(Do(st, step).uses, s)|
  {
    hide Holders;
    var st' := Do(st, step);
    if step.u in st'.uses { HoldersSet(st.uses, step.u, st'.uses[step.u], s); }
    if step.u in st.uses { HoldersDrop(st.uses, step.u, s); }
  }

  // -------------------------------------------------------- netconns and releases

  lemma StepKeepsServed(st: State, step: Step)
    requires Counted(st) && Served(st) && Enabled(st, step)
    ensures Served(Do(st, step))
  {
    hide Holders;
    var st' := Do(st, step);
    forall u | u in st'.uses
      ensures match st'.uses[u] case Seeking(_) => true case Trying(s) => s < |st'.slots|
              case Using(s) => s < |st'.slots| && st'.slots[s].conn.Conn?
    {
      if u in st.uses && st.uses[u].Using? && u != step.u { KeepsConn(st, step, u); }
    }
  }

  /** Nobody takes the netconn away from a use: it takes the last use of a slot to release it,
      and a slot without netconn to allocate it. */
  lemma KeepsConn(st: State, step: Step, u: nat)
    requires Counted(st) && Served(st) && Enabled(st, step) && u in st.uses && st.uses[u].Using? && u != step.u
    ensures u in Do(st, step).uses && Do(st, step).uses[u] == st.uses[u]
    ensures st.uses[u].s < |st.slots| == |Do(st, step).slots|
    ensures Do(st, step).slots[st.uses[u].s].conn == st.slots[st.uses[u].s].conn
  {
    hide Holders;
    var s := st.uses[u].s;
    if (step.Done? || step.Close?) && st.uses[step.u].s == s { TwoHolders(st, u, step.u, s); }
  }

  lemma TwoHolders(st: State, u: nat, v: nat, s: nat)
    requires Counted(st) && u in st.uses && v in st.uses && u != v && s < |st.slots|
    requires Holds(st.uses[u], s) && Holds(st.uses[v], s)
    ensures st.slots[s].used > 1
  {
    var h := Holders(st.uses, s);
    assert {u, v} <= h;
    assert h == {u, v} + (h - {u, v});
  }

  /** One slot changes; what it leaves behind is what `SlotsOk` asks of it and of the others. */
  lemma StepKeepsSlots(st: State, step: Step)
    requires Inv(st) && Enabled(st, step)
    ensures SlotsOk(Do(st, step))
  {
    hide Holders, Counted;
    var st' := Do(st, step);
    forall s | 0 <= s < |st'.slots| ensures SlotOk(st', st'.slots[s]) {
      assert SlotOk(st, st.slots[s]);
    }
  }

  lemma InSlotAt(st: State, s: nat)
    requires s < |st.slots| && st.slots[s].conn.Conn?
    ensures InSlot(st, st.slots[s].conn.id)
  {
  }

  lemma StepKeepsInSlot(st: State, step: Step, c: nat)
    requires Inv(st) && Enabled(st, step) && c < Do(st, step).next
    ensures InSlot(Do(st, step), c) || c in Do(st, step).released
  {
    hide Holders, Counted;
    var st' := Do(st, step);
    if c == st.next {
      InSlotAt(st', st.uses[step.u].i);
    } else if c !in st.released {
      var s :| 0 <= s < |st.slots| && st.slots[s].conn == Conn(c);
      if st'.slots[s].conn.Conn? { InSlotAt(st', s); }
    }
  }

  lemma StepKeepsAccounted(st: State, step: Step)
    requires Inv(st) && Enabled(st, step)
    ensures Accounted(Do(st, step))
  {
    hide Holders, Counted, InSlot;
    var st' := Do(st, step);
    forall c | 0 <= c < st'.next ensures InSlot(st', c) || c in st'.released { StepKeepsInSlot(st, step, c); }
  }

  lemma StepKeepsInv(st: State, step: Step)
    requires Inv(st) && Enabled(st, step)
    ensures Inv(Do(st, step))
  {
    hide Counted, Served, SlotsOk, Accounted, Do;
    StepKeepsCounted(st, step);
    StepKeepsServed(st, step);
    StepKeepsSlots(st, step);
    StepKeepsAccounted(st, step);
  }

  // ------------------------------------------------------------------ whole runs

  /** `st'` comes out of `st` by `steps`, each possible when it is taken. */
  ghost predicate Run(st: State, steps: seq<Step>, st': State)
    decreases |steps|
  {
    if steps == [] then st' == st else Enabled(st, steps[0]) && Run(Do(st, steps[0]), steps[1..], st')
  }

  lemma {:induction false} RunKeepsInv(st: State, steps: seq<Step>, st': State)
    requires Inv(st) && Run(st, steps, st')
    ensures Inv(st')
    decreases |steps|
  {
    hide Inv, Do, Enabled;
    if steps != [] {
      StepKeepsInv(st, steps[0]);
      RunKeepsInv(Do(st, steps[0]), steps[1..], st');
    }
  }

  /** At the end of any run: every netconn that was given to a descriptor is either still there
      or was released exactly once; it was released exactly if it was closed and the uses of its
      descriptor have ended, and in between the close is pending. */
  lemma ReleasedOnce(st0: State, steps: seq<Step>, st: State, c: nat)
    requires Initial(st0) && Run(st0, steps, st) && c < st.next
    ensures multiset(st.released)[c] == if c in st.closed && !InSlot(st, c) then 1 else 0
    ensures c in st.released <==> !InSlot(st, c)
    ensures c in st.released ==> c in st.closed
    ensures forall s :: 0 <= s < |st.slots| && st.slots[s].conn == Conn(c) ==>
              (c in st.closed <==> st.slots[s].pending) && (c in st.closed ==> Holders(st.uses, s) != {})
  {
    hide Run, Do, Initial, Served;
    InitialInv(st0);
    RunKeepsInv(st0, steps, st);
    DistinctOnce(st.released, c);
    forall s | 0 <= s < |st.slots| && st.slots[s].conn == Conn(c)
      ensures (c in st.closed <==> st.slots[s].pending) && (c in st.closed ==> Holders(st.uses, s) != {})
      ensures c !in st.released
    {
      assert SlotOk(st, st.slots[s]);
    }
  }

  lemma {:induction false} DistinctOnce(l: seq<nat>, c: nat)
    requires forall i, j :: 0 <= i < j < |l| ==> l[i] != l[j]
    ensures multiset(l)[c] == if c in l then 1 else 0
  {
    if l != [] {
      var n := |l| - 1;
      DistinctOnce(l[..n], c);
      assert l == l[..n] + [l[n]];
    }
  }

  /** The step that releases a netconn is a done or a close by the last use of its descriptor. */
  lemma OnlyLastUserReleases(st: State, step: Step)
    requires Inv(st) && Enabled(st, step) && Do(st, step).released != st.released
    ensures step.Done? || step.Close?
    ensures !st.uses[step.u].Seeking?
    ensures var s := st.uses[step.u].s; Holders(st.uses, s) == {step.u} && Holders(Do(st, step).uses, s) == {}
    ensures var k := st.slots[st.uses[step.u].s];
            && k.conn.Conn? && Do(st, step).released == st.released + [k.conn.id]
            && (k.conn.id in st.closed || step.Close?)
  {
    hide Served, Accounted, Counted, Holders;
    var s := st.uses[step.u].s;
    assert SlotOk(st, st.slots[s]);
    LastHolder(st, step.u, s);
    StepKeepsCounted(st, step);
    CountedAt(Do(st, step), s);
  }

  lemma LastHolder(st: State, u: nat, s: nat)
    requires Counted(st) && u in st.uses && Holds(st.uses[u], s) && s < |st.slots|
    ensures st.slots[s].used == 1 ==> Holders(st.uses, s) == {u}
  {
    var h := Holders(st.uses, s);
    assert u in h;
    assert h == {u} + (h - {u});
  }

  /** `alloc_socket` never takes a slot that somebody still holds, and its user is alone there. */
  lemma AllocTakesUnheld(st: State, u: nat)
    requires Inv(st) && Enabled(st, Try(u)) && u in DoTry(st, u).uses && DoTry(st, u).uses[u].Using?
    ensures var s := DoTry(st, u).uses[u].s;
            && s < |st.slots| && Holders(st.uses, s) == {} && !st.slots[s].conn.Conn?
            && Holders(DoTry(st, u).uses, s) == {u}
  {
    hide Served, SlotsOk, Accounted, Counted, Holders;
    var s := st.uses[u].i;
    CountedAt(st, s);
    StepKeepsCounted(st, Try(u));
    LastHolder(DoTry(st, u), u, s);
  }

  // --------------------------------------------------------- what the calls achieve

  /** Slot `s` is free in every state of the run. */
  ghost predicate StaysFree(st: State, steps: seq<Step>, s: nat)
    decreases |steps|
  {
    && s < |st.slots| && st.slots[s].conn.NoConn? && st.slots[s].used == 0
    && (steps != [] && Enabled(st, steps[0]) ==> StaysFree(Do(st, steps[0]), steps[1..], s))
  }

  /** The search of `u` has found a slot below `s` or has not come to `s`. */
  predicate Before(st: State, u: nat, s: nat) {
    u in st.uses && match st.uses[u] case Seeking(i) => i <= s case Trying(_) => false case Using(k) => k < s
  }

  lemma SearchStep(st: State, step: Step, u: nat, s: nat)
    requires Enabled(st, step) && Before(st, u, s) && s < |st.slots| && st.slots[s].conn.NoConn? && st.slots[s].used == 0
    requires step != Done(u) && step != Close(u)
    requires s < |Do(st, step).slots| && Do(st, step).slots[s].conn.NoConn?
    ensures Before(Do(st, step), u, s)
  {
  }

  /** `alloc_socket` does not fail as long as a slot stays free during its search. */
  lemma {:induction false} AllocFinds(st: State, steps: seq<Step>, st': State, u: nat, s: nat)
    requires Run(st, steps, st') && StaysFree(st, steps, s) && Before(st, u, s)
    requires forall j :: 0 <= j < |steps| ==> steps[j] != Done(u) && steps[j] != Close(u)
    ensures Before(st', u, s)
    decreases |steps|
  {
    hide Do, Enabled, Before;
    if steps != [] {
      assert steps[0] != Done(u);
      SearchStep(st, steps[0], u, s);
      AllocFinds(Do(st, steps[0]), steps[1..], st', u, s);
    }
  }

  /** A round of the search takes the slot it looks at exactly if that is free, and the search ends
      without one only behind the last slot. */
  lemma TryTakes(st: State, u: nat)
    requires Enabled(st, Try(u))
    ensures var i, st' := st.uses[u].i, Do(st, Try(u));
            if i < |st.slots| && st.slots[i].conn.NoConn? && st.slots[i].used == 0
            then u in st'.uses && st'.uses[u] == Using(i) && |st'.slots| == |st.slots| && st'.slots[i].conn == Conn(st.next)
            else st'.slots == st.slots && (u in st'.uses <==> i < |st.slots|) && (u in st'.uses ==> st'.uses[u] == Seeking(i + 1))
  {
  }

  /** A get opens a use exactly if no close is pending; a look gives it the netconn exactly if there
      is one; and only a close of a netconn adds it to those closed. */
  lemma CallsAchieve(st: State, step: Step)
    requires Inv(st) && Enabled(st, step)
    ensures var st' := Do(st, step);
            && (step.Get? ==> (step.u in st'.uses <==> !st.slots[step.s].pending))
            && (step.Get? && step.u in st'.uses ==> st'.uses[step.u] == Trying(step.s))
            && (step.Look? ==> step.u in st'.uses && (st'.uses[step.u].Using? <==> st.slots[st.uses[step.u].s].conn.Conn?))
            && (step.Done? || step.Close? ==> step.u !in st'.uses)
            && (step.Close? ==> st.slots[st.uses[step.u].s].conn.Conn? && st'.closed == st.closed + {st.slots[st.uses[step.u].s].conn.id})
            && (!step.Close? ==> st'.closed == st.closed)
  {
    hide Counted, Holders, SlotsOk, Accounted;
  }

  // ---------------------------------------------------- the assertions of the code

  /** The assertion in `done_socket` and `free_socket_locked` holds for every use. */
  lemma UseIsCounted(st: State, u: nat)
    requires Inv(st) && u in st.uses && !st.uses[u].Seeking?
    ensures Enabled(st, Done(u))
  {
    HolderCounted(st, u, st.uses[u].s);
  }

  /** What `sock_inc_used_locked` asserts when a close is pending. */
  predicate LockedAsserts(k: Slot) {
    k.pending ==> k.used != 0
  }

  /** That assertion fails exactly on a slot that was released after a pending close and was
      not allocated again since: the flag stays behind. */
  lemma LockedAssertsIff(st: State, s: nat)
    requires Inv(st) && s < |st.slots|
    ensures LockedAsserts(st.slots[s]) <==> !(st.slots[s].pending && st.slots[s].conn.NoConn?)
  {
    assert SlotOk(st, st.slots[s]);
  }

  function StaleRun(): seq<Step> {
    [Start(0), Try(0), Get(1, 0), Look(1), Close(0), Done(1)]
  }

  /** One thread closes a descriptor while another one uses it: afterwards a select on the old
      number meets the assertion. */
  lemma LockedAssertionCanFail()
    ensures exists st0, st :: Initial(st0) && Run(st0, StaleRun(), st) && |st.slots| == 1 && !LockedAsserts(st.slots[0])
  {
    var st0 := State([Slot(NoConn, 0, false)], map[], 0, {}, []);
    var st1 := st0.(uses := map[0 := Seeking(0)]);
    var st2 := State([Slot(Conn(0), 1, false)], map[0 := Using(0)], 1, {}, []);
    var st3 := State([Slot(Conn(0), 2, false)], map[0 := Using(0), 1 := Trying(0)], 1, {}, []);
    var st4 := State([Slot(Conn(0), 2, false)], map[0 := Using(0), 1 := Using(0)], 1, {}, []);
    var st5 := State([Slot(Conn(0), 1, true)], map[1 := Using(0)], 1, {0}, []);
    var st6 := State([Slot(NoConn, 0, true)], map[], 1, {0}, [0]);
    var r := StaleRun();
    assert Run(st6, r[6..], st6);
    StaleEnd(st4, st5, st6);
    assert Run(st4, r[4..], st6);
    OneStep(st3, r[3..], st4, st6);
    OneStep(st2, r[2..], st3, st6);
    OneStep(st1, r[1..], st2, st6);
    OneStep(st0, r, st1, st6);
  }

  lemma StaleEnd(st4: State, st5: State, st6: State)
    requires st4 == State([Slot(Conn(0), 2, false)], map[0 := Using(0), 1 := Using(0)], 1, {}, [])
    requires st5 == State([Slot(Conn(0), 1, true)], map[1 := Using(0)], 1, {0}, [])
    requires st6 == State([Slot(NoConn, 0, true)], map[], 1, {0}, [0])
    ensures Run(st4, StaleRun()[4..], st6)
  {
    var r := StaleRun();
    assert r[6..] == [];
    OneStep(st5, r[5..], st6, st6);
    OneStep(st4, r[4..], st5, st6);
  }

  lemma OneStep(st: State, steps: seq<Step>, next: State, st': State)
    requires steps != [] && Enabled(st, steps[0]) && Do(st, steps[0]) == next && Run(next, steps[1..], st')
    ensures Run(st, steps, st')
  {
  }
}
