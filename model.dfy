// The abstract state of the QF-nano kernel and one pure function per
// atomic step: post, dequeue, arm, disarm, stop, the clock tick and the
// dispatch loop. The classes in kernel.dfy are proved to follow these
// functions; properties.dfy proves what the kernel promises about them.
//
// Active object p (1 <= p <= MaxActive) is stored at index p-1 of every
// sequence and owns bit p-1 of both bitmaps.

module Model {
  import opened Bits

  datatype Option<T> = None | Some(value: T)

  /** An event: a signal (QSignal) and its parameter (QParam). */
  datatype Event = Event(sig: nat, par: nat)

  /** Q_TIMEOUT_SIG, the reserved signal of the time-out event. */
  const TimeoutSig: nat := 4

  /** The timeout event the tick posts; its parameter is 0. */
  const Timeout: Event := Event(TimeoutSig, 0)

  /** One event handed to the state machine of the active object at prio. */
  datatype Delivery = Delivery(prio: nat, evt: Event)

  datatype State = State(
    caps: seq<nat>,            // acb->end: capacity of each object's ring buffer
    queues: seq<seq<Event>>,   // events waiting in each ring buffer, oldest first
    ctrs: seq<nat>,            // tickCtr of each object, 0 when disarmed
    readySet: bv8,             // QF_readySet_
    timerSet: bv8,             // QF_timerSet_
    running: bool)             // l_running
  {
    /** QF_MAX_ACTIVE */
    function MaxActive(): nat { |caps| }
  }

  /** Sizes fit the configuration: at most 8 objects, 8-bit queue lengths. */
  predicate Shaped(caps: seq<nat>, queues: seq<seq<Event>>, ctrs: seq<nat>)
  {
    1 <= |caps| <= 8 && |queues| == |caps| && |ctrs| == |caps| &&
    forall i :: 0 <= i < |caps| ==> 1 <= caps[i] <= 255 && |queues[i]| <= caps[i]
  }

  predicate WellFormed(s: State)
  {
    Shaped(s.caps, s.queues, s.ctrs)
  }

  /** The ready bit of an object is set exactly when its queue is non-empty. */
  predicate ReadyInv(s: State)
  {
    WellFormed(s) && Below(s.readySet, s.MaxActive()) &&
    forall i :: 0 <= i < s.MaxActive() ==> (IsSet(s.readySet, i) <==> |s.queues[i]| > 0)
  }

  /** The timer bit of an object is set exactly when its counter is armed. */
  predicate TimerInv(s: State)
  {
    WellFormed(s) && Below(s.timerSet, s.MaxActive()) &&
    forall i :: 0 <= i < s.MaxActive() ==> (IsSet(s.timerSet, i) <==> s.ctrs[i] > 0)
  }

  predicate Inv(s: State)
  {
    ReadyInv(s) && TimerInv(s)
  }

  /** The state before QF_run: every queue empty, every timer disarmed. */
  function Initial(caps: seq<nat>): (s: State)
    requires 1 <= |caps| <= 8 && forall i :: 0 <= i < |caps| ==> 1 <= caps[i] <= 255
    ensures Inv(s) && !s.running
  {
    State(caps, seq(|caps|, _ => []), seq(|caps|, _ => 0), 0, 0, false)
  }

  /**
   * QActive_post / QActive_postISR, one critical section. None is the
   * Q_ASSERT failure on a full queue: nothing is written.
   */
  function Post(s: State, p: nat, e: Event): (r: Option<State>)
    requires WellFormed(s) && 1 <= p <= s.MaxActive()
    ensures r.None? <==> |s.queues[p - 1]| == s.caps[p - 1]
    ensures r.Some? ==> WellFormed(r.value) && r.value.caps == s.caps && r.value.running == s.running
  {
    var q := s.queues[p - 1];
    if |q| >= s.caps[p - 1] then None
    else
      var ready := if |q| + 1 == 1 then AddPrio(s.readySet, p) else s.readySet;
      Some(s.(queues := s.queues[p - 1 := q + [e]], readySet := ready))
  }

  /**
   * The dequeue inside QF_run: remove the oldest event of object p.
   * Its Q_ASSERT (nUsed > 0) is this function's precondition.
   */
  function Dequeue(s: State, p: nat): (r: (State, Event))
    requires WellFormed(s) && 1 <= p <= s.MaxActive() && |s.queues[p - 1]| > 0
    ensures WellFormed(r.0) && r.0.caps == s.caps
  {
    var q := s.queues[p - 1];
    var ready := if |q| - 1 == 0 then RemovePrio(s.readySet, p) else s.readySet;
    (s.(queues := s.queues[p - 1 := q[1..]], readySet := ready), q[0])
  }

  /** QActive_arm */
  function Arm(s: State, p: nat, tout: nat): (r: State)
    requires WellFormed(s) && 1 <= p <= s.MaxActive()
    ensures WellFormed(r) && r.caps == s.caps
  {
    s.(ctrs := s.ctrs[p - 1 := tout], timerSet := AddPrio(s.timerSet, p))
  }

  /** QActive_disarm */
  function Disarm(s: State, p: nat): (r: State)
    requires WellFormed(s) && 1 <= p <= s.MaxActive()
    ensures WellFormed(r) && r.caps == s.caps
  {
    s.(ctrs := s.ctrs[p - 1 := 0], timerSet := RemovePrio(s.timerSet, p))
  }

  /** QF_stop: clear l_running and nothing else. */
  function Stop(s: State): (r: State)
    ensures !r.running
    ensures r.caps == s.caps && r.queues == s.queues && r.ctrs == s.ctrs
    ensures r.readySet == s.readySet && r.timerSet == s.timerSet
  {
    s.(running := false)
  }

  /**
   * A counter of object p that has just reached 0: clear its timer bit and
   * post it the timeout event. The flag is false when that post hit a full
   * queue (Q_ASSERT); the state is then the one at the moment of the failure.
   */
  function Expire(s: State, p: nat): (r: (State, bool))
    requires WellFormed(s) && 1 <= p <= s.MaxActive()
    ensures WellFormed(r.0) && r.0.caps == s.caps && r.0.running == s.running
  {
    var s1 := s.(timerSet := RemovePrio(s.timerSet, p));
    match Post(s1, p, Timeout)
    case None => (s1, false)
    case Some(s2) => (s2, true)
  }

  /** One pass of the do-while body of QF_tickISR, for priority p. */
  function TickAt(s: State, p: nat): (r: (State, bool))
    requires WellFormed(s) && 1 <= p <= s.MaxActive()
    ensures WellFormed(r.0) && r.0.caps == s.caps && r.0.running == s.running
  {
    var c := s.ctrs[p - 1];
    if c == 0 then (s, true)
    else
      var s1 := s.(ctrs := s.ctrs[p - 1 := c - 1]);
      if c - 1 != 0 then (s1, true) else Expire(s1, p)
  }

  /** QF_tickISR from priority n down to 1, stopping at a failed post. */
  function TickFrom(s: State, n: nat): (r: (State, bool))
    requires WellFormed(s) && n <= s.MaxActive()
    ensures WellFormed(r.0) && r.0.caps == s.caps && r.0.running == s.running
    decreases n
  {
    if n == 0 then (s, true)
    else
      var r := TickAt(s, n);
      if !r.1 then r else TickFrom(r.0, n - 1)
  }

  /** QF_tickISR: visit priorities QF_MAX_ACTIVE, ..., 1. */
  function Tick(s: State): (r: (State, bool))
    requires WellFormed(s)
    ensures WellFormed(r.0) && r.0.caps == s.caps && r.0.running == s.running
  {
    TickFrom(s, s.MaxActive())
  }

  // ---------------------------------------------------------------------
  // Preservation of the ready-bit and timer-bit invariants

  lemma PostKeepsReady(s: State, p: nat, e: Event)
    requires WellFormed(s) && 1 <= p <= s.MaxActive() && Post(s, p, e).Some?
    ensures ReadyInv(s) ==> ReadyInv(Post(s, p, e).value)
  {
    var t := Post(s, p, e).value;
    forall i | 0 <= i < 8 ensures IsSet(t.readySet, i) <==> IsSet(s.readySet, i) || (i == p - 1 && |s.queues[p - 1]| == 0) {
      SetMask(s.readySet, p, i);
    }
  }

  lemma DequeueKeepsReady(s: State, p: nat)
    requires ReadyInv(s) && 1 <= p <= s.MaxActive() && |s.queues[p - 1]| > 0
    ensures ReadyInv(Dequeue(s, p).0)
  {
    var t := Dequeue(s, p).0;
    forall i | 0 <= i < 8 ensures IsSet(t.readySet, i) <==> IsSet(s.readySet, i) && (i != p - 1 || |s.queues[p - 1]| > 1) {
      ClearMask(s.readySet, p, i);
    }
  }

  lemma PostKeepsTimer(s: State, p: nat, e: Event)
    requires WellFormed(s) && 1 <= p <= s.MaxActive() && Post(s, p, e).Some?
    ensures TimerInv(s) ==> TimerInv(Post(s, p, e).value)
  {
  }

  /** Arming keeps the timer invariant exactly when the timeout is positive. */
  lemma ArmTimer(s: State, p: nat, tout: nat)
    requires WellFormed(s) && 1 <= p <= s.MaxActive()
    ensures TimerInv(s) ==> (TimerInv(Arm(s, p, tout)) <==> tout > 0)
  {
    var t := Arm(s, p, tout);
    forall i | 0 <= i < 8 ensures IsSet(t.timerSet, i) <==> IsSet(s.timerSet, i) || i == p - 1 {
      SetMask(s.timerSet, p, i);
    }
    if tout == 0 {
      assert IsSet(t.timerSet, p - 1) && t.ctrs[p - 1] == 0;
    }
  }

  lemma DisarmKeepsTimer(s: State, p: nat)
    requires WellFormed(s) && 1 <= p <= s.MaxActive()
    ensures TimerInv(s) ==> TimerInv(Disarm(s, p))
  {
    var t := Disarm(s, p);
    forall i | 0 <= i < 8 ensures IsSet(t.timerSet, i) <==> IsSet(s.timerSet, i) && i != p - 1 {
      ClearMask(s.timerSet, p, i);
    }
  }

  lemma TickAtKeepsReady(s: State, p: nat)
    requires WellFormed(s) && 1 <= p <= s.MaxActive()
    ensures ReadyInv(s) ==> ReadyInv(TickAt(s, p).0)
  {
    if s.ctrs[p - 1] == 1 {
      var s2 := s.(ctrs := s.ctrs[p - 1 := 0], timerSet := RemovePrio(s.timerSet, p));
      assert ReadyInv(s) ==> ReadyInv(s2);
      if Post(s2, p, Timeout).Some? {
        PostKeepsReady(s2, p, Timeout);
      }
    }
  }

  lemma TickAtKeepsTimer(s: State, p: nat)
    requires WellFormed(s) && 1 <= p <= s.MaxActive()
    ensures TimerInv(s) ==> TimerInv(TickAt(s, p).0)
  {
    if TimerInv(s) {
      var c := s.ctrs[p - 1];
      if c == 1 {
        var s2 := Disarm(s, p);
        DisarmKeepsTimer(s, p);
        match Post(s2, p, Timeout)
        case None => assert TickAt(s, p).0 == s2;
        case Some(s3) =>
          PostKeepsTimer(s2, p, Timeout);
          assert TickAt(s, p).0 == s3;
      } else if c > 1 {
        assert TickAt(s, p).0 == s.(ctrs := s.ctrs[p - 1 := c - 1]);
      }
    }
  }

  lemma {:induction false} TickFromKeepsInv(s: State, n: nat)
    requires WellFormed(s) && n <= s.MaxActive()
    ensures ReadyInv(s) ==> ReadyInv(TickFrom(s, n).0)
    ensures TimerInv(s) ==> TimerInv(TickFrom(s, n).0)
    decreases n
  {
    if n > 0 {
      TickAtKeepsReady(s, n);
      TickAtKeepsTimer(s, n);
      var (s1, ok) := TickAt(s, n);
      if ok { TickFromKeepsInv(s1, n - 1); }
    }
  }

  lemma TickKeepsInv(s: State)
    requires WellFormed(s)
    ensures ReadyInv(s) ==> ReadyInv(Tick(s).0)
    ensures TimerInv(s) ==> TimerInv(Tick(s).0)
  {
    TickFromKeepsInv(s, s.MaxActive());
  }

  // ---------------------------------------------------------------------
  // The dispatch loop of QF_run

  /**
   * One critical section of the event loop: if some object is ready,
   * resolve the highest ready priority and dequeue its oldest event for
   * dispatch; otherwise the loop idles.
   */
  function Iterate(s: State): (r: (State, seq<Delivery>))
    requires ReadyInv(s)
    ensures ReadyInv(r.0) && r.0.caps == s.caps && r.0.running == s.running
    ensures TimerInv(s) ==> TimerInv(r.0)
  {
    if s.readySet == 0 then (s, [])
    else
      var p := Resolve(s.readySet, s.MaxActive());
      DequeueKeepsReady(s, p);
      var (s1, e) := Dequeue(s, p);
      (s1, [Delivery(p, e)])
  }

  /**
   * What other contexts do while the loop dispatches or idles: interrupts
   * and state-machine handlers post events, tick, arm, disarm or stop.
   */
  datatype Action =
    | PostAct(prio: nat, evt: Event)
    | TickAct
    | ArmAct(prio: nat, tout: nat)
    | DisarmAct(prio: nat)
    | StopAct
    | NoAct

  predicate ValidAction(a: Action, n: nat)
  {
    match a
    case PostAct(p, _) => 1 <= p <= n
    case ArmAct(p, _) => 1 <= p <= n
    case DisarmAct(p) => 1 <= p <= n
    case _ => true
  }

  /** Every arm request in acts has a positive timeout. */
  predicate PositiveArms(acts: seq<Action>)
  {
    forall k :: 0 <= k < |acts| && acts[k].ArmAct? ==> acts[k].tout > 0
  }

  /**
   * The effect of one action; false when it hit a Q_ASSERT. Only a stop
   * request clears l_running; both bitmap invariants survive, the timer
   * one provided an arm request has a positive timeout.
   */
  function ApplyAction(s: State, a: Action): (r: (State, bool))
    requires WellFormed(s) && ValidAction(a, s.MaxActive())
    ensures WellFormed(r.0) && r.0.caps == s.caps
    ensures r.0.running == (s.running && !a.StopAct?)
    ensures ReadyInv(s) ==> ReadyInv(r.0)
    ensures TimerInv(s) && (a.ArmAct? ==> a.tout > 0) ==> TimerInv(r.0)
  {
    match a
    case PostAct(p, e) =>
      (match Post(s, p, e)
       case None => (s, false)
       case Some(t) => PostKeepsReady(s, p, e); PostKeepsTimer(s, p, e); (t, true))
    case TickAct => TickKeepsInv(s); Tick(s)
    case ArmAct(p, tout) => ArmTimer(s, p, tout); (Arm(s, p, tout), true)
    case DisarmAct(p) => DisarmKeepsTimer(s, p); (Disarm(s, p), true)
    case StopAct => (Stop(s), true)
    case NoAct => (s, true)
  }

  /**
   * The actions acts[j..] in order, as one batch of what other contexts
   * do between two passes of the loop; the batch breaks off at the first
   * action that fails an assertion.
   */
  function ApplyAll(s: State, acts: seq<Action>, j: nat): (r: (State, bool))
    requires WellFormed(s) && ValidActions(acts, s.MaxActive()) && j <= |acts|
    ensures WellFormed(r.0) && r.0.caps == s.caps
    ensures r.0.running ==> s.running
    ensures s.running && !r.0.running ==> StopAct in acts[j..]
    ensures r.1 && StopAct in acts[j..] ==> !r.0.running
    ensures ReadyInv(s) ==> ReadyInv(r.0)
    ensures TimerInv(s) && PositiveArms(acts) ==> TimerInv(r.0)
    decreases |acts| - j
  {
    if j == |acts| then (s, true)
    else
      var r := ApplyAction(s, acts[j]);
      assert acts[j..] == [acts[j]] + acts[j + 1..];
      if !r.1 then r else ApplyAll(r.0, acts, j + 1)
  }

  /** Where the loop ends: its final state, every delivery in order, and
      whether it ended on a failed assertion. */
  datatype Outcome = Outcome(state: State, delivered: seq<Delivery>, fatal: bool)

  /** The outcome r of the rest of a run whose earlier passes delivered d. */
  function Then(d: seq<Delivery>, r: Outcome): (o: Outcome)
    ensures o.state == r.state && o.fatal == r.fatal && |o.delivered| == |d| + |r.delivered|
    ensures o.delivered[..|d|] == d && o.delivered[|d|..] == r.delivered
  {
    r.(delivered := d + r.delivered)
  }

  predicate ValidActions(acts: seq<Action>, n: nat)
  {
    forall k :: 0 <= k < |acts| ==> ValidAction(acts[k], n)
  }

  predicate ValidBatches(env: seq<seq<Action>>, n: nat)
  {
    forall k :: 0 <= k < |env| ==> ValidActions(env[k], n)
  }

  /** Every arm request of the script has a positive timeout. */
  predicate PositiveScript(env: seq<seq<Action>>)
  {
    forall k :: 0 <= k < |env| ==> PositiveArms(env[k])
  }

  /**
   * The event loop `while (l_running)`, observed over the script env from
   * its i-th batch on: each pass runs one iteration and then the batch of
   * actions other contexts perform before the next one. The loop leaves
   * when l_running is clear, when an action fails an assertion, or when
   * the script ends. Both bitmap invariants hold throughout, the timer one
   * when no arm request has a zero timeout.
   */
  function Loop(s: State, env: seq<seq<Action>>, i: nat): (r: Outcome)
    requires ReadyInv(s) && ValidBatches(env, s.MaxActive()) && i <= |env|
    ensures ReadyInv(r.state) && r.state.caps == s.caps
    ensures TimerInv(s) && PositiveScript(env) ==> TimerInv(r.state)
    decreases |env| - i
  {
    if !s.running || i == |env| then Outcome(s, [], false)
    else
      var r1 := Iterate(s);
      var r2 := ApplyAll(r1.0, env[i], 0);
      if !r2.1 then Outcome(r2.0, r1.1, true) else Then(r1.1, Loop(r2.0, env, i + 1))
  }

  /** One pass of a running loop, stated on the results of its two halves. */
  lemma LoopPass(s: State, env: seq<seq<Action>>, i: nat, s1: State, d: seq<Delivery>, s2: State, ok: bool)
    requires ReadyInv(s) && ValidBatches(env, s.MaxActive()) && s.running && i < |env|
    requires (s1, d) == Iterate(s) && (s2, ok) == ApplyAll(s1, env[i], 0)
    ensures ReadyInv(s2) && s2.caps == s.caps
    ensures Loop(s, env, i) == if ok then Then(d, Loop(s2, env, i + 1)) else Outcome(s2, d, true)
  {
  }

  /** Passes compose: the deliveries of earlier passes come first. */
  lemma ThenThen(a: seq<Delivery>, b: seq<Delivery>, r: Outcome)
    ensures Then(a, Then(b, r)) == Then(a + b, r)
  {
    assert a + (b + r.delivered) == (a + b) + r.delivered;
  }
}
