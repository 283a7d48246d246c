// The QF-nano kernel of the Win32 port as it runs: active objects whose
// ring buffers and time counters are updated in place, and the global
// ready set, timer set and running flag. Every method is one critical
// section (or the loop of QF_run) and is proved to follow the pure step
// of the same name in model.dfy.

module Kernel {
  import opened Bits
  import opened Model

  /**
   * Position of the i-th oldest event in a ring of n slots whose oldest
   * event sits at tail. Both head and tail move downwards and wrap from
   * slot 0 to slot n-1, so the i-th oldest is i slots below tail.
   */
  function Slot(tail: nat, i: nat, n: nat): (k: nat)
    requires tail < n && i <= n
    ensures k < n
  {
    if i <= tail then tail - i else tail + n - i
  }

  /** Distinct events in a non-full ring occupy distinct slots, and the next free slot is none of them. */
  lemma SlotInjective(tail: nat, i: nat, j: nat, n: nat)
    requires tail < n && i <= n && j <= n && i != j && !(i == 0 && j == n) && !(i == n && j == 0)
    ensures Slot(tail, i, n) != Slot(tail, j, n)
  {
  }

  /** One active object (QActive) together with the ring buffer of its control block. */
  class Active {
    var prio: nat                 // me->prio, assigned at startup
    var head: nat                 // next slot to write
    var tail: nat                 // slot of the oldest event
    var nUsed: nat                // events in the ring
    var tickCtr: nat              // time-event counter, 0 when disarmed
    var evt: Event                // Q_SIG(me), Q_PAR(me): the event being dispatched
    const queue: array<Event>     // QF_active[prio].queue; its length is acb->end
    ghost var items: seq<Event>   // the waiting events, oldest first

    ghost predicate Valid()
      reads this`head, this`tail, this`nUsed, this`items, queue
    {
      1 <= queue.Length <= 255 && head < queue.Length && tail < queue.Length &&
      nUsed <= queue.Length && head == Slot(tail, nUsed, queue.Length) &&
      |items| == nUsed &&
      forall i :: 0 <= i < nUsed ==> items[i] == queue[Slot(tail, i, queue.Length)]
    }

    /** The object holds a ring of capacity cap with the events q, and its counter is c. */
    ghost predicate Holds(cap: nat, q: seq<Event>, c: nat)
      reads this`head, this`tail, this`nUsed, this`items, this`tickCtr, queue
    {
      Valid() && queue.Length == cap && items == q && tickCtr == c
    }

    /** A statically allocated object with an empty ring of the given size. */
    constructor (capacity: nat)
      requires 1 <= capacity <= 255
      ensures Valid() && fresh(queue) && queue.Length == capacity
      ensures items == [] && tickCtr == 0 && prio == 0
    {
      queue := new Event[capacity];
      prio, head, tail, nUsed, tickCtr := 0, 0, 0, 0, 0;
      evt := Event(0, 0);
      items := [];
    }

    /**
     * The ring-buffer half of QActive_post: write the event at head, move
     * head down (0 wraps to end-1) and count it.
     */
    method Insert(e: Event)
      requires Valid() && nUsed < queue.Length
      modifies this`head, this`nUsed, this`items, queue
      ensures Valid() && items == old(items) + [e]
      ensures queue[old(head)] == e
      ensures forall k :: 0 <= k < queue.Length && k != old(head) ==> queue[k] == old(queue[k])
      ensures head == (if old(head) == 0 then queue.Length - 1 else old(head) - 1)
      ensures nUsed == old(nUsed) + 1
    {
      queue[head] := e;
      if head == 0 {
        head := queue.Length;
      }
      head := head - 1;
      nUsed := nUsed + 1;
      items := items + [e];
      forall i | 0 <= i < nUsed ensures items[i] == queue[Slot(tail, i, queue.Length)] {
        if i < nUsed - 1 { SlotInjective(tail, i, nUsed - 1, queue.Length); }
      }
    }

    /**
     * The ring-buffer half of the dequeue in QF_run: one event fewer, the
     * slot at tail copied into the current event, tail moved down (0 wraps
     * to end-1).
     */
    method Remove()
      requires Valid() && nUsed > 0
      modifies this`tail, this`nUsed, this`items, this`evt
      ensures Valid() && evt == old(items)[0] && items == old(items)[1..]
      ensures evt == queue[old(tail)]
      ensures tail == (if old(tail) == 0 then queue.Length - 1 else old(tail) - 1)
      ensures nUsed == old(nUsed) - 1
    {
      nUsed := nUsed - 1;
      evt := queue[tail];
      if tail == 0 {
        tail := queue.Length;
      }
      tail := tail - 1;
      items := items[1..];
      forall i | 0 <= i < nUsed ensures items[i] == queue[Slot(tail, i, queue.Length)] {
        assert Slot(tail, i, queue.Length) == Slot(old(tail), i + 1, queue.Length);
      }
    }
  }

  /** The kernel: the table of active objects and the globals of qfn_win32.c. */
  class QF {
    const active: seq<Active>        // QF_active[1..QF_MAX_ACTIVE]
    var readySet: bv8                // QF_readySet_
    var timerSet: bv8                // QF_timerSet_
    var running: bool                // l_running
    ghost const caps: seq<nat>       // acb->end of each object
    ghost var queues: seq<seq<Event>> // the waiting events of each object
    ghost var ctrs: seq<nat>         // the tickCtr of each object
    ghost const index: map<object, nat> // position in active of each object and of its ring

    /** The active objects and their rings: everything the kernel may update. */
    ghost function Repr(): set<object>
    {
      index.Keys
    }

    /** Each object and each ring is registered once, at its own position. */
    ghost predicate Registered()
    {
      1 <= |active| <= 8 && |caps| == |active| &&
      forall i :: 0 <= i < |active| ==>
        active[i] in index && index[active[i]] == i && active[i].queue in index && index[active[i].queue] == i
    }

    ghost predicate Valid()
      reads this`queues, this`ctrs, Repr()
    {
      Registered() && |queues| == |active| && |ctrs| == |active| &&
      (forall i :: 0 <= i < |active| ==> active[i].Holds(caps[i], queues[i], ctrs[i])) &&
      Shaped(caps, queues, ctrs)
    }

    /** Every object knows its own priority (the first loop of QF_run). */
    ghost predicate Prioritized()
      reads active`prio
    {
      forall i :: 0 <= i < |active| ==> active[i].prio == i + 1
    }

    /** The kernel as the model sees it. */
    ghost function Abs(): State
      reads this
    {
      State(caps, queues, ctrs, readySet, timerSet, running)
    }

    /** The objects and their rings, allocated before the kernel starts. */
    constructor (caps: seq<nat>)
      requires 1 <= |caps| <= 8 && forall i :: 0 <= i < |caps| ==> 1 <= caps[i] <= 255
      ensures Valid() && Abs() == Initial(caps)
    {
      var objs: seq<Active> := [];
      ghost var idx: map<object, nat> := map[];
      while |objs| < |caps|
        invariant |objs| <= |caps|
        invariant forall o :: o in idx ==> fresh(o)
        invariant forall i :: 0 <= i < |objs| ==>
          objs[i] in idx && idx[objs[i]] == i && objs[i].queue in idx && idx[objs[i].queue] == i &&
          objs[i].Holds(caps[i], [], 0)
      {
        var a := new Active(caps[|objs|]);
        idx := idx[a := |objs|][a.queue := |objs|];
        objs := objs + [a];
      }
      active, index := objs, idx;
      readySet, timerSet, running := 0, 0, false;
      this.caps, queues, ctrs := caps, seq(|caps|, _ => []), seq(|caps|, _ => 0);
    }

    /** The object at priority p is the one whose prio field says p. */
    lemma ObjectAt(me: Active)
      requires Prioritized() && me in active
      ensures 1 <= me.prio <= |active| && active[me.prio - 1] == me
    {
      var i :| 0 <= i < |active| && active[i] == me;
    }

    /**
     * The kernel stays valid after a critical section that touched only the
     * object at position k, its ring, and the model's entries for it.
     */
    twostate lemma ValidAfterStep(k: nat)
      requires old(Valid()) && k < |active|
      requires |queues| == |active| && |ctrs| == |active|
      requires forall i :: 0 <= i < |active| && i != k ==>
        queues[i] == old(queues[i]) && ctrs[i] == old(ctrs[i]) && unchanged(active[i], active[i].queue)
      requires active[k].Holds(caps[k], queues[k], ctrs[k])
      ensures Valid()
    {
      forall i | 0 <= i < |active| ensures active[i].Holds(caps[i], queues[i], ctrs[i]) {
        if i != k {
          assert old(active[i].Holds(caps[i], queues[i], ctrs[i]));
        }
      }
    }

    /** Only the object me and its ring were touched (the frame of one critical section). */
    lemma Others(me: Active, k: nat)
      requires Registered() && k < |active| && active[k] == me
      ensures forall i :: 0 <= i < |active| && i != k ==> active[i] != me && active[i].queue != me.queue
    {
    }

    /**
     * QActive_post: the queue must have room (Q_ASSERT, ok == false and
     * nothing written otherwise); the ring-buffer update is Active.Insert,
     * and the first event sets the object's ready bit. The wake-up of the
     * event loop is a no-op here.
     */
    method Post(me: Active, sig: nat, par: nat) returns (ok: bool)
      requires Valid() && Prioritized() && me in active
      modifies this, me`head, me`nUsed, me`items, me.queue
      ensures Valid() && Prioritized()
      ensures ok == (old(me.nUsed) < me.queue.Length)
      ensures Model.Post(old(Abs()), me.prio, Event(sig, par)) == if ok then Some(Abs()) else None
      ensures !ok ==> unchanged(this, me, me.queue)
      ensures forall i :: 0 <= i < |active| ==> active[i].tail == old(active[i].tail) && active[i].evt == old(active[i].evt)
    {
      ObjectAt(me);
      var p := me.prio;
      if me.nUsed >= me.queue.Length {
        return false;
      }
      Others(me, p - 1);
      me.Insert(Event(sig, par));
      queues := queues[p - 1 := me.items];
      if me.nUsed == 1 {
        readySet := AddPrio(readySet, p);
      }
      ok := true;
      ValidAfterStep(p - 1);
    }

    /**
     * QActive_postISR: the same queue and bitmap effect as Post; only the
     * way interrupts are masked differs, and the preemption hook of Post
     * is absent.
     */
    method PostISR(me: Active, sig: nat, par: nat) returns (ok: bool)
      requires Valid() && Prioritized() && me in active
      modifies this, me`head, me`nUsed, me`items, me.queue
      ensures Valid() && Prioritized()
      ensures ok == (old(me.nUsed) < me.queue.Length)
      ensures Model.Post(old(Abs()), me.prio, Event(sig, par)) == if ok then Some(Abs()) else None
      ensures !ok ==> unchanged(this, me, me.queue)
      ensures forall i :: 0 <= i < |active| ==> active[i].tail == old(active[i].tail) && active[i].evt == old(active[i].evt)
    {
      ok := Post(me, sig, par);
    }

    /** QActive_arm: load the counter and set the timer bit. */
    method Arm(me: Active, tout: nat)
      requires Valid() && Prioritized() && me in active
      modifies this, me`tickCtr
      ensures Valid() && Prioritized()
      ensures Abs() == Model.Arm(old(Abs()), me.prio, tout)
    {
      ObjectAt(me);
      var p := me.prio;
      Others(me, p - 1);
      me.tickCtr := tout;
      ctrs := ctrs[p - 1 := tout];
      timerSet := AddPrio(timerSet, p);
      ValidAfterStep(p - 1);
    }

    /** QActive_disarm: zero the counter and clear the timer bit. */
    method Disarm(me: Active)
      requires Valid() && Prioritized() && me in active
      modifies this, me`tickCtr
      ensures Valid() && Prioritized()
      ensures Abs() == Model.Disarm(old(Abs()), me.prio)
    {
      ObjectAt(me);
      var p := me.prio;
      Others(me, p - 1);
      me.tickCtr := 0;
      ctrs := ctrs[p - 1 := 0];
      timerSet := RemovePrio(timerSet, p);
      ValidAfterStep(p - 1);
    }

    /** QF_stop: clear l_running; the wake-up is a no-op here. */
    method Stop()
      modifies this`running
      ensures Abs() == Model.Stop(old(Abs()))
    {
      running := false;
    }

    /**
     * A counter that has just reached 0 (inside the do-while body of
     * QF_tickISR): clear the timer bit and post the timeout event through
     * QActive_postISR. ok == false is a failed Q_ASSERT in that post.
     */
    method Expire(p: nat) returns (ok: bool)
      requires Valid() && Prioritized() && 1 <= p <= |active|
      modifies this, {active[p - 1]}`head, {active[p - 1]}`nUsed, {active[p - 1]}`items, {active[p - 1]}`tickCtr, active[p - 1].queue
      ensures Valid() && Prioritized()
      ensures (Abs(), ok) == Model.Expire(old(Abs()), p)
      ensures forall i :: 0 <= i < |active| ==> active[i].tail == old(active[i].tail) && active[i].evt == old(active[i].evt)
    {
      timerSet := RemovePrio(timerSet, p);
      ok := PostISR(active[p - 1], TimeoutSig, 0);
    }

    /**
     * One pass of the do-while body of QF_tickISR, for priority p: a
     * non-zero counter is decremented and, on reaching 0, expires.
     */
    method TickOne(p: nat) returns (ok: bool)
      requires Valid() && Prioritized() && 1 <= p <= |active|
      modifies this, {active[p - 1]}`head, {active[p - 1]}`nUsed, {active[p - 1]}`items, {active[p - 1]}`tickCtr, active[p - 1].queue
      ensures Valid() && Prioritized()
      ensures (Abs(), ok) == TickAt(old(Abs()), p)
      ensures forall i :: 0 <= i < |active| ==> active[i].tail == old(active[i].tail) && active[i].evt == old(active[i].evt)
    {
      var a := active[p - 1];
      ok := true;
      if a.tickCtr != 0 {
        Others(a, p - 1);
        a.tickCtr := a.tickCtr - 1;
        ctrs := ctrs[p - 1 := a.tickCtr];
        ValidAfterStep(p - 1);
        if a.tickCtr == 0 {
          ok := Expire(p);
        }
      }
    }

    /**
     * QF_tickISR: visit priorities QF_MAX_ACTIVE down to 1, stopping at a
     * failed Q_ASSERT in a timeout post (ok == false).
     */
    method TickISR() returns (ok: bool)
      requires Valid() && Prioritized()
      modifies this, Repr()
      ensures Valid() && Prioritized()
      ensures (Abs(), ok) == Model.Tick(old(Abs()))
      ensures forall i :: 0 <= i < |active| ==> active[i].tail == old(active[i].tail) && active[i].evt == old(active[i].evt)
    {
      ghost var target := Model.Tick(Abs());
      var p: nat := |active|;
      while p != 0
        invariant p <= |active| && Valid() && Prioritized()
        invariant TickFrom(Abs(), p) == target
        invariant forall i :: 0 <= i < |active| ==> active[i].tail == old(active[i].tail) && active[i].evt == old(active[i].evt)
        decreases p
      {
        ghost var s := Abs();
        ok := TickOne(p);
        TickStep(s, p);
        if !ok {
          return;
        }
        p := p - 1;
      }
      ok := true;
    }

    /** One turn of the do-while in QF_tickISR is one step of TickFrom. */
    lemma TickStep(s: State, p: nat)
      requires WellFormed(s) && 1 <= p <= s.MaxActive()
      ensures TickFrom(s, p) == if TickAt(s, p).1 then TickFrom(TickAt(s, p).0, p - 1) else TickAt(s, p)
    {
    }

    /** The first loop of QF_run: QF_active[p] gets priority p. */
    method SetPriorities()
      requires Valid()
      modifies active`prio
      ensures Valid() && Prioritized()
    {
      for p := 1 to |active| + 1
        invariant forall i :: 0 <= i < p - 1 ==> active[i].prio == i + 1
      {
        active[p - 1].prio := p;
      }
    }

    /**
     * The dequeue inside one critical section of the event loop, for the
     * resolved priority p: take the oldest event of that object into its
     * current event (its Q_ASSERT nUsed > 0 holds because the queue is not
     * empty) and clear the ready bit if the queue drained.
     */
    method Take(p: nat) returns (e: Event)
      requires Valid() && Prioritized() && 1 <= p <= |active| && |queues[p - 1]| > 0
      modifies this, {active[p - 1]}`tail, {active[p - 1]}`nUsed, {active[p - 1]}`items, {active[p - 1]}`evt
      ensures Valid() && Prioritized()
      ensures (Abs(), e) == Model.Dequeue(old(Abs()), p)
      ensures active[p - 1].evt == e
      ensures var a := active[p - 1];
        a.tail == if old(a.tail) == 0 then a.queue.Length - 1 else old(a.tail) - 1
      ensures forall i :: 0 <= i < |active| && i != p - 1 ==>
        active[i].tail == old(active[i].tail) && active[i].evt == old(active[i].evt)
    {
      var a := active[p - 1];
      assert a.Holds(caps[p - 1], queues[p - 1], ctrs[p - 1]);
      Others(a, p - 1);
      a.Remove();
      if a.nUsed == 0 {
        readySet := RemovePrio(readySet, p);
      }
      queues := queues[p - 1 := a.items];
      ValidAfterStep(p - 1);
      e := a.evt;
    }

    /**
     * One critical section of the event loop: with some object ready,
     * resolve the highest ready priority, take the oldest event of that
     * object (Take) and hand it to the state machine. With nothing ready
     * the loop idles.
     */
    method Iterate() returns (d: seq<Delivery>)
      requires Valid() && Prioritized() && ReadyInv(Abs())
      modifies this, active`tail, active`nUsed, active`items, active`evt
      ensures Valid() && Prioritized()
      ensures (Abs(), d) == Model.Iterate(old(Abs()))
      ensures d != [] ==> active[d[0].prio - 1].evt == d[0].evt
      ensures d != [] ==> var a := active[d[0].prio - 1];
        a.tail == if old(a.tail) == 0 then a.queue.Length - 1 else old(a.tail) - 1
      ensures d == [] ==> forall i :: 0 <= i < |active| ==> active[i].evt == old(active[i].evt)
      ensures d != [] ==> forall i :: 0 <= i < |active| && i != d[0].prio - 1 ==>
        active[i].evt == old(active[i].evt)
    {
      if readySet != 0 {
        var p := Resolve(readySet, |active|);
        assert IsSet(readySet, p - 1);
        var e := Take(p);
        d := [Delivery(p, e)];
      } else {
        d := [];
      }
    }

    /** One thing an interrupt or a handler does between two passes of the loop. */
    method Perform(act: Action) returns (ok: bool)
      requires Valid() && Prioritized() && ValidAction(act, |active|)
      modifies this, Repr()
      ensures Valid() && Prioritized()
      ensures (Abs(), ok) == ApplyAction(old(Abs()), act)
      ensures forall i :: 0 <= i < |active| ==> active[i].tail == old(active[i].tail) && active[i].evt == old(active[i].evt)
    {
      match act
      case PostAct(p, e) =>
        assert active[p - 1].prio == p;
        ok := Post(active[p - 1], e.sig, e.par);
      case TickAct =>
        ok := TickISR();
      case ArmAct(p, tout) =>
        Arm(active[p - 1], tout);
        ok := true;
      case DisarmAct(p) =>
        Disarm(active[p - 1]);
        ok := true;
      case StopAct =>
        Stop();
        ok := true;
      case NoAct =>
        ok := true;
    }

    /**
     * The batch of things other contexts do between two passes of the
     * loop, in order, up to the first one that fails an assertion.
     */
    method PerformAll(acts: seq<Action>) returns (ok: bool)
      requires Valid() && Prioritized() && ValidActions(acts, |active|)
      modifies this, Repr()
      ensures Valid() && Prioritized()
      ensures (Abs(), ok) == ApplyAll(old(Abs()), acts, 0)
      ensures forall i :: 0 <= i < |active| ==> active[i].tail == old(active[i].tail) && active[i].evt == old(active[i].evt)
    {
      ghost var target := ApplyAll(Abs(), acts, 0);
      var j := 0;
      while j < |acts|
        invariant j <= |acts| && Valid() && Prioritized()
        invariant ApplyAll(Abs(), acts, j) == target
        invariant forall i :: 0 <= i < |active| ==> active[i].tail == old(active[i].tail) && active[i].evt == old(active[i].evt)
        decreases |acts| - j
      {
        ok := Perform(acts[j]);
        if !ok {
          return;
        }
        j := j + 1;
      }
      ok := true;
    }

    /**
     * QF_run: give each object its priority, set l_running and run the
     * event loop.
     */
    method Run(env: seq<seq<Action>>) returns (fatal: bool, log: seq<Delivery>)
      requires Valid() && ReadyInv(Abs()) && ValidBatches(env, |active|)
      modifies this, Repr()
      ensures Valid() && Prioritized()
      ensures Loop(old(Abs()).(running := true), env, 0) == Outcome(Abs(), log, fatal)
    {
      SetPriorities();
      running := true;
      fatal, log := EventLoop(env);
    }

    /**
     * The `while (l_running)` loop of QF_run. What other contexts do is the
     * script env, one batch of actions after each pass; the run also ends
     * on a failed assertion (fatal) or when the script is used up.
     */
    method EventLoop(env: seq<seq<Action>>) returns (fatal: bool, log: seq<Delivery>)
      requires Valid() && Prioritized() && ReadyInv(Abs()) && ValidBatches(env, |active|)
      modifies this, Repr()
      ensures Valid() && Prioritized()
      ensures Loop(old(Abs()), env, 0) == Outcome(Abs(), log, fatal)
    {
      ghost var start := Abs();
      var i := 0;
      fatal, log := false, [];
      assert [] + Loop(start, env, 0).delivered == Loop(start, env, 0).delivered;
      while running && i < |env|
        invariant i <= |env| && Valid() && Prioritized() && ReadyInv(Abs())
        invariant Loop(start, env, 0) == Then(log, Loop(Abs(), env, i))
        decreases |env| - i
      {
        var d, ok := Pass(env, i);
        if !ok {
          return true, log + d;
        }
        ThenThen(log, d, Loop(Abs(), env, i + 1));
        log := log + d;
        i := i + 1;
      }
      assert log + [] == log;
    }

    /** One pass of the loop body: one dispatch, then the script's next batch. */
    method Pass(env: seq<seq<Action>>, i: nat) returns (d: seq<Delivery>, ok: bool)
      requires Valid() && Prioritized() && ReadyInv(Abs()) && running
      requires ValidBatches(env, |active|) && i < |env|
      modifies this, Repr()
      ensures Valid() && Prioritized() && ReadyInv(Abs())
      ensures Loop(old(Abs()), env, i) == if ok then Then(d, Loop(Abs(), env, i + 1)) else Outcome(Abs(), d, true)
    {
      ghost var s := Abs();
      d := Iterate();
      ghost var s1 := Abs();
      ok := PerformAll(env[i]);
      LoopPass(s, env, i, s1, d, Abs(), ok);
    }
  }
}
