// What the QF-nano kernel promises, proved about the pure model:
// FIFO delivery per object, the fatal path of a full queue, the exact
// effect of a clock tick, one-shot timers, strict priority order, and
// QF_stop as the only normal way out of the event loop.

module Properties {
  import opened Bits
  import opened Model

  // ---------------------------------------------------------------------
  // Posting and FIFO order

  /** A queue of capacity 2 takes two posts; the third is the fatal path. */
  lemma CapacityTwo(s: State, p: nat, e1: Event, e2: Event, e3: Event)
    requires WellFormed(s) && 1 <= p <= s.MaxActive()
    requires s.caps[p - 1] == 2 && s.queues[p - 1] == []
    ensures Post(s, p, e1).Some?
    ensures Post(Post(s, p, e1).value, p, e2).Some?
    ensures Post(Post(Post(s, p, e1).value, p, e2).value, p, e3).None?
    ensures Post(Post(s, p, e1).value, p, e2).value.queues[p - 1] == [e1, e2]
  {
  }

  /** A post appends to its own queue only and leaves counters and the timer set alone. */
  lemma PostEffect(s: State, p: nat, e: Event)
    requires WellFormed(s) && 1 <= p <= s.MaxActive() && Post(s, p, e).Some?
    ensures var t := Post(s, p, e).value;
      t.queues[p - 1] == s.queues[p - 1] + [e] &&
      (forall i :: 0 <= i < s.MaxActive() && i != p - 1 ==> t.queues[i] == s.queues[i]) &&
      t.ctrs == s.ctrs && t.timerSet == s.timerSet && t.running == s.running
  {
  }

  /** A dequeue returns the oldest event and removes exactly it. */
  lemma DequeueEffect(s: State, p: nat)
    requires WellFormed(s) && 1 <= p <= s.MaxActive() && |s.queues[p - 1]| > 0
    ensures var (t, e) := Dequeue(s, p);
      [e] + t.queues[p - 1] == s.queues[p - 1] &&
      (forall i :: 0 <= i < s.MaxActive() && i != p - 1 ==> t.queues[i] == s.queues[i]) &&
      t.ctrs == s.ctrs && t.timerSet == s.timerSet && t.running == s.running
  {
  }

  /** A post or a dequeue of one object, in any order over any objects. */
  datatype Op = PostOp(prio: nat, evt: Event) | TakeOp(prio: nat)

  predicate ValidOps(ops: seq<Op>, n: nat)
  {
    forall k :: 0 <= k < |ops| ==> 1 <= ops[k].prio <= n
  }

  /** Run ops in order; None when a post finds its queue full or a
      dequeue finds its queue empty (the two Q_ASSERTs). */
  function Apply(s: State, ops: seq<Op>): (r: Option<(State, seq<Delivery>)>)
    requires WellFormed(s) && ValidOps(ops, s.MaxActive())
    ensures r.Some? ==> WellFormed(r.value.0) && r.value.0.caps == s.caps
    decreases |ops|
  {
    if ops == [] then Some((s, []))
    else
      match ops[0]
      case PostOp(p, e) =>
        (match Post(s, p, e)
         case None => None
         case Some(t) => Apply(t, ops[1..]))
      case TakeOp(p) =>
        if |s.queues[p - 1]| == 0 then None
        else
          var (t, e) := Dequeue(s, p);
          match Apply(t, ops[1..])
          case None => None
          case Some((u, d)) => Some((u, [Delivery(p, e)] + d))
  }

  /** The events among ds that went to priority p, in order. */
  function EventsFor(ds: seq<Delivery>, p: nat): (es: seq<Event>)
  {
    if ds == [] then []
    else (if ds[0].prio == p then [ds[0].evt] else []) + EventsFor(ds[1..], p)
  }

  /** The events ops posts to priority p, in order. */
  function PostedTo(ops: seq<Op>, p: nat): (es: seq<Event>)
  {
    if ops == [] then []
    else (if ops[0].PostOp? && ops[0].prio == p then [ops[0].evt] else []) + PostedTo(ops[1..], p)
  }

  /**
   * FIFO: whatever the interleaving of posts and dequeues, what each
   * object has been handed followed by what still waits in its queue is
   * what it held before followed by everything posted to it, in order.
   */
  lemma {:induction false} Fifo(s: State, ops: seq<Op>, p: nat)
    requires WellFormed(s) && ValidOps(ops, s.MaxActive()) && 1 <= p <= s.MaxActive()
    requires Apply(s, ops).Some?
    ensures var r := Apply(s, ops).value;
      EventsFor(r.1, p) + r.0.queues[p - 1] == s.queues[p - 1] + PostedTo(ops, p)
    decreases |ops|, 1
  {
    if ops != [] {
      if ops[0].PostOp? {
        FifoPost(s, ops, p);
      } else {
        FifoTake(s, ops, p);
      }
    }
  }

  /** The step of Fifo for a post. */
  lemma {:induction false} FifoPost(s: State, ops: seq<Op>, p: nat)
    requires WellFormed(s) && ValidOps(ops, s.MaxActive()) && 1 <= p <= s.MaxActive()
    requires ops != [] && ops[0].PostOp? && Apply(s, ops).Some?
    ensures var r := Apply(s, ops).value;
      EventsFor(r.1, p) + r.0.queues[p - 1] == s.queues[p - 1] + PostedTo(ops, p)
    decreases |ops|, 0
  {
    var q, e, rest := ops[0].prio, ops[0].evt, ops[1..];
    assert ValidOps(rest, s.MaxActive());
    var t := Post(s, q, e).value;
    assert Apply(s, ops) == Apply(t, rest);
    PostEffect(s, q, e);
    Fifo(t, rest, p);
    var mine := if q == p then [e] else [];
    assert PostedTo(ops, p) == mine + PostedTo(rest, p);
    AppendAssoc(s.queues[p - 1], mine, PostedTo(rest, p));
  }

  /** The step of Fifo for a dequeue. */
  lemma {:induction false} FifoTake(s: State, ops: seq<Op>, p: nat)
    requires WellFormed(s) && ValidOps(ops, s.MaxActive()) && 1 <= p <= s.MaxActive()
    requires ops != [] && ops[0].TakeOp? && Apply(s, ops).Some?
    ensures var r := Apply(s, ops).value;
      EventsFor(r.1, p) + r.0.queues[p - 1] == s.queues[p - 1] + PostedTo(ops, p)
    decreases |ops|, 0
  {
    var q, rest := ops[0].prio, ops[1..];
    assert ValidOps(rest, s.MaxActive());
    var r := Dequeue(s, q);
    ApplyTake(s, ops);
    DequeueEffect(s, q);
    Fifo(r.0, rest, p);
    var v := Apply(r.0, rest).value;
    TakeStep(Delivery(q, r.1), v.1, p, s.queues[p - 1], r.0.queues[p - 1], v.0.queues[p - 1], PostedTo(rest, p));
    assert PostedTo(ops, p) == PostedTo(rest, p);
  }

  /** Apply on a leading dequeue: the dequeued event is delivered first. */
  lemma ApplyTake(s: State, ops: seq<Op>)
    requires WellFormed(s) && ValidOps(ops, s.MaxActive())
    requires ops != [] && ops[0].TakeOp? && Apply(s, ops).Some?
    ensures var q := ops[0].prio;
      1 <= q <= s.MaxActive() && |s.queues[q - 1]| > 0 &&
      ValidOps(ops[1..], s.MaxActive()) &&
      Apply(Dequeue(s, q).0, ops[1..]).Some? &&
      Apply(s, ops).value ==
        (Apply(Dequeue(s, q).0, ops[1..]).value.0,
         [Delivery(q, Dequeue(s, q).1)] + Apply(Dequeue(s, q).0, ops[1..]).value.1)
  {
    assert ValidOps(ops[1..], s.MaxActive());
  }

  /**
   * Sequence bookkeeping of the dequeue step: the delivered event x left the
   * front of queue p exactly when it was delivered to p.
   */
  lemma TakeStep(x: Delivery, d: seq<Delivery>, p: nat,
                 before: seq<Event>, mid: seq<Event>, after: seq<Event>, posted: seq<Event>)
    requires x.prio == p ==> [x.evt] + mid == before
    requires x.prio != p ==> mid == before
    requires EventsFor(d, p) + after == mid + posted
    ensures EventsFor([x] + d, p) + after == before + posted
  {
    EventsForCons(x, d, p);
    var mine := if x.prio == p then [x.evt] else [];
    assert mine + mid == before;
    AppendAssoc(mine, EventsFor(d, p), after);
    AppendAssoc(mine, mid, posted);
  }

  lemma EventsForCons(x: Delivery, d: seq<Delivery>, p: nat)
    ensures EventsFor([x] + d, p) == (if x.prio == p then [x.evt] else []) + EventsFor(d, p)
  {
    assert ([x] + d)[1..] == d;
  }

  lemma AppendAssoc<T>(a: seq<T>, b: seq<T>, c: seq<T>)
    ensures (a + b) + c == a + (b + c)
  {
  }

  // ---------------------------------------------------------------------
  // The clock tick

  /** One visit of the tick, on the visited object: its counter drops unless
      it was 0, and a counter reaching 0 posts the timeout if it fits. */
  lemma TickAtSelf(s: State, p: nat)
    requires WellFormed(s) && 1 <= p <= s.MaxActive()
    ensures var r := TickAt(s, p);
      var c := s.ctrs[p - 1];
      (r.1 <==> c != 1 || |s.queues[p - 1]| < s.caps[p - 1]) &&
      r.0.ctrs[p - 1] == (if c > 0 then c - 1 else 0) &&
      (r.1 ==> r.0.queues[p - 1] == s.queues[p - 1] + (if c == 1 then [Timeout] else []))
  {
  }

  /** One visit of the tick leaves every other object alone. */
  lemma TickAtOthers(s: State, p: nat, i: nat)
    requires WellFormed(s) && 1 <= p <= s.MaxActive() && i < s.MaxActive() && i != p - 1
    ensures TickAt(s, p).0.ctrs[i] == s.ctrs[i] && TickAt(s, p).0.queues[i] == s.queues[i]
  {
  }

  /** Whether a tick over priorities 1..n finds room for every timeout it posts. */
  predicate TimeoutsFit(s: State, n: nat)
    requires WellFormed(s) && n <= s.MaxActive()
  {
    forall i :: 0 <= i < n && s.ctrs[i] == 1 ==> |s.queues[i]| < s.caps[i]
  }

  /**
   * The tick over priorities n..1 visits each object once: a counter at 0
   * stays at 0 and any other drops by exactly 1.
   */
  lemma {:induction false} TickFromCounter(s: State, n: nat, i: nat)
    requires WellFormed(s) && n <= s.MaxActive() && i < s.MaxActive() && TickFrom(s, n).1
    ensures TickFrom(s, n).0.ctrs[i] == (if i < n && s.ctrs[i] > 0 then s.ctrs[i] - 1 else s.ctrs[i])
    decreases n
  {
    if n > 0 {
      var r := TickAt(s, n);
      TickFromCounter(r.0, n - 1, i);
      if i == n - 1 { TickAtSelf(s, n); } else { TickAtOthers(s, n, i); }
    }
  }

  /** The tick completes exactly when every timeout it posts fits its queue. */
  lemma {:induction false} TickFromCompletes(s: State, n: nat)
    requires WellFormed(s) && n <= s.MaxActive()
    ensures TickFrom(s, n).1 <==> TimeoutsFit(s, n)
    decreases n
  {
    if n > 0 {
      var r := TickAt(s, n);
      TickAtSelf(s, n);
      if r.1 {
        TickFromCompletes(r.0, n - 1);
        forall i | 0 <= i < n - 1
          ensures r.0.ctrs[i] == s.ctrs[i] && r.0.queues[i] == s.queues[i]
        {
          TickAtOthers(s, n, i);
        }
      }
    }
  }

  /** An object whose counter drops to 0 gets exactly one timeout event; no other queue changes. */
  lemma {:induction false} TickFromTimeout(s: State, n: nat, i: nat)
    requires WellFormed(s) && n <= s.MaxActive() && i < s.MaxActive() && TickFrom(s, n).1
    ensures TickFrom(s, n).0.queues[i] == s.queues[i] + (if i < n && s.ctrs[i] == 1 then [Timeout] else [])
    decreases n
  {
    if n > 0 {
      var r := TickAt(s, n);
      TickFromTimeout(r.0, n - 1, i);
      if i == n - 1 { TickAtSelf(s, n); } else { TickAtOthers(s, n, i); }
    }
  }

  /** The whole tick, over priorities QF_MAX_ACTIVE..1. */
  lemma TickEffect(s: State)
    requires WellFormed(s)
    ensures var (t, ok) := Tick(s);
      (ok <==> TimeoutsFit(s, s.MaxActive())) &&
      (ok ==> forall i :: 0 <= i < s.MaxActive() ==> t.ctrs[i] == (if s.ctrs[i] > 0 then s.ctrs[i] - 1 else 0)) &&
      (ok ==> forall i :: 0 <= i < s.MaxActive() ==>
         t.queues[i] == s.queues[i] + (if s.ctrs[i] == 1 then [Timeout] else [])) &&
      t.running == s.running
  {
    TickFromCompletes(s, s.MaxActive());
    if Tick(s).1 {
      forall i | 0 <= i < s.MaxActive()
        ensures Tick(s).0.ctrs[i] == (if s.ctrs[i] > 0 then s.ctrs[i] - 1 else 0)
        ensures Tick(s).0.queues[i] == s.queues[i] + (if s.ctrs[i] == 1 then [Timeout] else [])
      {
        TickFromCounter(s, s.MaxActive(), i);
        TickFromTimeout(s, s.MaxActive(), i);
      }
    }
  }

  /** k ticks in a row, stopping at the first failed assertion. */
  function Ticks(s: State, k: nat): (r: (State, bool))
    requires WellFormed(s)
    ensures WellFormed(r.0) && r.0.caps == s.caps
    decreases k
  {
    if k == 0 then (s, true)
    else
      var (t, ok) := Tick(s);
      if !ok then (t, false) else Ticks(t, k - 1)
  }

  /**
   * One-shot timer: after arm(3), the first two ticks post nothing to the
   * object and keep its timer bit; the third posts exactly one timeout and
   * clears the bit.
   */
  lemma ArmThreeTicks(s: State, p: nat)
    requires Inv(s) && 1 <= p <= s.MaxActive()
    requires Ticks(Arm(s, p, 3), 3).1
    ensures var a := Arm(s, p, 3);
      var t1, t2, t3 := Ticks(a, 1).0, Ticks(a, 2).0, Ticks(a, 3).0;
      t1.queues[p - 1] == s.queues[p - 1] && IsSet(t1.timerSet, p - 1) &&
      t2.queues[p - 1] == s.queues[p - 1] && IsSet(t2.timerSet, p - 1) &&
      t3.queues[p - 1] == s.queues[p - 1] + [Timeout] && !IsSet(t3.timerSet, p - 1)
  {
    var a := Arm(s, p, 3);
    ArmTimer(s, p, 3);
    TickEffect(a);
    TickKeepsInv(a);
    var (t1, ok1) := Tick(a);
    TickEffect(t1);
    TickKeepsInv(t1);
    var (t2, ok2) := Tick(t1);
    TickEffect(t2);
    TickKeepsInv(t2);
    var (t3, ok3) := Tick(t2);
    assert Ticks(a, 1).0 == t1 && Ticks(a, 2).0 == t2 && Ticks(a, 3).0 == t3;
  }

  /** An object whose counter is 0 gets no timeout and stays disarmed, however many ticks come. */
  lemma {:induction false} DisarmedStaysQuiet(s: State, p: nat, k: nat)
    requires WellFormed(s) && 1 <= p <= s.MaxActive() && s.ctrs[p - 1] == 0
    ensures var t := Ticks(s, k).0;
      t.queues[p - 1] == s.queues[p - 1] && t.ctrs[p - 1] == 0
    decreases k
  {
    if k > 0 {
      TickFromQueueUnchanged(s, s.MaxActive(), p);
      var (t, ok) := Tick(s);
      if ok {
        DisarmedStaysQuiet(t, p, k - 1);
      }
    }
  }

  /** Even a tick that fails leaves the queue of an object with a zero counter alone. */
  lemma {:induction false} TickFromQueueUnchanged(s: State, n: nat, p: nat)
    requires WellFormed(s) && n <= s.MaxActive() && 1 <= p <= s.MaxActive() && s.ctrs[p - 1] == 0
    ensures TickFrom(s, n).0.queues[p - 1] == s.queues[p - 1]
    ensures TickFrom(s, n).0.ctrs[p - 1] == 0
    decreases n
  {
    if n > 0 {
      var r := TickAt(s, n);
      if p == n {
        assert r == (s, true);
      } else {
        TickAtOthers(s, n, p - 1);
      }
      if r.1 {
        TickFromQueueUnchanged(r.0, n - 1, p);
      }
    }
  }

  /** Disarming after the first of three ticks means no timeout is ever posted. */
  lemma DisarmPreventsTimeout(s: State, p: nat, k: nat)
    requires WellFormed(s) && 1 <= p <= s.MaxActive()
    requires Tick(Arm(s, p, 3)).1
    ensures var t1 := Tick(Arm(s, p, 3)).0;
      Ticks(Disarm(t1, p), k).0.queues[p - 1] == s.queues[p - 1]
  {
    var a := Arm(s, p, 3);
    TickEffect(a);
    DisarmedStaysQuiet(Disarm(Tick(a).0, p), p, k);
  }

  /** Arming loads the object's counter and adds its timer bit; queues, the ready set and other counters stay. */
  lemma ArmEffect(s: State, p: nat, tout: nat)
    requires WellFormed(s) && 1 <= p <= s.MaxActive()
    ensures var t := Arm(s, p, tout);
      t.queues == s.queues && t.readySet == s.readySet && t.running == s.running &&
      t.ctrs[p - 1] == tout &&
      (forall i :: 0 <= i < s.MaxActive() && i != p - 1 ==> t.ctrs[i] == s.ctrs[i]) &&
      (forall i :: 0 <= i < 8 ==> (IsSet(t.timerSet, i) <==> IsSet(s.timerSet, i) || i == p - 1))
  {
    forall i | 0 <= i < 8 ensures IsSet(Arm(s, p, tout).timerSet, i) <==> IsSet(s.timerSet, i) || i == p - 1 {
      SetMask(s.timerSet, p, i);
    }
  }

  /** Disarming zeroes the object's counter and drops its timer bit; queues, the ready set and other counters stay. */
  lemma DisarmEffect(s: State, p: nat)
    requires WellFormed(s) && 1 <= p <= s.MaxActive()
    ensures var t := Disarm(s, p);
      t.queues == s.queues && t.readySet == s.readySet && t.running == s.running &&
      t.ctrs[p - 1] == 0 &&
      (forall i :: 0 <= i < s.MaxActive() && i != p - 1 ==> t.ctrs[i] == s.ctrs[i]) &&
      (forall i :: 0 <= i < 8 ==> (IsSet(t.timerSet, i) <==> IsSet(s.timerSet, i) && i != p - 1))
  {
    forall i | 0 <= i < 8 ensures IsSet(Disarm(s, p).timerSet, i) <==> IsSet(s.timerSet, i) && i != p - 1 {
      ClearMask(s.timerSet, p, i);
    }
  }

  /** Disarming an object with no armed timer changes nothing. */
  lemma DisarmIdempotent(s: State, p: nat)
    requires TimerInv(s) && 1 <= p <= s.MaxActive() && s.ctrs[p - 1] == 0
    ensures Disarm(s, p) == s
  {
    var t := Disarm(s, p);
    assert t.timerSet == s.timerSet by {
      forall i | 0 <= i < 8 ensures IsSet(t.timerSet, i) == IsSet(s.timerSet, i) {
        ClearMask(s.timerSet, p, i);
      }
      SameBits(t.timerSet, s.timerSet);
    }
    assert t.ctrs == s.ctrs;
  }

  // ---------------------------------------------------------------------
  // Priority order and the event loop

  /**
   * Strict priority: the loop idles exactly when every queue is empty;
   * otherwise it hands over the oldest event of the highest-priority
   * object that has one, and no higher object has any.
   */
  lemma IterateHighest(s: State)
    requires ReadyInv(s)
    ensures var (t, d) := Iterate(s);
      (d == [] <==> forall i :: 0 <= i < s.MaxActive() ==> |s.queues[i]| == 0) &&
      (d != [] ==> |d| == 1 && 1 <= d[0].prio <= s.MaxActive() &&
                   [d[0].evt] + t.queues[d[0].prio - 1] == s.queues[d[0].prio - 1] &&
                   forall i :: d[0].prio <= i < s.MaxActive() ==> |s.queues[i]| == 0)
  {
    ZeroIffNoBit(s.readySet);
    if s.readySet == 0 {
      forall i | 0 <= i < s.MaxActive() ensures |s.queues[i]| == 0 {
        assert !IsSet(s.readySet, i);
      }
    } else {
      var p := Resolve(s.readySet, s.MaxActive());
      forall i | p <= i < s.MaxActive() ensures |s.queues[i]| == 0 {
        assert !IsSet(s.readySet, i);
      }
    }
  }

  /**
   * Two objects, priorities 1 and 2: one event posted to 1, then one to 2,
   * before any dispatch. The loop hands over 2's event first, then 1's.
   */
  lemma TwoObjectsPriorityOrder(e1: Event, e2: Event)
    ensures var s0 := Initial([1, 1]).(running := true);
      var s1 := Post(s0, 1, e1).value;
      var s2 := Post(s1, 2, e2).value;
      var (t1, d1) := Iterate(s2);
      var (t2, d2) := Iterate(t1);
      d1 + d2 == [Delivery(2, e2), Delivery(1, e1)]
  {
    var s0 := Initial([1, 1]).(running := true);
    var s1 := Post(s0, 1, e1).value;
    PostKeepsReady(s0, 1, e1);
    var s2 := Post(s1, 2, e2).value;
    PostKeepsReady(s1, 2, e2);
    IterateHighest(s2);
    var (t1, d1) := Iterate(s2);
    IterateHighest(t1);
  }

  /**
   * QF_stop is the only way out: a running loop that ends with l_running
   * clear met a stop request in one of its batches.
   */
  lemma {:induction false} StopIsOnlyExit(s: State, env: seq<seq<Action>>, i: nat)
    requires ReadyInv(s) && ValidBatches(env, s.MaxActive()) && i <= |env|
    requires s.running && !Loop(s, env, i).state.running
    ensures exists k :: i <= k < |env| && StopAct in env[k]
    decreases |env| - i
  {
    var r1 := Iterate(s);
    var r2 := ApplyAll(r1.0, env[i], 0);
    if !r2.0.running {
      assert env[i][0..] == env[i];
    } else {
      StopIsOnlyExit(r2.0, env, i + 1);
    }
  }

  /**
   * A stop request ends the loop after the pass in which it arrives: the
   * pass delivers what its iteration took and, unless an earlier action
   * of the batch failed an assertion, l_running is clear.
   */
  lemma StopEndsLoop(s: State, env: seq<seq<Action>>, i: nat)
    requires ReadyInv(s) && s.running
    requires ValidBatches(env, s.MaxActive()) && i < |env| && StopAct in env[i]
    ensures var r := Loop(s, env, i);
      r.delivered == Iterate(s).1 && (r.fatal || !r.state.running)
  {
    var r1 := Iterate(s);
    var r2 := ApplyAll(r1.0, env[i], 0);
    assert env[i][0..] == env[i];
  }

  /** Unless stopped or failed, the loop keeps running through the whole script. */
  lemma {:induction false} LoopRunsToEnd(s: State, env: seq<seq<Action>>, i: nat)
    requires ReadyInv(s) && ValidBatches(env, s.MaxActive()) && i <= |env|
    requires s.running && forall k :: i <= k < |env| ==> StopAct !in env[k]
    ensures Loop(s, env, i).state.running
    decreases |env| - i
  {
    if i < |env| {
      var r1 := Iterate(s);
      var r2 := ApplyAll(r1.0, env[i], 0);
      assert env[i][0..] == env[i];
      if r2.1 {
        LoopRunsToEnd(r2.0, env, i + 1);
      }
    }
  }

  /**
   * Two objects, priorities 1 and 2, both queues of one slot: during the
   * first (idle) pass an interrupt posts to 1 and then to 2. The loop
   * dispatches 2's event in the second pass and 1's in the third.
   */
  lemma TwoObjectsLoop(e1: Event, e2: Event)
    ensures var r := Loop(Initial([1, 1]).(running := true), [[PostAct(1, e1), PostAct(2, e2)], [], []], 0);
      r.delivered == [Delivery(2, e2), Delivery(1, e1)] && !r.fatal
  {
    var env := [[PostAct(1, e1), PostAct(2, e2)], [], []];
    assert ValidBatches(env, 2);
    var s0 := Initial([1, 1]).(running := true);
    var s1 := Post(s0, 1, e1).value;
    PostKeepsReady(s0, 1, e1);
    var s2 := Post(s1, 2, e2).value;
    PostKeepsReady(s1, 2, e2);
    assert ApplyAll(s2, env[0], 2) == (s2, true);
    assert ApplyAll(s1, env[0], 1) == (s2, true);
    LoopPass(s0, env, 0, s0, [], s2, true);
    TwoObjectsPriorityOrder(e1, e2);
    var r1 := Iterate(s2);
    LoopPass(s2, env, 1, r1.0, r1.1, r1.0, true);
    var r2 := Iterate(r1.0);
    LoopPass(r1.0, env, 2, r2.0, r2.1, r2.0, true);
    assert r1.1 + (r2.1 + []) == [Delivery(2, e2), Delivery(1, e1)];
  }
}
