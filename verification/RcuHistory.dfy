/** What the runs of the read-copy-update system do, told by their events: how often each callback
    runs, what a call has done when it returns, and who may still hold a replaced pointer. */
module RcuHistory {
  import opened Rcu

  // ----- callbacks

  /** The callback that this step queues. */
  function PushedBy(s: State, t: nat, a: Action): seq<Ptr>
    requires t < |s.threads|
  {
    if a.Continue? && s.threads[t].pc.CallPush? then [s.threads[t].pc.p] else []
  }

  /** The callback that this step runs. */
  function FreedBy(s: State, t: nat, a: Action): seq<Ptr>
    requires t < |s.threads|
  {
    if a.Continue? && s.threads[t].pc.CleanRun? && s.threads[t].pc.list != [] then [s.threads[t].pc.list[0]] else []
  }

  lemma FreedByFrees(s: State, t: nat, a: Action, p: Ptr)
    requires t < |s.threads|
    ensures Frees(s, t, a, p) <==> FreedBy(s, t, a) == [p]
    ensures FreedBy(s, t, a) == [] <==> forall q :: !Frees(s, t, a, q)
  {
    if FreedBy(s, t, a) != [] { assert Frees(s, t, a, FreedBy(s, t, a)[0]); }
  }

  function Occurrences(s: seq<Ptr>, p: Ptr): nat { multiset(s)[p] }

  lemma OccurrencesConcat(a: seq<Ptr>, b: seq<Ptr>, p: Ptr)
    ensures Occurrences(a + b, p) == Occurrences(a, p) + Occurrences(b, p)
  {
    assert multiset(a + b) == multiset(a) + multiset(b);
  }

  /** The callbacks that a running rcu_cleanup has taken and not run. */
  function Taken(pc: Pc): seq<Ptr> {
    match pc
    case CleanUnlock(list) => list
    case CleanRun(list) => list
    case _ => []
  }

  function AllTaken(threads: seq<Thread>, p: Ptr): nat {
    if threads == [] then 0
    else AllTaken(threads[..|threads| - 1], p) + Occurrences(Taken(threads[|threads| - 1].pc), p)
  }

  /** How often p is queued, or taken and not run yet. */
  function Pending(s: State, p: Ptr): nat { Occurrences(s.cbs, p) + AllTaken(s.threads, p) }

  /** Only the list of thread t changes. */
  lemma {:induction false} AllTakenChange(a: seq<Thread>, b: seq<Thread>, t: nat, p: Ptr)
    requires |a| == |b| && forall u | 0 <= u < |a| && u != t :: Taken(a[u].pc) == Taken(b[u].pc)
    ensures AllTaken(b, p) == AllTaken(a, p)
              + if t < |a| then Occurrences(Taken(b[t].pc), p) - Occurrences(Taken(a[t].pc), p) else 0
  {
    if a == [] {
    } else {
      AllTakenChange(a[..|a| - 1], b[..|a| - 1], t, p);
    }
  }

  /** What one step does to the queue and to its thread's list. */
  lemma StepQueue(s: State, t: nat, a: Action)
    requires t < |s.threads| && Allowed(s, t, a)
    ensures |Step(s, t, a).threads| == |s.threads|
    ensures forall u | 0 <= u < |s.threads| && u != t :: Taken(Step(s, t, a).threads[u].pc) == Taken(s.threads[u].pc)
    ensures var s2 := Step(s, t, a); var before, after := Taken(s.threads[t].pc), Taken(s2.threads[t].pc);
            if a.Continue? && s.threads[t].pc.CleanTake? then s2.cbs == [] && before == [] && after == s.cbs
            else s2.cbs == PushedBy(s, t, a) + s.cbs && before == FreedBy(s, t, a) + after
    ensures a.Continue? && s.threads[t].pc.CleanTake? ==> PushedBy(s, t, a) == FreedBy(s, t, a) == []
  {
  }

  lemma StepPending(s: State, t: nat, a: Action, p: Ptr)
    requires t < |s.threads| && Allowed(s, t, a)
    ensures Pending(Step(s, t, a), p) + Occurrences(FreedBy(s, t, a), p)
         == Pending(s, p) + Occurrences(PushedBy(s, t, a), p)
  {
    hide Step, Allowed, Taken, PushedBy, FreedBy, Occurrences, AllTaken;
    StepQueue(s, t, a);
    var s2 := Step(s, t, a);
    AllTakenChange(s.threads, s2.threads, t, p);
    OccurrencesConcat(PushedBy(s, t, a), s.cbs, p);
    OccurrencesConcat(FreedBy(s, t, a), Taken(s2.threads[t].pc), p);
    NoOccurrence(p);
  }

  lemma NoOccurrence(p: Ptr)
    ensures Occurrences([], p) == 0
  {
  }

  /** How often p was queued before state i. */
  ghost function PushCount(states: seq<State>, events: seq<Event>, p: Ptr, i: nat): nat
    requires IsRun(states, events) && i < |states|
  {
    if i == 0 then 0
    else
      RunStep(states, events, i - 1);
      PushCount(states, events, p, i - 1) + Occurrences(PushedBy(states[i - 1], events[i - 1].t, events[i - 1].a), p)
  }

  /** How often the callback for p ran before state i. */
  ghost function FreeCount(states: seq<State>, events: seq<Event>, p: Ptr, i: nat): nat
    requires IsRun(states, events) && i < |states|
  {
    if i == 0 then 0
    else
      RunStep(states, events, i - 1);
      FreeCount(states, events, p, i - 1) + Occurrences(FreedBy(states[i - 1], events[i - 1].t, events[i - 1].a), p)
  }

  lemma {:induction false} NothingTaken(threads: seq<Thread>, p: Ptr)
    requires forall u | 0 <= u < |threads| :: Taken(threads[u].pc) == []
    ensures AllTaken(threads, p) == 0
  {
    if threads == [] {
    } else {
      NothingTaken(threads[..|threads| - 1], p);
    }
  }

  /** Every callback runs as often as it was queued, no more and, once nothing is pending, no less. */
  lemma {:induction false} CallbacksOnce(states: seq<State>, events: seq<Event>, p: Ptr, i: nat)
    requires IsRun(states, events) && i < |states|
    ensures PushCount(states, events, p, i) == FreeCount(states, events, p, i) + Pending(states[i], p)
  {
    hide Step, Allowed, FreedBy, PushedBy, Inv;
    if i == 0 {
      NothingTaken(states[0].threads, p);
    } else {
      CallbacksOnce(states, events, p, i - 1);
      RunStep(states, events, i - 1);
      StepPending(states[i - 1], events[i - 1].t, events[i - 1].a, p);
    }
  }

  // ----- what a call has done when it returns

  /** What thread t queues between two states. */
  ghost function PushedIn(states: seq<State>, events: seq<Event>, t: nat, a: nat, b: nat): seq<Ptr>
    requires IsRun(states, events) && a <= b < |states|
    decreases b
  {
    if a == b then []
    else
      RunStep(states, events, b - 1);
      PushedIn(states, events, t, a, b - 1)
      + if events[b - 1].t == t then PushedBy(states[b - 1], t, events[b - 1].a) else []
  }

  /** What thread t runs between two states. */
  ghost function FreedIn(states: seq<State>, events: seq<Event>, t: nat, a: nat, b: nat): seq<Ptr>
    requires IsRun(states, events) && a <= b < |states|
    decreases b
  {
    if a == b then []
    else
      RunStep(states, events, b - 1);
      FreedIn(states, events, t, a, b - 1)
      + if events[b - 1].t == t then FreedBy(states[b - 1], t, events[b - 1].a) else []
  }

  /** Thread t makes a call at event a and has returned from it in state b. */
  ghost predicate Returns(states: seq<State>, events: seq<Event>, t: nat, act: Action, a: nat, b: nat) {
    && a < b < |states| && |states| == |events| + 1 && events[a] == Event(t, act)
    && (forall k | a < k <= b :: t < |states[k].threads|)
    && (forall k | a < k < b :: !states[k].threads[t].pc.Idle?)
    && states[b].threads[t].pc.Idle?
  }

  /** Other threads move this one only within a scan of rcu_synchronize. */
  lemma OtherStep(s: State, u: nat, a: Action, t: nat)
    requires u < |s.threads| && t < |s.threads| && Allowed(s, u, a) && u != t
    ensures t < |Step(s, u, a).threads|
    ensures !InScan(s.threads[t].pc) ==> Step(s, u, a).threads[t].pc == s.threads[t].pc
    ensures Step(s, u, a).threads[t].slot == s.threads[t].slot
  {
  }

  /** Before its push rcu_call(q) has queued nothing, and after it exactly q. */
  ghost predicate CallPlace(pc: Pc, q: Ptr, pushed: seq<Ptr>) {
    if pushed == [] then pc == CallLock(q) || pc == CallPush(q)
    else pushed == [q] && (pc == CallUnlock || pc == Idle)
  }

  lemma CallStep(s: State, t: nat, a: Action, q: Ptr, pushed: seq<Ptr>)
    requires t < |s.threads| && Allowed(s, t, a) && CallPlace(s.threads[t].pc, q, pushed) && !s.threads[t].pc.Idle?
    ensures t < |Step(s, t, a).threads| && CallPlace(Step(s, t, a).threads[t].pc, q, pushed + PushedBy(s, t, a))
  {
  }

  lemma RunLength(states: seq<State>, events: seq<Event>)
    requires IsRun(states, events)
    ensures |states| == |events| + 1
  {
  }

  lemma CallNotScan(pc: Pc, q: Ptr, pushed: seq<Ptr>)
    requires CallPlace(pc, q, pushed)
    ensures !InScan(pc)
  {
  }

  lemma CleanNotScan(pc: Pc, took: seq<seq<Ptr>>, freed: seq<Ptr>)
    requires CleanPlace(pc, took, freed)
    ensures !InScan(pc)
  {
  }

  lemma CallStarts(s: State, t: nat, q: Ptr)
    requires t < |s.threads| && Allowed(s, t, Call(q))
    ensures t < |Step(s, t, Call(q)).threads| && CallPlace(Step(s, t, Call(q)).threads[t].pc, q, [] + PushedBy(s, t, Call(q)))
  {
  }

  lemma CleanStarts(s: State, t: nat)
    requires t < |s.threads| && Allowed(s, t, Cleanup)
    ensures t < |Step(s, t, Cleanup).threads|
    ensures CleanPlace(Step(s, t, Cleanup).threads[t].pc, [] + TookBy(s, t, Cleanup), [] + FreedBy(s, t, Cleanup))
  {
  }

  /** A returned rcu_call(q) has queued q, once. */
  lemma {:induction false} CallQueues(states: seq<State>, events: seq<Event>, t: nat, q: Ptr, a: nat, b: nat)
    requires IsRun(states, events) && a < b < |states| && events[a] == Event(t, Call(q))
    requires forall k | a < k <= b :: t < |states[k].threads|
    requires forall k | a < k < b :: !states[k].threads[t].pc.Idle?
    ensures CallPlace(states[b].threads[t].pc, q, PushedIn(states, events, t, a, b))
    decreases b
  {
    hide Step, Allowed, CallPlace, Inv, IsRun;
    RunLength(states, events);
    RunStep(states, events, b - 1);
    if b == a + 1 {
      CallStarts(states[a], t, q);
      assert PushedIn(states, events, t, a, a) == [];
    } else {
      CallQueues(states, events, t, q, a, b - 1);
      var e := events[b - 1];
      if e.t == t {
        CallStep(states[b - 1], t, e.a, q, PushedIn(states, events, t, a, b - 1));
      } else {
        assert PushedIn(states, events, t, a, b) == PushedIn(states, events, t, a, b - 1);
        CallNotScan(states[b - 1].threads[t].pc, q, PushedIn(states, events, t, a, b - 1));
        OtherStep(states[b - 1], e.t, e.a, t);
      }
    }
  }

  lemma CallReturns(states: seq<State>, events: seq<Event>, t: nat, q: Ptr, a: nat, b: nat)
    requires IsRun(states, events) && Returns(states, events, t, Call(q), a, b)
    ensures PushedIn(states, events, t, a, b) == [q]
  {
    CallQueues(states, events, t, q, a, b);
  }

  /** rcu_cleanup on its way: nothing taken yet, or what it took is what it has run and what is left. */
  ghost predicate CleanPlace(pc: Pc, took: seq<seq<Ptr>>, freed: seq<Ptr>) {
    if took == [] then (pc == CleanLock || pc == CleanTake) && freed == []
    else |took| == 1 && (pc.CleanUnlock? || pc.CleanRun? || pc.Idle?) && took[0] == freed + Taken(pc)
  }

  /** What the step takes from the queue, if it does. */
  function TookBy(s: State, t: nat, a: Action): seq<seq<Ptr>>
    requires t < |s.threads|
  {
    if a.Continue? && s.threads[t].pc.CleanTake? then [s.cbs] else []
  }

  lemma CleanStep(s: State, t: nat, a: Action, took: seq<seq<Ptr>>, freed: seq<Ptr>)
    requires t < |s.threads| && Allowed(s, t, a) && CleanPlace(s.threads[t].pc, took, freed) && !s.threads[t].pc.Idle?
    ensures t < |Step(s, t, a).threads|
    ensures CleanPlace(Step(s, t, a).threads[t].pc, took + TookBy(s, t, a), freed + FreedBy(s, t, a))
  {
  }

  /** The whole queue, each time that thread t takes it between two states. */
  ghost function TookIn(states: seq<State>, events: seq<Event>, t: nat, a: nat, b: nat): seq<seq<Ptr>>
    requires IsRun(states, events) && a <= b < |states|
    decreases b
  {
    if a == b then []
    else
      RunStep(states, events, b - 1);
      TookIn(states, events, t, a, b - 1)
      + if events[b - 1].t == t then TookBy(states[b - 1], t, events[b - 1].a) else []
  }

  lemma {:induction false} CleanupRuns(states: seq<State>, events: seq<Event>, t: nat, a: nat, b: nat)
    requires IsRun(states, events) && a < b < |states| && events[a] == Event(t, Cleanup)
    requires forall k | a < k <= b :: t < |states[k].threads|
    requires forall k | a < k < b :: !states[k].threads[t].pc.Idle?
    ensures CleanPlace(states[b].threads[t].pc, TookIn(states, events, t, a, b), FreedIn(states, events, t, a, b))
    decreases b
  {
    hide Step, Allowed, CleanPlace, Inv, IsRun;
    RunLength(states, events);
    RunStep(states, events, b - 1);
    if b == a + 1 {
      CleanStarts(states[a], t);
      assert TookIn(states, events, t, a, a) == [] && FreedIn(states, events, t, a, a) == [];
    } else {
      CleanupRuns(states, events, t, a, b - 1);
      var e := events[b - 1];
      if e.t == t {
        CleanStep(states[b - 1], t, e.a, TookIn(states, events, t, a, b - 1), FreedIn(states, events, t, a, b - 1));
      } else {
        assert TookIn(states, events, t, a, b) == TookIn(states, events, t, a, b - 1);
        assert FreedIn(states, events, t, a, b) == FreedIn(states, events, t, a, b - 1);
        CleanNotScan(states[b - 1].threads[t].pc, TookIn(states, events, t, a, b - 1), FreedIn(states, events, t, a, b - 1));
        OtherStep(states[b - 1], e.t, e.a, t);
      }
    }
  }

  /** A returned rcu_cleanup has taken the queue at one moment and run every callback that was in it
      then, in that order, and no other. */
  lemma CleanupReturns(states: seq<State>, events: seq<Event>, t: nat, a: nat, b: nat) returns (k: nat)
    requires IsRun(states, events) && Returns(states, events, t, Cleanup, a, b)
    ensures a < k < b && events[k].t == t && states[k].threads[t].pc.CleanTake? && states[k + 1].cbs == []
    ensures FreedIn(states, events, t, a, b) == states[k].cbs
  {
    CleanupRuns(states, events, t, a, b);
    k := TakenAt(states, events, t, a, b);
    RunStep(states, events, k);
    StepQueue(states[k], t, events[k].a);
    RunStep(states, events, a);
  }

  lemma {:induction false} TakenAt(states: seq<State>, events: seq<Event>, t: nat, a: nat, b: nat) returns (k: nat)
    requires IsRun(states, events) && a <= b < |states| && |TookIn(states, events, t, a, b)| == 1
    ensures a <= k < b && k < |events| && events[k].t == t && t < |states[k].threads|
    ensures TookBy(states[k], t, events[k].a) == TookIn(states, events, t, a, b) != []
    decreases b
  {
    hide Step, Allowed, Inv, TookBy;
    RunStep(states, events, b - 1);
    if TookIn(states, events, t, a, b - 1) == [] {
      k := b - 1;
    } else {
      k := TakenAt(states, events, t, a, b - 1);
    }
  }

  // ----- the order of the queue

  /** What all threads queue between two states, the newest first. */
  ghost function NewestFirst(states: seq<State>, events: seq<Event>, a: nat, b: nat): seq<Ptr>
    requires IsRun(states, events) && a <= b < |states|
    decreases b
  {
    if a == b then []
    else
      RunStep(states, events, b - 1);
      PushedBy(states[b - 1], events[b - 1].t, events[b - 1].a) + NewestFirst(states, events, a, b - 1)
  }

  ghost predicate Takes(states: seq<State>, events: seq<Event>, k: nat)
    requires IsRun(states, events) && k < |events|
  {
    RunStep(states, events, k);
    TookBy(states[k], events[k].t, events[k].a) != []
  }

  /** While nobody takes the queue, what is queued goes in front. */
  lemma {:induction false} QueueOrder(states: seq<State>, events: seq<Event>, a: nat, b: nat)
    requires IsRun(states, events) && a <= b < |states|
    requires forall k: nat | a <= k < b :: !Takes(states, events, k)
    ensures states[b].cbs == NewestFirst(states, events, a, b) + states[a].cbs
    decreases b
  {
    hide Step, Allowed, Inv, PushedBy, FreedBy, Taken, IsRun;
    if a == b {
    } else {
      QueueOrder(states, events, a, b - 1);
      RunLength(states, events);
      RunStep(states, events, b - 1);
      assert !Takes(states, events, b - 1);
      var s, e := states[b - 1], events[b - 1];
      StepQueue(s, e.t, e.a);
      Regroup(PushedBy(s, e.t, e.a), NewestFirst(states, events, a, b - 1), states[a].cbs);
    }
  }

  lemma Regroup(p: seq<Ptr>, q: seq<Ptr>, r: seq<Ptr>)
    ensures p + (q + r) == (p + q) + r
  {
  }

  // ----- registration and the mutex

  ghost predicate InRegistration(pc: Pc) {
    pc.RegLock? || pc.RegScan? || pc.RegStore? || pc.RegGrow? || pc.RegUnlock?
  }

  lemma RegStep(s: State, t: nat, a: Action)
    requires t < |s.threads| && Allowed(s, t, a) && InRegistration(s.threads[t].pc)
    ensures t < |Step(s, t, a).threads|
    ensures var th := Step(s, t, a).threads[t]; InRegistration(th.pc) || (th.pc.Idle? && th.slot != NONE)
  {
  }

  lemma RegStarts(s: State, t: nat)
    requires t < |s.threads| && Allowed(s, t, Register)
    ensures t < |Step(s, t, Register).threads| && InRegistration(Step(s, t, Register).threads[t].pc)
  {
  }

  lemma {:induction false} Registers(states: seq<State>, events: seq<Event>, t: nat, a: nat, b: nat)
    requires IsRun(states, events) && a < b < |states| && events[a] == Event(t, Register)
    requires forall k | a < k <= b :: t < |states[k].threads|
    requires forall k | a < k < b :: !states[k].threads[t].pc.Idle?
    ensures var th := states[b].threads[t]; InRegistration(th.pc) || (th.pc.Idle? && th.slot != NONE)
    decreases b
  {
    hide Step, Allowed, Inv, IsRun;
    RunLength(states, events);
    RunStep(states, events, b - 1);
    if b == a + 1 {
      RegStarts(states[a], t);
    } else {
      Registers(states, events, t, a, b - 1);
      var e := events[b - 1];
      if e.t == t {
        RegStep(states[b - 1], t, e.a);
      } else {
        OtherStep(states[b - 1], e.t, e.a, t);
      }
    }
  }

  /** A returned rcu_register_thread has given the thread a slot, and the thread is registered. */
  lemma RegisterReturns(states: seq<State>, events: seq<Event>, t: nat, a: nat, b: nat)
    requires IsRun(states, events) && Returns(states, events, t, Register, a, b)
    ensures var s := states[b]; s.size <= |s.owner| && t in Registered(s)
                                && 0 <= s.threads[t].slot < s.size && s.owner[s.threads[t].slot] == t
  {
    RunInv(states, events, b);
    Registers(states, events, t, a, b);
    assert ThreadOk(states[b], t);
    assert states[b].owner[..states[b].size][states[b].threads[t].slot] == t;
  }

  lemma StepMutex(s: State, t: nat, a: Action)
    requires t < |s.threads| && Allowed(s, t, a) && (s.mutex == NONE || 0 <= s.mutex < |s.threads|)
    ensures var s2 := Step(s, t, a); s2.mutex == NONE || 0 <= s2.mutex < |s2.threads|
  {
  }

  lemma {:induction false} MutexOwned(states: seq<State>, events: seq<Event>, i: nat)
    requires IsRun(states, events) && i < |states|
    ensures states[i].mutex == NONE || 0 <= states[i].mutex < |states[i].threads|
  {
    hide Step, Allowed;
    if i == 0 {
    } else {
      MutexOwned(states, events, i - 1);
      RunStep(states, events, i - 1);
      StepMutex(states[i - 1], events[i - 1].t, events[i - 1].a);
    }
  }

  /** No deadlock: while a thread is inside a call, some thread inside a call has a step, unless a
      registration is about to leave the array. */
  lemma NotAllBlocked(states: seq<State>, events: seq<Event>, i: nat, u: nat) returns (t: nat)
    requires IsRun(states, events) && i < |states| && u < |states[i].threads| && !states[i].threads[u].pc.Idle?
    ensures t < |states[i].threads| && !states[i].threads[t].pc.Idle?
    ensures Allowed(states[i], t, Continue) || (states[i].threads[t].pc.RegStore? && states[i].size == MAX_THREADS)
  {
    RunInv(states, events, i);
    MutexOwned(states, events, i);
    var s := states[i];
    t := if s.mutex == NONE then u else s.mutex;
    assert ThreadOk(s, u) && ThreadOk(s, t);
    AccessesInRange(s, t);
  }
}
