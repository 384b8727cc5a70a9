/** The grace period told by events alone: publications, read sections and dereferences. */
module RcuGrace {
  import opened Rcu
  import opened RcuHistory

  // ----- the histories that the states carry

  /** The pointer published last. */
  function Published(first: Ptr, events: seq<Event>, i: nat): Ptr
    requires i <= |events|
  {
    if i == 0 then first
    else if events[i - 1].a.Assign? then events[i - 1].a.p
    else Published(first, events, i - 1)
  }

  /** How many read sections of thread t are open. */
  function Nesting(events: seq<Event>, t: nat, i: nat): int
    requires i <= |events|
  {
    if i == 0 then 0
    else Nesting(events, t, i - 1)
         + if events[i - 1] == Event(t, ReadLock) then 1 else if events[i - 1] == Event(t, ReadUnlock) then -1 else 0
  }

  lemma StepPublishes(s: State, t: nat, a: Action)
    requires t < |s.threads| && Allowed(s, t, a)
    ensures Step(s, t, a).ptr == if a.Assign? then a.p else s.ptr
    ensures Step(s, t, a).retired == if a.Assign? then s.retired + {s.ptr} - {a.p} else s.retired
  {
  }

  lemma {:induction false} PtrIsPublished(states: seq<State>, events: seq<Event>, i: nat)
    requires IsRun(states, events) && i < |states|
    ensures states[i].ptr == Published(states[0].ptr, events, i)
  {
    hide Step, Allowed;
    if i == 0 {
    } else {
      PtrIsPublished(states, events, i - 1);
      RunStep(states, events, i - 1);
      StepPublishes(states[i - 1], events[i - 1].t, events[i - 1].a);
    }
  }

  lemma StepNests(s: State, u: nat, a: Action, t: nat)
    requires u < |s.threads| && t < |s.threads| && Allowed(s, u, a)
    ensures |Step(s, u, a).threads| == |s.threads|
    ensures Step(s, u, a).threads[t].depth as int
            == s.threads[t].depth + if u != t then 0 else if a == ReadLock then 1 else if a == ReadUnlock then -1 else 0
  {
  }

  /** The counter of a registered thread is the number of its open read sections. */
  lemma {:induction false} CounterIsNesting(states: seq<State>, events: seq<Event>, t: nat, i: nat)
    requires IsRun(states, events) && i < |states| && t < |states[0].threads|
    ensures |states[i].threads| == |states[0].threads| && states[i].threads[t].depth == Nesting(events, t, i)
    ensures var k := states[i].threads[t].slot; k != NONE ==> 0 <= k < |states[i].cnt| && states[i].cnt[k] == Nesting(events, t, i)
  {
    hide Step, Allowed;
    RunInv(states, events, i);
    if i == 0 {
    } else {
      CounterIsNesting(states, events, t, i - 1);
      RunStep(states, events, i - 1);
      StepNests(states[i - 1], events[i - 1].t, events[i - 1].a, t);
    }
    assert ThreadOk(states[i], t);
  }

  /** Thread u read q at event k and has not left all its read sections since. */
  ghost predicate StillReads(states: seq<State>, events: seq<Event>, u: nat, q: Ptr, k: nat, m: nat) {
    && k < m <= |events| && m < |states| && events[k] == Event(u, Dereference) && states[k].ptr == q
    && forall l | k < l <= m :: Nesting(events, u, l) > 0
  }

  lemma StepHolds(s: State, t: nat, a: Action, u: nat, q: Ptr)
    requires t < |s.threads| && u < |s.threads| && Allowed(s, t, a) && |Step(s, t, a).threads| == |s.threads|
    ensures t == u && a == Dereference && s.ptr == q ==> q in Step(s, t, a).threads[u].holds
    ensures q in s.threads[u].holds && Step(s, t, a).threads[u].depth > 0 ==> q in Step(s, t, a).threads[u].holds
  {
  }

  lemma {:induction false} ReadersHold(states: seq<State>, events: seq<Event>, u: nat, q: Ptr, k: nat, m: nat)
    requires IsRun(states, events) && StillReads(states, events, u, q, k, m) && u < |states[0].threads|
    ensures |states[m].threads| == |states[0].threads| && q in states[m].threads[u].holds
    decreases m
  {
    hide Step, Allowed, Inv;
    CounterIsNesting(states, events, u, m - 1);
    CounterIsNesting(states, events, u, m);
    RunStep(states, events, m - 1);
    StepHolds(states[m - 1], events[m - 1].t, events[m - 1].a, u, q);
    if m == k + 1 {
    } else {
      ReadersHold(states, events, u, q, k, m - 1);
    }
  }

  lemma ScanStep(s: State, u: nat, a: Action, t: nat)
    requires u < |s.threads| && t < |s.threads| && Allowed(s, u, a) && InScan(s.threads[t].pc)
    ensures t < |Step(s, u, a).threads|
    ensures InScan(Step(s, u, a).threads[t].pc) || Step(s, u, a).threads[t].pc.Idle?
  {
  }

  lemma {:induction false} ScansUntil(states: seq<State>, events: seq<Event>, t: nat, a: nat, b: nat, k: nat)
    requires IsRun(states, events) && Returns(states, events, t, Synchronize, a, b) && a < k < b
    ensures InScan(states[k].threads[t].pc)
    decreases k
  {
    hide Step, Allowed, Inv;
    RunStep(states, events, k - 1);
    if k == a + 1 {
      SyncStarts(states[a], t);
    } else {
      ScansUntil(states, events, t, a, b, k - 1);
      ScanStep(states[k - 1], events[k - 1].t, events[k - 1].a, t);
    }
  }

  /** The grace period. rcu_synchronize is called at event a and has returned in state b; q is not the
      published pointer from the call to state m. Then whoever read q before m has left its read sections. */
  lemma ReadersGone(states: seq<State>, events: seq<Event>, q: Ptr, t: nat, a: nat, b: nat, m: nat, u: nat, k: nat)
    requires IsRun(states, events) && Returns(states, events, t, Synchronize, a, b) && b <= m < |states|
    requires forall l | a <= l <= m :: Published(states[0].ptr, events, l) != q
    requires k < m && events[k] == Event(u, Dereference) && Published(states[0].ptr, events, k) == q
    ensures exists l | k < l <= m :: Nesting(events, u, l) <= 0
  {
    hide Step, Allowed, Inv;
    RunLength(states, events);
    RunStep(states, events, k);
    RunInv(states, events, k);
    forall l | a < l < b ensures states[l].threads[t].pc.SyncTest? || states[l].threads[t].pc.SyncLoad? {
      ScansUntil(states, events, t, a, b, l);
    }
    forall l | a <= l <= m && l < |states| ensures states[l].ptr != q { PtrIsPublished(states, events, l); }
    PtrIsPublished(states, events, k);
    if forall l | k < l <= m :: Nesting(events, u, l) > 0 {
      ReadersHold(states, events, u, q, k, m);
      GracePeriod(states, events, q, t, a, b, m, u);
    }
  }

  // ----- rcu_synchronize returns

  /** The steps that thread t itself takes between two states. */
  function OwnSteps(events: seq<Event>, t: nat, a: nat, b: nat): nat
    requires a <= b <= |events|
    decreases b
  {
    if a == b then 0 else OwnSteps(events, t, a, b - 1) + if events[b - 1].t == t then 1 else 0
  }

  /** A scan that has gone n steps from its beginning without meeting a reader. */
  ghost predicate ScanPlace(pc: Pc, n: nat, size: nat) {
    match pc
    case SyncTest(i, _) => n == 2 * i && i <= size
    case SyncLoad(i, _) => n == 2 * i + 1 && i < size
    case _ => pc.Idle? && n == 2 * size + 1
  }

  /** The counter that this step loads, if it is a load of the scan, is zero. */
  ghost predicate LoadsZero(s: State, t: nat) {
    t < |s.threads| && s.threads[t].pc.SyncLoad? ==> s.threads[t].pc.i < |s.cnt| && s.cnt[s.threads[t].pc.i] == 0
  }

  lemma ScanGoes(s: State, u: nat, a: Action, t: nat, n: nat)
    requires u < |s.threads| && t < |s.threads| && Allowed(s, u, a)
    requires ScanPlace(s.threads[t].pc, n, s.size) && !s.threads[t].pc.Idle? && (u == t ==> LoadsZero(s, t))
    ensures t < |Step(s, u, a).threads|
    ensures ScanPlace(Step(s, u, a).threads[t].pc, n + if u == t then 1 else 0, s.size)
  {
  }

  lemma {:induction false} ScanProgress(states: seq<State>, events: seq<Event>, t: nat, a: nat, b: nat)
    requires IsRun(states, events) && a <= b < |states| && t < |states[a].threads|
    requires ScanPlace(states[a].threads[t].pc, 0, states[a].size)
    requires forall k | a <= k < b :: t < |states[k].threads| && !states[k].threads[t].pc.Idle?
    requires forall k | a <= k < b :: states[k].size == states[a].size
    requires forall k: nat | a <= k < b && events[k].t == t :: LoadsZero(states[k], t)
    ensures t < |states[b].threads| && ScanPlace(states[b].threads[t].pc, OwnSteps(events, t, a, b), states[a].size)
    decreases b
  {
    hide Step, Allowed, Inv, ScanPlace, LoadsZero;
    if a == b {
    } else {
      ScanProgress(states, events, t, a, b - 1);
      RunStep(states, events, b - 1);
      ScanGoes(states[b - 1], events[b - 1].t, events[b - 1].a, t, OwnSteps(events, t, a, b - 1));
    }
  }

  /** A scan from its beginning in which every counter loaded is zero and no slot is added ends the call
      with its step number 2 * size + 1. */
  lemma SyncEnds(states: seq<State>, events: seq<Event>, t: nat, a: nat, b: nat)
    requires IsRun(states, events) && a <= b < |states| && t < |states[a].threads|
    requires states[a].threads[t].pc.SyncTest? && states[a].threads[t].pc.i == 0
    requires forall k | a <= k < b :: t < |states[k].threads| && !states[k].threads[t].pc.Idle?
    requires forall k | a <= k < b :: states[k].size == states[a].size
    requires forall k: nat | a <= k < b && events[k].t == t :: LoadsZero(states[k], t)
    ensures t < |states[b].threads| && OwnSteps(events, t, a, b) <= 2 * states[a].size + 1
    ensures states[b].threads[t].pc.Idle? <==> OwnSteps(events, t, a, b) == 2 * states[a].size + 1
  {
    ScanProgress(states, events, t, a, b);
  }

  /** Since state c, where a scan of thread t was at its beginning, every counter that it loaded was zero. */
  ghost predicate CleanSince(states: seq<State>, events: seq<Event>, t: nat, c: nat, k: nat) {
    && c <= k < |states| && k <= |events|
    && t < |states[c].threads| && states[c].threads[t].pc.SyncTest? && states[c].threads[t].pc.i == 0
    && forall l: nat | c <= l < k && events[l].t == t :: LoadsZero(states[l], t)
  }

  /** How far a scan has come: n own steps from its beginning. */
  ghost predicate ScanAt(pc: Pc, n: nat) {
    match pc
    case SyncTest(i, _) => n == 2 * i
    case SyncLoad(i, _) => n == 2 * i + 1
    case _ => false
  }

  lemma ScanMoves(s: State, u: nat, a: Action, t: nat, n: nat)
    requires Inv(s) && u < |s.threads| && t < |s.threads| && Allowed(s, u, a) && ScanAt(s.threads[t].pc, n)
    ensures t < |Step(s, u, a).threads|
    ensures var pc := Step(s, u, a).threads[t].pc;
            if u != t then ScanAt(pc, n)
            else if LoadsZero(s, t) then ScanAt(pc, n + 1) || (pc.Idle? && n >= 2 * s.size)
            else pc.SyncTest? && pc.i == 0
  {
    hide Quiet, ThreadOk;
    if s.threads[t].pc.SyncLoad? && s.threads[t].pc.i < |s.cnt| { assert s.cnt[s.threads[t].pc.i] >= 0; }
  }

  lemma {:induction false} BegunAt(states: seq<State>, events: seq<Event>, t: nat, a: nat, b: nat, k: nat) returns (c: nat)
    requires IsRun(states, events) && Returns(states, events, t, Synchronize, a, b) && a < k < b
    ensures a < c <= k && CleanSince(states, events, t, c, k)
    ensures ScanAt(states[k].threads[t].pc, OwnSteps(events, t, c, k))
    decreases k
  {
    hide Step, Allowed, Inv, ScanAt, LoadsZero;
    RunStep(states, events, k - 1);
    if k == a + 1 {
      SyncStarts(states[a], t);
      ScanBegins(states[k].threads[t].pc);
      c := k;
    } else {
      c := BegunAt(states, events, t, a, b, k - 1);
      RunInv(states, events, k - 1);
      var e := events[k - 1];
      ScanMoves(states[k - 1], e.t, e.a, t, OwnSteps(events, t, c, k - 1));
      if e.t == t && !LoadsZero(states[k - 1], t) {
        ScanBegins(states[k].threads[t].pc);
        c := k;
      }
    }
  }

  lemma ScanBegins(pc: Pc)
    requires pc.SyncTest? && pc.i == 0
    ensures ScanAt(pc, 0)
  {
  }

  /** A returned rcu_synchronize ended with a scan of all the slots from the first, in which every counter
      was zero: a reader met on the way makes it begin again. */
  lemma LastScan(states: seq<State>, events: seq<Event>, t: nat, a: nat, b: nat) returns (c: nat)
    requires IsRun(states, events) && Returns(states, events, t, Synchronize, a, b)
    ensures a < c < b && CleanSince(states, events, t, c, b)
    ensures OwnSteps(events, t, c, b) >= 2 * states[b - 1].size + 1
  {
    hide Step, Allowed, Inv, LoadsZero, ScanAt;
    RunStep(states, events, b - 1);
    if b == a + 1 {
      SyncStarts(states[a], t);
    }
    c := BegunAt(states, events, t, a, b, b - 1);
    RunInv(states, events, b - 1);
    var e := events[b - 1];
    ScanMoves(states[b - 1], e.t, e.a, t, OwnSteps(events, t, c, b - 1));
    NotIdle(states[b].threads[t].pc, OwnSteps(events, t, c, b - 1));
    NotIdle(states[b].threads[t].pc, OwnSteps(events, t, c, b - 1) + 1);
  }

  lemma NotIdle(pc: Pc, n: nat)
    ensures ScanAt(pc, n) ==> !pc.Idle?
  {
  }
}
