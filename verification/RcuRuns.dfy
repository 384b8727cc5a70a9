/** A run of the read-copy-update system that leaves an array: registrations are not counted. */
module RcuRuns {
  import opened Rcu

  ghost predicate Reachable(s: State) {
    exists states: seq<State>, events: seq<Event> :: IsRun(states, events) && states[|states| - 1] == s
  }

  lemma ReachInit(n: nat, p: Ptr)
    ensures Reachable(Init(n, p))
  {
    assert IsRun([Init(n, p)], []);
  }

  lemma ReachStep(s: State, t: nat, a: Action)
    requires Reachable(s) && t < |s.threads| && Allowed(s, t, a)
    ensures Reachable(Step(s, t, a))
  {
    hide Step, Allowed, Init;
    var states: seq<State>, events: seq<Event> :| IsRun(states, events) && states[|states| - 1] == s;
    assert IsRun(states + [Step(s, t, a)], events + [Event(t, a)]);
  }

  /** Threads 0 to k - 1 of n are registered, in that order, and nothing else has happened. */
  function After(n: nat, p: Ptr, k: nat): State {
    State(k, NONE, seq(MAX_THREADS, i => if i < k then i else 0), seq(MAX_THREADS, _ => 0), p, [],
          seq(n, i => Thread(Idle, if i < k then i else NONE, 0, {}, {})), {})
  }

  /** Thread k is registering and has come to this place. */
  function During(n: nat, p: Ptr, k: nat, pc: Pc): State
    requires k < n
  {
    WithPc(After(n, p, k), k, pc).(mutex := k)
  }

  /** Thread k goes through the registered threads and does not find itself. */
  lemma {:induction false} ScanTo(n: nat, p: Ptr, k: nat, i: nat)
    requires i <= k < n && k <= MAX_THREADS && Reachable(After(n, p, k))
    ensures Reachable(During(n, p, k, RegScan(i)))
  {
    hide Reachable;
    if i == 0 {
      var s := After(n, p, k);
      ReachStep(s, k, Register);
      ReachStep(WithPc(s, k, RegLock), k, Continue);
      assert WithPc(WithPc(s, k, RegLock), k, RegScan(0)) == WithPc(s, k, RegScan(0));
    } else {
      ScanTo(n, p, k, i - 1);
      var s := During(n, p, k, RegScan(i - 1));
      ReachStep(s, k, Continue);
      assert WithPc(s, k, RegScan(i)) == During(n, p, k, RegScan(i));
    }
  }

  lemma ToStore(n: nat, p: Ptr, k: nat)
    requires k < n && k <= MAX_THREADS && Reachable(After(n, p, k))
    ensures Reachable(During(n, p, k, RegStore))
  {
    hide Reachable;
    ScanTo(n, p, k, k);
    var s := During(n, p, k, RegScan(k));
    ReachStep(s, k, Continue);
    assert WithPc(s, k, RegStore) == During(n, p, k, RegStore);
  }

  lemma {:induction false} RegisterAll(n: nat, p: Ptr, k: nat)
    requires k <= n && k <= MAX_THREADS
    ensures Reachable(After(n, p, k))
  {
    hide Reachable;
    if k == 0 {
      ReachInit(n, p);
      assert Init(n, p) == After(n, p, 0);
    } else {
      RegisterAll(n, p, k - 1);
      ToStore(n, p, k - 1);
      var s := During(n, p, k - 1, RegStore);
      ReachStep(s, k - 1, Continue);
      var s2 := Step(s, k - 1, Continue);
      ReachStep(s2, k - 1, Continue);
      var s3 := Step(s2, k - 1, Continue);
      ReachStep(s3, k - 1, Continue);
      assert Step(s3, k - 1, Continue) == After(n, p, k);
    }
  }

  /** With more than MAX_THREADS threads a run reaches a registration whose store is out of range. */
  lemma RegistrationOverruns(n: nat, p: Ptr)
    requires n > MAX_THREADS
    ensures exists s: State :: Reachable(s) && MAX_THREADS < |s.threads| == n
                               && s.threads[MAX_THREADS].pc.RegStore? && !Allowed(s, MAX_THREADS, Continue)
  {
    RegisterAll(n, p, MAX_THREADS);
    ToStore(n, p, MAX_THREADS);
    assert !Allowed(During(n, p, MAX_THREADS, RegStore), MAX_THREADS, Continue);
  }
}
