/** The reusable barrier as a step system: exactly `size` threads call barrier_wait over and
    over, one atomic operation per step, in any interleaving. */
module Barrier {
  import opened Pigeonhole

  /** atomic_int wraps. */
  const WORD: nat := 0x1_0000_0000

  /** Where a thread is: outside; after loading the state; last to arrive, before and after the
      reset of the count; spinning until the state differs from crt. */
  datatype Pc = Out | Loaded(crt: nat) | Last | Reset | Spin(crt: nat)

  /** rounds counts the calls that have returned. */
  datatype Thread = Thread(pc: Pc, rounds: nat)

  /** phase is the number of state increments so far; `state` is what the word holds of it. */
  datatype State = State(count: nat, state: nat, phase: nat, threads: seq<Thread>)

  function Init(size: nat): State {
    State(0, 0, 0, seq(size, _ => Thread(Out, 0)))
  }

  /** One atomic operation of thread t. */
  function Step(s: State, t: nat): State
    requires t < |s.threads|
  {
    var th := s.threads[t];
    match th.pc
    case Out => s.(threads := s.threads[t := th.(pc := Loaded(s.state))])
    case Loaded(crt) =>
      s.(count := (s.count + 1) % WORD,
         threads := s.threads[t := th.(pc := if s.count == |s.threads| - 1 then Last else Spin(crt))])
    case Last => s.(count := 0, threads := s.threads[t := th.(pc := Reset)])
    case Reset =>
      s.(state := (s.state + 1) % WORD, phase := s.phase + 1,
         threads := s.threads[t := Thread(Out, th.rounds + 1)])
    case Spin(crt) =>
      if s.state == crt then s else s.(threads := s.threads[t := Thread(Out, th.rounds + 1)])
  }

  /** Calls that thread th has entered far enough to be counted. */
  function Arrivals(th: Thread): nat {
    th.rounds + if th.pc.Last? || th.pc.Reset? || th.pc.Spin? then 1 else 0
  }

  /** Arrived in the current phase and waiting. */
  predicate Waits(s: State, t: nat) {
    t < |s.threads| && s.threads[t].pc.Spin? && s.threads[t].rounds == s.phase
  }

  ghost function Waiting(s: State): set<nat> {
    set t | 0 <= t < |s.threads| && Waits(s, t)
  }

  predicate Closing(s: State, t: nat) {
    t < |s.threads| && (s.threads[t].pc.Last? || s.threads[t].pc.Reset?)
  }

  ghost predicate ThreadOk(s: State, t: nat)
    requires t < |s.threads|
  {
    var th := s.threads[t];
    if th.rounds == s.phase then
      (th.pc.Loaded? || th.pc.Spin? ==> th.pc.crt == s.phase % WORD)
    else
      th.rounds + 1 == s.phase && th.pc == Spin(th.rounds % WORD)
  }

  /** While one thread closes the phase all the others wait. */
  ghost predicate OthersWait(s: State, t: nat) {
    forall u: nat {:trigger Waits(s, u)} | u < |s.threads| && u != t :: Waits(s, u)
  }

  ghost predicate Inv(s: State) {
    && 0 < |s.threads| < WORD && s.state == s.phase % WORD
    && (forall t | 0 <= t < |s.threads| :: ThreadOk(s, t))
    && (forall t: nat {:trigger Closing(s, t)} | Closing(s, t) ::
          OthersWait(s, t) && s.count == if s.threads[t].pc.Last? then |s.threads| else 0)
    && (Open(s) ==> s.count == |Waiting(s)| < |s.threads|)
  }

  lemma InitInv(size: nat)
    requires 0 < size < WORD
    ensures Inv(Init(size))
  {
    assert Waiting(Init(size)) == {};
  }

  lemma WaitingBound(s: State, W: set<nat>)
    requires forall x | x in W :: x < |s.threads|
    ensures |W| <= |s.threads|
    ensures |W| == |s.threads| ==> forall t | 0 <= t < |s.threads| :: t in W
  {
    assert W <= Below(|s.threads|);
    SubsetSize(W, Below(|s.threads|));
  }

  ghost predicate Open(s: State) {
    forall t: nat {:trigger Closing(s, t)} | t < |s.threads| :: !Closing(s, t)
  }

  /** The next thread arrives; as the last one it finds all the others waiting. */
  lemma ArriveInv(s: State, t: nat)
    requires Inv(s) && t < |s.threads| && s.threads[t].pc.Loaded?
    ensures Inv(Step(s, t))
  {
    var s2, n := Step(s, t), |s.threads|;
    assert ThreadOk(s, t) && !Waits(s, t);
    forall u: nat {:trigger Closing(s, u)} | u < n ensures !Closing(s, u) { }
    var W := Waiting(s) + {t};
    WaitingBound(s, W);
    assert s.count == |Waiting(s)| && |W| == s.count + 1 <= n && s2.count == s.count + 1;
    forall u | 0 <= u < n ensures ThreadOk(s2, u) { assert ThreadOk(s, u); }
    forall u: nat | u < n && u != t ensures Waits(s2, u) == Waits(s, u) && !Closing(s2, u) { assert !Closing(s, u); }
    if s.count == n - 1 {
      assert Closing(s2, t);
      forall u: nat | u < n && u != t ensures Waits(s2, u) { assert u in W; }
    } else {
      assert !Closing(s2, t) && Waits(s2, t);
      assert Waiting(s2) == W;
    }
  }

  lemma LastInv(s: State, t: nat)
    requires Inv(s) && t < |s.threads| && s.threads[t].pc.Last?
    ensures Inv(Step(s, t))
  {
    var s2 := Step(s, t);
    assert Closing(s, t) && Closing(s2, t);
    forall u | 0 <= u < |s2.threads| ensures ThreadOk(s2, u) { assert ThreadOk(s, u); }
    forall u: nat | u < |s.threads| && u != t ensures Waits(s2, u) && !Closing(s2, u) { assert Waits(s, u); }
  }

  /** The increment of the state releases all the others at once. */
  lemma ResetInv(s: State, t: nat)
    requires Inv(s) && t < |s.threads| && s.threads[t].pc.Reset?
    ensures Inv(Step(s, t))
  {
    var s2 := Step(s, t);
    assert Closing(s, t) && ThreadOk(s, t) && s.count == 0;
    WordSuccessor(s.phase);
    forall u: nat | u < |s.threads| ensures ThreadOk(s2, u) && !Waits(s2, u) && !Closing(s2, u) {
      assert ThreadOk(s, u);
      if u != t { assert Waits(s, u); }
    }
    assert Waiting(s2) == {};
  }

  lemma WordSuccessor(a: nat)
    ensures (a % WORD + 1) % WORD == (a + 1) % WORD
    ensures (a + 1) % WORD != a % WORD
  {
  }

  lemma StepInv(s: State, t: nat)
    requires Inv(s) && t < |s.threads|
    ensures Inv(Step(s, t))
  {
    var s2 := Step(s, t);
    assert ThreadOk(s, t);
    match s.threads[t].pc {
      case Loaded(crt) => ArriveInv(s, t);
      case Last => LastInv(s, t);
      case Reset => ResetInv(s, t);
      case _ =>
        forall u | 0 <= u < |s2.threads| ensures ThreadOk(s2, u) { assert ThreadOk(s, u); }
        forall u: nat ensures Closing(s2, u) == Closing(s, u) && Waits(s2, u) == Waits(s, u) { }
        assert Waiting(s2) == Waiting(s);
    }
  }

  // ----- runs

  ghost predicate IsRun(states: seq<State>, steps: seq<nat>) {
    && |states| == |steps| + 1
    && (exists size: nat :: 0 < size < WORD && states[0] == Init(size))
    && forall i | 0 <= i < |steps| :: steps[i] < |states[i].threads| && states[i + 1] == Step(states[i], steps[i])
  }

  lemma {:induction false} RunInv(states: seq<State>, steps: seq<nat>, i: nat)
    requires IsRun(states, steps) && i < |states|
    ensures Inv(states[i])
  {
    if i == 0 {
      var size: nat :| 0 < size < WORD && states[0] == Init(size);
      InitInv(size);
    } else {
      RunInv(states, steps, i - 1);
      StepInv(states[i - 1], steps[i - 1]);
    }
  }

  /** No thread is ever more than one call ahead of another, so comparing the wrapped state words is exact. */
  lemma RoundsApart(states: seq<State>, steps: seq<nat>, i: nat, t: nat, u: nat)
    requires IsRun(states, steps) && i < |states| && t < |states[i].threads| && u < |states[i].threads|
    ensures states[i].threads[t].rounds <= Arrivals(states[i].threads[u])
    ensures states[i].threads[t].rounds <= states[i].threads[u].rounds + 1
  {
    RunInv(states, steps, i);
    assert ThreadOk(states[i], t) && ThreadOk(states[i], u);
  }

  /** A spinning thread leaves exactly when its own phase is over, wrap-around or not. */
  lemma SpinExact(states: seq<State>, steps: seq<nat>, i: nat, t: nat)
    requires IsRun(states, steps) && i < |states| && t < |states[i].threads| && states[i].threads[t].pc.Spin?
    ensures states[i].state == states[i].threads[t].pc.crt <==> states[i].phase == states[i].threads[t].rounds
  {
    RunInv(states, steps, i);
    var s := states[i];
    assert ThreadOk(s, t);
    if s.threads[t].rounds != s.phase { WordSuccessor(s.threads[t].rounds); }
  }

  /** No arrival is lost: outside the closing steps the count is the number of waiting threads. */
  lemma NoLostArrival(states: seq<State>, steps: seq<nat>, i: nat)
    requires IsRun(states, steps) && i < |states|
    requires Open(states[i])
    ensures states[i].count == |set t | 0 <= t < |states[i].threads| && Waits(states[i], t)|
  {
    RunInv(states, steps, i);
    assert (set t | 0 <= t < |states[i].threads| && Waits(states[i], t)) == Waiting(states[i]);
  }

  /** No deadlock: some thread can always do more than spin in place. */
  lemma NotAllSpinning(states: seq<State>, steps: seq<nat>, i: nat) returns (t: nat)
    requires IsRun(states, steps) && i < |states|
    ensures t < |states[i].threads| && Step(states[i], t) != states[i]
  {
    RunInv(states, steps, i);
    var s := states[i];
    if u: nat :| u < |s.threads| && Closing(s, u) {
      t := u;
    } else {
      if forall u | 0 <= u < |s.threads| :: u in Waiting(s) {
        assert Below(|s.threads|) <= Waiting(s);
        SubsetSize(Below(|s.threads|), Waiting(s));
      }
      t :| 0 <= t < |s.threads| && t !in Waiting(s);
      assert ThreadOk(s, t);
      if s.threads[t].pc.Spin? { WordSuccessor(s.threads[t].rounds); }
    }
    assert Step(s, t).threads[t] != s.threads[t];
  }

  // ----- calls and returns, as they can be seen from outside

  predicate Inside(s: State, t: nat) { t < |s.threads| && !s.threads[t].pc.Out? }

  /** The calls that thread t has begun before state i. */
  ghost function Calls(states: seq<State>, t: nat, i: nat): nat
    requires i < |states|
  {
    if i == 0 then 0 else Calls(states, t, i - 1) + if !Inside(states[i - 1], t) && Inside(states[i], t) then 1 else 0
  }

  /** The calls of thread t that have returned before state i. */
  ghost function Returns(states: seq<State>, t: nat, i: nat): nat
    requires i < |states|
  {
    if i == 0 then 0 else Returns(states, t, i - 1) + if Inside(states[i - 1], t) && !Inside(states[i], t) then 1 else 0
  }

  lemma RunStep(states: seq<State>, steps: seq<nat>, i: nat)
    requires IsRun(states, steps) && i < |steps|
    ensures steps[i] < |states[i].threads| && states[i + 1] == Step(states[i], steps[i])
    ensures |states[i + 1].threads| == |states[i].threads|
  {
  }

  lemma {:induction false} CallsAndReturns(states: seq<State>, steps: seq<nat>, t: nat, i: nat)
    requires IsRun(states, steps) && i < |states| && t < |states[i].threads|
    ensures |states[i].threads| == |states[0].threads|
    ensures Calls(states, t, i) == Returns(states, t, i) + if Inside(states[i], t) then 1 else 0
    ensures Returns(states, t, i) == states[i].threads[t].rounds
  {
    if i == 0 {
    } else {
      RunStep(states, steps, i - 1);
      CallsAndReturns(states, steps, t, i - 1);
    }
  }

  /** Nobody returns from the n-th call before everybody has begun the n-th call, and nobody is more
      than one call ahead. */
  lemma NoEarlyLeave(states: seq<State>, steps: seq<nat>, i: nat, t: nat, u: nat)
    requires IsRun(states, steps) && i < |states| && t < |states[i].threads| && u < |states[i].threads|
    ensures Returns(states, t, i) <= Calls(states, u, i)
    ensures Returns(states, t, i) <= Returns(states, u, i) + 1
  {
    RoundsApart(states, steps, i, t, u);
    CallsAndReturns(states, steps, t, i);
    CallsAndReturns(states, steps, u, i);
  }

  /** Thread t begins a call at step a, is inside until step b and returns with it. */
  ghost predicate Call(states: seq<State>, t: nat, a: nat, b: nat) {
    && a < b < |states| - 1 && !Inside(states[a], t) && !Inside(states[b + 1], t)
    && forall k | a < k <= b :: Inside(states[k], t)
  }

  /** During the call the others begin their calls of the same number, and the phase moves on by one. */
  lemma CallSpansPhase(states: seq<State>, steps: seq<nat>, t: nat, a: nat, b: nat, u: nat)
    requires IsRun(states, steps) && Call(states, t, a, b) && t < |states[0].threads| && u < |states[0].threads|
    ensures Calls(states, u, b) > Returns(states, t, a)
    ensures states[a].phase == Returns(states, t, a) && states[b + 1].phase == states[a].phase + 1
  {
    SameThreads(states, steps, a);
    SameThreads(states, steps, b + 1);
    SameThreads(states, steps, b);
    InsideCounts(states, steps, t, a, b);
    RunInv(states, steps, a);
    RunInv(states, steps, b);
    RunInv(states, steps, b + 1);
    CallsAndReturns(states, steps, t, a);
    CallsAndReturns(states, steps, t, b);
    CallsAndReturns(states, steps, u, b);
    CallsAndReturns(states, steps, t, b + 1);
    assert ThreadOk(states[a], t) && ThreadOk(states[b + 1], t) && ThreadOk(states[b], u) && ThreadOk(states[b], t);
    RunStep(states, steps, b);
    LeaveStep(states[b], steps[b], t, u);
  }

  /** A step that lets t out: the phase is over, so u has arrived in it. */
  lemma LeaveStep(s: State, v: nat, t: nat, u: nat)
    requires Inv(s) && v < |s.threads| && t < |s.threads| && u < |s.threads|
    requires Inside(s, t) && !Inside(Step(s, v), t)
    ensures Step(s, v).phase == s.threads[t].rounds + 1
    ensures s.threads[u].rounds > s.threads[t].rounds || Inside(s, u)
    ensures s.threads[u].rounds >= s.threads[t].rounds
  {
    assert ThreadOk(s, t) && ThreadOk(s, u);
    if s.threads[t].pc.Reset? {
      assert Closing(s, t);
      assert u != t ==> Waits(s, u);
    }
  }

  lemma {:induction false} SameThreads(states: seq<State>, steps: seq<nat>, i: nat)
    requires IsRun(states, steps) && i < |states|
    ensures |states[i].threads| == |states[0].threads|
  {
    if i == 0 {
    } else {
      SameThreads(states, steps, i - 1);
      RunStep(states, steps, i - 1);
    }
  }

  lemma {:induction false} InsideCounts(states: seq<State>, steps: seq<nat>, t: nat, a: nat, b: nat)
    requires a < b < |states| && !Inside(states[a], t) && forall k | a < k <= b :: Inside(states[k], t)
    ensures Returns(states, t, b) == Returns(states, t, a)
  {
    if b == a + 1 {
    } else {
      InsideCounts(states, steps, t, a, b - 1);
    }
  }

  // ----- progress: every phase ends

  /** The steps that a thread can still take in the current phase. */
  ghost function StepsLeft(s: State, th: Thread): nat {
    match th.pc
    case Spin(_) => if th.rounds == s.phase then 0 else 5
    case Out => 4
    case Loaded(_) => 3
    case Last => 2
    case Reset => 1
  }

  ghost function AllLeft(s: State, n: nat): nat
    requires n <= |s.threads|
  {
    if n == 0 then 0 else AllLeft(s, n - 1) + StepsLeft(s, s.threads[n - 1])
  }

  lemma {:induction false} AllLeftBound(s: State, n: nat)
    requires n <= |s.threads|
    ensures AllLeft(s, n) <= 5 * n
  {
    if n == 0 {
    } else {
      AllLeftBound(s, n - 1);
    }
  }

  lemma {:induction false} AllLeftChange(s: State, s2: State, t: nat, n: nat)
    requires n <= |s.threads| == |s2.threads| && s2.phase == s.phase && t < |s.threads|
    requires forall u | 0 <= u < |s.threads| && u != t :: s2.threads[u] == s.threads[u]
    ensures AllLeft(s2, n) == AllLeft(s, n)
              + if t < n then StepsLeft(s2, s2.threads[t]) - StepsLeft(s, s.threads[t]) else 0
  {
    if n == 0 {
    } else {
      AllLeftChange(s, s2, t, n - 1);
    }
  }

  /** Within a phase every step that changes something uses one up. */
  lemma StepUsed(s: State, t: nat)
    requires Inv(s) && t < |s.threads| && Step(s, t) != s && Step(s, t).phase == s.phase
    ensures AllLeft(Step(s, t), |s.threads|) < AllLeft(s, |s.threads|)
  {
    assert ThreadOk(s, t);
    AllLeftChange(s, Step(s, t), t, |s.threads|);
  }

  /** Within a phase nothing is given back, and what uses nothing up changes nothing. */
  lemma {:induction false} PhaseRuns(states: seq<State>, steps: seq<nat>, a: nat, b: nat)
    requires IsRun(states, steps) && a <= b < |states|
    ensures |states[a].threads| == |states[b].threads| == |states[0].threads|
    ensures states[a].phase <= states[b].phase
    ensures states[a].phase == states[b].phase ==> LeftIn(states[b]) < LeftIn(states[a]) || states[a] == states[b]
    decreases b
  {
    hide Inv;
    SameThreads(states, steps, a);
    if a == b {
    } else {
      PhaseRuns(states, steps, a, b - 1);
      RunInv(states, steps, b - 1);
      RunStep(states, steps, b - 1);
      var s, t := states[b - 1], steps[b - 1];
      if Step(s, t) != s && Step(s, t).phase == s.phase { StepUsed(s, t); }
    }
  }

  ghost function LeftIn(s: State): nat { AllLeft(s, |s.threads|) }

  /** Between a and b every thread takes a step, if only to spin. */
  ghost predicate Window(states: seq<State>, steps: seq<nat>, a: nat, b: nat) {
    && a < b < |states| && |states| == |steps| + 1
    && forall t: nat {:trigger Scheduled(steps, t, a, b)} | t < |states[0].threads| :: Scheduled(steps, t, a, b)
  }

  ghost predicate Scheduled(steps: seq<nat>, t: nat, a: nat, b: nat) {
    exists k: nat :: a <= k < b && k < |steps| && steps[k] == t
  }

  /** If every thread takes a step, either the phase ends or one of its steps is used up. */
  lemma WindowMoves(states: seq<State>, steps: seq<nat>, a: nat, b: nat)
    requires IsRun(states, steps) && Window(states, steps, a, b)
    ensures states[a].phase <= states[b].phase
    ensures states[a].phase == states[b].phase ==> LeftIn(states[b]) < LeftIn(states[a])
  {
    hide Step, LeftIn;
    SameThreads(states, steps, a);
    var t := NotAllSpinning(states, steps, a);
    assert Scheduled(steps, t, a, b);
    var k: nat :| a <= k < b && k < |steps| && steps[k] == t;
    PhaseRuns(states, steps, a, k);
    RunStep(states, steps, k);
    PhaseRuns(states, steps, k, k + 1);
    PhaseRuns(states, steps, k + 1, b);
  }

  /** A fair stretch of a run: between one cut and the next every thread takes a step. */
  ghost predicate Fair(states: seq<State>, steps: seq<nat>, cuts: seq<nat>) {
    && (forall i | 0 <= i < |cuts| :: cuts[i] < |states|)
    && (forall i: nat {:trigger cuts[i]} | i + 1 < |cuts| :: Window(states, steps, cuts[i], cuts[i + 1]))
  }

  lemma {:induction false} FairUses(states: seq<State>, steps: seq<nat>, cuts: seq<nat>, i: nat)
    requires IsRun(states, steps) && Fair(states, steps, cuts) && i < |cuts|
    ensures cuts[0] <= cuts[i] && states[cuts[0]].phase <= states[cuts[i]].phase
    ensures states[cuts[i]].phase == states[cuts[0]].phase ==> LeftIn(states[cuts[i]]) + i <= LeftIn(states[cuts[0]])
  {
    hide Window, LeftIn, IsRun;
    if i == 0 {
    } else {
      FairUses(states, steps, cuts, i - 1);
      assert Window(states, steps, cuts[i - 1], cuts[i - 1 + 1]);
      WindowMoves(states, steps, cuts[i - 1], cuts[i]);
      WindowOrder(states, steps, cuts[i - 1], cuts[i]);
    }
  }

  lemma WindowOrder(states: seq<State>, steps: seq<nat>, a: nat, b: nat)
    requires Window(states, steps, a, b)
    ensures a < b
  {
  }

  /** Every phase ends: if every thread takes a step more than five times per thread, one after the
      other in any order, the phase is over. */
  lemma PhaseEnds(states: seq<State>, steps: seq<nat>, cuts: seq<nat>)
    requires IsRun(states, steps) && Fair(states, steps, cuts) && |cuts| >= 5 * |states[0].threads| + 2
    ensures states[cuts[|cuts| - 1]].phase > states[cuts[0]].phase
  {
    FairUses(states, steps, cuts, |cuts| - 1);
    SameThreads(states, steps, cuts[0]);
    AllLeftBound(states[cuts[0]], |states[0].threads|);
  }

  /** Once its phase is over a waiting thread returns with its next step. */
  lemma ReleasedReturns(s: State, t: nat)
    requires Inv(s) && t < |s.threads| && Inside(s, t) && s.threads[t].rounds < s.phase
    ensures !Inside(Step(s, t), t)
  {
    assert ThreadOk(s, t);
    WordSuccessor(s.threads[t].rounds);
  }

  /** Every call returns, under any schedule in which every thread keeps taking steps. */
  lemma EveryCallReturns(states: seq<State>, steps: seq<nat>, cuts: seq<nat>, t: nat)
    requires IsRun(states, steps) && Fair(states, steps, cuts) && |cuts| >= 5 * |states[0].threads| + 3
    requires t < |states[0].threads|
    ensures exists k :: cuts[0] <= k <= cuts[|cuts| - 1] && k < |states| && !Inside(states[k], t)
  {
    hide IsRun, Window, Inside, LeftIn;
    var n := |cuts| - 2;
    FairPrefix(states, steps, cuts, n + 1);
    PhaseEnds(states, steps, cuts[..n + 1]);
    FairUses(states, steps, cuts, n);
    FairUses(states, steps, cuts, n + 1);
    assert Window(states, steps, cuts[n], cuts[n + 1]);
    LeavesIn(states, steps, cuts[0], cuts[n], cuts[n + 1], t);
  }

  lemma FairPrefix(states: seq<State>, steps: seq<nat>, cuts: seq<nat>, n: nat)
    requires Fair(states, steps, cuts) && n <= |cuts|
    ensures Fair(states, steps, cuts[..n])
  {
    hide Window;
  }

  lemma LeavesIn(states: seq<State>, steps: seq<nat>, a: nat, b: nat, c: nat, t: nat)
    requires IsRun(states, steps) && a <= b < |states| && Window(states, steps, b, c) && t < |states[0].threads|
    requires states[a].phase < states[b].phase
    ensures exists k :: a <= k <= c && k < |states| && !Inside(states[k], t)
  {
    assert Scheduled(steps, t, b, c);
    var k: nat :| b <= k < c && k < |steps| && steps[k] == t;
    if Inside(states[k], t) {
      LeavesAt(states, steps, a, b, k);
    }
  }

  /** A thread inside since a phase that is over leaves with its own step k, unless it left before. */
  lemma LeavesAt(states: seq<State>, steps: seq<nat>, a: nat, b: nat, k: nat)
    requires IsRun(states, steps) && a <= b <= k < |steps| && states[a].phase < states[b].phase
    requires steps[k] < |states[0].threads| && Inside(states[k], steps[k])
    ensures exists l :: a <= l <= k + 1 && l < |states| && !Inside(states[l], steps[k])
  {
    var t := steps[k];
    if forall l | a <= l <= k :: Inside(states[l], t) {
      StaysIn(states, t, a, k);
      CallsAndReturns(states, steps, t, a);
      CallsAndReturns(states, steps, t, k);
      RunInv(states, steps, a);
      RunInv(states, steps, k);
      assert ThreadOk(states[a], t);
      PhaseRuns(states, steps, b, k);
      ReleasedReturns(states[k], t);
      RunStep(states, steps, k);
      assert !Inside(states[k + 1], t);
    }
  }

  lemma {:induction false} StaysIn(states: seq<State>, t: nat, a: nat, k: nat)
    requires a <= k < |states| && forall l | a <= l <= k :: Inside(states[l], t)
    ensures Returns(states, t, k) == Returns(states, t, a)
  {
    if k == a {
    } else {
      StaysIn(states, t, a, k - 1);
    }
  }
}
