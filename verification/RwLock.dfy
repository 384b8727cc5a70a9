/** The read-write lock as a step system: any number of threads, one atomic operation per
    step, weak compare-and-exchange that may fail for no reason. */
module RwLock {
  import opened Pigeonhole

  /** Where a thread is. attempt: inside rwlock_read_trylock rather than rwlock_read_lock. Try* are the
      places of rwlock_write_trylock; after a successful exchange it goes on as rwlock_write_lock does. */
  datatype Pc =
    | Idle
    | ReadCheck(attempt: bool) | ReadLoad(attempt: bool) | ReadCas(attempt: bool, c: int) | Reading
    | WriteAdd | WriteCas | WriteSub | Writing
    | TryAdd | TryCheck | TryCas | TrySub

  datatype State = State(cnt: int, writers: int, pcs: seq<Pc>)

  /** Continue is the next atomic operation of the call in progress, or the unlock; spurious makes
      a weak exchange fail although the values agree. */
  datatype Action = ReadLock | ReadTryLock | WriteLock | WriteTryLock | Continue(spurious: bool)

  function Init(n: nat): State { State(0, 0, seq(n, _ => Idle)) }

  predicate Allowed(s: State, t: nat, a: Action)
    requires t < |s.pcs|
  {
    a.Continue? <==> !s.pcs[t].Idle?
  }

  function Step(s: State, t: nat, a: Action): State
    requires t < |s.pcs| && Allowed(s, t, a)
  {
    match a
    case ReadLock => s.(pcs := s.pcs[t := ReadCheck(false)])
    case ReadTryLock => s.(pcs := s.pcs[t := ReadCheck(true)])
    case WriteLock => s.(pcs := s.pcs[t := WriteAdd])
    case WriteTryLock => s.(pcs := s.pcs[t := TryAdd])
    case Continue(spurious) =>
      match s.pcs[t]
      case Idle => s
      case ReadCheck(attempt) =>
        if s.writers != 0 then (if attempt then s.(pcs := s.pcs[t := Idle]) else s)
        else s.(pcs := s.pcs[t := ReadLoad(attempt)])
      case ReadLoad(attempt) =>
        if s.cnt < 0 then (if attempt then s.(pcs := s.pcs[t := Idle]) else s)
        else s.(pcs := s.pcs[t := ReadCas(attempt, s.cnt)])
      case ReadCas(attempt, c) =>
        if s.cnt == c && !spurious then s.(cnt := c + 1, pcs := s.pcs[t := Reading])
        else s.(pcs := s.pcs[t := ReadLoad(attempt)])
      case Reading => s.(cnt := s.cnt - 1, pcs := s.pcs[t := Idle])
      case WriteAdd => s.(writers := s.writers + 1, pcs := s.pcs[t := WriteCas])
      case WriteCas =>
        if s.cnt == 0 && !spurious then s.(cnt := -1, pcs := s.pcs[t := WriteSub]) else s
      case WriteSub => s.(writers := s.writers - 1, pcs := s.pcs[t := Writing])
      case Writing => s.(cnt := 0, pcs := s.pcs[t := Idle])
      case TryAdd => s.(writers := s.writers + 1, pcs := s.pcs[t := TryCheck])
      case TryCheck => s.(pcs := s.pcs[t := if s.writers != 0 then TrySub else TryCas])
      case TryCas => // a strong exchange
        if s.cnt == 0 then s.(cnt := -1, pcs := s.pcs[t := WriteSub]) else s.(pcs := s.pcs[t := TrySub])
      case TrySub => s.(writers := s.writers - 1, pcs := s.pcs[t := Idle])
  }

  predicate HoldsRead(pc: Pc) { pc.Reading? }
  predicate HoldsWrite(pc: Pc) { pc.WriteSub? || pc.Writing? }
  predicate Counted(pc: Pc) { pc.WriteCas? || pc.WriteSub? || pc.TryCheck? || pc.TryCas? || pc.TrySub? }

  ghost function Where(pcs: seq<Pc>, p: Pc -> bool): set<nat> {
    set t | 0 <= t < |pcs| && p(pcs[t])
  }

  ghost function Count(pcs: seq<Pc>, p: Pc -> bool): nat { |Where(pcs, p)| }

  ghost predicate Inv(s: State) {
    // a reader only tries to exchange a count at which no writer held the lock
    && (forall t | 0 <= t < |s.pcs| && s.pcs[t].ReadCas? :: s.pcs[t].c >= 0)
    // an attempt to write counts itself as a waiting writer, and gives up at its own check
    && (forall t | 0 <= t < |s.pcs| :: !s.pcs[t].TryCas?)
    && Consistent(s.cnt, s.writers, Count(s.pcs, HoldsRead), Count(s.pcs, HoldsWrite), Count(s.pcs, Counted))
  }

  predicate Consistent(cnt: int, writers: int, readers: nat, holders: nat, counted: nat) {
    && writers == counted
    && if holders == 0 then cnt == readers else cnt == -1 && holders == 1 && readers == 0
  }

  lemma InitInv(n: nat)
    ensures Inv(Init(n))
  {
    assert Where(Init(n).pcs, Counted) == Where(Init(n).pcs, HoldsWrite) == Where(Init(n).pcs, HoldsRead) == {};
  }

  /** One thread moves: each count changes by that thread alone. */
  lemma Move(pcs: seq<Pc>, t: nat, pc: Pc, p: Pc -> bool)
    requires t < |pcs|
    ensures Count(pcs[t := pc], p) == Count(pcs, p) + (if p(pc) then 1 else 0) - (if p(pcs[t]) then 1 else 0)
    ensures p(pcs[t]) ==> Count(pcs, p) > 0
  {
    var A, B := Where(pcs, p), Where(pcs[t := pc], p);
    assert t in A <==> p(pcs[t]);
    assert B == if p(pc) then A + {t} else A - {t};
  }

  lemma StepInv(s: State, t: nat, a: Action)
    requires Inv(s) && t < |s.pcs| && Allowed(s, t, a)
    ensures Inv(Step(s, t, a))
  {
    hide Count, Where;
    var s2 := Step(s, t, a);
    assert s2.pcs == s.pcs[t := s2.pcs[t]];
    var r, w, c := Count(s.pcs, HoldsRead), Count(s.pcs, HoldsWrite), Count(s.pcs, Counted);
    var r2, w2, c2 := Count(s2.pcs, HoldsRead), Count(s2.pcs, HoldsWrite), Count(s2.pcs, Counted);
    Move(s.pcs, t, s2.pcs[t], Counted);
    Move(s.pcs, t, s2.pcs[t], HoldsRead);
    Move(s.pcs, t, s2.pcs[t], HoldsWrite);
    assert Consistent(s.cnt, s.writers, r, w, c);
    assert Consistent(s2.cnt, s2.writers, r2, w2, c2);
  }

  lemma SingleOut(A: set<nat>, t: nat)
    requires t in A && |A| == 1
    ensures A - {t} == {}
  {
    assert |A - {t}| == 0;
  }

  // ----- runs

  datatype Event = Event(t: nat, a: Action)

  ghost predicate IsRun(states: seq<State>, events: seq<Event>) {
    && |states| == |events| + 1
    && (exists n: nat :: states[0] == Init(n))
    && forall i | 0 <= i < |events| ::
         && events[i].t < |states[i].pcs| && Allowed(states[i], events[i].t, events[i].a)
         && states[i + 1] == Step(states[i], events[i].t, events[i].a)
  }

  lemma RunStep(states: seq<State>, events: seq<Event>, i: nat)
    requires IsRun(states, events) && i < |events|
    ensures events[i].t < |states[i].pcs| && Allowed(states[i], events[i].t, events[i].a)
    ensures states[i + 1] == Step(states[i], events[i].t, events[i].a)
  {
  }

  lemma {:induction false} RunInv(states: seq<State>, events: seq<Event>, i: nat)
    requires IsRun(states, events) && i < |states|
    ensures Inv(states[i]) && |states[i].pcs| == |states[0].pcs|
  {
    if i == 0 {
      var n: nat :| states[0] == Init(n);
      InitInv(n);
    } else {
      RunInv(states, events, i - 1);
      StepInv(states[i - 1], events[i - 1].t, events[i - 1].a);
    }
  }

  /** cnt is -1 exactly when one writer and no reader holds the lock, and otherwise the number of readers. */
  lemma Exclusion(states: seq<State>, events: seq<Event>, i: nat)
    requires IsRun(states, events) && i < |states|
    ensures var pcs := states[i].pcs; var readers, holders := Where(pcs, HoldsRead), Where(pcs, HoldsWrite);
            && (states[i].cnt == -1 <==> |holders| == 1 && readers == {})
            && (states[i].cnt != -1 ==> states[i].cnt == |readers| && holders == {})
            && states[i].writers == |Where(pcs, Counted)|
    ensures forall t, u | 0 <= t < |states[i].pcs| && 0 <= u < |states[i].pcs| && t != u && HoldsWrite(states[i].pcs[t]) ::
              !HoldsWrite(states[i].pcs[u]) && !HoldsRead(states[i].pcs[u])
  {
    RunInv(states, events, i);
    var W := Where(states[i].pcs, HoldsWrite);
    forall t, u | 0 <= t < |states[i].pcs| && 0 <= u < |states[i].pcs| && t != u && HoldsWrite(states[i].pcs[t])
      ensures !HoldsWrite(states[i].pcs[u]) && !HoldsRead(states[i].pcs[u])
    {
      assert t in W;
      SingleOut(W, t);
      assert u !in W - {t} && u !in Where(states[i].pcs, HoldsRead);
    }
  }

  /** Past the check of `writers`, on the way to a read lock. */
  predicate PastCheck(pc: Pc) { pc.ReadLoad? || pc.ReadCas? }

  /** How often thread t obtains a read lock in events a .. b - 1. */
  ghost function Acquisitions(states: seq<State>, t: nat, a: nat, b: nat): nat
    requires a <= b < |states|
    requires forall k | a <= k <= b :: t < |states[k].pcs|
    decreases b
  {
    if a == b then 0
    else Acquisitions(states, t, a, b - 1)
         + if !states[b - 1].pcs[t].Reading? && states[b].pcs[t].Reading? then 1 else 0
  }

  /** One step while a writer waits: nobody gets past the check, and getting in uses it up. */
  lemma StepPriority(s: State, u: nat, a: Action, t: nat)
    requires u < |s.pcs| && Allowed(s, u, a) && t < |s.pcs| && s.writers > 0
    ensures |Step(s, u, a).pcs| == |s.pcs|
    ensures var pc := Step(s, u, a).pcs[t];
            (if !s.pcs[t].Reading? && pc.Reading? then 1 else 0) + (if PastCheck(pc) then 1 else 0)
            <= if PastCheck(s.pcs[t]) then 1 else 0
  {
  }

  /** While a writer waits, only a reader already past the check can still get in, and only once. */
  lemma {:induction false} WriterPriority(states: seq<State>, events: seq<Event>, t: nat, a: nat, b: nat)
    requires IsRun(states, events) && a <= b < |states|
    requires forall k | a <= k <= b :: t < |states[k].pcs|
    requires forall k | a <= k < b :: states[k].writers > 0
    ensures Acquisitions(states, t, a, b) + (if PastCheck(states[b].pcs[t]) then 1 else 0)
            <= if PastCheck(states[a].pcs[t]) then 1 else 0
    decreases b
  {
    hide Step, Allowed;
    if a >= b {
    } else {
      WriterPriority(states, events, t, a, b - 1);
      RunStep(states, events, b - 1);
      StepPriority(states[b - 1], events[b - 1].t, events[b - 1].a, t);
    }
  }

  predicate Attempting(pc: Pc) { (pc.ReadCheck? || pc.ReadLoad? || pc.ReadCas?) && pc.attempt }

  /** Thread t calls rwlock_read_trylock at event a and has returned from it in state b. */
  ghost predicate Attempt(states: seq<State>, events: seq<Event>, t: nat, a: nat, b: nat) {
    && a < b < |states| && |states| == |events| + 1 && events[a] == Event(t, ReadTryLock)
    && (forall k | a < k <= b :: t < |states[k].pcs|)
    && (forall k | a < k < b :: Attempting(states[k].pcs[t]))
    && !Attempting(states[b].pcs[t])
  }

  ghost predicate WriterAbout(s: State) { s.writers > 0 || Where(s.pcs, HoldsWrite) != {} }

  /** A step that ends an attempt: refused because of a writer, or past every writer. */
  lemma AttemptEnds(s: State, u: nat, a: Action, t: nat)
    requires Inv(s) && u < |s.pcs| && Allowed(s, u, a) && t < |s.pcs|
    requires Attempting(s.pcs[t]) && !Attempting(Step(s, u, a).pcs[t])
    ensures u == t && (Step(s, u, a).pcs[t].Idle? || Step(s, u, a).pcs[t].Reading?)
    ensures Step(s, u, a).pcs[t].Idle? ==> WriterAbout(s)
    ensures Step(s, u, a).pcs[t].Reading? ==> Where(Step(s, u, a).pcs, HoldsWrite) == {}
  {
    var s2 := Step(s, u, a);
    assert s2.pcs[t].Reading? ==> Where(s.pcs, HoldsWrite) == {};
    assert s2.pcs[t].Reading? ==> forall v | 0 <= v < |s.pcs| && HoldsWrite(s2.pcs[v]) :: v in Where(s.pcs, HoldsWrite);
  }

  lemma AttemptBegins(s: State, t: nat)
    requires t < |s.pcs| && Allowed(s, t, ReadTryLock)
    ensures Attempting(Step(s, t, ReadTryLock).pcs[t])
  {
  }

  /** The outcome of a whole attempt. It ends holding the lock, at a moment when no writer held it, or
      refused; it is refused only if a writer was waiting or holding during the attempt. */
  lemma TryLockOutcome(states: seq<State>, events: seq<Event>, t: nat, a: nat, b: nat)
    requires IsRun(states, events) && Attempt(states, events, t, a, b)
    ensures states[b].pcs[t].Idle? || states[b].pcs[t].Reading?
    ensures states[b].pcs[t].Reading? ==> Where(states[b].pcs, HoldsWrite) == {}
    ensures states[b].pcs[t].Idle? ==> exists k :: a < k < b && WriterAbout(states[k])
  {
    hide Step, Allowed, Inv;
    RunStep(states, events, a);
    AttemptBegins(states[a], t);
    RunInv(states, events, b - 1);
    var e := events[b - 1];
    RunStep(states, events, b - 1);
    AttemptEnds(states[b - 1], e.t, e.a, t);
  }

  predicate WriteAttempting(pc: Pc) { pc.TryAdd? || pc.TryCheck? || pc.TryCas? || pc.TrySub? }

  /** An attempt never waits: each of its own steps moves it on. At the load it gives up exactly if a
      writer holds the lock. */
  lemma TryLockDecides(s: State, t: nat, spurious: bool)
    requires Inv(s) && t < |s.pcs| && (Attempting(s.pcs[t]) || WriteAttempting(s.pcs[t]))
    ensures Step(s, t, Continue(spurious)).pcs[t] != s.pcs[t]
    ensures s.pcs[t] == ReadLoad(true) ==>
              Step(s, t, Continue(spurious)).pcs[t] ==
              if Where(s.pcs, HoldsWrite) != {} then Idle else ReadCas(true, |Where(s.pcs, HoldsRead)|)
  {
  }

  /** A step of another thread leaves an attempt where it is; its own last step ends it refused. */
  lemma WriteAttemptStep(s: State, u: nat, a: Action, t: nat)
    requires Inv(s) && u < |s.pcs| && Allowed(s, u, a) && t < |s.pcs| && WriteAttempting(s.pcs[t])
    ensures var pc := Step(s, u, a).pcs[t]; WriteAttempting(pc) || pc.Idle?
  {
  }

  /** rwlock_write_trylock never acquires the lock: from the call at event a on, thread t is inside
      the attempt until it has returned refused. */
  lemma {:induction false} WriteTryLockFails(states: seq<State>, events: seq<Event>, t: nat, a: nat, b: nat)
    requires IsRun(states, events) && a < |events| && events[a] == Event(t, WriteTryLock) && a < b < |states|
    requires forall k | a < k < b :: t < |states[k].pcs| && !states[k].pcs[t].Idle?
    ensures t < |states[b].pcs| && (WriteAttempting(states[b].pcs[t]) || (states[b].pcs[t].Idle? && b > a + 1))
    decreases b
  {
    hide Inv, Allowed;
    RunInv(states, events, a);
    RunInv(states, events, b);
    RunStep(states, events, b - 1);
    if b == a + 1 {
      assert states[b].pcs[t] == TryAdd;
    } else {
      hide Step;
      WriteTryLockFails(states, events, t, a, b - 1);
      RunInv(states, events, b - 1);
      WriteAttemptStep(states[b - 1], events[b - 1].t, events[b - 1].a, t);
    }
  }

  // ----- the blocking calls

  predicate ReadWaiting(pc: Pc) { (pc.ReadCheck? || pc.ReadLoad? || pc.ReadCas?) && !pc.attempt }
  predicate WriteWaiting(pc: Pc) { pc.WriteAdd? || pc.WriteCas? || pc.WriteSub? }

  /** Thread t calls a blocking function at event a and has returned from it in state b. */
  ghost predicate Locks(states: seq<State>, events: seq<Event>, t: nat, act: Action, waiting: Pc -> bool, a: nat, b: nat) {
    && a < b < |states| && |states| == |events| + 1 && events[a] == Event(t, act)
    && (forall k | a < k <= b :: t < |states[k].pcs|)
    && (forall k | a < k < b :: waiting(states[k].pcs[t]))
    && !waiting(states[b].pcs[t])
  }

  /** Who reads keeps writers out, and who writes keeps everybody out. */
  lemma HolderExcludes(s: State, t: nat)
    requires Inv(s) && t < |s.pcs|
    ensures s.pcs[t].Reading? ==> Where(s.pcs, HoldsWrite) == {}
    ensures s.pcs[t].Writing? ==> Where(s.pcs, HoldsWrite) == {t} && Where(s.pcs, HoldsRead) == {}
  {
    var readers, holders := Where(s.pcs, HoldsRead), Where(s.pcs, HoldsWrite);
    if s.pcs[t].Reading? { assert t in readers; }
    if s.pcs[t].Writing? {
      assert t in holders;
      SingleOut(holders, t);
      assert holders == (holders - {t}) + {t};
    }
  }

  /** The step with which a blocking call ends leaves the lock held. */
  lemma LockEnds(s: State, u: nat, a: Action, t: nat)
    requires u < |s.pcs| && Allowed(s, u, a) && t < |s.pcs|
    ensures |Step(s, u, a).pcs| == |s.pcs|
    ensures ReadWaiting(s.pcs[t]) && !ReadWaiting(Step(s, u, a).pcs[t]) ==> Step(s, u, a).pcs[t] == Reading
    ensures WriteWaiting(s.pcs[t]) && !WriteWaiting(Step(s, u, a).pcs[t]) ==> Step(s, u, a).pcs[t] == Writing
  {
  }

  lemma LockBegins(s: State, t: nat)
    requires t < |s.pcs| && Allowed(s, t, ReadLock)
    ensures ReadWaiting(Step(s, t, ReadLock).pcs[t]) && WriteWaiting(Step(s, t, WriteLock).pcs[t])
  {
  }

  /** A returned rwlock_read_lock holds the lock for reading, and no writer holds it. */
  lemma ReadLockReturns(states: seq<State>, events: seq<Event>, t: nat, a: nat, b: nat)
    requires IsRun(states, events) && Locks(states, events, t, ReadLock, ReadWaiting, a, b)
    ensures states[b].pcs[t] == Reading && Where(states[b].pcs, HoldsWrite) == {}
  {
    hide Step, Allowed, Inv, ReadWaiting, WriteWaiting;
    LastStep(states, events, t, ReadLock, ReadWaiting, a, b);
    LockEnds(states[b - 1], events[b - 1].t, events[b - 1].a, t);
    HolderExcludes(states[b], t);
  }

  /** A returned rwlock_write_lock holds the lock for writing, and nobody else holds it. */
  lemma WriteLockReturns(states: seq<State>, events: seq<Event>, t: nat, a: nat, b: nat)
    requires IsRun(states, events) && Locks(states, events, t, WriteLock, WriteWaiting, a, b)
    ensures states[b].pcs[t] == Writing && Where(states[b].pcs, HoldsWrite) == {t} && Where(states[b].pcs, HoldsRead) == {}
  {
    hide Step, Allowed, Inv, ReadWaiting, WriteWaiting;
    LastStep(states, events, t, WriteLock, WriteWaiting, a, b);
    LockEnds(states[b - 1], events[b - 1].t, events[b - 1].a, t);
    HolderExcludes(states[b], t);
  }

  lemma LastStep(states: seq<State>, events: seq<Event>, t: nat, act: Action, waiting: Pc -> bool, a: nat, b: nat)
    requires IsRun(states, events) && Locks(states, events, t, act, waiting, a, b)
    requires (act == ReadLock && waiting == ReadWaiting) || (act == WriteLock && waiting == WriteWaiting)
    ensures Inv(states[b - 1]) && Inv(states[b]) && waiting(states[b - 1].pcs[t]) && t < |states[b - 1].pcs|
    ensures events[b - 1].t < |states[b - 1].pcs| && Allowed(states[b - 1], events[b - 1].t, events[b - 1].a)
    ensures states[b] == Step(states[b - 1], events[b - 1].t, events[b - 1].a)
  {
    hide Step, Inv;
    RunInv(states, events, a);
    RunInv(states, events, b - 1);
    RunInv(states, events, b);
    RunStep(states, events, a);
    RunStep(states, events, b - 1);
    AllowedStart(states[a], t, act);
    LockBegins(states[a], t);
  }

  lemma AllowedStart(s: State, t: nat, act: Action)
    requires t < |s.pcs| && Allowed(s, t, act) && !act.Continue?
    ensures Allowed(s, t, ReadLock) && Allowed(s, t, WriteLock)
  {
  }

  /** What a thread holds it keeps until its own next event, which releases it. */
  lemma {:induction false} HeldUntilReleased(states: seq<State>, events: seq<Event>, t: nat, a: nat, b: nat)
    requires IsRun(states, events) && a <= b < |events| && t < |states[a].pcs|
    requires (states[a].pcs[t].Reading? || states[a].pcs[t].Writing?) && events[b].t == t
    requires forall k | a <= k < b :: events[k].t != t
    ensures t < |states[b].pcs| && states[b].pcs[t] == states[a].pcs[t]
    ensures t < |states[b + 1].pcs| && states[b + 1].pcs[t] == Idle
    decreases b
  {
    Untouched(states, events, t, a, b);
    RunStep(states, events, b);
  }

  lemma {:induction false} Untouched(states: seq<State>, events: seq<Event>, t: nat, a: nat, b: nat)
    requires IsRun(states, events) && a <= b < |states| && t < |states[a].pcs|
    requires forall k | a <= k < b :: events[k].t != t
    ensures t < |states[b].pcs| && states[b].pcs[t] == states[a].pcs[t]
    decreases b
  {
    if a == b {
    } else {
      Untouched(states, events, t, a, b - 1);
      RunStep(states, events, b - 1);
    }
  }

  /** n steps of thread t alone, in which no exchange fails for no reason. */
  function Alone(s: State, t: nat, n: nat): State
    requires t < |s.pcs|
    decreases n
  {
    if n == 0 || s.pcs[t].Idle? then s
    else
      var s2 := Step(s, t, Continue(false));
      if t < |s2.pcs| then Alone(s2, t, n - 1) else s2
  }

  /** Nothing but the holders and the waiting writers keeps a thread out: alone, a reader acquires a lock
      with no writer about, and a writer a free lock. */
  lemma AloneAcquires(s: State, t: nat)
    requires Inv(s) && t < |s.pcs| && s.pcs[t].Idle?
    ensures !WriterAbout(s) ==> Alone(Step(s, t, ReadLock), t, 3).pcs == s.pcs[t := Reading]
    ensures !WriterAbout(s) ==> Alone(Step(s, t, ReadTryLock), t, 3).pcs == s.pcs[t := Reading]
    ensures Where(s.pcs, HoldsWrite) == {} && Where(s.pcs, HoldsRead) == {} ==>
              Alone(Step(s, t, WriteLock), t, 3).pcs == s.pcs[t := Writing]
  {
    if !WriterAbout(s) {
      assert s.cnt >= 0;
      AloneRead(s, t, false);
      AloneRead(s, t, true);
    }
    if Where(s.pcs, HoldsWrite) == {} && Where(s.pcs, HoldsRead) == {} {
      assert s.cnt == 0;
      AloneWrite(s, t);
    }
  }

  lemma AloneRead(s: State, t: nat, attempt: bool)
    requires t < |s.pcs| && s.cnt >= 0 && s.writers == 0
    ensures Alone(s.(pcs := s.pcs[t := ReadCheck(attempt)]), t, 3).pcs == s.pcs[t := Reading]
  {
    var s1 := s.(pcs := s.pcs[t := ReadCheck(attempt)]);
    var s2 := Step(s1, t, Continue(false));
    var s3 := Step(s2, t, Continue(false));
    assert s2.pcs == s.pcs[t := ReadLoad(attempt)] && s3.pcs == s.pcs[t := ReadCas(attempt, s.cnt)];
    assert Alone(s1, t, 3) == Alone(s2, t, 2) == Alone(s3, t, 1);
    assert Alone(s3, t, 1) == Alone(Step(s3, t, Continue(false)), t, 0);
  }

  lemma AloneWrite(s: State, t: nat)
    requires t < |s.pcs| && s.cnt == 0
    ensures Alone(s.(pcs := s.pcs[t := WriteAdd]), t, 3).pcs == s.pcs[t := Writing]
  {
    var s1 := s.(pcs := s.pcs[t := WriteAdd]);
    var s2 := Step(s1, t, Continue(false));
    var s3 := Step(s2, t, Continue(false));
    assert s2.pcs == s.pcs[t := WriteCas] && s3.pcs == s.pcs[t := WriteSub];
    assert Alone(s1, t, 3) == Alone(s2, t, 2) == Alone(s3, t, 1);
    assert Alone(s3, t, 1) == Alone(Step(s3, t, Continue(false)), t, 0);
  }

  // ----- progress

  ghost predicate Moves(s: State, t: nat) {
    t < |s.pcs| && !s.pcs[t].Idle? && Step(s, t, Continue(false)) != s
  }

  /** In no reachable state do all threads inside the lock spin: one of them has a step that changes
      something. */
  lemma NotAllSpinning(states: seq<State>, events: seq<Event>, i: nat, u: nat) returns (t: nat)
    requires IsRun(states, events) && i < |states| && u < |states[i].pcs| && !states[i].pcs[u].Idle?
    ensures Moves(states[i], t)
  {
    RunInv(states, events, i);
    var s := states[i];
    var readers, holders, counted := Where(s.pcs, HoldsRead), Where(s.pcs, HoldsWrite), Where(s.pcs, Counted);
    if s.cnt != 0 {
      assert s.cnt > 0 ==> readers != {};
      assert s.cnt < 0 ==> holders != {};
      t :| t in readers + holders;
    } else if s.writers != 0 {
      assert counted != {};
      t :| t in counted;
    } else {
      t := u;
    }
    assert Step(s, t, Continue(false)).pcs[t] != s.pcs[t];
  }
}
