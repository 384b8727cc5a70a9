/** Read-copy-update as a step system: any number of threads, one shared memory access per step,
    all interleavings. A step that would leave an array is not allowed, so a run ends there. The mutex guards registration and callbacks;
    rcu_synchronize takes no lock. */
module Rcu {
  import opened Pigeonhole

  const MAX_THREADS: nat := 64

  /** A shared object, as the published pointer names it. */
  type Ptr = nat

  /** Where a thread is inside the library. `snap` is the set of pointers that had been
      replaced when the call of rcu_synchronize began and have not been published again. */
  datatype Pc =
    | Idle
    | RegLock | RegScan(i: nat) | RegStore | RegGrow(id: nat) | RegUnlock(id: nat)
    | SyncTest(i: nat, snap: set<Ptr>) | SyncLoad(i: nat, snap: set<Ptr>)
    | CallLock(p: Ptr) | CallPush(p: Ptr) | CallUnlock
    | CleanLock | CleanTake | CleanUnlock(list: seq<Ptr>) | CleanRun(list: seq<Ptr>)

  /** depth: nesting of read sections; holds: pointers read in the current outermost section;
      quiesced: pointers covered by a finished rcu_synchronize of this thread and not published since. */
  datatype Thread = Thread(pc: Pc, slot: int, depth: nat, holds: set<Ptr>, quiesced: set<Ptr>)

  /** owner and cnt are threads_idx and threads_cnt; retired: pointers once published and now replaced. */
  datatype State = State(size: nat, mutex: int, owner: seq<int>, cnt: seq<int>, ptr: Ptr,
                         cbs: seq<Ptr>, threads: seq<Thread>, retired: set<Ptr>)

  /** What an idle thread may start; Continue is the next access of the call in progress. */
  datatype Action =
    | Register | ReadLock | ReadUnlock | Dereference | Assign(p: Ptr)
    | Synchronize | Call(q: Ptr) | Cleanup | Continue

  const NONE: int := -1

  function Init(n: nat, p: Ptr): State {
    State(0, NONE, seq(MAX_THREADS, _ => 0), seq(MAX_THREADS, _ => 0), p, [],
          seq(n, _ => Thread(Idle, NONE, 0, {}, {})), {})
  }

  /** The callers' side: readers register and dereference inside a section. Writers may publish any
      pointer, also one that was published before. */
  predicate Allowed(s: State, t: nat, a: Action)
    requires t < |s.threads|
  {
    var th := s.threads[t];
    match a
    case Register => th.pc.Idle?
    case ReadLock => th.pc.Idle? && 0 <= th.slot < |s.cnt|
    case ReadUnlock => th.pc.Idle? && th.depth > 0 && 0 <= th.slot < |s.cnt|
    case Dereference => th.pc.Idle? && th.depth > 0
    case Assign(p) => th.pc.Idle?
    case Synchronize => th.pc.Idle?
    case Call(q) => th.pc.Idle?
    case Cleanup => th.pc.Idle?
    case Continue =>
      match th.pc
      case Idle => false
      case RegLock => s.mutex == NONE
      case CallLock(p) => s.mutex == NONE
      case CleanLock => s.mutex == NONE
      case RegScan(i) => i < s.size ==> i < |s.owner|
      case RegStore => s.size < |s.owner|
      case SyncLoad(i, snap) => i < |s.cnt|
      case CleanRun(list) => true
      case _ => true
  }

  function WithPc(s: State, t: nat, pc: Pc): State
    requires t < |s.threads|
  {
    s.(threads := s.threads[t := s.threads[t].(pc := pc)])
  }

  /** A pointer that is published again is no longer one that was waited for. */
  function Forget(th: Thread, p: Ptr): Thread {
    th.(quiesced := th.quiesced - {p},
        pc := match th.pc
          case SyncTest(i, snap) => SyncTest(i, snap - {p})
          case SyncLoad(i, snap) => SyncLoad(i, snap - {p})
          case _ => th.pc)
  }

  /** One step of thread t. */
  function Step(s: State, t: nat, a: Action): State
    requires t < |s.threads| && Allowed(s, t, a)
  {
    var th := s.threads[t];
    match a
    case Register => WithPc(s, t, RegLock)
    case ReadLock =>
      s.(cnt := s.cnt[th.slot := s.cnt[th.slot] + 1], threads := s.threads[t := th.(depth := th.depth + 1)])
    case ReadUnlock =>
      s.(cnt := s.cnt[th.slot := s.cnt[th.slot] - 1],
         threads := s.threads[t := th.(depth := th.depth - 1, holds := if th.depth == 1 then {} else th.holds)])
    case Dereference => s.(threads := s.threads[t := th.(holds := th.holds + {s.ptr})])
    case Assign(p) =>
      s.(ptr := p, retired := s.retired + {s.ptr} - {p},
         threads := seq(|s.threads|, u requires 0 <= u < |s.threads| => Forget(s.threads[u], p)))
    case Synchronize => WithPc(s, t, SyncTest(0, s.retired))
    case Call(q) => WithPc(s, t, CallLock(q))
    case Cleanup => WithPc(s, t, CleanLock)
    case Continue =>
      match th.pc
      case Idle => s
      case RegLock => WithPc(s, t, RegScan(0)).(mutex := t)
      case RegScan(i) =>
        if i < s.size then WithPc(s, t, if s.owner[i] == t then RegUnlock(i) else RegScan(i + 1))
        else WithPc(s, t, RegStore)
      case RegStore => WithPc(s, t, RegGrow(s.size)).(owner := s.owner[s.size := t])
      case RegGrow(id) => WithPc(s, t, RegUnlock(id)).(size := s.size + 1)
      case RegUnlock(id) => s.(mutex := NONE, threads := s.threads[t := th.(pc := Idle, slot := id)])
      case SyncTest(i, snap) =>
        if i < s.size then WithPc(s, t, SyncLoad(i, snap))
        else s.(threads := s.threads[t := th.(pc := Idle, quiesced := th.quiesced + snap)])
      case SyncLoad(i, snap) => WithPc(s, t, if s.cnt[i] > 0 then SyncTest(0, snap) else SyncTest(i + 1, snap))
      case CallLock(p) => WithPc(s, t, CallPush(p)).(mutex := t)
      case CallPush(p) => WithPc(s, t, CallUnlock).(cbs := [p] + s.cbs)
      case CallUnlock => WithPc(s, t, Idle).(mutex := NONE)
      case CleanLock => WithPc(s, t, CleanTake).(mutex := t)
      case CleanTake => WithPc(s, t, CleanUnlock(s.cbs)).(cbs := [])
      case CleanUnlock(list) => WithPc(s, t, CleanRun(list)).(mutex := NONE)
      case CleanRun(list) => WithPc(s, t, if list == [] then Idle else CleanRun(list[1..]))
  }

  /** The callback that this step runs, if any: the pointer is freed. */
  predicate Frees(s: State, t: nat, a: Action, p: Ptr)
    requires t < |s.threads|
  {
    a.Continue? && s.threads[t].pc.CleanRun? && s.threads[t].pc.list != [] && p == s.threads[t].pc.list[0]
  }

  // ----- the invariant

  predicate HoldsMutex(pc: Pc) {
    pc.RegScan? || pc.RegStore? || pc.RegGrow? || pc.RegUnlock? || pc.CallPush? || pc.CallUnlock?
    || pc.CleanTake? || pc.CleanUnlock?
  }

  ghost predicate Shape(s: State) {
    && |s.owner| == |s.cnt| == MAX_THREADS && s.size <= |s.threads| && s.size <= MAX_THREADS
    && (forall k | 0 <= k < s.size :: 0 <= s.owner[k] < |s.threads|)
    && (forall k, l | 0 <= k < l < s.size :: s.owner[k] != s.owner[l])
    && (forall k | s.size <= k < MAX_THREADS :: s.cnt[k] == 0)
    && (forall k | 0 <= k < s.size :: s.cnt[k] == s.threads[s.owner[k]].depth)
    && s.ptr !in s.retired
  }

  /** t is not registered yet. */
  ghost predicate NotOwner(s: State, t: nat, n: nat) {
    forall k | 0 <= k < n && k < |s.owner| :: s.owner[k] != t
  }

  ghost predicate ThreadOk(s: State, t: nat)
    requires Shape(s) && t < |s.threads|
  {
    var th := s.threads[t];
    && (th.slot == NONE || (0 <= th.slot < s.size && s.owner[th.slot] == t))
    && (th.slot == NONE ==> th.depth == 0)
    && (th.depth == 0 ==> th.holds == {})
    && th.holds <= s.retired + {s.ptr}
    && (HoldsMutex(th.pc) <==> s.mutex == t)
    && th.quiesced <= s.retired
    && match th.pc
       case RegScan(i) => i <= s.size && NotOwner(s, t, i)
       case RegStore => NotOwner(s, t, s.size)
       case RegGrow(id) => id == s.size < |s.threads| && s.size < MAX_THREADS && NotOwner(s, t, s.size) && s.owner[id] == t
       case RegUnlock(id) => id < s.size && s.owner[id] == t
       case SyncTest(i, snap) => i <= s.size && snap <= s.retired && Scanned(s, i, snap)
       case SyncLoad(i, snap) => i < s.size && snap <= s.retired && Scanned(s, i, snap)
       case _ => true
  }

  /** The owners of the slots below i hold nothing of snap. */
  ghost predicate Scanned(s: State, i: nat, snap: set<Ptr>)
    requires Shape(s) && i <= s.size
  {
    forall k | 0 <= k < i :: s.threads[s.owner[k]].holds !! snap
  }

  /** Nobody holds what a finished rcu_synchronize covered. */
  ghost predicate Quiet(s: State) {
    forall t, u | 0 <= t < |s.threads| && 0 <= u < |s.threads| :: s.threads[u].holds !! s.threads[t].quiesced
  }

  ghost predicate Inv(s: State) {
    Shape(s) && Quiet(s) && forall t | 0 <= t < |s.threads| :: ThreadOk(s, t)
  }

  lemma InitInv(n: nat, p: Ptr)
    ensures Inv(Init(n, p))
  {
  }

  /** The slots cannot run out: a thread about to take one owns none. */
  lemma RoomForSlot(s: State, t: nat)
    requires Inv(s) && t < |s.threads| && NotOwner(s, t, s.size)
    ensures s.size < |s.threads|
  {
    var owners: seq<nat> := seq(s.size, k requires 0 <= k < s.size => s.owner[k]);
    var all := owners + [t];
    forall k, l | 0 <= k < l < |all| ensures all[k] != all[l] { }
    DistinctBounded(all, |s.threads|);
  }

  /** Steps that change nothing but the mutex, the callbacks and the stepping thread's place. */
  lemma PlaceInv(s: State, s2: State, t: nat)
    requires Inv(s) && t < |s.threads|
    requires |s2.threads| == |s.threads|
    requires s2 == s.(mutex := s2.mutex, cbs := s2.cbs, threads := s.threads[t := s.threads[t].(pc := s2.threads[t].pc)])
    requires s2.mutex == s.mutex || (s.mutex == NONE && s2.mutex == t) || (s.mutex == t && s2.mutex == NONE)
    requires Shape(s2) ==> ThreadOk(s2, t)
    ensures Inv(s2)
  {
    forall k | 0 <= k < s2.size ensures s2.threads[s2.owner[k]].depth == s.threads[s.owner[k]].depth { }
    assert Shape(s2);
    forall u | 0 <= u < |s2.threads| ensures s2.threads[u].holds == s.threads[u].holds
                                          && s2.threads[u].quiesced == s.threads[u].quiesced { }
    forall u | 0 <= u < |s2.threads| ensures ThreadOk(s2, u) {
      if u != t { OtherOk(s, s2, u); }
    }
  }

  /** A thread that did not move is still all right if the slots kept their owners and nobody
      came to hold a replaced pointer. */
  lemma OtherOk(s: State, s2: State, u: nat)
    requires Shape(s) && Shape(s2) && u < |s.threads| == |s2.threads| && ThreadOk(s, u)
    requires s2.threads[u] == s.threads[u] && s.size <= s2.size && s.retired <= s2.retired
    requires s2.ptr == s.ptr
    requires s2.size == s.size || !HoldsMutex(s.threads[u].pc)
    requires (s2.mutex == u) == (s.mutex == u)
    requires forall k | 0 <= k < s.size :: s2.owner[k] == s.owner[k]
    requires forall v | 0 <= v < |s.threads| :: s2.threads[v].holds * s.retired <= s.threads[v].holds
    requires s2.owner == s.owner || !HoldsMutex(s.threads[u].pc)
    ensures ThreadOk(s2, u)
  {
    match s.threads[u].pc
    case SyncTest(i, snap) => ScannedStays(s, s2, i, snap);
    case SyncLoad(i, snap) => ScannedStays(s, s2, i, snap);
    case _ =>
  }

  lemma ScannedStays(s: State, s2: State, i: nat, snap: set<Ptr>)
    requires Shape(s) && Shape(s2) && i <= s.size <= s2.size && |s.threads| == |s2.threads|
    requires Scanned(s, i, snap) && snap <= s.retired
    requires forall k | 0 <= k < s.size :: s2.owner[k] == s.owner[k]
    requires forall v | 0 <= v < |s.threads| :: s2.threads[v].holds * s.retired <= s.threads[v].holds
    ensures Scanned(s2, i, snap)
  {
    forall k | 0 <= k < i ensures s2.threads[s2.owner[k]].holds !! snap {
      var v := s.owner[k];
      assert s2.threads[v].holds * s.retired <= s.threads[v].holds && s.threads[v].holds !! snap;
    }
  }

  /** Entering and leaving read sections keeps each counter at its owner's nesting depth. */
  lemma ReaderInv(s: State, t: nat, a: Action)
    requires Inv(s) && t < |s.threads| && Allowed(s, t, a) && (a.ReadLock? || a.ReadUnlock? || a.Dereference?)
    ensures Inv(Step(s, t, a))
  {
    var s2, th := Step(s, t, a), s.threads[t];
    assert ThreadOk(s, t);
    assert 0 <= th.slot < s.size && s.owner[th.slot] == t;
    forall k | 0 <= k < s2.size ensures s2.cnt[k] == s2.threads[s2.owner[k]].depth {
      if k != th.slot { assert s.owner[k] != s.owner[th.slot]; }
    }
    assert Shape(s2);
    forall v | 0 <= v < |s.threads| ensures s2.threads[v].holds * s.retired <= s.threads[v].holds { }
    forall u, v | 0 <= u < |s.threads| && 0 <= v < |s.threads|
      ensures s2.threads[v].holds !! s2.threads[u].quiesced
    {
      assert s.threads[v].holds !! s.threads[u].quiesced && ThreadOk(s, u);
    }
    forall u | 0 <= u < |s2.threads| ensures ThreadOk(s2, u) {
      assert ThreadOk(s, u);
      if u != t { OtherOk(s, s2, u); }
    }
  }

  lemma AssignInv(s: State, t: nat, p: Ptr)
    requires Inv(s) && t < |s.threads| && Allowed(s, t, Assign(p))
    ensures Inv(Step(s, t, Assign(p)))
  {
    var s2 := Step(s, t, Assign(p));
    forall u | 0 <= u < |s.threads|
      ensures s2.threads[u].holds == s.threads[u].holds && s2.threads[u].depth == s.threads[u].depth
              && s2.threads[u].quiesced <= s.threads[u].quiesced { }
    assert Shape(s2);
    forall u | 0 <= u < |s2.threads| ensures ThreadOk(s2, u) { AssignOk(s, s2, p, u); }
  }

  lemma AssignOk(s: State, s2: State, p: Ptr, u: nat)
    requires Shape(s) && Shape(s2) && u < |s.threads| == |s2.threads| && ThreadOk(s, u)
    requires s2 == s.(ptr := p, retired := s.retired + {s.ptr} - {p}, threads := s2.threads)
    requires forall v | 0 <= v < |s.threads| :: s2.threads[v] == Forget(s.threads[v], p)
    ensures ThreadOk(s2, u)
  {
    var i, snap := 0, {};
    match s.threads[u].pc {
      case SyncTest(j, w) => i, snap := j, w;
      case SyncLoad(j, w) => i, snap := j, w;
      case _ =>
    }
    forall k | 0 <= k < i ensures s2.threads[s2.owner[k]].holds !! snap {
      assert s.threads[s.owner[k]].holds !! snap;
    }
  }

  /** Taking the next slot: store the owner, grow, return the slot. */
  lemma RegStoreInv(s: State, t: nat)
    requires Inv(s) && t < |s.threads| && s.threads[t].pc.RegStore? && Allowed(s, t, Continue)
    ensures Inv(Step(s, t, Continue))
  {
    hide Scanned;
    var s2 := Step(s, t, Continue);
    assert ThreadOk(s, t);
    RoomForSlot(s, t);
    AloneInMutex(s, t);
    assert Shape(s2);
    forall u | 0 <= u < |s2.threads| ensures ThreadOk(s2, u) {
      assert ThreadOk(s, u);
      if u != t { OtherOk(s, s2, u); }
    }
  }

  lemma RegGrowInv(s: State, t: nat)
    requires Inv(s) && t < |s.threads| && s.threads[t].pc.RegGrow? && Allowed(s, t, Continue)
    ensures Inv(Step(s, t, Continue))
  {
    hide Scanned;
    var s2 := Step(s, t, Continue);
    assert ThreadOk(s, t);
    AloneInMutex(s, t);
    assert s.threads[t].slot == NONE;
    assert Shape(s2);
    forall u | 0 <= u < |s2.threads| ensures ThreadOk(s2, u) {
      assert ThreadOk(s, u);
      if u != t { OtherOk(s, s2, u); }
    }
  }

  lemma RegUnlockInv(s: State, t: nat)
    requires Inv(s) && t < |s.threads| && s.threads[t].pc.RegUnlock? && Allowed(s, t, Continue)
    ensures Inv(Step(s, t, Continue))
  {
    hide Scanned;
    var s2 := Step(s, t, Continue);
    assert ThreadOk(s, t);
    AloneInMutex(s, t);
    assert Shape(s2);
    forall u | 0 <= u < |s2.threads| ensures ThreadOk(s2, u) {
      assert ThreadOk(s, u);
      if u != t { OtherOk(s, s2, u); }
    }
  }

  lemma AloneInMutex(s: State, t: nat)
    requires Inv(s) && t < |s.threads| && HoldsMutex(s.threads[t].pc)
    ensures s.mutex == t
    ensures forall u | 0 <= u < |s.threads| && u != t :: !HoldsMutex(s.threads[u].pc)
  {
    assert ThreadOk(s, t);
    forall u | 0 <= u < |s.threads| && u != t ensures !HoldsMutex(s.threads[u].pc) { assert ThreadOk(s, u); }
  }

  /** The last test of the scan: every slot was seen empty, so nobody holds anything of snap. */
  lemma ScanDone(s: State, t: nat)
    requires Inv(s) && t < |s.threads| && s.threads[t].pc.SyncTest? && s.threads[t].pc.i >= s.size
    ensures forall u | 0 <= u < |s.threads| :: s.threads[u].holds !! s.threads[t].pc.snap
    ensures Inv(Step(s, t, Continue))
  {
    var s2, snap := Step(s, t, Continue), s.threads[t].pc.snap;
    assert ThreadOk(s, t);
    forall u | 0 <= u < |s.threads| ensures s.threads[u].holds !! snap {
      assert ThreadOk(s, u);
      if s.threads[u].slot != NONE {
        assert s.threads[s.owner[s.threads[u].slot]].holds !! snap;
      }
    }
    assert Shape(s2);
    forall u, v | 0 <= u < |s.threads| && 0 <= v < |s.threads|
      ensures s2.threads[v].holds !! s2.threads[u].quiesced
    {
      assert s.threads[v].holds !! s.threads[u].quiesced && s.threads[v].holds !! snap;
    }
    forall u | 0 <= u < |s2.threads| ensures ThreadOk(s2, u) {
      assert ThreadOk(s, u);
      if u != t { OtherOk(s, s2, u); }
    }
  }

  /** A test of the scan, or the load of a counter: at zero its owner is in no read section. */
  lemma ScanInv(s: State, t: nat)
    requires Inv(s) && t < |s.threads|
    requires s.threads[t].pc.SyncLoad? || (s.threads[t].pc.SyncTest? && s.threads[t].pc.i < s.size)
    requires Allowed(s, t, Continue)
    ensures Inv(Step(s, t, Continue))
  {
    hide Quiet;
    var s2, pc := Step(s, t, Continue), s.threads[t].pc;
    assert ThreadOk(s, t);
    if pc.SyncLoad? { assert ThreadOk(s, s.owner[pc.i]); }
    if Shape(s2) {
      ScannedStays(s, s2, pc.i, pc.snap);
    }
    PlaceInv(s, s2, t);
  }

  /** Registration looks for the thread among the owners. */
  lemma RegScanInv(s: State, t: nat)
    requires Inv(s) && t < |s.threads| && Allowed(s, t, Continue)
    requires s.threads[t].pc.RegLock? || s.threads[t].pc.RegScan?
    ensures Inv(Step(s, t, Continue))
  {
    hide Quiet, Scanned;
    var s2 := Step(s, t, Continue);
    assert ThreadOk(s, t);
    PlaceInv(s, s2, t);
  }

  ghost predicate InCallbacks(pc: Pc) {
    pc.CallLock? || pc.CallPush? || pc.CallUnlock? || pc.CleanLock? || pc.CleanTake? || pc.CleanUnlock? || pc.CleanRun?
  }

  /** Queueing and running callbacks. */
  lemma CallbackInv(s: State, t: nat)
    requires Inv(s) && t < |s.threads| && Allowed(s, t, Continue) && InCallbacks(s.threads[t].pc)
    ensures Inv(Step(s, t, Continue))
  {
    hide Quiet, Scanned, NotOwner;
    var s2 := Step(s, t, Continue);
    assert ThreadOk(s, t);
    PlaceInv(s, s2, t);
  }

  lemma StepInv(s: State, t: nat, a: Action)
    requires Inv(s) && t < |s.threads| && Allowed(s, t, a)
    ensures Inv(Step(s, t, a))
  {
    match a {
      case ReadLock => ReaderInv(s, t, a);
      case ReadUnlock => ReaderInv(s, t, a);
      case Dereference => ReaderInv(s, t, a);
      case Assign(p) => AssignInv(s, t, p);
      case Continue =>
        match s.threads[t].pc {
          case RegStore => RegStoreInv(s, t);
          case RegGrow(id) => RegGrowInv(s, t);
          case RegUnlock(id) => RegUnlockInv(s, t);
          case SyncTest(i, snap) => if i < s.size { ScanInv(s, t); } else { ScanDone(s, t); }
          case SyncLoad(i, snap) => ScanInv(s, t);
          case RegLock => RegScanInv(s, t);
          case RegScan(i) => RegScanInv(s, t);
          case _ => CallbackInv(s, t);
        }
      case _ => StartInv(s, t, a);
    }
  }

  lemma StartInv(s: State, t: nat, a: Action)
    requires Inv(s) && t < |s.threads| && Allowed(s, t, a)
    requires a.Register? || a.Synchronize? || a.Call? || a.Cleanup?
    ensures Inv(Step(s, t, a))
  {
    hide Quiet;
    assert ThreadOk(s, t);
    PlaceInv(s, Step(s, t, a), t);
  }

  /** The threads that own a slot. */
  ghost function Registered(s: State): set<int>
    requires s.size <= |s.owner|
  {
    Elements(s.owner[..s.size])
  }

  /** The only access that can leave the fixed-size arrays is the store of a registration: it stays
      inside exactly while fewer than MAX_THREADS threads are registered. */
  lemma AccessesInRange(s: State, t: nat)
    requires Inv(s) && t < |s.threads|
    ensures var pc := s.threads[t].pc;
            pc.Idle? || pc.RegLock? || pc.CallLock? || pc.CleanLock? || pc.RegStore? || Allowed(s, t, Continue)
    ensures s.threads[t].slot != NONE ==> 0 <= s.threads[t].slot < MAX_THREADS
    ensures s.threads[t].pc.RegStore? ==>
              t !in Registered(s) && (Allowed(s, t, Continue) <==> |Registered(s)| < MAX_THREADS)
    ensures s.threads[t].pc.RegStore? && |s.threads| <= MAX_THREADS ==> Allowed(s, t, Continue)
  {
    assert ThreadOk(s, t);
    DistinctSize(s.owner[..s.size]);
    if s.threads[t].pc.RegStore? { RoomForSlot(s, t); }
  }

  // ----- runs

  datatype Event = Event(t: nat, a: Action)

  /** A run of any number of threads: states and the events between them. */
  ghost predicate IsRun(states: seq<State>, events: seq<Event>) {
    && |states| == |events| + 1
    && (exists n: nat, p: Ptr :: states[0] == Init(n, p))
    && forall i | 0 <= i < |events| ::
         && events[i].t < |states[i].threads| && Allowed(states[i], events[i].t, events[i].a)
         && states[i + 1] == Step(states[i], events[i].t, events[i].a)
  }

  lemma RunStep(states: seq<State>, events: seq<Event>, i: nat)
    requires IsRun(states, events) && i < |events|
    ensures events[i].t < |states[i].threads| && Allowed(states[i], events[i].t, events[i].a)
    ensures states[i + 1] == Step(states[i], events[i].t, events[i].a)
  {
  }

  lemma {:induction false} RunInv(states: seq<State>, events: seq<Event>, i: nat)
    requires IsRun(states, events) && i < |states|
    ensures Inv(states[i]) && |states[i].threads| == |states[0].threads|
  {
    if i == 0 {
      var n: nat, p: Ptr :| states[0] == Init(n, p);
      InitInv(n, p);
    } else {
      RunInv(states, events, i - 1);
      StepInv(states[i - 1], events[i - 1].t, events[i - 1].a);
    }
  }

  /** q is not published in the states from i to m. */
  ghost predicate Unpublished(states: seq<State>, q: Ptr, i: nat, m: nat) {
    forall k | i <= k <= m && k < |states| :: states[k].ptr != q
  }

  /** One step at whose ends q is not published: q stays replaced or stays unused, and a thread
      that has waited for q still has. */
  lemma StepKeeps(s: State, t: nat, a: Action, q: Ptr, u: nat)
    requires t < |s.threads| && u < |s.threads| && Allowed(s, t, a) && s.ptr != q && Step(s, t, a).ptr != q
    ensures |Step(s, t, a).threads| == |s.threads|
    ensures q in Step(s, t, a).retired <==> q in s.retired
    ensures q in s.threads[u].quiesced ==> q in Step(s, t, a).threads[u].quiesced
  {
  }

  lemma {:induction false} RunKeeps(states: seq<State>, events: seq<Event>, q: Ptr, i: nat, m: nat, u: nat)
    requires IsRun(states, events) && i <= m < |states| && Unpublished(states, q, i, m) && u < |states[0].threads|
    ensures |states[i].threads| == |states[m].threads| == |states[0].threads|
    ensures q in states[m].retired <==> q in states[i].retired
    ensures q in states[i].threads[u].quiesced ==> q in states[m].threads[u].quiesced
    decreases m
  {
    hide Step, Allowed, Inv;
    RunInv(states, events, i);
    if i == m {
    } else {
      RunKeeps(states, events, q, i, m - 1, u);
      var e := events[m - 1];
      RunStep(states, events, m - 1);
      assert states[m - 1].ptr != q && states[m].ptr != q;
      StepKeeps(states[m - 1], e.t, e.a, q, u);
    }
  }

  /** Thread t calls rcu_synchronize at event i and has returned from it in state j. */
  ghost predicate SyncCall(states: seq<State>, events: seq<Event>, t: nat, i: nat, j: nat) {
    && i < j < |states| && |states| == |events| + 1
    && events[i] == Event(t, Synchronize)
    && (forall k | i < k <= j :: t < |states[k].threads|)
    && (forall k | i < k < j :: states[k].threads[t].pc.SyncTest? || states[k].threads[t].pc.SyncLoad?)
    && states[j].threads[t].pc.Idle?
  }

  lemma SyncStarts(s: State, t: nat)
    requires t < |s.threads| && Allowed(s, t, Synchronize)
    ensures Step(s, t, Synchronize).threads[t].pc == SyncTest(0, s.retired)
  {
  }

  /** While the call lasts, q stays in the set that it waits for. */
  lemma {:induction false} SnapKept(states: seq<State>, events: seq<Event>, q: Ptr, t: nat, i: nat, j: nat, k: nat)
    requires IsRun(states, events) && SyncCall(states, events, t, i, j) && i < k < j
    requires Unpublished(states, q, i, j) && q in states[i].retired
    ensures q in states[k].threads[t].pc.snap
    decreases k
  {
    hide Step, Allowed;
    var e := events[k - 1];
    RunStep(states, events, k - 1);
    if k == i + 1 {
      SyncStarts(states[i], t);
    } else {
      SnapKept(states, events, q, t, i, j, k - 1);
      assert states[k].ptr != q && k - 1 > i;
      ScanGoesOn(states[k - 1], e.t, e.a, q, t);
    }
  }

  ghost predicate InScan(pc: Pc) { pc.SyncTest? || pc.SyncLoad? }

  /** A step in or out of a scan for q leaves q in the set, or covered. */
  lemma ScanGoesOn(s: State, u: nat, a: Action, q: Ptr, t: nat)
    requires u < |s.threads| && Allowed(s, u, a) && t < |s.threads| && Step(s, u, a).ptr != q
    requires InScan(s.threads[t].pc) && q in s.threads[t].pc.snap
    ensures var th := Step(s, u, a).threads[t];
            if InScan(th.pc) then q in th.pc.snap else th.pc.Idle? && q in th.quiesced
  {
  }

  /** A finished rcu_synchronize covers what was replaced when it began and is not published again. */
  lemma SyncReturns(states: seq<State>, events: seq<Event>, q: Ptr, t: nat, i: nat, j: nat)
    requires IsRun(states, events) && SyncCall(states, events, t, i, j)
    requires Unpublished(states, q, i, j) && q in states[i].retired
    ensures q in states[j].threads[t].quiesced
  {
    hide Step, Allowed;
    RunStep(states, events, i);
    SyncStarts(states[i], t);
    SnapKept(states, events, q, t, i, j, j - 1);
    var f := events[j - 1];
    RunStep(states, events, j - 1);
    assert states[j].ptr != q;
    ScanGoesOn(states[j - 1], f.t, f.a, q, t);
  }

  /** The grace period. If q is not published from the call of rcu_synchronize at event i on, then
      from its return in state j on nobody holds q. Other pointers, and q before the call, may be
      published any number of times. */
  lemma GracePeriod(states: seq<State>, events: seq<Event>, q: Ptr, t: nat, i: nat, j: nat, m: nat, u: nat)
    requires IsRun(states, events) && SyncCall(states, events, t, i, j)
    requires j <= m < |states| && u < |states[m].threads| && Unpublished(states, q, i, m)
    ensures q !in states[m].threads[u].holds
  {
    RunInv(states, events, i);
    RunInv(states, events, m);
    RunKeeps(states, events, q, i, m, t);
    assert ThreadOk(states[m], u);
    if q in states[i].retired {
      SyncReturns(states, events, q, t, i, j);
      RunKeeps(states, events, q, j, m, t);
      assert states[m].threads[u].holds !! states[m].threads[t].quiesced;
    }
  }

  /** No two threads share a slot, and a registered thread that registers again gets the same slot. */
  lemma SlotUnique(s: State, t: nat, u: nat, a: Action)
    requires Inv(s) && t < |s.threads| && u < |s.threads|
    ensures t != u && s.threads[t].slot != NONE ==> s.threads[t].slot != s.threads[u].slot
    ensures Allowed(s, u, a) && s.threads[t].slot != NONE ==>
              Step(s, u, a).threads[t].slot == s.threads[t].slot
  {
    assert ThreadOk(s, t) && ThreadOk(s, u);
  }

  /** A callback that frees a pointer takes it away from nobody if some thread's finished
      rcu_synchronize covered it and it was not published since. */
  lemma CleanupSafe(s: State, t: nat, a: Action, p: Ptr, v: nat, u: nat)
    requires Inv(s) && t < |s.threads| && Frees(s, t, a, p) && u < |s.threads|
    requires v < |s.threads| && p in s.threads[v].quiesced
    ensures p !in s.threads[u].holds && p != s.ptr
  {
    assert s.threads[u].holds !! s.threads[v].quiesced;
    assert ThreadOk(s, v);
  }
}
