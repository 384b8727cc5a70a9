/** The slabs of a cache seen as one value: which objects of each slab are in use, the CPU whose
    lists hold it, and the three lists of every CPU. */
module SlabState {
  import opened Wrappers
  import opened Lists
  import opened Pigeonhole
  import opened SlabLayout

  const MAX_CPUS := 16

  class Slab {
    const page: nat
    /** The bits set in the bitmap word. */
    var bitmap: set<nat>
    var count: nat
    /** The addresses in the page at which a whole RED_ZONE_MAGIC word stands. Users may overwrite one. */
    var zones: set<nat>

    /** __slab_create, at the page that the memory allocator returned */
    constructor (page: nat)
      ensures this.page == page && bitmap == {} && count == 0 && zones == {}
    {
      this.page := page;
      bitmap := {};
      count := 0;
      zones := {};
    }
  }

  datatype Kind = Full | Partial | Free

  /** per_cpu_slab_t: the lists are linked through the slabs; here each is the sequence of its slabs. */
  datatype PerCpu = PerCpu(full: seq<Slab>, partial: seq<Slab>, free: seq<Slab>)

  function List(p: PerCpu, k: Kind): seq<Slab> {
    match k
    case Full => p.full
    case Partial => p.partial
    case Free => p.free
  }

  /** The list on which a slab with this many objects in use belongs. */
  function KindOf(count: nat, n: nat): Kind {
    if count == 0 then Free else if count == n then Full else Partial
  }

  datatype Cache = Cache(objSize: nat, used: map<Slab, set<nat>>, home: map<Slab, nat>, cpu: seq<PerCpu>)

  // ----- the invariant

  ghost predicate SlabOk(c: Cache, s: Slab) {
    && s in c.used && s in c.home && c.home[s] < MAX_CPUS && s.page % PAGE_SIZE == 0
    && (forall b | b in c.used[s] :: b < ObjPerSlab(c.objSize))
  }

  /** List k of CPU i holds, once each, the slabs whose home is i and whose count makes them k. */
  ghost predicate ListOk(c: Cache, i: nat, k: Kind) {
    && i < |c.cpu| && Distinct(List(c.cpu[i], k))
    && (forall s | s in List(c.cpu[i], k) :: s in c.used && s in c.home)
    && (forall s | s in c.used && s in c.home ::
          s in List(c.cpu[i], k) <==> c.home[s] == i && KindOf(|c.used[s]|, ObjPerSlab(c.objSize)) == k)
  }

  ghost predicate SamePage(s: Slab, t: Slab) { s.page == t.page }

  ghost predicate Inv(c: Cache) {
    && Accepted(c.objSize) && (ObjPerSlab(c.objSize) == 0 ==> c.used == map[])
    && |c.cpu| == MAX_CPUS && c.home.Keys == c.used.Keys
    && (forall s {:trigger SlabOk(c, s)} | s in c.used :: SlabOk(c, s))
    && (forall s, t {:trigger SamePage(s, t)} | s in c.used && t in c.used :: SamePage(s, t) ==> s == t)
    && (forall i: nat, k {:trigger ListOk(c, i, k)} | i < MAX_CPUS :: ListOk(c, i, k))
  }

  /** Each slab is on exactly one list of one CPU, the one that matches its count, and once. */
  lemma OnOneList(c: Cache, s: Slab, i: nat, k: Kind)
    requires Inv(c) && s in c.used && i < MAX_CPUS
    ensures s in c.home && c.home[s] < MAX_CPUS
    ensures s in List(c.cpu[i], k) <==> i == c.home[s] && k == KindOf(|c.used[s]|, ObjPerSlab(c.objSize))
    ensures Distinct(List(c.cpu[i], k))
  {
    assert SlabOk(c, s);
    assert ListOk(c, i, k);
  }

  /** The addresses in use, if the state is that of a cache. */
  ghost function Meaning(c: Cache): Option<set<nat>> {
    if Inv(c) then Some(Live(c)) else None
  }

  ghost predicate BitsOk(c: Cache, bits: set<nat>) { forall b | b in bits :: b < ObjPerSlab(c.objSize) }

  lemma UsedBits(c: Cache, s: Slab)
    requires Inv(c) && s in c.used
    ensures BitsOk(c, c.used[s]) && |c.used[s]| <= ObjPerSlab(c.objSize)
  {
    assert SlabOk(c, s);
    SubsetSize(c.used[s], Below(ObjPerSlab(c.objSize)));
  }

  lemma Listed(c: Cache, s: Slab, i: nat, k: Kind)
    requires Inv(c) && i < MAX_CPUS && s in List(c.cpu[i], k)
    ensures s in c.used && KindOf(|c.used[s]|, ObjPerSlab(c.objSize)) == k
    ensures BitsOk(c, c.used[s]) && |c.used[s]| <= ObjPerSlab(c.objSize)
  {
    assert ListOk(c, i, k);
    UsedBits(c, s);
  }

  // ----- list operations

  /** kdlist_delete: the slab leaves the list that it is linked into, whichever that is. */
  function Unlink(cpu: seq<PerCpu>, s: Slab): (r: seq<PerCpu>)
    ensures |r| == |cpu|
  {
    seq(|cpu|, i requires 0 <= i < |cpu| =>
      PerCpu(Unlinked(cpu[i].full, s), Unlinked(cpu[i].partial, s), Unlinked(cpu[i].free, s)))
  }

  /** kdlist_push_tail */
  function PushTail(cpu: seq<PerCpu>, i: nat, k: Kind, s: Slab): seq<PerCpu>
    requires i < |cpu|
  {
    cpu[i := match k
      case Full => cpu[i].(full := cpu[i].full + [s])
      case Partial => cpu[i].(partial := cpu[i].partial + [s])
      case Free => cpu[i].(free := cpu[i].free + [s])]
  }

  /** What moving a slab does to the lists: it leaves the one that it is on and goes to the end of list k
      of CPU i; the order of all other slabs stays. */
  ghost predicate Requeued(before: seq<PerCpu>, after: seq<PerCpu>, s: Slab, i: nat, k: Kind) {
    && |after| == |before|
    && forall j: nat, m {:trigger List(after[j], m)} | j < |before| ::
         List(after[j], m) == Unlinked(List(before[j], m), s) + if j == i && m == k then [s] else []
  }

  lemma PushTailRequeues(cpu: seq<PerCpu>, i: nat, k: Kind, s: Slab)
    requires i < |cpu|
    ensures Requeued(cpu, PushTail(Unlink(cpu, s), i, k, s), s, i, k)
  {
    var after := PushTail(Unlink(cpu, s), i, k, s);
    forall j: nat, m | j < |cpu|
      ensures List(after[j], m) == Unlinked(List(cpu[j], m), s) + if j == i && m == k then [s] else []
    {
      assert List(Unlink(cpu, s)[j], m) == Unlinked(List(cpu[j], m), s);
    }
  }

  /** An operation on CPU i that leaves n of the slab's objects in use: the lists are as before if that
      does not change the slab's kind, and otherwise it is queued as the last of its new kind. */
  ghost predicate ListsAfter(before: Cache, after: seq<PerCpu>, s: Slab, n: nat, i: nat) {
    var per := ObjPerSlab(before.objSize);
    if s in before.used && KindOf(n, per) == KindOf(|before.used[s]|, per) then after == before.cpu
    else Requeued(before.cpu, after, s, i, KindOf(n, per))
  }

  lemma ChangedLists(c: Cache, s: Slab, bits: set<nat>, i: nat)
    requires i < |c.cpu|
    ensures ListsAfter(c, Changed(c, s, bits, i).cpu, s, |bits|, i)
  {
    PushTailRequeues(c.cpu, i, KindOf(|bits|, ObjPerSlab(c.objSize)), s);
  }

  lemma MovedList(cpu: seq<PerCpu>, i: nat, k: Kind, s: Slab, j: nat, m: Kind)
    requires i < |cpu| && j < |cpu| && Distinct(List(cpu[j], m))
    ensures var l := List(PushTail(Unlink(cpu, s), i, k, s)[j], m);
            && Distinct(l)
            && forall x :: x in l <==> (x in List(cpu[j], m) && x != s) || (x == s && i == j && k == m)
  {
    UnlinkedHas(List(cpu[j], m), s);
    var l := Unlinked(List(cpu[j], m), s);
    assert List(Unlink(cpu, s)[j], m) == l;
    DistinctSnoc(l, s);
    if i == j && k == m {
      assert List(PushTail(Unlink(cpu, s), i, k, s)[j], m) == l + [s];
    } else {
      assert List(PushTail(Unlink(cpu, s), i, k, s)[j], m) == l;
    }
  }

  // ----- the two ways in which a slab changes

  /** Its objects change and it stays where it is. */
  ghost function Stay(c: Cache, s: Slab, bits: set<nat>): Cache { c.(used := c.used[s := bits]) }

  /** Its objects change and it moves to the tail of a list of CPU i. */
  ghost function Move(c: Cache, s: Slab, bits: set<nat>, i: nat): Cache
    requires i < |c.cpu|
  {
    c.(used := c.used[s := bits], home := c.home[s := i],
       cpu := PushTail(Unlink(c.cpu, s), i, KindOf(|bits|, ObjPerSlab(c.objSize)), s))
  }

  /** A change of the bits first and of the lists afterwards. */
  lemma MoveAfterStay(c: Cache, s: Slab, bits: set<nat>, i: nat)
    requires i < |c.cpu|
    ensures Move(Stay(c, s, bits), s, bits, i) == Move(c, s, bits, i)
  {
    assert c.used[s := bits][s := bits] == c.used[s := bits];
  }

  lemma StayTwice(c: Cache, s: Slab, bits: set<nat>, more: set<nat>)
    ensures Stay(Stay(c, s, bits), s, more) == Stay(c, s, more)
  {
    assert c.used[s := bits][s := more] == c.used[s := more];
  }

  /** A slab that is not in the cache is on no list. */
  lemma UnlinkAbsent(c: Cache, s: Slab)
    requires Inv(c) && s !in c.used
    ensures Unlink(c.cpu, s) == c.cpu
  {
    forall i | 0 <= i < MAX_CPUS ensures Unlink(c.cpu, s)[i] == c.cpu[i] {
      assert ListOk(c, i, Full) && ListOk(c, i, Partial) && ListOk(c, i, Free);
      UnlinkedAbsent(c.cpu[i].full, s);
      UnlinkedAbsent(c.cpu[i].partial, s);
      UnlinkedAbsent(c.cpu[i].free, s);
    }
  }

  lemma StayKeeps(c: Cache, s: Slab, bits: set<nat>)
    requires Inv(c) && s in c.used && BitsOk(c, bits)
    requires KindOf(|bits|, ObjPerSlab(c.objSize)) == KindOf(|c.used[s]|, ObjPerSlab(c.objSize))
    ensures Inv(Stay(c, s, bits))
  {
    var t := Stay(c, s, bits);
    forall x | x in t.used ensures SlabOk(t, x) { assert SlabOk(c, x); }
    forall i: nat, k | i < MAX_CPUS ensures ListOk(t, i, k) { assert ListOk(c, i, k); }
  }

  lemma MoveListOk(c: Cache, s: Slab, bits: set<nat>, i: nat, j: nat, m: Kind)
    requires Inv(c) && i < MAX_CPUS && j < MAX_CPUS
    ensures ListOk(Move(c, s, bits, i), j, m)
  {
    assert ListOk(c, j, m);
    var k, t := KindOf(|bits|, ObjPerSlab(c.objSize)), Move(c, s, bits, i);
    MovedList(c.cpu, i, k, s, j, m);
    var old_, new_ := List(c.cpu[j], m), List(t.cpu[j], m);
    assert new_ == List(PushTail(Unlink(c.cpu, s), i, k, s)[j], m);
    forall x | x in new_ ensures x in t.used && x in t.home {
      assert x == s || x in old_;
    }
    forall x | x in t.used && x in t.home
      ensures x in new_ <==> t.home[x] == j && KindOf(|t.used[x]|, ObjPerSlab(c.objSize)) == m
    {
      if x != s { assert x in c.used && x in c.home; }
    }
  }

  lemma MoveKeeps(c: Cache, s: Slab, bits: set<nat>, i: nat)
    requires Inv(c) && BitsOk(c, bits) && i < MAX_CPUS && ObjPerSlab(c.objSize) > 0
    requires s in c.used || (s.page % PAGE_SIZE == 0 && forall t | t in c.used :: !SamePage(s, t) && !SamePage(t, s))
    ensures Inv(Move(c, s, bits, i))
  {
    var t := Move(c, s, bits, i);
    forall x | x in t.used ensures SlabOk(t, x) {
      if x != s { assert SlabOk(c, x); }
      if s in c.used { assert SlabOk(c, s); }
    }
    forall j: nat, k | j < MAX_CPUS ensures ListOk(t, j, k) { MoveListOk(c, s, bits, i, j, k); }
  }

  /** What an allocation or a free on CPU i does to the cache: the slab's objects in use become
      `bits`, and it moves to the tail of a list of that CPU exactly if it is new or its kind changes. */
  ghost function Changed(c: Cache, s: Slab, bits: set<nat>, i: nat): Cache
    requires i < |c.cpu|
  {
    var n := ObjPerSlab(c.objSize);
    if s in c.used && KindOf(|bits|, n) == KindOf(|c.used[s]|, n) then Stay(c, s, bits) else Move(c, s, bits, i)
  }

  /** Such a change keeps each slab on exactly one list, the right one. */
  lemma ChangedKeeps(c: Cache, s: Slab, bits: set<nat>, i: nat)
    requires Inv(c) && BitsOk(c, bits) && i < MAX_CPUS && ObjPerSlab(c.objSize) > 0
    requires s in c.used || (s.page % PAGE_SIZE == 0 && forall t | t in c.used :: !SamePage(s, t) && !SamePage(t, s))
    ensures Inv(Changed(c, s, bits, i))
  {
    if s in c.used && KindOf(|bits|, ObjPerSlab(c.objSize)) == KindOf(|c.used[s]|, ObjPerSlab(c.objSize)) {
      StayKeeps(c, s, bits);
    } else {
      MoveKeeps(c, s, bits, i);
    }
  }

  // ----- the objects in use

  ghost function Addr(c: Cache, s: Slab, b: nat): nat { ObjAddr(s.page, b, ObjSizeAlign(c.objSize)) }

  /** The addresses handed out and not freed. */
  ghost function Live(c: Cache): set<nat> {
    set s, b | s in c.used && b in c.used[s] :: Addr(c, s, b)
  }

  lemma LiveAt(c: Cache, s: Slab, b: nat)
    requires s in c.used && b in c.used[s]
    ensures Addr(c, s, b) in Live(c)
  {
  }

  /** The slab of an object is found from its address. */
  lemma AddrPage(c: Cache, s: Slab, b: nat)
    requires Inv(c) && s in c.used && b in c.used[s]
    ensures AddrToSlab(Addr(c, s, b)) == s.page
  {
    assert SlabOk(c, s);
    IndexInverts(c.objSize, s.page, b);
  }

  lemma OwnerOf(c: Cache, ptr: nat) returns (s: Slab, b: nat)
    requires Inv(c) && ptr in Live(c)
    ensures s in c.used && b in c.used[s] && b < ObjPerSlab(c.objSize) && ptr == Addr(c, s, b)
    ensures s.page % PAGE_SIZE == 0
    ensures AddrToSlab(ptr) == s.page && ObjIndex(s.page, ptr, ObjSizeAlign(c.objSize)) == b
    ensures AddrInRange(s.page, ptr) && AddrAligned(s.page, ptr, ObjSizeAlign(c.objSize))
    ensures forall t | t in c.used && t.page == AddrToSlab(ptr) :: t == s
  {
    s, b :| s in c.used && b in c.used[s] && ptr == Addr(c, s, b);
    assert SlabOk(c, s);
    IndexInverts(c.objSize, s.page, b);
    forall t | t in c.used && t.page == s.page ensures t == s { assert SamePage(t, s); }
  }

  lemma LivePositive(c: Cache, ptr: nat)
    requires Inv(c) && ptr in Live(c)
    ensures ptr > 0
  {
    var s, b := OwnerOf(c, ptr);
  }

  /** The checks of a free on a slab of the cache accept exactly the addresses in use. */
  lemma FreeAccepts(c: Cache, s: Slab, ptr: nat)
    requires Inv(c) && s in c.used && AddrToSlab(ptr) == s.page && AddrInRange(s.page, ptr)
    ensures var a := ObjSizeAlign(c.objSize);
            AddrAligned(s.page, ptr, a) && ObjIndex(s.page, ptr, a) in c.used[s] <==> ptr in Live(c)
  {
    var a := ObjSizeAlign(c.objSize);
    if AddrAligned(s.page, ptr, a) {
      AddressInverts(c.objSize, s.page, ptr);
      if ObjIndex(s.page, ptr, a) in c.used[s] { LiveAt(c, s, ObjIndex(s.page, ptr, a)); }
    }
    if ptr in Live(c) {
      var t, b := OwnerOf(c, ptr);
    }
  }

  /** An address belongs to one object only. */
  lemma AddrUnique(c: Cache, s: Slab, b: nat, t: Slab, d: nat)
    requires Inv(c) && s.page % PAGE_SIZE == 0 && t.page % PAGE_SIZE == 0
    requires b < ObjPerSlab(c.objSize) && d < ObjPerSlab(c.objSize) && Addr(c, s, b) == Addr(c, t, d)
    ensures s.page == t.page && b == d
  {
    IndexInverts(c.objSize, s.page, b);
    IndexInverts(c.objSize, t.page, d);
  }

  ghost function Bits(c: Cache, s: Slab): set<nat> { if s in c.used then c.used[s] else {} }

  /** One more bit set: one more live address, a new one. */
  lemma LiveAdd(c: Cache, t: Cache, s: Slab, b: nat)
    requires Inv(c) && Inv(t) && t.objSize == c.objSize && t.used == c.used[s := Bits(c, s) + {b}] && b !in Bits(c, s)
    ensures Addr(c, s, b) !in Live(c) && Live(t) == Live(c) + {Addr(c, s, b)}
  {
    var p := Addr(c, s, b);
    assert SlabOk(t, s) && b in t.used[s];
    if p in Live(c) {
      var u, d := OwnerOf(c, p);
      assert u in t.used;
      assert SamePage(s, u) <==> s.page == u.page;
      AddrUnique(c, s, b, u, d);
    }
    forall x ensures x in Live(t) <==> x in Live(c) || x == p {
      if x in Live(c) {
        var u, d := OwnerOf(c, x);
        assert u in t.used && d in t.used[u];
        LiveAt(t, u, d);
      }
      LiveAt(t, s, b);
      if x in Live(t) {
        var u, d := OwnerOf(t, x);
        assert (u != s || d != b) ==> u in c.used && d in c.used[u];
      }
    }
  }

  /** One bit cleared: exactly its address is gone. */
  lemma LiveRemove(c: Cache, t: Cache, s: Slab, b: nat)
    requires Inv(c) && Inv(t) && t.objSize == c.objSize && s in c.used && b in c.used[s]
    requires t.used == c.used[s := c.used[s] - {b}]
    ensures Live(t) == Live(c) - {Addr(c, s, b)}
  {
    assert Bits(t, s) + {b} == c.used[s];
    assert c.used == t.used[s := Bits(t, s) + {b}];
    LiveAdd(t, c, s, b);
  }

  /** Live objects are aligned, lie with their red zones in the object area of one slab of the cache,
      and do not overlap. */
  lemma LiveObjects(c: Cache, x: nat, y: nat)
    requires Inv(c) && x in Live(c) && y in Live(c) && x < y
    ensures x % ALIGNMENT == 0 && y % ALIGNMENT == 0
    ensures x + c.objSize + RED_ZONE_SIZE <= y
    ensures exists s | s in c.used :: AddrInRange(s.page, x) && x + c.objSize + RED_ZONE_SIZE <= s.page + PAGE_SIZE
  {
    var s, b := OwnerOf(c, x);
    var t, d := OwnerOf(c, y);
    IndexInverts(c.objSize, s.page, b);
    if t.page < s.page || (t.page == s.page && d < b) {
      ObjectsDisjoint(c.objSize, t.page, d, s.page, b);
    } else {
      ObjectsDisjoint(c.objSize, s.page, b, t.page, d);
    }
  }

  /** With no object in use, every slab is on a free list. */
  lemma AllFree(c: Cache, s: Slab)
    requires Inv(c) && s in c.used && Live(c) == {}
    ensures s in c.home && c.home[s] < MAX_CPUS && s in c.cpu[c.home[s]].free
  {
    assert SlabOk(c, s);
    if c.used[s] != {} {
      var b :| b in c.used[s];
      LiveAt(c, s, b);
    }
    OnOneList(c, s, c.home[s], Free);
  }

  lemma EmptyCache(objSize: nat)
    requires Accepted(objSize)
    ensures Meaning(Cache(objSize, map[], map[], seq(MAX_CPUS, _ => PerCpu([], [], [])))) == Some({})
  {
    var c := Cache(objSize, map[], map[], seq(MAX_CPUS, _ => PerCpu([], [], [])));
    forall i: nat, k | i < MAX_CPUS ensures ListOk(c, i, k) { assert List(c.cpu[i], k) == []; }
    assert Live(c) == {};
  }
}
