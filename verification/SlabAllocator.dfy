/** The slab cache in place: bitmaps and counts of slabs, and the lists of every CPU. */
module SlabAllocator {
  import opened Wrappers
  import opened Pigeonhole
  import opened SlabLayout
  import opened SlabState

  /** __builtin_ctzll of the inverted word: the lowest clear bit below n. */
  function LowestClear(bits: set<nat>, from: nat, n: nat): (r: nat)
    requires exists k :: from <= k < n && k !in bits
    ensures from <= r < n && r !in bits && forall k | from <= k < r :: k in bits
    decreases n - from
  {
    if from !in bits then from else LowestClear(bits, from + 1, n)
  }

  ghost predicate IsLowestClear(bits: set<nat>, bit: nat, n: nat) {
    bit < n && bit !in bits && forall k | 0 <= k < bit :: k in bits
  }

  /** A count below the number of objects leaves a clear bit. */
  lemma ClearBit(bits: set<nat>, n: nat)
    requires |bits| < n
    ensures exists k :: 0 <= k < n && k !in bits
  {
    if forall k | 0 <= k < n :: k in bits {
      assert forall k | k in Below(n) :: k in bits;
      SubsetSize(Below(n), bits);
    }
  }

  /** __slab_alloc */
  method SlabAlloc(slab: Slab, objSize: nat, objSizeAlign: nat, n: nat) returns (ptr: nat, ghost bit: nat)
    requires slab.count == |slab.bitmap| < n
    modifies slab
    ensures IsLowestClear(old(slab.bitmap), bit, n)
    ensures slab.bitmap == old(slab.bitmap) + {bit} && slab.count == |slab.bitmap|
    ensures ptr == ObjAddr(slab.page, bit, objSizeAlign) && slab.zones == old(slab.zones) + {ptr + objSize}
  {
    ClearBit(slab.bitmap, n);
    var b := LowestClear(slab.bitmap, 0, n);
    slab.bitmap := slab.bitmap + {b};
    slab.count := slab.count + 1;
    ptr, bit := ObjAddr(slab.page, b, objSizeAlign), b;
    slab.zones := slab.zones + {ptr + objSize};
  }

  /** __slab_free, for any address in the object area; where the source aborts, ok is false. */
  method SlabFree(slab: Slab, ptr: nat, objSize: nat, objSizeAlign: nat) returns (ok: bool)
    requires objSizeAlign > 0 && slab.count == |slab.bitmap| && AddrInRange(slab.page, ptr)
    modifies slab`bitmap, slab`count
    ensures ok <==> && AddrAligned(slab.page, ptr, objSizeAlign)
                    && ObjIndex(slab.page, ptr, objSizeAlign) in old(slab.bitmap) && ptr + objSize in slab.zones
    ensures slab.bitmap == old(slab.bitmap) - (if ok then {ObjIndex(slab.page, ptr, objSizeAlign)} else {})
    ensures slab.count == |slab.bitmap|
  {
    ok := false;
    if !AddrAligned(slab.page, ptr, objSizeAlign) {
      return;
    }
    var idx := ObjIndex(slab.page, ptr, objSizeAlign);
    if idx !in slab.bitmap || ptr + objSize !in slab.zones {
      return;
    }
    slab.bitmap := slab.bitmap - {idx};
    slab.count := slab.count - 1;
    ok := true;
  }

  class SlabCache {
    const objSize: nat
    const objSizeAlign: nat
    const objPerSlab: nat
    const objName: string
    var cpu: seq<PerCpu>
    /** The slabs in memory, each found by its page address. */
    var slabs: set<Slab>
    ghost var state: Cache

    /** The slabs and lists are those of the state, and each count is the number of bits set. */
    ghost predicate InStep()
      reads this, state.used.Keys
    {
      && objSize == state.objSize && objSizeAlign == ObjSizeAlign(objSize) && objPerSlab == ObjPerSlab(objSize)
      && cpu == state.cpu && slabs == state.used.Keys
      && forall s | s in state.used :: s.bitmap == state.used[s] && s.count == |s.bitmap|
    }

    /** The addresses in use; None if the cache is not in order. */
    ghost function InUse(): Option<set<nat>>
      reads this, state.used.Keys
    {
      if InStep() then Meaning(state) else None
    }

    /** The red zone behind the object at ptr still holds its magic word. */
    ghost predicate ZoneIntact(ptr: nat)
      reads this, slabs
    {
      exists s | s in slabs && s.page == AddrToSlab(ptr) :: ptr + objSize in s.zones
    }

    /** A valid address lies in one slab of the cache only. */
    lemma ZoneOf(s: Slab, ptr: nat)
      requires InUse().Some? && s in slabs && s.page == AddrToSlab(ptr)
      ensures ZoneIntact(ptr) <==> ptr + objSize in s.zones
    {
      forall t | t in slabs && t.page == AddrToSlab(ptr) ensures t == s { assert SamePage(t, s); }
    }

    /** The assignments of slab_cache_create. */
    constructor (objSize: nat, objName: string)
      requires Accepted(objSize)
      ensures InUse() == Some({}) && this.objSize == objSize && this.objName == objName && slabs == {}
    {
      this.objSize := objSize;
      this.objName := objName;
      objSizeAlign := ObjSizeAlign(objSize);
      objPerSlab := ObjPerSlab(objSize);
      cpu := seq(MAX_CPUS, _ => PerCpu([], [], []));
      slabs := {};
      state := Cache(objSize, map[], map[], seq(MAX_CPUS, _ => PerCpu([], [], [])));
      new;
      EmptyCache(objSize);
    }

    /** An object of the slab is taken; the lists are not touched yet. */
    method Take(slab: Slab) returns (ptr: nat, ghost bit: nat)
      requires InStep() && slab in slabs && slab.count < objPerSlab
      modifies this`state, slab
      ensures IsLowestClear(old(state.used[slab]), bit, objPerSlab) && ptr == Addr(state, slab, bit)
      ensures slab.zones == old(slab.zones) + {ptr + objSize}
      ensures InStep() && state == Stay(old(state), slab, old(state.used[slab]) + {bit})
    {
      ptr, bit := SlabAlloc(slab, objSize, objSizeAlign, objPerSlab);
      state := Stay(state, slab, slab.bitmap);
    }

    /** kdlist_delete and kdlist_push_tail */
    method Relist(slab: Slab, cpuId: nat, k: Kind)
      requires InStep() && slab in slabs && cpuId < |cpu| && k == KindOf(slab.count, objPerSlab)
      modifies this`cpu, this`state
      ensures InStep() && state == Move(old(state), slab, old(state.used[slab]), cpuId)
    {
      cpu := Unlink(cpu, slab);
      cpu := PushTail(cpu, cpuId, k, slab);
      state := Move(state, slab, state.used[slab], cpuId);
    }

    /** From a partial slab, which moves only if that filled it. */
    method AllocPartial(slab: Slab, cpuId: nat) returns (ptr: nat, ghost bit: nat)
      requires InUse().Some? && cpuId < MAX_CPUS && slab in cpu[cpuId].partial
      modifies this`cpu, this`state, slab
      ensures InUse() == Some(old(InUse()).value + {ptr}) && ptr !in old(InUse()).value
      ensures IsLowestClear(Bits(old(state), slab), bit, objPerSlab) && ptr == Addr(state, slab, bit)
      ensures state == Changed(old(state), slab, Bits(old(state), slab) + {bit}, cpuId)
      ensures slab.zones == old(slab.zones) + {ptr + objSize} && slab.page == AddrToSlab(ptr)
      ensures ListsAfter(old(state), cpu, slab, |Bits(old(state), slab)| + 1, cpuId)
    {
      ghost var c := state;
      Listed(c, slab, cpuId, Partial);
      ptr, bit := Take(slab);
      ghost var bits := slab.bitmap;
      if slab.count == objPerSlab {
        Relist(slab, cpuId, Full);
        MoveAfterStay(c, slab, bits, cpuId);
      }
      ChangedKeeps(c, slab, bits, cpuId);
      ChangedLists(c, slab, bits, cpuId);
      LiveAdd(c, state, slab, bit);
      AddrPage(state, slab, bit);
    }

    /** From a free slab, which always moves. */
    method AllocFree(slab: Slab, cpuId: nat) returns (ptr: nat, ghost bit: nat)
      requires InUse().Some? && cpuId < MAX_CPUS && slab in cpu[cpuId].free
      modifies this`cpu, this`state, slab
      ensures InUse() == Some(old(InUse()).value + {ptr}) && ptr !in old(InUse()).value
      ensures IsLowestClear(Bits(old(state), slab), bit, objPerSlab) && ptr == Addr(state, slab, bit)
      ensures state == Changed(old(state), slab, Bits(old(state), slab) + {bit}, cpuId)
      ensures slab.zones == old(slab.zones) + {ptr + objSize} && slab.page == AddrToSlab(ptr)
      ensures ListsAfter(old(state), cpu, slab, |Bits(old(state), slab)| + 1, cpuId)
    {
      ghost var c := state;
      Listed(c, slab, cpuId, Kind.Free);
      ptr, bit := Take(slab);
      ghost var bits := slab.bitmap;
      if slab.count == objPerSlab {
        Relist(slab, cpuId, Full);
      } else {
        Relist(slab, cpuId, Partial);
      }
      MoveAfterStay(c, slab, bits, cpuId);
      ChangedKeeps(c, slab, bits, cpuId);
      ChangedLists(c, slab, bits, cpuId);
      LiveAdd(c, state, slab, bit);
      AddrPage(state, slab, bit);
    }

    /** A slab created at a page that the memory allocator returned. */
    method AddSlab(page: nat, cpuId: nat) returns (slab: Slab)
      requires InStep()
      modifies this`slabs, this`state
      ensures fresh(slab) && slab.page == page && slab.count == 0 && slab.zones == {} && slab !in old(slabs)
      ensures slabs == old(slabs) + {slab} && InStep() && state == Stay(old(state), slab, {})
    {
      slab := new Slab(page);
      slabs := slabs + {slab};
      state := Stay(state, slab, {});
    }

    /** The list that a new slab goes to; it is on none before. */
    method PushNew(slab: Slab, cpuId: nat, k: Kind)
      requires InStep() && slab in slabs && cpuId < |cpu| && k == KindOf(slab.count, objPerSlab)
      requires Unlink(cpu, slab) == cpu
      modifies this`cpu, this`state
      ensures InStep() && state == Move(old(state), slab, old(state.used[slab]), cpuId)
    {
      cpu := PushTail(cpu, cpuId, k, slab);
      state := Move(state, slab, state.used[slab], cpuId);
    }

    /** From a new slab. */
    method AllocNew(page: nat, cpuId: nat) returns (ptr: nat, slab: Slab, ghost bit: nat)
      requires InUse().Some? && cpuId < MAX_CPUS && page % PAGE_SIZE == 0 && forall s | s in slabs :: s.page != page
      requires objPerSlab > 0
      modifies this`cpu, this`state, this`slabs
      ensures slab.zones == {ptr + objSize} && slab.page == AddrToSlab(ptr)
      ensures Bits(old(state), slab) == {} && ListsAfter(old(state), cpu, slab, 1, cpuId)
      ensures fresh(slab) && slab.page == page && slabs == old(slabs) + {slab}
      ensures InUse() == Some(old(InUse()).value + {ptr}) && ptr !in old(InUse()).value
      ensures slab !in old(state).used && IsLowestClear({}, bit, objPerSlab) && ptr == Addr(state, slab, bit)
      ensures state == Changed(old(state), slab, {bit}, cpuId)
    {
      ghost var c := state;
      slab := AddSlab(page, cpuId);
      UnlinkAbsent(c, slab);
      ptr, bit := Take(slab);
      ghost var bits := {bit};
      assert slab.bitmap == bits && BitsOk(c, bits);
      StayTwice(c, slab, {}, bits);
      if slab.count == objPerSlab {
        PushNew(slab, cpuId, Full);
      } else {
        PushNew(slab, cpuId, Partial);
      }
      MoveAfterStay(c, slab, bits, cpuId);
      ChangedKeeps(c, slab, bits, cpuId);
      ChangedLists(c, slab, bits, cpuId);
      LiveAdd(c, state, slab, bit);
      AddrPage(state, slab, bit);
    }

    lemma MeaningIs()
      requires InUse().Some?
      ensures Inv(state) && InUse().value == Live(state)
    {
    }

    lemma ListsThere()
      requires InUse().Some?
      ensures |cpu| == MAX_CPUS && slabs == state.used.Keys
    {
    }

    lemma SlabThere(slab: Slab, i: nat, k: Kind)
      requires InUse().Some? && i < MAX_CPUS && i < |cpu| && slab in List(cpu[i], k)
      ensures slab in slabs && slab in state.used
    {
      Listed(state, slab, i, k);
    }

    /** slab_cache_alloc: the first partial slab of the CPU serves the object, else its first free slab,
        else a new one. `page` is what posix_memalign returns if a new slab is needed: an aligned page
        that no slab occupies. Where no object fits a slab the source aborts, and ok is false. */
    method Alloc(cpuId: nat, page: nat) returns (ok: bool, ptr: nat, slab: Slab?, ghost bit: nat)
      requires InUse().Some? && cpuId < MAX_CPUS && page % PAGE_SIZE == 0 && forall s | s in slabs :: s.page != page
      modifies this`cpu, this`state, this`slabs, slabs
      ensures ok <==> objPerSlab > 0
      ensures !ok ==> state == old(state) && InUse() == old(InUse()) && slabs == old(slabs)
      ensures ok ==> InUse() == Some(old(InUse()).value + {ptr}) && ptr !in old(InUse()).value && slab != null
      ensures ok ==> var p := old(cpu)[cpuId];
                     if p.partial != [] then slab == p.partial[0]
                     else if p.free != [] then slab == p.free[0]
                     else fresh(slab) && slab.page == page
      ensures ok ==> slabs == old(slabs) + {slab} && (slab in old(slabs) || (fresh(slab) && slab.page == page))
      ensures ok ==> ptr == Addr(state, slab, bit) && IsLowestClear(Bits(old(state), slab), bit, objPerSlab)
      ensures ok ==> state == Changed(old(state), slab, Bits(old(state), slab) + {bit}, cpuId)
      ensures ok ==> ListsAfter(old(state), cpu, slab, |Bits(old(state), slab)| + 1, cpuId)
      ensures !ok ==> cpu == old(cpu)
      ensures ok ==> ptr + objSize in slab.zones && slab.page == AddrToSlab(ptr)
      ensures forall s | s in old(slabs) :: old(s.zones) <= s.zones <= old(s.zones) + {ptr + objSize}
    {
      hide Changed, IsLowestClear, Meaning, InStep, InUse, ListsAfter, Bits, AddrToSlab, Addr;
      ListsThere();
      ok, ptr, slab, bit := true, 0, null, 0;
      if cpu[cpuId].partial != [] {
        var s := cpu[cpuId].partial[0];
        SlabThere(s, cpuId, Partial);
        ptr, bit := AllocPartial(s, cpuId);
        slab := s;
      } else if cpu[cpuId].free != [] {
        var s := cpu[cpuId].free[0];
        SlabThere(s, cpuId, Kind.Free);
        ptr, bit := AllocFree(s, cpuId);
        slab := s;
      } else {
        if objPerSlab == 0 {
          ok := false;
          return;
        }
        ptr, slab, bit := AllocNew(page, cpuId);
        assert {} + {bit} == {bit};
      }
    }

    /** An object of the slab is given back; the lists are not touched yet. */
    method GiveBack(slab: Slab, ptr: nat) returns (ok: bool)
      requires InStep() && slab in slabs && objSizeAlign > 0 && AddrInRange(slab.page, ptr)
      modifies this`state, slab`bitmap, slab`count
      ensures ok <==> && AddrAligned(slab.page, ptr, objSizeAlign)
                      && ObjIndex(slab.page, ptr, objSizeAlign) in old(state.used[slab]) && ptr + objSize in slab.zones
      ensures !ok ==> state == old(state)
      ensures ok ==> state == Stay(old(state), slab, old(state.used[slab]) - {ObjIndex(slab.page, ptr, objSizeAlign)})
      ensures InStep()
    {
      ok := SlabFree(slab, ptr, objSize, objSizeAlign);
      if ok {
        state := Stay(state, slab, slab.bitmap);
      }
    }

    /** Where the slab of an accepted address goes: to this CPU if it was full or becomes free. */
    method RelistFreed(ghost c: Cache, slab: Slab, ptr: nat, ghost bit: nat, wasFull: bool, cpuId: nat)
      requires Inv(c) && slab in c.used && bit in c.used[slab] && ptr == Addr(c, slab, bit) && cpuId < MAX_CPUS
      requires InStep() && state == Stay(c, slab, c.used[slab] - {bit}) && wasFull == (|c.used[slab]| == objPerSlab)
      modifies this`cpu, this`state
      ensures state == Changed(c, slab, c.used[slab] - {bit}, cpuId)
      ensures InUse() == Some(Live(c) - {ptr})
      ensures ListsAfter(c, cpu, slab, |c.used[slab]| - 1, cpuId) && ptr == Addr(state, slab, bit)
    {
      ghost var bits := c.used[slab] - {bit};
      UsedBits(c, slab);
      MoveAfterStay(c, slab, bits, cpuId);
      if wasFull {
        if slab.count == 0 {
          Relist(slab, cpuId, Kind.Free);
        } else {
          Relist(slab, cpuId, Partial);
        }
      } else {
        if slab.count == 0 {
          Relist(slab, cpuId, Kind.Free);
        }
      }
      ChangedKeeps(c, slab, bits, cpuId);
      ChangedLists(c, slab, bits, cpuId);
      LiveRemove(c, state, slab, bit);
    }

    /** slab_cache_free, for any address and on any CPU. An address in use with its red zone intact is
        given back; its slab moves to that CPU if it was full or becomes free. On any other address nothing
        changes: the source ignores NULL and aborts on the rest. */
    method Free(ptr: nat, cpuId: nat) returns (ok: bool, slab: Slab?, ghost bit: nat)
      requires InUse().Some? && cpuId < MAX_CPUS
      modifies this`cpu, this`state, slabs`bitmap, slabs`count
      ensures ok <==> ptr in old(InUse()).value && ZoneIntact(ptr)
      ensures ok ==> slab in slabs && slab.page == AddrToSlab(ptr) && ptr + objSize in slab.zones
      ensures ok ==> InUse() == Some(old(InUse()).value - {ptr})
      ensures ok ==> slab in old(state).used && bit in old(state).used[slab] && ptr == Addr(state, slab, bit)
      ensures ok ==> cpuId < |old(state).cpu|
                     && state == Changed(old(state), slab, old(state).used[slab] - {bit}, cpuId)
      ensures ok ==> slab in old(state).used && ListsAfter(old(state), cpu, slab, |old(state).used[slab]| - 1, cpuId)
      ensures !ok ==> cpu == old(cpu)
      ensures !ok ==> state == old(state) && InUse() == old(InUse())
    {
      hide ListsAfter, Changed, Addr, AddrAligned, AddrInRange, ObjIndex, AddrToSlab, Meaning, Inv;
      MeaningIs();
      ghost var c := state;
      ok, slab, bit := false, null, 0;
      ghost var owner;
      if ptr in Live(c) {
        owner, bit := OwnerOf(c, ptr);
        LivePositive(c, ptr);
      }
      if ptr == 0 {
        return;
      }
      var page := AddrToSlab(ptr);
      if s :| s in slabs && s.page == page {
        if !AddrInRange(page, ptr) {
          return;
        }
        FreeAccepts(c, s, ptr);
        ZoneOf(s, ptr);
        slab := s;
        var wasFull := s.count == objPerSlab;
        ok := GiveBack(s, ptr);
        if ok {
          RelistFreed(c, s, ptr, bit, wasFull, cpuId);
        }
      }
    }
  }

  const OBJ_MAX_NAME := 64

  /** slab_cache_create: NULL exactly for a refused size or name. */
  method SlabCacheCreate(objSize: nat, objName: Option<string>) returns (cache: SlabCache?)
    ensures cache == null <==> !Accepted(objSize) || objName.None? || |objName.value| >= OBJ_MAX_NAME
    ensures cache != null ==> fresh(cache) && cache.InUse() == Some({}) && cache.objSize == objSize
  {
    cache := null;
    if !Accepted(objSize) || objName.None? || |objName.value| >= OBJ_MAX_NAME {
      return;
    }
    cache := new SlabCache(objSize, objName.value);
  }
}
