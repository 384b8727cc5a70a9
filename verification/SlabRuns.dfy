/** Runs of a slab cache: whatever is asked of it, the addresses in use are those handed out and not
    given back, and each of them can be given back. */
module SlabRuns {
  import opened SlabLayout
  import opened SlabState
  import opened SlabAllocator

  /** An allocation, with the page that the memory allocator returns if one is needed, or a free. */
  datatype Request = Allocate(cpuId: nat, page: nat) | Release(ptr: nat, cpuId: nat)

  datatype Reply = Reply(ok: bool, ptr: nat)

  /** Pages are aligned, none is returned twice, and none is that of a slab already there. */
  ghost predicate Possible(reqs: seq<Request>, pages: set<nat>) {
    && (forall i | 0 <= i < |reqs| :: reqs[i].cpuId < MAX_CPUS)
    && (forall i | 0 <= i < |reqs| && reqs[i].Allocate? :: reqs[i].page % PAGE_SIZE == 0 && reqs[i].page !in pages)
    && (forall i, j | 0 <= i < j < |reqs| && reqs[i].Allocate? && reqs[j].Allocate? :: reqs[i].page != reqs[j].page)
  }

  ghost function Pages(slabs: set<Slab>): set<nat>
  {
    set s | s in slabs :: s.page
  }

  /** What a client who keeps account of the replies holds after the requests. */
  ghost function Ledger(start: set<nat>, reqs: seq<Request>, replies: seq<Reply>): set<nat>
    requires |reqs| == |replies|
  {
    if reqs == [] then start
    else
      var n := |reqs| - 1;
      var held := Ledger(start, reqs[..n], replies[..n]);
      if !replies[n].ok then held
      else if reqs[n].Allocate? then held + {replies[n].ptr}
      else held - {reqs[n].ptr}
  }

  lemma LedgerEmpty(start: set<nat>)
    ensures Ledger(start, [], []) == start
  {
  }

  lemma LedgerSnoc(start: set<nat>, reqs: seq<Request>, replies: seq<Reply>, req: Request, reply: Reply)
    requires |reqs| == |replies|
    ensures Ledger(start, reqs + [req], replies + [reply]) ==
            var held := Ledger(start, reqs, replies);
            if !reply.ok then held else if req.Allocate? then held + {reply.ptr} else held - {req.ptr}
  {
    assert (reqs + [req])[..|reqs|] == reqs && (replies + [reply])[..|reqs|] == replies;
  }

  /** The reply to one request of a client who holds these addresses: an allocation is served exactly
      if some object fits a slab, and with a new address; a free succeeds exactly on what is held. */
  ghost predicate Served(req: Request, reply: Reply, held: set<nat>, fits: bool) {
    match req
    case Allocate(_, _) => (reply.ok <==> fits) && (fits ==> reply.ptr !in held)
    case Release(ptr, _) => reply.ok <==> ptr in held
  }

  /** Every address in use has its red zone intact. */
  ghost predicate ZonesIntact(c: SlabCache)
    reads c, c.slabs, c.state.used.Keys
  {
    c.InUse().Some? && forall p | p in c.InUse().value :: c.ZoneIntact(p)
  }

  /** An allocation overwrites no red zone. */
  method ServeAllocate(c: SlabCache, cpuId: nat, page: nat) returns (reply: Reply)
    requires ZonesIntact(c) && cpuId < MAX_CPUS && page % PAGE_SIZE == 0 && page !in Pages(c.slabs)
    modifies c, c.slabs
    ensures ZonesIntact(c) && fresh(c.slabs - old(c.slabs)) && Pages(c.slabs) <= old(Pages(c.slabs)) + {page}
    ensures Served(Allocate(cpuId, page), reply, old(c.InUse().value), c.objPerSlab > 0)
    ensures c.InUse().value == old(c.InUse().value) + if reply.ok then {reply.ptr} else {}
  {
    hide Changed, IsLowestClear, Meaning, Addr, Bits, SlabCache.InStep, SlabCache.InUse;
    assert forall s | s in c.slabs :: s.page in Pages(c.slabs);
    var ok, ptr, slab, bit := c.Alloc(cpuId, page);
    reply := Reply(ok, ptr);
    forall p | p in c.InUse().value ensures c.ZoneIntact(p) {
      if p in old(c.InUse().value) {
        assert old(c.ZoneIntact(p));
        var s :| s in old(c.slabs) && s.page == AddrToSlab(p) && p + c.objSize in old(s.zones);
        assert s in c.slabs;
      }
    }
  }

  method ServeRelease(c: SlabCache, ptr: nat, cpuId: nat) returns (reply: Reply)
    requires ZonesIntact(c) && cpuId < MAX_CPUS
    modifies c, c.slabs
    ensures ZonesIntact(c) && c.slabs == old(c.slabs)
    ensures Served(Release(ptr, cpuId), reply, old(c.InUse().value), c.objPerSlab > 0)
    ensures c.InUse().value == old(c.InUse().value) - if reply.ok then {ptr} else {}
  {
    var ok, slab, bit := c.Free(ptr, cpuId);
    reply := Reply(ok, ptr);
    forall p | p in c.InUse().value ensures c.ZoneIntact(p) {
      assert p in old(c.InUse().value) && old(c.ZoneIntact(p));
    }
  }

  /** Any requests on any CPUs, in any order: the addresses in use are the client's account. */
  method Serve(c: SlabCache, reqs: seq<Request>) returns (replies: seq<Reply>)
    requires ZonesIntact(c) && Possible(reqs, Pages(c.slabs))
    modifies c, c.slabs
    ensures ZonesIntact(c) && |replies| == |reqs|
    ensures c.InUse().value == Ledger(old(c.InUse().value), reqs, replies)
    ensures forall i | 0 <= i < |reqs| ::
              Served(reqs[i], replies[i], Ledger(old(c.InUse().value), reqs[..i], replies[..i]), c.objPerSlab > 0)
  {
    hide Ledger, Served, Inv, Meaning, SlabCache.InStep, SlabCache.InUse, SlabCache.ZoneIntact;
    replies := [];
    LedgerEmpty(c.InUse().value);
    ghost var start := c.InUse().value;
    for i := 0 to |reqs|
      invariant ZonesIntact(c) && |replies| == i && fresh(c.slabs - old(c.slabs))
      invariant c.InUse().value == Ledger(start, reqs[..i], replies)
      invariant forall k | i <= k < |reqs| && reqs[k].Allocate? :: reqs[k].page !in Pages(c.slabs)
      invariant forall k | 0 <= k < i ::
                  Served(reqs[k], replies[k], Ledger(start, reqs[..k], replies[..k]), c.objPerSlab > 0)
    {
      var reply;
      match reqs[i] {
        case Allocate(cpuId, page) => reply := ServeAllocate(c, cpuId, page);
        case Release(ptr, cpuId) => reply := ServeRelease(c, ptr, cpuId);
      }
      LedgerSnoc(start, reqs[..i], replies, reqs[i], reply);
      assert reqs[..i] + [reqs[i]] == reqs[..i + 1];
      ghost var before := replies;
      replies := replies + [reply];
      assert forall k | 0 <= k <= i :: replies[..k] == before[..k];
    }
    assert reqs[..|reqs|] == reqs;
  }

  /** An object freed on whatever CPU leaves the addresses in use as they were. */
  method AllocThenFree(c: SlabCache, cpuId: nat, page: nat, freeCpuId: nat) returns (served: bool, freed: bool)
    requires ZonesIntact(c) && cpuId < MAX_CPUS && freeCpuId < MAX_CPUS
    requires page % PAGE_SIZE == 0 && page !in Pages(c.slabs)
    modifies c, c.slabs
    ensures ZonesIntact(c) && c.InUse() == old(c.InUse())
    ensures (served <==> c.objPerSlab > 0) && (served ==> freed)
  {
    freed := false;
    var a := ServeAllocate(c, cpuId, page);
    served := a.ok;
    if served {
      var f := ServeRelease(c, a.ptr, freeCpuId);
      freed := f.ok;
    }
    assert c.InUse().value == old(c.InUse().value);
  }
}
