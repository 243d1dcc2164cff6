/** Runs of the heap: any number of allocations, slot writes and collections in any order
    (src/lib.rs:149-448), and what holds in every state they reach. */
module HeapRuns {
  import opened Constants
  import opened Lines
  import opened Header
  import opened Space
  import opened Layout
  import opened Allocation
  import opened AllocationProofs
  import opened Memory
  import opened Trace
  import opened TraceTheorems
  import opened Collection
  import opened CollectionProofs

  /** An empty heap over the mapping from `start` to `bound`. */
  function EmptyHeap(start: Address, bound: Address, threshold: nat): Heap {
    var none := Allocator([], [], None);
    Heap(map[], {}, Space(map[], BlockAllocator(start, bound, FirstBlock(start), []), none, none, none),
         [], [], 0, threshold, false)
  }

  lemma EmptyHeapInv(start: Address, bound: Address, threshold: nat)
    requires FirstBlock(start) <= bound
    ensures HeapInv(EmptyHeap(start, bound, threshold))
  {
    var h := EmptyHeap(start, bound, threshold);
    assert Sizes(h.mem) == map[];
    assert Ledger(h.space) == multiset{};
  }

  /** What the mutator asks for: a number of bytes, and what it writes into the new object. The
      references it writes are on its stack during the call, so they are conservative roots. */
  datatype Request = Request(bytes: nat, rtti: Address, slots: seq<Address>, payload: int)

  predicate Requestable(req: Request) { 0 < req.bytes && AlignUp(req.bytes) < LARGE_OBJECT }

  function KindFor(size: nat): Kind { if size < MEDIUM_OBJECT then Normal else Overflow }

  /** `ImmixSpace::allocate` and the initialisation of the header (src/lib.rs:413-434). */
  function Place(h: Heap, req: Request): (Heap, Option<Address>) {
    var size := AlignUp(req.bytes);
    var (sp, got) := Allocate(h.space, KindFor(size), size);
    match got
    case None => (h.(space := sp), None)
    case Some(a) =>
      (h.(space := sp,
          index := h.index + {a},
          mem := h.mem[a := Object(Fresh(req.rtti).(mark := h.live), size, req.slots, req.payload)],
          used := h.used + size),
       Some(a))
  }

  // Allocation outside a collection leaves the headroom alone.

  lemma {:induction false} UsePoolLeavesEvac(sp: Space, size: nat)
    ensures UsePool(sp, size).evac == sp.evac
    decreases |sp.normal.pool|
  {
    var al := sp.normal;
    if |al.pool| > 0 {
      var b, rest := al.pool[|al.pool| - 1], al.pool[..|al.pool| - 1];
      UsePoolLeavesEvac(sp.(normal := al.(pool := rest, unavailable := al.unavailable + [b])), size);
    }
  }

  lemma AllocateLeavesEvac(sp: Space, kind: Kind, size: nat)
    requires !kind.Evac?
    ensures Allocate(sp, kind, size).0.evac == sp.evac
  {
    hide UsePool, ScanWindow, AlignUp;
    UsePoolLeavesEvac(UseCurrent(sp, kind, size), size);
  }

  lemma BytesOfOneMore(ext: Extents, a: Address, size: nat)
    requires a !in ext
    ensures Bytes(ext[a := size], ext[a := size].Keys) == Bytes(ext, ext.Keys) + size
  {
    hide Bytes;
    var ext' := ext[a := size];
    assert ext'.Keys == ext.Keys + {a};
    BytesPlus(ext', ext.Keys, a);
    BytesSame(ext, ext', ext.Keys);
  }

  lemma PlaceClosed(mem: Memory, a: Address, o: Object)
    requires Closed(mem) && a !in mem && forall k :: 0 <= k < |o.slots| ==> o.slots[k] in mem
    ensures Closed(mem[a := o])
  {}

  /** Placing an object keeps the invariant; the object is new. */
  lemma PlaceKeepsInv(h: Heap, req: Request)
    requires HeapInv(h) && Requestable(req) && forall k :: 0 <= k < |req.slots| ==> req.slots[k] in h.mem
    ensures HeapInv(Place(h, req).0)
    ensures Place(h, req).1.Some? ==> Place(h, req).1.value !in h.mem && Place(h, req).1.value in Place(h, req).0.mem
    ensures forall a :: a in h.mem ==> a in Place(h, req).0.mem && Place(h, req).0.mem[a] == h.mem[a]
    ensures Place(h, req).1.Some? ==> Place(h, req).0.mem[Place(h, req).1.value].slots == req.slots
    ensures Place(h, req).0.mem.Keys == h.mem.Keys + match Place(h, req).1 case None => {} case Some(a) => {a}
  {
    hide LaidOut, Closed, Conserved, Bytes, Allocate;
    var size := AlignUp(req.bytes);
    var kind := KindFor(size);
    AllocateKeepsLayout(Sizes(h.mem), h.space, kind, size, multiset{});
    AllocateLeavesEvac(h.space, kind, size);
    var (sp, got) := Allocate(h.space, kind, size);
    if got.Some? {
      var o := Object(Fresh(req.rtti).(mark := h.live), size, req.slots, req.payload);
      SizesOfUpdate(h.mem, got.value, o);
      BytesOfOneMore(Sizes(h.mem), got.value, size);
      PlaceClosed(h.mem, got.value, o);
      var h' := Place(h, req).0;
      assert Sizes(h.mem).Keys == h.mem.Keys && Sizes(h'.mem).Keys == h'.mem.Keys == h.mem.Keys + {got.value};
      assert Clean(h'.mem, h'.live);
    }
  }

  /** A slot write of the mutator. */
  function Write(h: Heap, a: Address, i: nat, v: Address): Heap
    requires a in h.mem && i < |h.mem[a].slots|
  {
    h.(mem := h.mem[a := h.mem[a].(slots := h.mem[a].slots[i := v])])
  }

  lemma WriteKeepsInv(h: Heap, a: Address, i: nat, v: Address)
    requires HeapInv(h) && a in h.mem && i < |h.mem[a].slots| && v in h.mem
    ensures HeapInv(Write(h, a, i, v)) && OneSlotChanged(h.mem, Write(h, a, i, v).mem, a, i, v)
  {
    hide LaidOut, Conserved, Bytes;
    SizesSame(h.mem, a, h.mem[a].(slots := h.mem[a].slots[i := v]));
    assert Write(h, a, i, v).mem.Keys == h.mem.Keys;
  }

  /** Slot `i` of `a` leads to `v`, every other slot where it did, and nothing else is different. */
  ghost predicate OneSlotChanged(mem: Memory, mem': Memory, a: Address, i: nat, v: Address)
    requires a in mem && i < |mem[a].slots|
  {
    && mem'.Keys == mem.Keys && i < |mem'[a].slots| && mem'[a].slots[i] == v
    && forall x :: x in mem ==>
         && mem'[x].header == mem[x].header && Look(mem'[x]) == Look(mem[x])
         && forall j :: 0 <= j < |mem[x].slots| && (x, j) != (a, i) ==> mem'[x].slots[j] == mem[x].slots[j]
  }

  /** The root slots that a collection is foretold to leave stale. */
  function StaleSlots(h: Heap, roots: Roots, evacuation: bool, emergency: bool): set<nat> {
    set j: nat | j < |roots.precise| && RootGoesStale(h, roots, evacuation, emergency, j)
  }

  /** The roots after a collection that leaves none of them stale are live again, and different
      targets stay different. */
  lemma RootsStayLive(h: Heap, roots: Roots, evacuation: bool, emergency: bool)
    requires HeapInv(h) && RootsLive(h.mem, roots)
    ensures var (h', precise) := Collect(h, roots, evacuation, emergency);
            && |precise| == |roots.precise| && ConservativeLive(h'.mem, roots)
            && (StaleSlots(h, roots, evacuation, emergency) == {} ==>
                  RootsLive(h'.mem, Roots(roots.conservative, precise)))
            && (NoSharedTargets(roots.precise) ==>
                  StaleSlots(h, roots, evacuation, emergency) == {} && NoSharedTargets(precise))
  {
    hide HeapInv, Ready, Finished, RunTrace, Before, Sweep, HandOut, RootGoesStale;
    RootLiveExactlyWhen(h, roots, evacuation, emergency);
    var stale := StaleSlots(h, roots, evacuation, emergency);
    assert forall j: nat :: j < |roots.precise| && RootGoesStale(h, roots, evacuation, emergency, j) ==> j in stale;
    if NoSharedTargets(roots.precise) {
      forall j: nat | j < |roots.precise| ensures !RootGoesStale(h, roots, evacuation, emergency, j) {
        NoneGoesStale(h, roots, evacuation, emergency, j);
      }
      RootsStandIn(h, roots, evacuation, emergency);
    }
  }

  ghost predicate ConservativeLive(mem: Memory, roots: Roots) {
    forall k :: 0 <= k < |roots.conservative| ==> roots.conservative[k] in mem
  }

  /** A collection, if the bytes in use have reached the threshold. */
  function Paced(h: Heap, roots: Roots): (Heap, seq<Address>)
    requires HeapInv(h) && RootsLive(h.mem, roots)
  {
    if h.used >= h.threshold then Collect(h, roots, false, true) else (h, roots.precise)
  }

  /** The heap after that collection and one attempt to place the object, and the roots then. */
  function Tried(h: Heap, roots: Roots, req: Request): (Heap, Roots, Option<Address>)
    requires HeapInv(h) && RootsLive(h.mem, roots)
  {
    var (h1, precise1) := Paced(h, roots);
    var (h2, got) := Place(h1, req);
    (h2, Roots(roots.conservative, precise1), got)
  }

  /** The root slots that the collection an allocation begins with is foretold to leave stale. */
  function EarlyStaleSlots(h: Heap, roots: Roots): set<nat> {
    if h.used >= h.threshold then StaleSlots(h, roots, false, true) else {}
  }

  /** What an allocation asks of the mutator. The references it stores are on the stack; and if a
      second collection follows, the first has left no root stale for it to read. */
  ghost predicate CanAllocate(h: Heap, roots: Roots, req: Request)
    requires HeapInv(h)
  {
    && RootsLive(h.mem, roots) && Requestable(req)
    && (forall k :: 0 <= k < |req.slots| ==> req.slots[k] in roots.conservative)
    && (Tried(h, roots, req).2.None? ==> EarlyStaleSlots(h, roots) == {})
  }

  /** Roots with different targets are always good enough. */
  lemma DifferentTargetsCanAllocate(h: Heap, roots: Roots, req: Request)
    requires HeapInv(h) && RootsLive(h.mem, roots) && NoSharedTargets(roots.precise) && Requestable(req)
    requires forall k :: 0 <= k < |req.slots| ==> req.slots[k] in roots.conservative
    ensures CanAllocate(h, roots, req)
  {
    hide HeapInv, RootGoesStale, RootsLive, Tried;
    forall j: nat | j < |roots.precise| ensures !RootGoesStale(h, roots, false, true, j) {
      NoneGoesStale(h, roots, false, true, j);
    }
  }

  /** `Immix::allocate`: a collection first when the threshold is reached, and one more, evacuating,
      when there is no room. Returns the heap, the precise roots and the object, if any. */
  function AllocateObject(h: Heap, roots: Roots, req: Request): (Heap, seq<Address>, Option<Address>)
    requires HeapInv(h) && CanAllocate(h, roots, req)
  {
    var (h2, roots1, got) := Tried(h, roots, req);
    if got.Some? then (h2, roots1.precise, got) else
    TriedKeeps(h, roots, req);
    var (h3, precise3) := Collect(h2, roots1, true, true);
    var (h4, got4) := Place(h3, req);
    (h4, precise3, got4)
  }

  /** The first half of an allocation. */
  lemma PacedKeeps(h: Heap, roots: Roots)
    requires HeapInv(h) && RootsLive(h.mem, roots)
    ensures var (h1, precise1) := Paced(h, roots);
            && HeapInv(h1) && |precise1| == |roots.precise| && ConservativeLive(h1.mem, roots)
            && (forall j :: 0 <= j < |precise1| ==> (precise1[j] in h1.mem <==> j !in EarlyStaleSlots(h, roots)))
            && (NoSharedTargets(roots.precise) ==> NoSharedTargets(precise1))
  {
    hide HeapInv, Collect, RootGoesStale, NoSharedTargets;
    if h.used >= h.threshold {
      CollectKeepsInv(h, roots, false, true);
      RootLiveExactlyWhen(h, roots, false, true);
      RootsStayLive(h, roots, false, true);
    }
  }

  lemma TriedKeeps(h: Heap, roots: Roots, req: Request)
    requires HeapInv(h) && CanAllocate(h, roots, req)
    ensures var (h2, roots1, got) := Tried(h, roots, req);
            && HeapInv(h2) && |roots1.precise| == |roots.precise| && roots1.conservative == roots.conservative
            && ConservativeLive(h2.mem, roots) && (got.None? ==> RootsLive(h2.mem, roots1))
            && (got.Some? ==> got.value in h2.mem)
            && (forall j :: 0 <= j < |roots1.precise| && j !in EarlyStaleSlots(h, roots) ==>
                  roots1.precise[j] in h2.mem)
            && (NoSharedTargets(roots.precise) ==> NoSharedTargets(roots1.precise))
  {
    hide HeapInv, Place, EarlyStaleSlots, NoSharedTargets, Paced;
    PacedKeeps(h, roots);
    var (h1, precise1) := Paced(h, roots);
    StackSlotsLive(h1.mem, roots, req);
    PlaceKeepsInv(h1, req);
    var h2 := Place(h1, req).0;
    forall k | 0 <= k < |roots.conservative| ensures roots.conservative[k] in h2.mem {
      var a := roots.conservative[k];
      assert a in h1.mem;
    }
    forall j | 0 <= j < |precise1| && j !in EarlyStaleSlots(h, roots) ensures precise1[j] in h2.mem {
      var a := precise1[j];
      assert a in h1.mem;
    }
  }

  lemma StackSlotsLive(mem: Memory, roots: Roots, req: Request)
    requires ConservativeLive(mem, roots) && forall k :: 0 <= k < |req.slots| ==> req.slots[k] in roots.conservative
    ensures forall k :: 0 <= k < |req.slots| ==> req.slots[k] in mem
  {
    forall k | 0 <= k < |req.slots| ensures req.slots[k] in mem {
      var a := req.slots[k];
      assert a in roots.conservative;
      var i :| 0 <= i < |roots.conservative| && roots.conservative[i] == a;
    }
  }

  /** The second half: the emergency collection and the last attempt. */
  lemma RetryKeeps(h2: Heap, roots: Roots, req: Request)
    requires HeapInv(h2) && RootsLive(h2.mem, roots) && Requestable(req)
    requires forall k :: 0 <= k < |req.slots| ==> req.slots[k] in roots.conservative
    ensures var (h3, precise3) := Collect(h2, roots, true, true);
            var (h4, got) := Place(h3, req);
            && HeapInv(h3) && HeapInv(h4) && |precise3| == |roots.precise| && ConservativeLive(h4.mem, roots)
            && (forall k :: 0 <= k < |req.slots| ==> req.slots[k] in h3.mem)
            && (got.Some? ==> got.value in h4.mem)
            && (forall j :: 0 <= j < |precise3| && j !in StaleSlots(h2, roots, true, true) ==> precise3[j] in h4.mem)
            && (NoSharedTargets(roots.precise) ==> NoSharedTargets(precise3))
  {
    hide HeapInv, Collect, Place, RootGoesStale, NoSharedTargets, RootsLive;
    CollectKeepsInv(h2, roots, true, true);
    RootsStayLive(h2, roots, true, true);
    RootLiveExactlyWhen(h2, roots, true, true);
    var (h3, precise3) := Collect(h2, roots, true, true);
    StackSlotsLive(h3.mem, roots, req);
    PlaceKeepsInv(h3, req);
    var h4 := Place(h3, req).0;
    forall k | 0 <= k < |roots.conservative| ensures roots.conservative[k] in h4.mem {
      var a := roots.conservative[k];
      assert a in h3.mem;
    }
    forall j | 0 <= j < |precise3| && j !in StaleSlots(h2, roots, true, true) ensures precise3[j] in h4.mem {
      var a := precise3[j];
      assert a in h3.mem;
    }
  }

  /** The root slots that an allocation is foretold to leave stale. */
  function AllocationStaleSlots(h: Heap, roots: Roots, req: Request): set<nat>
    requires HeapInv(h) && RootsLive(h.mem, roots)
  {
    var (h2, roots1, got) := Tried(h, roots, req);
    EarlyStaleSlots(h, roots) + if got.None? then StaleSlots(h2, roots1, true, true) else {}
  }

  /** Different targets rule that out. */
  lemma DifferentTargetsNeverStale(h: Heap, roots: Roots, req: Request)
    requires HeapInv(h) && CanAllocate(h, roots, req) && NoSharedTargets(roots.precise)
    ensures AllocationStaleSlots(h, roots, req) == {}
  {
    hide HeapInv, RootGoesStale, Tried;
    TriedKeeps(h, roots, req);
    var (h2, roots1, got) := Tried(h, roots, req);
    forall j: nat ensures !RootGoesStale(h, roots, false, true, j) && !RootGoesStale(h2, roots1, true, true, j) {
      NoneGoesStale(h, roots, false, true, j);
      NoneGoesStale(h2, roots1, true, true, j);
    }
  }

  /** An allocation keeps the invariant and the conservative roots and returns a live object; a precise
      root stays live unless it is foretold to go stale, which different targets rule out. */
  lemma AllocateObjectKeepsInv(h: Heap, roots: Roots, req: Request)
    requires HeapInv(h) && CanAllocate(h, roots, req)
    ensures var (h', precise, got) := AllocateObject(h, roots, req);
            && HeapInv(h') && |precise| == |roots.precise| && ConservativeLive(h'.mem, roots)
            && (got.Some? ==> got.value in h'.mem)
            && (forall j :: 0 <= j < |precise| && j !in AllocationStaleSlots(h, roots, req) ==> precise[j] in h'.mem)
            && (NoSharedTargets(roots.precise) ==>
                  NoSharedTargets(precise) && RootsLive(h'.mem, Roots(roots.conservative, precise)))
  {
    hide HeapInv, Collect, Place, RootGoesStale, NoSharedTargets, Tried, EarlyStaleSlots, RootsLive, StaleSlots;
    if NoSharedTargets(roots.precise) { DifferentTargetsNeverStale(h, roots, req); }
    TriedKeeps(h, roots, req);
    var (h2, roots1, got) := Tried(h, roots, req);
    if got.None? { RetryKeeps(h2, roots1, req); }
    var (h', precise, got') := AllocateObject(h, roots, req);
    if forall j :: 0 <= j < |precise| ==> precise[j] in h'.mem { AllLive(h'.mem, roots, precise); }
  }

  lemma AllLive(mem: Memory, roots: Roots, precise: seq<Address>)
    requires ConservativeLive(mem, roots) && forall j :: 0 <= j < |precise| ==> precise[j] in mem
    ensures RootsLive(mem, Roots(roots.conservative, precise))
  {}

  // Runs.

  datatype Step =
    | Alloc(roots: Roots, req: Request)
    | Store(a: Address, i: nat, v: Address)
    | Gc(roots: Roots, evacuation: bool)

  /** The mutator only ever uses references to live objects. */
  ghost predicate Enabled(h: Heap, step: Step)
    requires HeapInv(h)
  {
    match step
    case Alloc(roots, req) => CanAllocate(h, roots, req)
    case Store(a, i, v) => a in h.mem && i < |h.mem[a].slots| && v in h.mem
    case Gc(roots, evacuation) => RootsLive(h.mem, roots)
  }

  function Perform(h: Heap, step: Step): Heap
    requires HeapInv(h) && Enabled(h, step)
  {
    match step
    case Alloc(roots, req) => AllocateObject(h, roots, req).0
    case Store(a, i, v) => Write(h, a, i, v)
    case Gc(roots, evacuation) => Collect(h, roots, evacuation, false).0
  }

  lemma PerformKeepsInv(h: Heap, step: Step)
    requires HeapInv(h) && Enabled(h, step)
    ensures HeapInv(Perform(h, step))
  {
    hide HeapInv, AllocateObject, Collect;
    match step
    case Alloc(roots, req) => AllocateObjectKeepsInv(h, roots, req);
    case Store(a, i, v) => WriteKeepsInv(h, a, i, v);
    case Gc(roots, evacuation) => CollectKeepsInv(h, roots, evacuation, false);
  }

  /** One step of a run. A state without the invariant may be followed by any state, so that the
      theorem below also says that no run meets such a state. */
  ghost predicate Next(h: Heap, step: Step, h': Heap) {
    HeapInv(h) ==> Enabled(h, step) && h' == Perform(h, step)
  }

  ghost predicate Starts(h: Heap, start: Address, bound: Address, threshold: nat) {
    FirstBlock(start) <= bound && h == EmptyHeap(start, bound, threshold)
  }

  ghost predicate IsRun(states: seq<Heap>, steps: seq<Step>) {
    && |states| == |steps| + 1
    && (exists start, bound, threshold :: Starts(states[0], start, bound, threshold))
    && forall k :: 0 <= k < |steps| ==> Next(states[k], steps[k], states[k + 1])
  }

  /** Any request can be made of an empty heap, so there are runs that allocate. */
  lemma FirstAllocation(start: Address, bound: Address, threshold: nat, req: Request)
    requires FirstBlock(start) <= bound && Requestable(req) && req.slots == []
    ensures var h, step := EmptyHeap(start, bound, threshold), Alloc(Roots([], []), req);
            HeapInv(h) && Enabled(h, step) && IsRun([h, Perform(h, step)], [step])
  {
    hide HeapInv, Perform, CanAllocate, FirstBlock;
    var h, step := EmptyHeap(start, bound, threshold), Alloc(Roots([], []), req);
    EmptyHeapInv(start, bound, threshold);
    DifferentTargetsCanAllocate(h, Roots([], []), req);
    assert Starts([h, Perform(h, step)][0], start, bound, threshold);
  }

  /** Every state of every run satisfies the invariant. */
  lemma {:induction false} RunsKeepInv(states: seq<Heap>, steps: seq<Step>, k: nat)
    requires IsRun(states, steps) && k < |states|
    ensures HeapInv(states[k])
    decreases k
  {
    hide HeapInv, Enabled, Perform;
    if k == 0 {
      var start, bound, threshold :| Starts(states[0], start, bound, threshold);
      EmptyHeapInv(start, bound, threshold);
    } else {
      RunsKeepInv(states, steps, k - 1);
      assert Next(states[k - 1], steps[k - 1], states[k - 1 + 1]);
      PerformKeepsInv(states[k - 1], steps[k - 1]);
    }
  }

  // What the invariant means, spelled out.

  /** Every object occupies a 16-aligned range inside one carved block, above its header line. */
  lemma ObjectInBlock(h: Heap, a: Address)
    requires HeapInv(h) && a in h.mem
    ensures InItsBlock(h, a)
  {
    hide Owned, Reserved, Ledger, Bytes, Closed, Clean;
    assert Placed(a, Sizes(h.mem)[a], h.space.blocks.Keys);
  }

  /** Any two objects occupy disjoint ranges. */
  lemma ObjectsDisjoint(h: Heap, a: Address, b: Address)
    requires HeapInv(h) && a in h.mem && b in h.mem && a != b
    ensures a + h.mem[a].size <= b || b + h.mem[b].size <= a
  {
    hide Owned, Reserved, Ledger, Bytes, Closed, Clean;
    var ext := Sizes(h.mem);
    assert Apart(a, ext[a], b, ext[b]);
  }

  /** No object of block `b` meets the offsets from `low` to `high`. */
  ghost predicate ClearOf(mem: Memory, b: Address, low: nat, high: nat) {
    forall a :: a in mem && BlockOf(a) == b ==> Offset(a) + mem[a].size <= low || high < Offset(a)
  }

  /** No object meets the hole that scanning block `b` past offset `last` finds, if there is one. */
  ghost predicate HoleFree(h: Heap, b: Address, last: nat) {
    var found := Scan(LinesOf(h.space.blocks, b), last);
    found.Some? ==> ClearOf(h.mem, b, found.value.low, found.value.high)
  }

  /** No object lies where an allocator may hand out memory next: in a free block, in the headroom, in
      any hole of a recyclable block, in a current window, or in any hole of its block after it. */
  ghost predicate NothingInTheWay(h: Heap) {
    && (forall a :: a in h.mem ==> BlockOf(a) !in h.space.ba.free && BlockOf(a) !in h.space.evac.pool)
    && (forall b, last: nat :: b in h.space.normal.pool ==> HoleFree(h, b, last))
    && (forall kind: Kind :: h.space.Get(kind).current.Some? ==>
          var w := h.space.Get(kind).current.value; ClearOf(h.mem, w.block, w.low, w.high))
    && (forall kind: Kind, last: nat ::
          h.space.Get(kind).current.Some? && h.space.Get(kind).current.value.high <= last ==>
          HoleFree(h, h.space.Get(kind).current.value.block, last))
  }

  lemma RecyclableHoleFree(h: Heap, b: Address, last: nat)
    requires Reserved(Sizes(h.mem), h.space) && b in h.space.normal.pool
    ensures HoleFree(h, b, last)
  {
    hide CurrentOk, FreeVacant, HeadroomVacant, BlockOf, Offset, Scan, LineMarked;
    var ext, lines := Sizes(h.mem), LinesOf(h.space.blocks, b);
    assert Scannable(ext, lines, b);
    if Scan(lines, last).Some? {
      forall a | a in h.mem && BlockOf(a) == b
        ensures var hole := Scan(lines, last).value; Offset(a) + h.mem[a].size <= hole.low || hole.high < Offset(a)
      {
        assert a in ext;
        HoleIsClear(lines, last, Offset(a), ext[a]);
      }
    }
  }

  lemma CurrentClear(h: Heap, kind: Kind)
    requires Reserved(Sizes(h.mem), h.space) && h.space.Get(kind).current.Some?
    ensures var w := h.space.Get(kind).current.value;
            WindowShape(w) && WindowClear(Sizes(h.mem), LinesOf(h.space.blocks, w.block), w)
  {
    hide FreeVacant, HeadroomVacant, PoolScannable, WindowShape, WindowClear;
  }

  lemma LaterHoleFree(h: Heap, kind: Kind, last: nat)
    requires Reserved(Sizes(h.mem), h.space) && h.space.Get(kind).current.Some?
    requires h.space.Get(kind).current.value.high <= last
    ensures HoleFree(h, h.space.Get(kind).current.value.block, last)
  {
    hide Reserved, BlockOf, Offset, Scan, LineMarked;
    CurrentClear(h, kind);
    var w := h.space.Get(kind).current.value;
    var ext, lines := Sizes(h.mem), LinesOf(h.space.blocks, w.block);
    if Scan(lines, last).Some? {
      forall a | a in h.mem && BlockOf(a) == w.block
        ensures var hole := Scan(lines, last).value; Offset(a) + h.mem[a].size <= hole.low || hole.high < Offset(a)
      {
        assert a in ext;
        if w.high < Offset(a) { HoleIsClear(lines, last, Offset(a), ext[a]); }
      }
    }
  }

  /** Whatever any allocator may hand out next, no object lies there. */
  lemma WindowsAreFree(h: Heap)
    requires HeapInv(h)
    ensures NothingInTheWay(h)
  {
    hide Owned, ObjectsPlaced, Ledger, Bytes, Closed, Clean, HoleFree, BlockOf, Offset, CurrentOk, PoolScannable, Scan;
    forall b, last: nat | b in h.space.normal.pool ensures HoleFree(h, b, last) { RecyclableHoleFree(h, b, last); }
    forall kind: Kind | h.space.Get(kind).current.Some?
      ensures var w := h.space.Get(kind).current.value; ClearOf(h.mem, w.block, w.low, w.high)
    {
      CurrentClear(h, kind);
    }
    forall kind: Kind, last: nat | h.space.Get(kind).current.Some? && h.space.Get(kind).current.value.high <= last
      ensures HoleFree(h, h.space.Get(kind).current.value.block, last)
    {
      LaterHoleFree(h, kind, last);
    }
    assert forall a :: a in h.mem ==> a in Sizes(h.mem);
  }

  /** Every carved block is in exactly one of the free list, the headroom and the allocators' lists
      and windows. */
  lemma EveryBlockInOnePlace(h: Heap, b: Address)
    requires HeapInv(h)
    ensures Ledger(h.space)[b] == if b in h.space.blocks then 1 else 0
  {
    hide Ledger, LaidOut;
    assert (Ledger(h.space) + multiset{})[b] == multiset(h.space.blocks.Keys)[b];
  }

  // Accounting of blocks and bytes.

  /** The first `n` block boundaries from `low` on. */
  function Boundaries(low: Address, n: nat): set<Address> {
    if n == 0 then {} else Boundaries(low, n - 1) + {low + (n - 1) * BLOCK_SIZE}
  }

  predicate IsBoundary(low: Address, n: nat, b: Address) { low <= b < low + n * BLOCK_SIZE && b % BLOCK_SIZE == 0 }

  lemma {:induction false} CountBoundaries(q: int, n: nat)
    ensures |Boundaries(q * BLOCK_SIZE, n)| == n
    ensures forall b :: b in Boundaries(q * BLOCK_SIZE, n) <==> IsBoundary(q * BLOCK_SIZE, n, b)
  {
    var low := q * BLOCK_SIZE;
    if n > 0 {
      hide IsBoundary;
      CountBoundaries(q, n - 1);
      var last := low + (n - 1) * BLOCK_SIZE;
      forall b ensures IsBoundary(low, n, b) <==> IsBoundary(low, n - 1, b) || b == last {
        OneMoreBoundary(q, n - 1, b);
      }
      OneMoreBoundary(q, n - 1, last);
    }
  }

  lemma OneMoreBoundary(q: int, m: nat, b: Address)
    ensures IsBoundary(q * BLOCK_SIZE, m + 1, b) <==>
            IsBoundary(q * BLOCK_SIZE, m, b) || b == q * BLOCK_SIZE + m * BLOCK_SIZE
    ensures !IsBoundary(q * BLOCK_SIZE, m, q * BLOCK_SIZE + m * BLOCK_SIZE)
  {
    assert q * BLOCK_SIZE + m * BLOCK_SIZE == (q + m) * BLOCK_SIZE;
    if IsBoundary(q * BLOCK_SIZE, m + 1, b) {
      var p := b / BLOCK_SIZE;
      assert b == p * BLOCK_SIZE && p <= q + m;
    }
  }

  lemma SizeOfLedger(sp: Space)
    requires Conserved(sp, multiset{})
    ensures |Ledger(sp)| == |sp.blocks.Keys|
  {
    hide Ledger;
    assert Ledger(sp) == multiset(sp.blocks.Keys);
  }

  lemma FirstBlockAligned(start: Address)
    ensures FirstBlock(start) % BLOCK_SIZE == 0
  {}

  lemma CarvedCount(ba: BlockAllocator, blocks: set<Address>)
    requires Carved(ba, blocks)
    ensures |blocks| == (ba.cursor - FirstBlock(ba.start)) / BLOCK_SIZE
  {
    var first := FirstBlock(ba.start);
    FirstBlockAligned(ba.start);
    hide FirstBlock;
    var n := (ba.cursor - first) / BLOCK_SIZE;
    AlignedSpan(first, ba.cursor, ba.bound);
    assert first == first / BLOCK_SIZE * BLOCK_SIZE;
    CountBoundaries(first / BLOCK_SIZE, n);
    hide Boundaries;
    forall b ensures b in blocks <==> b in Boundaries(first, n) {}
    assert blocks == Boundaries(first, n);
  }

  /** Available blocks and blocks in use add up to `total_blocks`. */
  lemma BlocksAddUp(h: Heap)
    requires HeapInv(h)
    ensures AvailableBlocks(h.space.ba) + |Ledger(h.space) - multiset(h.space.ba.free)| == TotalBlocks(h.space.ba)
  {
    hide LinesInBlock, ObjectsPlaced, Reserved, Bytes, Closed, Clean, Ledger, FirstBlock;
    var ba := h.space.ba;
    FirstBlockAligned(ba.start);
    AlignedSpan(FirstBlock(ba.start), ba.cursor, ba.bound);
    CarvedCount(ba, h.space.blocks.Keys);
    SizeOfLedger(h.space);
    FreeAmongLedger(h.space);
  }

  lemma AlignedSpan(first: Address, cursor: Address, bound: Address)
    requires first % BLOCK_SIZE == 0 && cursor % BLOCK_SIZE == 0 && first <= cursor <= bound
    ensures var n := (cursor - first) / BLOCK_SIZE;
            && n >= 0 && cursor == first + n * BLOCK_SIZE
            && (bound - cursor) / BLOCK_SIZE + n == (bound - first) / BLOCK_SIZE
  {
    var p, q := first / BLOCK_SIZE, cursor / BLOCK_SIZE;
    assert first == p * BLOCK_SIZE && cursor == q * BLOCK_SIZE;
    assert cursor - first == (q - p) * BLOCK_SIZE;
    var r := (bound - cursor) / BLOCK_SIZE;
    assert bound - first == (q - p + r) * BLOCK_SIZE + (bound - cursor) % BLOCK_SIZE;
  }

  lemma FreeAmongLedger(sp: Space)
    ensures |Ledger(sp) - multiset(sp.ba.free)| == |Ledger(sp)| - |sp.ba.free|
  {
    var rest := Holds(sp.normal) + Holds(sp.overflow) + Holds(sp.evac);
    assert Ledger(sp) == multiset(sp.ba.free) + rest;
    assert Ledger(sp) - multiset(sp.ba.free) == rest;
  }

  /** Object `a` lies 16-aligned inside one carved block, above its header line. */
  predicate InItsBlock(h: Heap, a: Address)
    requires a in h.mem
  {
    && a % GRANULE == 0 && BlockOf(a) in h.space.blocks
    && BlockOf(a) + LINE_SIZE <= a && a + h.mem[a].size < BlockOf(a) + BLOCK_SIZE
  }

  /** In every state of every run: objects are disjoint and inside their blocks, and none of them lies
      where memory may be handed out next; every carved block is in one place and none with the
      collector; the blocks add up; the headroom is within its limit; the index is exact; no object
      is pinned or forwarded and all carry the live mark; and the byte count is exact. */
  lemma RunsAreSafe(states: seq<Heap>, steps: seq<Step>, k: nat)
    requires IsRun(states, steps) && k < |states|
    ensures var h := states[k];
            && (forall a, b :: a in h.mem && b in h.mem && a != b ==> Apart(a, h.mem[a].size, b, h.mem[b].size))
            && (forall a :: a in h.mem ==> InItsBlock(h, a))
            && NothingInTheWay(h)
            && (forall b: Address :: Ledger(h.space)[b] == if b in h.space.blocks then 1 else 0)
            && AvailableBlocks(h.space.ba) + |Ledger(h.space) - multiset(h.space.ba.free)| == TotalBlocks(h.space.ba)
            && h.allBlocks == [] && |h.space.evac.pool| <= EVAC_HEADROOM
            && h.index == h.mem.Keys && Clean(h.mem, h.live) && h.used == Bytes(Sizes(h.mem), h.mem.Keys)
  {
    RunsKeepInv(states, steps, k);
    hide IsRun, LaidOut, Conserved, Ledger, Closed, Clean, Bytes, AvailableBlocks, TotalBlocks, NothingInTheWay;
    var h := states[k];
    forall a, b | a in h.mem && b in h.mem && a != b ensures Apart(a, h.mem[a].size, b, h.mem[b].size) {
      ObjectsDisjoint(h, a, b);
    }
    forall a | a in h.mem ensures InItsBlock(h, a) { ObjectInBlock(h, a); }
    WindowsAreFree(h);
    forall b: Address ensures Ledger(h.space)[b] == if b in h.space.blocks then 1 else 0 {
      EveryBlockInOnePlace(h, b);
    }
    BlocksAddUp(h);
  }

  /** Right after a collection the threshold is above the bytes in use, unless both are zero, so a
      collection does not at once call for the next one. */
  lemma ThresholdRises(h: Heap, roots: Roots, evacuation: bool, emergency: bool)
    requires HeapInv(h) && RootsLive(h.mem, roots)
    ensures var h' := Collect(h, roots, evacuation, emergency).0;
            h'.used < h'.threshold || (h'.used == 0 && h'.mem.Keys == {})
  {
    hide LaidOut, Closed, Conserved, Bytes, Clean;
    CollectKeepsInv(h, roots, evacuation, emergency);
    var h' := Collect(h, roots, evacuation, emergency).0;
    if h'.mem.Keys != {} { SomeBytes(h'.mem, h'.space); }
    else { NoBytes(Sizes(h'.mem)); }
  }

  /** A collection changes the threshold only if the bytes that survive have reached it, and then to
      seven quarters of them, rounded down. */
  lemma ThresholdFollowsUse(h: Heap, roots: Roots, evacuation: bool, emergency: bool)
    requires HeapInv(h) && RootsLive(h.mem, roots)
    ensures var h' := Collect(h, roots, evacuation, emergency).0;
            && (h'.used < h.threshold ==> h'.threshold == h.threshold)
            && (h'.used >= h.threshold ==> 4 * h'.threshold <= 7 * h'.used < 4 * h'.threshold + 4)
  {
    hide HeapInv, Before, RunTrace, Sweep, HandOut, Survivors, WithPins;
  }

  lemma NoBytes(ext: Extents)
    ensures Bytes(ext, {}) == 0
  {}

  lemma SomeBytes(mem: Memory, sp: Space)
    requires LaidOut(Sizes(mem), sp) && mem.Keys != {}
    ensures Bytes(Sizes(mem), mem.Keys) >= GRANULE
  {
    hide LaidOut, Bytes;
    HasElement(mem.Keys);
    var a :| a in mem.Keys;
    PlacedSize(Sizes(mem), sp, a);
    BytesMinus(Sizes(mem), mem.Keys, a);
  }

  // What the mutator sees across an allocation.

  lemma {:induction false} MoreMemorySeesTheSame(mem: Memory, mem': Memory, a: Address, route: seq<nat>)
    requires Closed(mem) && a in mem && forall x :: x in mem ==> x in mem' && mem'[x] == mem[x]
    ensures See(mem', a, route) == See(mem, a, route)
    decreases |route|
  {
    if route != [] && route[0] < |mem[a].slots| {
      MoreMemorySeesTheSame(mem, mem', mem[a].slots[route[0]], route[1..]);
    }
  }

  /** The same root sees the same in `mem'` as in `mem`: all conservative ones, and the precise ones
      that are not in `stale`. */
  ghost predicate RootsSeeSame(mem: Memory, roots: Roots, mem': Memory, precise: seq<Address>, stale: set<nat>,
                               route: seq<nat>) {
    && |precise| == |roots.precise|
    && (forall k :: 0 <= k < |roots.conservative| ==>
          See(mem', roots.conservative[k], route) == See(mem, roots.conservative[k], route))
    && (forall j :: 0 <= j < |precise| && j !in stale ==>
          See(mem', precise[j], route) == See(mem, roots.precise[j], route))
  }

  lemma SeeSameTwice(mem: Memory, roots: Roots, mem1: Memory, precise1: seq<Address>, stale1: set<nat>,
                     mem2: Memory, precise2: seq<Address>, stale2: set<nat>, route: seq<nat>)
    requires RootsSeeSame(mem, roots, mem1, precise1, stale1, route)
    requires RootsSeeSame(mem1, Roots(roots.conservative, precise1), mem2, precise2, stale2, route)
    ensures RootsSeeSame(mem, roots, mem2, precise2, stale1 + stale2, route)
  {
    hide See;
    forall k | 0 <= k < |roots.conservative|
      ensures See(mem2, roots.conservative[k], route) == See(mem, roots.conservative[k], route)
    {
      assert See(mem1, roots.conservative[k], route) == See(mem, roots.conservative[k], route);
      assert See(mem2, roots.conservative[k], route) == See(mem1, roots.conservative[k], route);
    }
    forall j | 0 <= j < |precise2| && j !in stale1 + stale2
      ensures See(mem2, precise2[j], route) == See(mem, roots.precise[j], route)
    {
      assert See(mem1, precise1[j], route) == See(mem, roots.precise[j], route);
    }
  }

  lemma PlaceSeesSame(h: Heap, roots: Roots, req: Request, stale: set<nat>, route: seq<nat>)
    requires HeapInv(h) && ConservativeLive(h.mem, roots)
    requires forall j :: 0 <= j < |roots.precise| && j !in stale ==> roots.precise[j] in h.mem
    requires Requestable(req) && forall k :: 0 <= k < |req.slots| ==> req.slots[k] in h.mem
    ensures RootsSeeSame(h.mem, roots, Place(h, req).0.mem, roots.precise, stale, route)
  {
    PlaceKeepsInv(h, req);
    hide LaidOut, Conserved, Bytes, Clean, Place, See;
    forall k | 0 <= k < |roots.conservative|
      ensures See(Place(h, req).0.mem, roots.conservative[k], route) == See(h.mem, roots.conservative[k], route)
    {
      MoreMemorySeesTheSame(h.mem, Place(h, req).0.mem, roots.conservative[k], route);
    }
    forall k | 0 <= k < |roots.precise| && k !in stale
      ensures See(Place(h, req).0.mem, roots.precise[k], route) == See(h.mem, roots.precise[k], route)
    {
      MoreMemorySeesTheSame(h.mem, Place(h, req).0.mem, roots.precise[k], route);
    }
  }

  lemma CollectSeesSame(h: Heap, roots: Roots, evacuation: bool, emergency: bool, route: seq<nat>)
    requires HeapInv(h) && RootsLive(h.mem, roots)
    ensures var (h', precise) := Collect(h, roots, evacuation, emergency);
            RootsSeeSame(h.mem, roots, h'.mem, precise, StaleSlots(h, roots, evacuation, emergency), route)
  {
    hide HeapInv, Collect, See, RootGoesStale;
    CollectPreservesMeaning(h, roots, evacuation, emergency, route);
  }

  lemma TriedSeesSame(h: Heap, roots: Roots, req: Request, route: seq<nat>)
    requires HeapInv(h) && CanAllocate(h, roots, req)
    ensures var (h2, roots1, got) := Tried(h, roots, req);
            RootsSeeSame(h.mem, roots, h2.mem, roots1.precise, EarlyStaleSlots(h, roots), route)
  {
    hide HeapInv, Collect, RootGoesStale, Place, See;
    var (h1, precise1) := Paced(h, roots);
    var stale := EarlyStaleSlots(h, roots);
    PacedKeeps(h, roots);
    if h.used >= h.threshold { CollectSeesSame(h, roots, false, true, route); }
    StackSlotsLive(h1.mem, roots, req);
    PlaceSeesSame(h1, Roots(roots.conservative, precise1), req, stale, route);
    SeeSameTwice(h.mem, roots, h1.mem, precise1, stale, Place(h1, req).0.mem, precise1, stale, route);
    assert stale + stale == stale;
  }

  lemma RetrySeesSame(h2: Heap, roots: Roots, req: Request, route: seq<nat>)
    requires HeapInv(h2) && RootsLive(h2.mem, roots) && Requestable(req)
    requires forall k :: 0 <= k < |req.slots| ==> req.slots[k] in roots.conservative
    ensures var (h3, precise3) := Collect(h2, roots, true, true);
            RootsSeeSame(h2.mem, roots, Place(h3, req).0.mem, precise3, StaleSlots(h2, roots, true, true), route)
  {
    hide HeapInv, Collect, RootGoesStale, Place, See;
    var (h3, precise3) := Collect(h2, roots, true, true);
    var stale := StaleSlots(h2, roots, true, true);
    RetryKeeps(h2, roots, req);
    RootLiveExactlyWhen(h2, roots, true, true);
    CollectSeesSame(h2, roots, true, true, route);
    PlaceSeesSame(h3, Roots(roots.conservative, precise3), req, stale, route);
    SeeSameTwice(h2.mem, roots, h3.mem, precise3, stale, Place(h3, req).0.mem, precise3, stale, route);
    assert stale + stale == stale;
  }

  /** An allocation, with the collections it may trigger, changes nothing that the mutator's roots
      can see, except through a precise root slot foretold to go stale, and what it returns is the
      requested object. */
  lemma AllocatePreservesMeaning(h: Heap, roots: Roots, req: Request, route: seq<nat>)
    requires HeapInv(h) && CanAllocate(h, roots, req)
    ensures var (h', precise, got) := AllocateObject(h, roots, req);
            && RootsSeeSame(h.mem, roots, h'.mem, precise, AllocationStaleSlots(h, roots, req), route)
            && (got.Some? ==>
                  && See(h'.mem, got.value, []) == Some(Sight(AlignUp(req.bytes), req.payload, req.rtti, |req.slots|))
                  && h'.mem[got.value].slots == req.slots)
  {
    hide HeapInv, Collect, RootGoesStale, Allocate, RootsSeeSame, Tried, RootsLive, StaleSlots, EarlyStaleSlots;
    TriedKeeps(h, roots, req);
    TriedSeesSame(h, roots, req, route);
    TriedIsPlaced(h, roots, req);
    var (h2, roots1, got) := Tried(h, roots, req);
    assert EarlyStaleSlots(h, roots) + {} == EarlyStaleSlots(h, roots);
    if got.None? {
      RetrySeesSame(h2, roots1, req, route);
      var (h3, precise3) := Collect(h2, roots1, true, true);
      SeeSameTwice(h.mem, roots, h2.mem, roots1.precise, EarlyStaleSlots(h, roots),
                   Place(h3, req).0.mem, precise3, StaleSlots(h2, roots1, true, true), route);
    }
  }

  lemma TriedIsPlaced(h: Heap, roots: Roots, req: Request)
    requires HeapInv(h) && RootsLive(h.mem, roots)
    ensures var (h2, roots1, got) := Tried(h, roots, req);
            got.Some? ==>
              && See(h2.mem, got.value, []) == Some(Sight(AlignUp(req.bytes), req.payload, req.rtti, |req.slots|))
              && h2.mem[got.value].slots == req.slots
  {
    hide HeapInv, Collect, Allocate;
  }

  /** The allocator for objects of `size` bytes has nothing left. */
  ghost predicate NoRoom(sp: Space, size: nat) {
    if size < LINE_SIZE then Exhausted(sp, size) else OverflowExhausted(sp, size)
  }

  lemma PlaceFailsExactlyWhenFull(h: Heap, req: Request)
    ensures Place(h, req).1.None? <==> NoRoom(h.space, AlignUp(req.bytes))
  {
    hide Allocate, Exhausted, OverflowExhausted;
    var size := AlignUp(req.bytes);
    if size < MEDIUM_OBJECT { SmallAllocationFailsOnlyWhenExhausted(h.space, size); }
    else { MediumAllocationFailsOnlyWhenExhausted(h.space, size); }
  }

  /** An object of any size is refused exactly when neither the heap at hand nor the heap after an
      emergency collection has a usable hole, a free block, or room to carve one. */
  lemma ObjectRefusedExactlyWhenFull(h: Heap, roots: Roots, req: Request)
    requires HeapInv(h) && CanAllocate(h, roots, req)
    ensures var h1 := Paced(h, roots).0;
            var (h2, roots1, got) := Tried(h, roots, req);
            && (AllocateObject(h, roots, req).2.Some? <== !NoRoom(h1.space, AlignUp(req.bytes)))
            && (NoRoom(h1.space, AlignUp(req.bytes)) ==>
                  && HeapInv(h2) && RootsLive(h2.mem, roots1)
                  && (AllocateObject(h, roots, req).2.None? <==>
                      NoRoom(Collect(h2, roots1, true, true).0.space, AlignUp(req.bytes))))
  {
    hide HeapInv, Collect, Place, NoRoom, RootGoesStale, RootsLive;
    TriedKeeps(h, roots, req);
    PlaceFailsExactlyWhenFull(Paced(h, roots).0, req);
    var (h2, roots1, got) := Tried(h, roots, req);
    if got.None? { PlaceFailsExactlyWhenFull(Collect(h2, roots1, true, true).0, req); }
  }

  /** An allocation collects once if the bytes in use have reached the threshold and once more if the
      heap then has no room, as the live mark shows: it flips with every collection. */
  lemma AllocationCollectsExactlyWhen(h: Heap, roots: Roots, req: Request)
    requires HeapInv(h) && CanAllocate(h, roots, req)
    ensures var early, late := h.used >= h.threshold, NoRoom(Paced(h, roots).0.space, AlignUp(req.bytes));
            var (h2, roots1, got) := Tried(h, roots, req);
            var h' := AllocateObject(h, roots, req).0;
            && (h'.live != h.live <==> early != late)
            && (late ==>
                  && HeapInv(h2) && RootsLive(h2.mem, roots1)
                  && h' == Place(Collect(h2, roots1, true, true).0, req).0)
            && (!early && !late ==> h' == Place(h, req).0)
            && (early && !late ==> h' == Place(Collect(h, roots, false, true).0, req).0)
  {
    hide HeapInv, Before, RunTrace, Sweep, HandOut, Allocate, NoRoom, RootGoesStale, RootsLive;
    TriedKeeps(h, roots, req);
    PlaceFailsExactlyWhenFull(Paced(h, roots).0, req);
  }

  // Objects keep what they were allocated with.

  /** What the mutator asked for. */
  function Wanted(req: Request): Sight { Sight(AlignUp(req.bytes), req.payload, req.rtti, |req.slots|) }

  /** Every survivor of a collection looks like an object that was there before it. */
  lemma CollectLooks(h: Heap, roots: Roots, evacuation: bool, emergency: bool, b: Address) returns (a: Address)
    requires HeapInv(h) && RootsLive(h.mem, roots) && b in Collect(h, roots, evacuation, emergency).0.mem
    ensures a in h.mem && Look(Collect(h, roots, evacuation, emergency).0.mem[b]) == Look(h.mem[a])
  {
    hide LaidOut, Closed, Conserved, Bytes, Finished, Ready, RunTrace, Before, Sweep, HandOut, RootGoesStale;
    RootsStandIn(h, roots, evacuation, emergency);
    var (sp, list, defrag) := Before(h, evacuation, emergency);
    var mem := WithPins(h.mem, roots.conservative, true);
    var t := RunTrace(mem, sp, roots, Mode(!h.live, defrag)).0;
    assert Marked(t.mem, !h.live, b);
    SurvivorsSimulate(mem, roots, t, !h.live, b);
    a := t.origin[b];
  }

  lemma PlaceLooks(h: Heap, req: Request, b: Address)
    requires b in Place(h, req).0.mem
    ensures Look(Place(h, req).0.mem[b]) == Wanted(req) || (b in h.mem && Place(h, req).0.mem[b] == h.mem[b])
  {
    hide Allocate;
  }

  /** So does every object after an allocation, except for the new one. */
  lemma AllocateLooks(h: Heap, roots: Roots, req: Request, b: Address) returns (a: Address)
    requires HeapInv(h) && CanAllocate(h, roots, req) && b in AllocateObject(h, roots, req).0.mem
    ensures var h' := AllocateObject(h, roots, req).0;
            Look(h'.mem[b]) == Wanted(req) || (a in h.mem && Look(h'.mem[b]) == Look(h.mem[a]))
  {
    hide HeapInv, Collect, Place, Look, CanAllocate;
    a := b;
    assert RootsLive(h.mem, roots) by { Allocatable(h, roots, req); }
    var (h2, roots1, got) := Tried(h, roots, req);
    if got.None? {
      TriedKeeps(h, roots, req);
      var h3 := Collect(h2, roots1, true, true).0;
      PlaceLooks(h3, req, b);
      if b in h3.mem { a := CollectLooks(h2, roots1, true, true, b); }
    }
    if a in h2.mem {
      var h1 := Paced(h, roots).0;
      PlaceLooks(h1, req, a);
      if a in h1.mem && h.used >= h.threshold { a := CollectLooks(h, roots, false, true, a); }
    }
  }

  lemma Allocatable(h: Heap, roots: Roots, req: Request)
    requires HeapInv(h) && CanAllocate(h, roots, req)
    ensures RootsLive(h.mem, roots)
  {}

  /** Step `i` of a run allocated an object that looked like this. */
  predicate Requested(steps: seq<Step>, i: nat, sight: Sight) {
    i < |steps| && steps[i].Alloc? && Wanted(steps[i].req) == sight
  }

  /** In every run, every object still has the size, the payload, the type information and the number
      of slots that some earlier allocation gave it, through any number of mark flips, slot writes
      and evacuations. */
  lemma {:induction false} ObjectsAreAsAllocated(states: seq<Heap>, steps: seq<Step>, k: nat, b: Address)
    returns (i: nat)
    requires IsRun(states, steps) && k < |states| && b in states[k].mem
    ensures i < k && Requested(steps, i, Look(states[k].mem[b]))
    decreases k
  {
    hide HeapInv, Look, Wanted, Perform;
    RunStartsEmpty(states, steps);
    RunsKeepInv(states, steps, k - 1);
    var h, step := states[k - 1], steps[k - 1];
    assert Next(h, step, states[k - 1 + 1]);
    var a, isNew := StepLooks(h, step, b);
    if isNew { i := k - 1; } else { i := ObjectsAreAsAllocated(states, steps, k - 1, a); }
  }

  lemma RunStartsEmpty(states: seq<Heap>, steps: seq<Step>)
    requires IsRun(states, steps)
    ensures states[0].mem == map[]
  {
    hide Next;
    var start, bound, threshold :| Starts(states[0], start, bound, threshold);
  }

  lemma StepLooks(h: Heap, step: Step, b: Address) returns (a: Address, isNew: bool)
    requires HeapInv(h) && Enabled(h, step) && b in Perform(h, step).mem
    ensures isNew ==> step.Alloc? && Look(Perform(h, step).mem[b]) == Wanted(step.req)
    ensures !isNew ==> a in h.mem && Look(Perform(h, step).mem[b]) == Look(h.mem[a])
  {
    hide HeapInv, Collect, AllocateObject, CanAllocate;
    a, isNew := b, false;
    match step
    case Alloc(roots, req) =>
      a := AllocateLooks(h, roots, req, b);
      isNew := !(a in h.mem && Look(Perform(h, step).mem[b]) == Look(h.mem[a]));
    case Store(_, _, _) =>
    case Gc(roots, evacuation) => a := CollectLooks(h, roots, evacuation, false, b);
  }
}
