/** A run to a heap on which the collection that the next allocation begins with loses sharing, or
    leaves a root slot stale. */
module SplitHeap {
  import opened Constants
  import opened Header
  import opened Space
  import opened Layout
  import opened Allocation
  import opened Memory
  import opened Trace
  import opened TraceTheorems
  import opened RootSlots
  import opened Collection
  import opened CollectionProofs
  import opened HeapRuns

  /** The mapping has room for two blocks. The first ends up in the headroom, the second in use. */
  const BOUND := 98304
  const SPARE := 32768
  const USED := 65536

  /** The parent has two slots, both at the child. */
  const CHILD := USED + LINE_SIZE
  const PARENT := CHILD + 16

  const NO_ROOTS := Roots([], [])

  /** An object that dies at once, a collection, the child, and the parent. */
  const STEPS := [
    Alloc(NO_ROOTS, Request(16, 0, [], 0)),
    Gc(NO_ROOTS, false),
    Alloc(NO_ROOTS, Request(16, 0, [], 0)),
    Alloc(Roots([CHILD], []), Request(32, 0, [CHILD, CHILD], 0))]

  const NONE := Allocator([], [], None)
  const IN_USE := CLEAR_BLOCK.(isAllocated := true)

  function Using(b: Address, low: nat): Allocator { Allocator([], [], Some(Window(b, low, BLOCK_SIZE - 1))) }

  function Plain(mark: bool): Header<Address> { Header(0, mark, false, false) }

  const FIRST := Heap(
    map[SPARE + LINE_SIZE := Object(Plain(false), 16, [], 0)], {SPARE + LINE_SIZE},
    Space(map[SPARE := IN_USE], BlockAllocator(0, BOUND, USED, []), Using(SPARE, 144), NONE, NONE),
    [], [], 16, 48, false)

  const CLEARED := Heap(
    map[], {},
    Space(map[SPARE := CLEAR_BLOCK], BlockAllocator(0, BOUND, USED, []), NONE, NONE, Allocator([], [SPARE], None)),
    [], [], 0, 48, true)

  const ONE_CHILD := Heap(
    map[CHILD := Object(Plain(true), 16, [], 0)], {CHILD},
    Space(map[SPARE := CLEAR_BLOCK, USED := IN_USE], BlockAllocator(0, BOUND, BOUND, []), Using(USED, 144), NONE,
          Allocator([], [SPARE], None)),
    [], [], 16, 48, true)

  const FAMILY := Heap(
    map[CHILD := Object(Plain(true), 16, [], 0), PARENT := Object(Plain(true), 32, [CHILD, CHILD], 0)], {CHILD, PARENT},
    Space(map[SPARE := CLEAR_BLOCK, USED := IN_USE], BlockAllocator(0, BOUND, BOUND, []), Using(USED, 176), NONE,
          Allocator([], [SPARE], None)),
    [], [], 48, 48, true)

  const STATES := [EmptyHeap(0, BOUND, 48), FIRST, CLEARED, ONE_CHILD, FAMILY]

  // The run.

  /** An allocation that neither collects nor fails. */
  lemma PlainAllocation(h: Heap, roots: Roots, req: Request)
    requires HeapInv(h) && RootsLive(h.mem, roots) && roots.precise == [] && Requestable(req) && h.used < h.threshold
    requires forall k :: 0 <= k < |req.slots| ==> req.slots[k] in roots.conservative
    requires Place(h, req).1.Some?
    ensures Enabled(h, Alloc(roots, req)) && Perform(h, Alloc(roots, req)) == Place(h, req).0
  {
    hide HeapInv, RootsLive, Place, Collect;
    DifferentTargetsCanAllocate(h, roots, req);
  }

  /** Sixteen bytes from a block carved for them. */
  lemma InNewBlock(sp: Space)
    requires sp.normal == NONE && sp.ba.free == [] && sp.ba.cursor + BLOCK_SIZE <= sp.ba.bound
    ensures var b := sp.ba.cursor;
            Allocate(sp, Normal, 16) ==
            (sp.(blocks := sp.blocks[b := IN_USE], ba := sp.ba.(cursor := b + BLOCK_SIZE), normal := Using(b, 144)),
             Some(b + LINE_SIZE))
  {
    var b := sp.ba.cursor;
    assert sp.blocks[b := CLEAR_BLOCK][b := IN_USE] == sp.blocks[b := IN_USE];
    AlignedAlready(LINE_SIZE);
    hide AlignUp;
  }

  /** Thirty-two bytes more from the same block. */
  lemma InOpenWindow(sp: Space)
    requires sp.normal == Using(USED, 144)
    ensures Allocate(sp, Normal, 32) == (sp.(normal := Using(USED, 176)), Some(PARENT))
  {
    AlignedAlready(144);
    hide AlignUp;
  }

  lemma FirstStep()
    requires HeapInv(STATES[0])
    ensures Enabled(STATES[0], STEPS[0]) && Perform(STATES[0], STEPS[0]) == FIRST
  {
    hide HeapInv, Allocate, AlignUp;
    AlignedAlready(16);
    InNewBlock(STATES[0].space);
    assert Place(STATES[0], STEPS[0].req).0 == FIRST;
    PlainAllocation(STATES[0], NO_ROOTS, STEPS[0].req);
  }

  lemma ThirdStep()
    requires HeapInv(CLEARED)
    ensures Enabled(CLEARED, STEPS[2]) && Perform(CLEARED, STEPS[2]) == ONE_CHILD
  {
    hide HeapInv, Allocate, AlignUp;
    AlignedAlready(16);
    InNewBlock(CLEARED.space);
    assert Place(CLEARED, STEPS[2].req).0 == ONE_CHILD;
    PlainAllocation(CLEARED, NO_ROOTS, STEPS[2].req);
  }

  lemma FourthStep()
    requires HeapInv(ONE_CHILD)
    ensures Enabled(ONE_CHILD, STEPS[3]) && Perform(ONE_CHILD, STEPS[3]) == FAMILY
  {
    hide HeapInv, Allocate, AlignUp;
    AlignedAlready(32);
    InOpenWindow(ONE_CHILD.space);
    assert Place(ONE_CHILD, STEPS[3].req).0 == FAMILY;
    PlainAllocation(ONE_CHILD, Roots([CHILD], []), STEPS[3].req);
  }

  /** The first collection does not evacuate. */
  lemma FirstGathered()
    ensures Before(FIRST, false, false) ==
            (Space(map[SPARE := IN_USE], BlockAllocator(0, BOUND, USED, []), NONE, NONE, NONE), [SPARE], false)
  {
    assert Gathered(FIRST.space) == [SPARE];
    assert [] + [SPARE] == [SPARE];
    assert ClearedLines(map[SPARE := IN_USE], [SPARE]) == map[SPARE := IN_USE];
  }

  /** A trace without roots does nothing. */
  lemma RootlessTrace(mem: Memory, sp: Space, next: bool)
    requires Ready(mem, sp, NO_ROOTS, next)
    ensures RunTrace(mem, sp, NO_ROOTS, Mode(next, false)) == (Start(mem, {}, sp, []), [])
  {
    hide LaidOut;
  }

  lemma SweptFirst()
    ensures Sweep(map[SPARE := IN_USE], [SPARE]) == Swept(map[SPARE := CLEAR_BLOCK], [], [], [SPARE], [])
  {
    assert Sweep(map[SPARE := IN_USE], [SPARE][..0]) == Swept(map[SPARE := IN_USE], [], [], [], []);
    assert map[SPARE := IN_USE][SPARE := CLEAR_BLOCK] == map[SPARE := CLEAR_BLOCK];
  }

  lemma SecondStep()
    requires HeapInv(FIRST)
    ensures Enabled(FIRST, STEPS[1]) && Perform(FIRST, STEPS[1]) == CLEARED
  {
    hide HeapInv, Before, RunTrace, Sweep, Ready;
    BeforeReady(FIRST, NO_ROOTS, false, false);
    FirstGathered();
    SweptFirst();
    var sp, mem := Before(FIRST, false, false).0, WithPins(FIRST.mem, [], true);
    RootlessTrace(mem, sp, true);
    assert Survivors(Start(mem, {}, sp, []), true) == map[];
    assert WithPins(map[], [], false) == map[];
  }

  /** A run that starts with an empty heap ends with the family. */
  lemma FamilyIsReached()
    ensures IsRun(STATES, STEPS) && STATES[4] == FAMILY && HeapInv(FAMILY)
  {
    hide HeapInv, Enabled, Perform;
    EmptyHeapInv(0, BOUND, 48);
    assert Starts(STATES[0], 0, BOUND, 48);
    FirstStep();
    PerformKeepsInv(STATES[0], STEPS[0]);
    SecondStep();
    PerformKeepsInv(FIRST, STEPS[1]);
    ThirdStep();
    PerformKeepsInv(CLEARED, STEPS[2]);
    FourthStep();
    PerformKeepsInv(ONE_CHILD, STEPS[3]);
  }

  // What the next allocation does to it.

  /** The next allocation begins with an emergency collection, which evacuates, and the child may
      move. */
  lemma ChildMoves(roots: Roots)
    requires CHILD !in roots.conservative
    ensures var (sp, list, defrag) := Before(FAMILY, false, true);
            && FAMILY.used >= FAMILY.threshold && defrag && |sp.evac.pool| > 0
            && Movable(WithPins(FAMILY.mem, roots.conservative, true), sp, CHILD)
  {
    assert Gathered(FAMILY.space) == [USED];
    assert [] + [USED] == [USED];
    assert BlockOf(CHILD) == USED;
  }

  /** Sharing is lost: the parent's two slots lead to different objects after the collection. */
  lemma SharingLost()
    ensures HeapInv(FAMILY) && RootsLive(FAMILY.mem, Roots([PARENT], []))
    ensures var after := Paced(FAMILY, Roots([PARENT], [])).0.mem;
            PARENT in after && |after[PARENT].slots| == 2 && after[PARENT].slots[0] != after[PARENT].slots[1]
  {
    FamilyIsReached();
    var roots := Roots([PARENT], []);
    ChildMoves(roots);
    hide HeapInv, Collect, Before, Movable, IsRun;
    CollectSharesPairExactlyWhen(FAMILY, roots, false, true, 0, 1);
    FirstSlotWillSplitExactlyWhen(FAMILY, roots, false, true);
  }

  /** Sharing is kept once a precise root leads to the child: both slots end where the root does. */
  lemma SharingKeptThroughRoot()
    ensures HeapInv(FAMILY) && RootsLive(FAMILY.mem, Roots([PARENT], [CHILD]))
    ensures var (h, precise) := Paced(FAMILY, Roots([PARENT], [CHILD]));
            && PARENT in h.mem && |h.mem[PARENT].slots| == 2 && |precise| == 1
            && h.mem[PARENT].slots[0] == h.mem[PARENT].slots[1] == precise[0]
  {
    FamilyIsReached();
    var roots, mem := Roots([PARENT], [CHILD]), FAMILY.mem;
    hide HeapInv, Collect, Before, RootGoesStale, IsRun;
    NoneGoesStale(FAMILY, roots, false, true, 0);
    RootLiveExactlyWhen(FAMILY, roots, false, true);
    var (h, precise) := Collect(FAMILY, roots, false, true);
    CollectPreservesMeaning(FAMILY, roots, false, true, []);
    var s := CollectKeepsSharing(FAMILY, roots, false, true, CHILD);
    assert Follow(mem, PARENT, []) == Some(PARENT) && Follow(mem, CHILD, []) == Some(CHILD);
    assert [0][1..] == [] && [1][1..] == [];
    assert Follow(mem, PARENT, [0]) == Some(CHILD) && Follow(mem, PARENT, [1]) == Some(CHILD);
    assert roots.conservative[0] == PARENT && roots.precise[0] == CHILD;
    assert See(h.mem, PARENT, []) == See(mem, PARENT, []);
    assert Follow(h.mem, PARENT, [0]) == Some(s) && Follow(h.mem, PARENT, [1]) == Some(s);
    assert Follow(h.mem, precise[0], []) == Some(s);
  }

  /** A root slot goes stale: of two precise roots at the child, the second is left at the child's old
      address, where nothing lives any more. */
  lemma RootLeftStale()
    ensures HeapInv(FAMILY) && RootsLive(FAMILY.mem, Roots([], [CHILD, CHILD]))
    ensures var (h, precise) := Paced(FAMILY, Roots([], [CHILD, CHILD]));
            |precise| == 2 && precise[0] in h.mem && precise[1] !in h.mem
  {
    FamilyIsReached();
    var roots := Roots([], [CHILD, CHILD]);
    ChildMoves(roots);
    hide HeapInv, Collect, Before, Movable, RootGoesStale, IsRun;
    PairGoesStaleExactlyWhen(FAMILY, roots, false, true, CHILD);
    RootLiveExactlyWhen(FAMILY, roots, false, true);
  }
}
