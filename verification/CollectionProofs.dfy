/** A collection keeps the heap's invariant, loses no block, frees no survivor, and preserves what
    the mutator can observe through its roots. */
module CollectionProofs {
  import opened Constants
  import opened Lines
  import opened Space
  import opened Layout
  import opened AllocationProofs
  import opened Memory
  import opened Trace
  import opened TraceProofs
  import opened TraceTheorems
  import opened RootSlots
  import opened Sharing
  import opened Histogram
  import opened Collection

  /** Between collections every object carries the live mark, is neither pinned nor forwarded, and
      refers to objects only; the index holds exactly the objects; each carved block is in one
      place, none of them with the collector; and the byte count is the sum of all sizes. */
  ghost predicate HeapInv(h: Heap) {
    && LaidOut(Sizes(h.mem), h.space)
    && Conserved(h.space, multiset{}) && h.allBlocks == []
    && |h.space.evac.pool| <= EVAC_HEADROOM
    && h.index == h.mem.Keys
    && Closed(h.mem)
    && Clean(h.mem, h.live)
    && h.used == Bytes(Sizes(h.mem), h.mem.Keys)
  }

  ghost predicate Clean(mem: Memory, live: bool) {
    forall a :: a in mem ==> var header := mem[a].header; header.mark == live && !header.forwarded && !header.pinned
  }

  // Gathering the blocks.

  lemma CurrentLists(current: Option<Window>)
    ensures multiset(CurrentList(current)) == CurrentBlock(current)
  {}

  lemma GatheredHolds(sp: Space)
    requires sp.overflow.pool == []
    ensures Ledger(sp) == Ledger(Drained(sp)) + multiset(Gathered(sp))
  {
    CurrentLists(sp.normal.current);
    CurrentLists(sp.overflow.current);
    CurrentLists(sp.evac.current);
    hide CurrentList;
  }

  /** The allocators hold nothing but headroom. */
  predicate Idle(sp: Space) {
    && sp.normal == Allocator([], [], None) && sp.overflow == Allocator([], [], None)
    && sp.evac.unavailable == [] && sp.evac.current == None
  }

  /** Nothing is lost when the allocators give up their blocks. */
  lemma GatherKeeps(ext: Extents, sp: Space)
    requires LaidOut(ext, sp)
    ensures LaidOut(ext, Drained(sp)) && Ledger(sp) == Ledger(Drained(sp)) + multiset(Gathered(sp))
  {
    hide Carved, LinesInBlock, ObjectsPlaced, FreeVacant, HeadroomVacant, Ledger;
    GatheredHolds(sp);
  }

  // Changing the headers of the gathered blocks.

  /** Headers of listed blocks may change their candidate flag and lose their lines. */
  ghost predicate Relabelled(blocks: Headers, blocks': Headers, list: seq<Address>) {
    && blocks'.Keys == blocks.Keys
    && (forall b :: b in blocks && b !in list ==> blocks'[b] == blocks[b])
    && (forall b :: b in blocks && b in list ==> blocks'[b].lines == {})
  }

  lemma RelabelKeeps(ext: Extents, sp: Space, blocks': Headers, list: seq<Address>)
    requires LaidOut(ext, sp) && Relabelled(sp.blocks, blocks', list)
    requires Conserved(sp, multiset(list))
    requires Idle(sp)
    ensures LaidOut(ext, sp.(blocks := blocks')) && Conserved(sp.(blocks := blocks'), multiset(list))
    ensures forall b :: b in blocks' && b !in sp.ba.free ==> blocks'[b].lines == {}
  {
    hide Carved, ObjectsPlaced, FreeVacant, Vacant, Holds;
    forall b | b in sp.evac.pool ensures b !in list {
      HeldOnce(sp, list, b);
    }
    forall b | b in sp.blocks ensures b in sp.ba.free || b in sp.evac.pool || b in list {
      HeldSomewhere(sp, list, b);
    }
  }

  lemma HeldOnce(sp: Space, list: seq<Address>, b: Address)
    requires Conserved(sp, multiset(list)) && (b in sp.evac.pool || b in sp.ba.free)
    ensures b !in list
  {
    assert multiset(sp.blocks.Keys)[b] <= 1;
    assert b in Holds(sp.evac) || b in sp.ba.free;
    assert Ledger(sp)[b] >= 1;
    assert b in list <==> multiset(list)[b] >= 1;
  }

  lemma HeldSomewhere(sp: Space, list: seq<Address>, b: Address)
    requires Conserved(sp, multiset(list)) && b in sp.blocks
    requires Idle(sp)
    ensures b in sp.ba.free || b in sp.evac.pool || b in list
  {
    assert b in multiset(sp.blocks.Keys);
  }

  /** Preparing and clearing only relabel the listed blocks. */
  lemma PrepareRelabels(sp: Space, list: seq<Address>, marks: seq<Entry>, evacuation: bool, emergency: bool)
    ensures Relabelled(sp.blocks, ClearedLines(Prepare(sp, list, marks, evacuation, emergency).0, list), list)
  {}

  /** A collection that is no emergency evacuates only if there is headroom. */
  lemma OrdinaryEvacuationHasHeadroom(sp: Space, list: seq<Address>, marks: seq<Entry>, evacuation: bool)
    ensures Prepare(sp, list, marks, evacuation, false).1 ==> |sp.evac.pool| > 0
  {
    NoHeadroomNoEvacuation(FreeEntries(sp.blocks, list), marks);
  }

  // The start of the trace.

  /** The space as the trace finds it. */
  lemma BeforeSpace(h: Heap, evacuation: bool, emergency: bool)
    requires HeapInv(h)
    ensures var (sp, list, defrag) := Before(h, evacuation, emergency);
            && LaidOut(Sizes(h.mem), sp) && Conserved(sp, multiset(list)) && Idle(sp)
            && (forall b :: b in sp.blocks && b !in sp.ba.free ==> sp.blocks[b].lines == {})
            && |sp.evac.pool| <= EVAC_HEADROOM
  {
    hide LaidOut, Closed, Clean, Ledger, Bytes, ClearedLines, Prepare, Relabelled, Sizes;
    var ext := Sizes(h.mem);
    var (sp, list, defrag) := Before(h, evacuation, emergency);
    GatherKeeps(ext, h.space);
    LaidOutParts(ext, h.space);
    var drained := Drained(h.space);
    PrepareRelabels(drained, list, h.marks, evacuation, emergency);
    assert h.allBlocks + Gathered(h.space) == Gathered(h.space);
    RelabelKeeps(ext, drained, sp.blocks, list);
  }

  /** The heap as the trace finds it. */
  lemma BeforeReady(h: Heap, roots: Roots, evacuation: bool, emergency: bool)
    requires HeapInv(h) && RootsLive(h.mem, roots)
    ensures var (sp, list, defrag) := Before(h, evacuation, emergency);
            var mem := WithPins(h.mem, roots.conservative, true);
            && Ready(mem, sp, roots, !h.live) && Conserved(sp, multiset(list)) && Idle(sp)
            && ClearedIndex(h.index, list) == {} && |sp.evac.pool| <= EVAC_HEADROOM
  {
    hide LaidOut, Closed, Conserved, Bytes, Before, BlockOf;
    var (sp, list, defrag) := Before(h, evacuation, emergency);
    BeforeSpace(h, evacuation, emergency);
    PinnedSizes(h.mem, roots.conservative, true);
    PinnedClosed(h.mem, roots.conservative, true);
    IndexCleared(Sizes(h.mem), sp, list, h.index);
    assert EvacTargetOk(sp);
  }

  /** Every root is an object; the conservative ones because they passed `filter`. */
  ghost predicate RootsLive(mem: Memory, roots: Roots) {
    && (forall k :: 0 <= k < |roots.conservative| ==> roots.conservative[k] in mem)
    && (forall k :: 0 <= k < |roots.precise| ==> roots.precise[k] in mem)
  }

  lemma LaidOutParts(ext: Extents, sp: Space)
    requires LaidOut(ext, sp)
    ensures sp.overflow.pool == []
  {}

  lemma PinnedSizes(mem: Memory, roots: seq<Address>, pinned: bool)
    ensures Sizes(WithPins(mem, roots, pinned)) == Sizes(mem)
  {}

  lemma PinnedClosed(mem: Memory, roots: seq<Address>, pinned: bool)
    requires Closed(mem)
    ensures Closed(WithPins(mem, roots, pinned))
  {}

  lemma IndexCleared(ext: Extents, sp: Space, list: seq<Address>, index: set<Address>)
    requires LaidOut(ext, sp) && Conserved(sp, multiset(list)) && Idle(sp) && index == ext.Keys
    ensures ClearedIndex(index, list) == {}
  {
    hide Ledger, Carved, LinesInBlock, AllApart, PoolScannable, CurrentOk;
    forall a | a in ext ensures BlockOf(a) in list {
      assert Placed(a, ext[a], sp.blocks.Keys);
      HeldSomewhere(sp, list, BlockOf(a));
      assert !Vacant(ext, BlockOf(a));
    }
  }

  // The sweep.

  ghost predicate NoRepeats(list: seq<Address>) {
    forall i, j :: 0 <= i < j < |list| ==> list[i] != list[j]
  }

  /** The sweep's three lists are a partition of the swept blocks; freed blocks had no marked line
      and are reset; the others keep their lines and candidate flag. */
  ghost predicate SweptOk(blocks: Headers, list: seq<Address>, s: Swept) {
    Partition(list, s) && Classified(blocks, list, s)
  }

  ghost predicate Partition(list: seq<Address>, s: Swept) {
    multiset(s.unavailable) + multiset(s.recyclable) + multiset(s.free) == multiset(list)
  }

  ghost predicate Classified(blocks: Headers, list: seq<Address>, s: Swept) {
    && s.blocks.Keys == blocks.Keys
    && (forall b :: b in blocks && b !in list ==> s.blocks[b] == blocks[b])
    && (forall b :: b in s.free ==> b in blocks && blocks[b].lines == {} && s.blocks[b] == CLEAR_BLOCK)
    && (forall b :: b in s.recyclable || b in s.unavailable ==>
          b in blocks && blocks[b].lines != {}
          && s.blocks[b] == blocks[b].(holeCount := HoleWeight(blocks[b].lines, 0)))
    && (forall b :: b in s.unavailable ==> HoleWeight(blocks[b].lines, 0) == 0)
    && (forall b :: b in s.recyclable ==> HoleWeight(blocks[b].lines, 0) > 0)
  }

  lemma {:induction false} SweepPartitions(blocks: Headers, list: seq<Address>)
    requires NoRepeats(list) && forall b :: b in list ==> b in blocks
    ensures SweptOk(blocks, list, Sweep(blocks, list))
  {
    if list != [] {
      var rest, b := list[..|list| - 1], list[|list| - 1];
      assert list == rest + [b];
      SweepPartitions(blocks, rest);
      assert b !in rest;
      SweepOneMore(blocks, rest, b, Sweep(blocks, rest));
    }
  }

  lemma SweepOneMore(blocks: Headers, rest: seq<Address>, b: Address, s: Swept)
    requires SweptOk(blocks, rest, s) && b !in rest && b in blocks
    ensures SweptOk(blocks, rest + [b], SweepBlock(s, b))
  {
    assert b !in s.free && b !in s.recyclable && b !in s.unavailable by {
      hide Classified;
      assert b !in multiset(rest);
    }
    OneMoreListed(rest, b, s);
    OneMoreClassified(blocks, rest, b, s);
    hide SweepBlock, Partition, Classified;
  }

  lemma OneMoreListed(rest: seq<Address>, b: Address, s: Swept)
    requires Partition(rest, s) && b in s.blocks
    ensures Partition(rest + [b], SweepBlock(s, b))
  {
    hide HoleWeight;
  }

  lemma OneMoreClassified(blocks: Headers, rest: seq<Address>, b: Address, s: Swept)
    requires Classified(blocks, rest, s) && b !in rest && b in blocks
    requires b !in s.free && b !in s.recyclable && b !in s.unavailable
    ensures Classified(blocks, rest + [b], SweepBlock(s, b))
  {
    hide HoleWeight;
  }

  /** The header line is never marked, so no block counts as having no hole: the collector's own
      list ends up empty. */
  lemma NothingUnavailable(sp: Space, list: seq<Address>, s: Swept)
    requires SweptOk(sp.blocks, list, s) && LinesInBlock(sp.blocks)
    ensures s.unavailable == []
  {
    if |s.unavailable| > 0 {
      var b := s.unavailable[0];
      HeaderLineIsAHole(sp.blocks[b].lines);
    }
  }

  lemma HeaderLineIsAHole(lines: set<nat>)
    requires 0 !in lines
    ensures HoleWeight(lines, 0) > 0
  {
    HoleWeightBounds(lines, 0);
  }

  lemma CountedTwice(list: seq<Address>, i: nat, j: nat)
    requires i < j < |list| && list[i] == list[j]
    ensures multiset(list)[list[i]] >= 2
  {
    assert list == list[..i] + [list[i]] + list[i + 1..j] + [list[j]] + list[j + 1..];
  }

  lemma ListHasNoRepeats(sp: Space, list: seq<Address>)
    requires Conserved(sp, multiset(list))
    ensures NoRepeats(list) && forall b :: b in list ==> b in sp.blocks
  {
    assert forall b :: multiset(list)[b] <= multiset(sp.blocks.Keys)[b] <= 1;
    forall i, j | 0 <= i < j < |list| ensures list[i] != list[j] {
      if list[i] == list[j] { CountedTwice(list, i, j); }
    }
    forall b | b in list ensures b in sp.blocks {
      assert b in multiset(list);
      assert b in multiset(sp.blocks.Keys);
    }
  }

  // After the sweep.

  lemma FewerObjects(ext: Extents, ext': Extents, sp: Space)
    requires LaidOut(ext, sp) && forall a :: a in ext' ==> a in ext && ext'[a] == ext[a]
    ensures LaidOut(ext', sp)
  {
    hide Owned;
  }

  /** A block is freed exactly when it holds no survivor. */
  lemma FreedExactlyWhenVacant(t: Trace, next: bool, b: Address)
    requires LinesOk(t, next) && LinesJustified(t, next) && b in t.space.blocks && b !in t.space.ba.free
    ensures t.space.blocks[b].lines == {} <==> Vacant(Sizes(Survivors(t, next)), b)
  {
    var ext := Sizes(Survivors(t, next));
    if t.space.blocks[b].lines == {} {
      forall a | a in ext ensures BlockOf(a) != b {
        assert Marked(t.mem, next, a);
        assert InMarkSpan(Offset(a), t.mem[a].size, Offset(a) / LINE_SIZE);
      }
    } else {
      var l :| l in t.space.blocks[b].lines;
      var a :| Justifies(t.mem, next, a, b, l);
      assert a in ext;
    }
  }

  lemma HandOutLedger(sp: Space, list: seq<Address>, s: Swept)
    requires Idle(sp.(evac := sp.evac.(unavailable := [], current := None)))
    requires Conserved(sp, multiset(list)) && SweptOk(sp.blocks, list, s) && s.unavailable == []
    ensures Conserved(HandOut(sp, s), multiset{})
  {
    var n := Refilled(|sp.evac.pool|, |s.free|);
    assert s.free == s.free[..n] + s.free[n..];
  }

  lemma HandOutOwned(sp: Space, list: seq<Address>, s: Swept)
    requires Owned(sp) && SweptOk(sp.blocks, list, s) && s.unavailable == []
    requires Conserved(HandOut(sp, s), multiset{})
    requires forall b :: b in list ==> b in s.free || b in s.recyclable
    ensures Owned(HandOut(sp, s))
  {
    hide Ledger, HoleWeight;
    forall b, l | b in s.blocks && l in s.blocks[b].lines ensures 1 <= l < LINES_PER_BLOCK {
      assert l in sp.blocks[b].lines;
    }
  }

  lemma EveryBlockSwept(blocks: Headers, list: seq<Address>, s: Swept)
    requires SweptOk(blocks, list, s) && s.unavailable == []
    ensures forall b :: b in list <==> b in s.free || b in s.recyclable
  {
    forall b ensures b in list <==> b in s.free || b in s.recyclable {
      assert b in multiset(list) <==> b in list;
    }
  }

  /** Freed blocks are vacant and recyclable blocks can be scanned, so handing them out again
      endangers no survivor. */
  lemma HandOutReserved(ext: Extents, sp: Space, list: seq<Address>, s: Swept)
    requires Reserved(ext, sp) && SweptOk(sp.blocks, list, s)
    requires forall b :: b in s.free ==> Vacant(ext, b)
    requires forall b :: b in s.recyclable ==> Scannable(ext, LinesOf(sp.blocks, b), b)
    requires forall b :: b in sp.evac.pool ==> b !in list
    requires sp.evac.current.Some? ==> sp.evac.current.value.block !in list
    requires sp.normal.current == None && sp.overflow.current == None
    ensures Reserved(ext, HandOut(sp, s))
  {
    hide Vacant, Scannable, WindowShape, WindowClear, HoleWeight;
    var n := Refilled(|sp.evac.pool|, |s.free|);
    var sp' := HandOut(sp, s);
    assert FreeVacant(ext, sp'.ba.free);
    assert HeadroomVacant(ext, sp'.blocks, sp'.evac.pool);
    assert PoolScannable(ext, sp'.blocks, sp'.normal.pool);
    if sp.evac.current.Some? {
      var b := sp.evac.current.value.block;
      assert LinesOf(sp'.blocks, b) == LinesOf(sp.blocks, b);
    }
  }

  lemma LedgerApart(sp: Space, list: seq<Address>, b: Address)
    requires Conserved(sp, multiset(list)) && b in Ledger(sp)
    ensures b !in list
  {
    hide Ledger;
    assert (Ledger(sp) + multiset(list))[b] == multiset(sp.blocks.Keys)[b] <= 1;
    assert b in list <==> multiset(list)[b] >= 1;
  }

  lemma HeldElsewhere(sp: Space, list: seq<Address>)
    requires Conserved(sp, multiset(list))
    ensures forall b :: b in sp.evac.pool ==> b !in list
    ensures forall b :: b in sp.ba.free ==> b !in list
    ensures sp.evac.current.Some? ==> sp.evac.current.value.block !in list
  {
    forall b | b in sp.evac.pool || b in sp.ba.free || (sp.evac.current.Some? && b == sp.evac.current.value.block)
      ensures b !in list
    {
      assert b in Holds(sp.evac) || b in sp.ba.free;
      LedgerApart(sp, list, b);
    }
  }

  /** What the sweep hands out is laid out around the survivors, and every block is accounted for. */
  lemma HandOutLaidOut(t: Trace, next: bool, list: seq<Address>)
    requires LaidOut(Sizes(t.mem), t.space) && LinesOk(t, next) && LinesJustified(t, next)
    requires Conserved(t.space, multiset(list))
    requires t.space.normal == Allocator([], [], None) && t.space.overflow == Allocator([], [], None)
    ensures var s := Sweep(t.space.blocks, list);
            && s.unavailable == []
            && LaidOut(Sizes(Survivors(t, next)), HandOut(t.space, s))
            && Conserved(HandOut(t.space, s), multiset{})
            && (forall b :: b in list ==> (b in s.free <==> Vacant(Sizes(Survivors(t, next)), b)))
            && (forall b :: b in list && b !in s.free ==> b in s.recyclable)
  {
    hide Carved, Ledger, AllPlaced, AllApart, Reserved, Vacant, Scannable, SweepBlock, Sweep, LinesOk, LinesJustified,
         HandOut, BlockOf, Offset;
    var ext := Sizes(Survivors(t, next));
    var s := Sweep(t.space.blocks, list);
    ListHasNoRepeats(t.space, list);
    SweepPartitions(t.space.blocks, list);
    NothingUnavailable(t.space, list, s);
    EveryBlockSwept(t.space.blocks, list, s);
    HeldElsewhere(t.space, list);
    FewerObjects(Sizes(t.mem), ext, t.space);
    HandOutLedger(t.space, list, s);
    HandOutOwned(t.space, list, s);
    forall b | b in list ensures b in s.free <==> Vacant(ext, b) {
      FreedExactlyWhenVacant(t, next, b);
    }
    forall b | b in s.recyclable ensures Scannable(ext, LinesOf(t.space.blocks, b), b) {
      SurvivorsScannable(t, next, b);
    }
    HandOutReserved(ext, t.space, list, s);
    HandOutKeys(t.space, list, s);
  }

  lemma SurvivorsScannable(t: Trace, next: bool, b: Address)
    requires LinesOk(t, next)
    ensures Scannable(Sizes(Survivors(t, next)), LinesOf(t.space.blocks, b), b)
  {
    hide BlockOf, Offset, LineMarked;
  }

  lemma HandOutKeys(sp: Space, list: seq<Address>, s: Swept)
    requires SweptOk(sp.blocks, list, s)
    ensures HandOut(sp, s).blocks.Keys == sp.blocks.Keys
  {}

  // The whole collection.

  /** `collect_internal`: the heap after the collection and the new values of the precise roots. */
  function Collect(h: Heap, roots: Roots, evacuation: bool, emergency: bool): (Heap, seq<Address>)
    requires HeapInv(h) && RootsLive(h.mem, roots)
  {
    BeforeReady(h, roots, evacuation, emergency);
    var (sp, list, defrag) := Before(h, evacuation, emergency);
    var (t, precise) := RunTrace(WithPins(h.mem, roots.conservative, true), sp, roots, Mode(!h.live, defrag));
    (After(h.live, h.threshold, t, list, roots), precise)
  }

  lemma SurvivorsClosed(mem: Memory, roots: Roots, t: Trace, next: bool)
    requires Finished(mem, roots, t, next)
    ensures Closed(Survivors(t, next))
  {
    hide Finished;
    forall a, i | a in Survivors(t, next) && 0 <= i < |Survivors(t, next)[a].slots|
      ensures Survivors(t, next)[a].slots[i] in Survivors(t, next)
    {
      SurvivorsSimulate(mem, roots, t, next, a);
    }
  }

  /** After unpinning the conservative roots nothing is pinned any more. */
  lemma SurvivorsClean(mem: Memory, roots: Roots, t: Trace, next: bool)
    requires Finished(mem, roots, t, next)
    requires forall a :: a in mem && mem[a].header.pinned ==> a in roots.conservative
    ensures Clean(WithPins(Survivors(t, next), roots.conservative, false), next)
  {
    hide Traceable, Colours, IndexOk, LinesOk, LinesJustified, VisitedOk, StemsFrom, Reached, SlotsLead;
    var after := WithPins(Survivors(t, next), roots.conservative, false);
    forall a | a in after
      ensures var header := after[a].header; header.mark == next && !header.forwarded && !header.pinned
    {
      assert Marked(t.mem, next, a) && a in t.origin && t.origin[a] in mem;
    }
  }

  lemma SurvivorsCounted(mem: Memory, roots: Roots, t: Trace, next: bool)
    requires Finished(mem, roots, t, next)
    ensures var survivors := Survivors(t, next);
            t.index == survivors.Keys && t.visited == Bytes(Sizes(survivors), survivors.Keys)
  {
    hide Traceable, Simulates, Forwards, QueueOk, LinesOk, LinesJustified, PinsOk, StemsFrom, Reached, Bytes,
         TricolorBut, BlockOf;
    var survivors := Survivors(t, next);
    assert survivors.Keys == MarkedSet(t.mem, next);
    forall a ensures a in t.index <==> a in survivors {
      if a in t.mem && a !in mem { assert Alive(t, next, a); }
    }
    BytesSame(Sizes(t.mem), Sizes(survivors), survivors.Keys);
  }

  lemma FinishedBooks(mem: Memory, roots: Roots, t: Trace, next: bool)
    requires Finished(mem, roots, t, next)
    ensures LinesOk(t, next) && LinesJustified(t, next) && LaidOut(Sizes(t.mem), t.space)
  {}

  lemma FramedConserved(sp: Space, sp': Space, held: multiset<Address>)
    requires SpaceFrame(sp, sp') && Conserved(sp, held)
    ensures Conserved(sp', held)
  {
    hide Ledger;
  }

  /** The collection keeps the invariant of the heap. */
  lemma CollectKeepsInv(h: Heap, roots: Roots, evacuation: bool, emergency: bool)
    requires HeapInv(h) && RootsLive(h.mem, roots)
    ensures HeapInv(Collect(h, roots, evacuation, emergency).0)
  {
    hide LaidOut, Closed, Ledger, Bytes, Ready, Finished, Traceable, SlotSurvives, RunTrace, Before, Sweep, HandOut,
         Conserved;
    BeforeReady(h, roots, evacuation, emergency);
    var (sp, list, defrag) := Before(h, evacuation, emergency);
    var mem, next := WithPins(h.mem, roots.conservative, true), !h.live;
    TraceFinishes(mem, sp, roots, Mode(next, defrag));
    var t := RunTrace(mem, sp, roots, Mode(next, defrag)).0;
    FinishedBooks(mem, roots, t, next);
    FramedConserved(sp, t.space, multiset(list));
    HandOutLaidOut(t, next, list);
    HandOutHeadroom(t.space, Sweep(t.space.blocks, list));
    SurvivorsClosed(mem, roots, t, next);
    PinnedClosed(Survivors(t, next), roots.conservative, false);
    SurvivorsClean(mem, roots, t, next);
    SurvivorsCounted(mem, roots, t, next);
    PinnedSizes(Survivors(t, next), roots.conservative, false);
    var h' := After(h.live, h.threshold, t, list, roots);
    assert h'.mem.Keys == Survivors(t, next).Keys;
  }

  /** The headroom never exceeds its limit, so the subtraction that refills it never underflows, and it
      is full before any block joins the free list. */
  lemma HandOutHeadroom(sp: Space, s: Swept)
    requires |sp.evac.pool| <= EVAC_HEADROOM
    ensures |HandOut(sp, s).evac.pool| <= EVAC_HEADROOM
    ensures |HandOut(sp, s).evac.pool| == EVAC_HEADROOM || HandOut(sp, s).ba.free == sp.ba.free
    ensures sp.evac.pool <= HandOut(sp, s).evac.pool && sp.ba.free <= HandOut(sp, s).ba.free
  {}

  // What the mutator sees.

  /** What a mutator can read of an object, apart from where it lies. */
  datatype Sight = Sight(size: nat, payload: int, rtti: Address, slots: nat)

  function Look(o: Object): Sight { Sight(o.size, o.payload, o.header.pointer, |o.slots|) }

  /** What is seen at the end of a route of slot numbers, if the route exists. */
  function See(mem: Memory, a: Address, route: seq<nat>): Option<Sight> {
    match Follow(mem, a, route)
    case None => None
    case Some(y) => if y in mem then Some(Look(mem[y])) else None
  }

  lemma {:induction false} PinsAreInvisible(mem: Memory, roots: seq<Address>, pinned: bool, a: Address, route: seq<nat>)
    ensures Follow(WithPins(mem, roots, pinned), a, route) == Follow(mem, a, route)
    ensures See(WithPins(mem, roots, pinned), a, route) == See(mem, a, route)
    decreases |route|
  {
    if a in mem && route != [] && route[0] < |mem[a].slots| {
      PinsAreInvisible(mem, roots, pinned, mem[a].slots[route[0]], route[1..]);
    }
  }

  lemma SeesTheSame(mem: Memory, roots: Roots, t: Trace, next: bool, b: Address, route: seq<nat>)
    requires Finished(mem, roots, t, next) && Closed(mem) && Marked(t.mem, next, b) && b in t.origin
    requires forall a :: a in mem ==> !mem[a].header.forwarded
    ensures See(Survivors(t, next), b, route) == See(mem, t.origin[b], route)
  {
    hide Finished;
    var survivors := Survivors(t, next);
    forall x | x in survivors ensures StandsFor(mem, survivors, t.origin, x) {
      SurvivorsSimulate(mem, roots, t, next, x);
    }
    hide Survivors;
    RoutesPreserved(mem, survivors, t.origin, b, route);
    if Follow(survivors, b, route).Some? {
      assert StandsFor(mem, survivors, t.origin, Follow(survivors, b, route).value);
    }
  }

  /** Precise root slot `j` will be left at the old address of a moved target; told before the
      collection. */
  predicate RootGoesStale(h: Heap, roots: Roots, evacuation: bool, emergency: bool, j: nat) {
    var (sp, list, defrag) := Before(h, evacuation, emergency);
    GoesStale(WithPins(h.mem, roots.conservative, true), sp, Mode(!h.live, defrag), roots.precise, j)
  }

  lemma NoneGoesStale(h: Heap, roots: Roots, evacuation: bool, emergency: bool, j: nat)
    requires NoSharedTargets(roots.precise)
    ensures !RootGoesStale(h, roots, evacuation, emergency, j)
  {
    hide GoesStale, Before;
    var (sp, list, defrag) := Before(h, evacuation, emergency);
    DifferentTargetsSurvive(WithPins(h.mem, roots.conservative, true), sp, Mode(!h.live, defrag), roots.precise, j);
  }

  /** Of two precise roots with one target, and no others, the second goes stale exactly when the
      collection evacuates, the target may move, and there is headroom. */
  lemma PairGoesStaleExactlyWhen(h: Heap, roots: Roots, evacuation: bool, emergency: bool, r: Address)
    requires HeapInv(h) && RootsLive(h.mem, roots) && roots.precise == [r, r]
    ensures var (sp, list, defrag) := Before(h, evacuation, emergency);
            && !RootGoesStale(h, roots, evacuation, emergency, 0)
            && (RootGoesStale(h, roots, evacuation, emergency, 1) <==>
                defrag && Movable(WithPins(h.mem, roots.conservative, true), sp, r) && |sp.evac.pool| > 0)
  {
    hide LaidOut, Closed, Conserved, Bytes, Clean, Before, Movable, Room;
    BeforeReady(h, roots, evacuation, emergency);
    var (sp, list, defrag) := Before(h, evacuation, emergency);
    var mem := WithPins(h.mem, roots.conservative, true);
    assert roots.precise[0] in mem && roots.precise[..0] == [];
    RoomAtOnce(mem, sp, r);
    assert Moves(mem, sp, roots.precise, 0) <==> Room(mem, sp, [], r);
  }

  /** What the trace makes of the roots: conservative ones stay where they are, and precise ones end
      at what stands for their targets unless they go stale. */
  lemma RootsStandIn(h: Heap, roots: Roots, evacuation: bool, emergency: bool)
    requires HeapInv(h) && RootsLive(h.mem, roots)
    ensures var (sp, list, defrag) := Before(h, evacuation, emergency);
            var mem, mode := WithPins(h.mem, roots.conservative, true), Mode(!h.live, defrag);
            && Ready(mem, sp, roots, mode.next)
            && var (t, precise) := RunTrace(mem, sp, roots, mode);
            && Finished(mem, roots, t, mode.next) && |precise| == |roots.precise|
            && (forall k :: 0 <= k < |roots.conservative| ==>
                  var a := roots.conservative[k]; Marked(t.mem, mode.next, a) && a in t.origin && t.origin[a] == a)
            && (forall j :: 0 <= j < |precise| ==>
                  (SlotSurvives(t, mode.next, roots, precise, j) <==>
                   !RootGoesStale(h, roots, evacuation, emergency, j)))
            && (forall j :: 0 <= j < |precise| && RootGoesStale(h, roots, evacuation, emergency, j) ==>
                  precise[j] == roots.precise[j] && Forwarded(t.mem, precise[j]))
  {
    hide LaidOut, Closed, Ledger, Bytes, Ready, Finished, Traceable, RunTrace, Before, Conserved, SpaceFrame,
         GoesStale, MovedBefore, SlotSurvives;
    BeforeReady(h, roots, evacuation, emergency);
    var (sp, list, defrag) := Before(h, evacuation, emergency);
    var mem, mode := WithPins(h.mem, roots.conservative, true), Mode(!h.live, defrag);
    TraceFinishes(mem, sp, roots, mode);
    var (t, precise) := RunTrace(mem, sp, roots, mode);
    forall k | 0 <= k < |roots.conservative|
      ensures var a := roots.conservative[k]; Marked(t.mem, mode.next, a) && a in t.origin && t.origin[a] == a
    {
      ConservativeStays(mem, sp, roots, t, mode.next, k);
    }
    forall j | 0 <= j < |precise|
      ensures SlotSurvives(t, mode.next, roots, precise, j) <==> !RootGoesStale(h, roots, evacuation, emergency, j)
      ensures RootGoesStale(h, roots, evacuation, emergency, j) ==>
                precise[j] == roots.precise[j] && Forwarded(t.mem, precise[j])
    {
      RootSurvivesExactlyWhen(mem, sp, roots, mode, j);
    }
  }

  /** After a collection the conservative roots are live, and a precise root slot is live exactly if
      it was not foretold to go stale. */
  lemma RootLiveExactlyWhen(h: Heap, roots: Roots, evacuation: bool, emergency: bool)
    requires HeapInv(h) && RootsLive(h.mem, roots)
    ensures var (h', precise) := Collect(h, roots, evacuation, emergency);
            && |precise| == |roots.precise|
            && (forall k :: 0 <= k < |roots.conservative| ==> roots.conservative[k] in h'.mem)
            && (forall j :: 0 <= j < |precise| ==>
                  (precise[j] in h'.mem <==> !RootGoesStale(h, roots, evacuation, emergency, j)))
  {
    hide HeapInv, Ready, Finished, RunTrace, Before, Sweep, HandOut, RootGoesStale;
    RootsStandIn(h, roots, evacuation, emergency);
    var (sp, list, defrag) := Before(h, evacuation, emergency);
    var (t, precise) := RunTrace(WithPins(h.mem, roots.conservative, true), sp, roots, Mode(!h.live, defrag));
    var h' := Collect(h, roots, evacuation, emergency).0;
    assert forall a :: a in h'.mem <==> Marked(t.mem, !h.live, a);
  }

  /** A collection preserves meaning. Through a root, every route of slots that existed before
      exists after and ends at an object with the same size, type and payload, and no route
      appears; this holds for any graph, whatever was moved and wherever room ran out. Only a
      precise root slot that is foretold to go stale is excepted. */
  lemma CollectPreservesMeaning(h: Heap, roots: Roots, evacuation: bool, emergency: bool, route: seq<nat>)
    requires HeapInv(h) && RootsLive(h.mem, roots)
    ensures var (h', precise) := Collect(h, roots, evacuation, emergency);
            && |precise| == |roots.precise|
            && (forall k :: 0 <= k < |roots.conservative| ==>
                  See(h'.mem, roots.conservative[k], route) == See(h.mem, roots.conservative[k], route))
            && (forall j :: 0 <= j < |precise| && !RootGoesStale(h, roots, evacuation, emergency, j) ==>
                  See(h'.mem, precise[j], route) == See(h.mem, roots.precise[j], route))
  {
    hide HeapInv, Ready, Finished, RunTrace, Before, Sweep, HandOut, See, RootGoesStale;
    RootsStandIn(h, roots, evacuation, emergency);
    forall k | 0 <= k < |roots.conservative|
      ensures See(Collect(h, roots, evacuation, emergency).0.mem, roots.conservative[k], route)
           == See(h.mem, roots.conservative[k], route)
    {
      RootSeesSame(h, roots, evacuation, emergency, roots.conservative[k], route);
    }
    var precise := Collect(h, roots, evacuation, emergency).1;
    forall j | 0 <= j < |precise| && !RootGoesStale(h, roots, evacuation, emergency, j)
      ensures See(Collect(h, roots, evacuation, emergency).0.mem, precise[j], route)
           == See(h.mem, roots.precise[j], route)
    {
      RootSeesSame(h, roots, evacuation, emergency, precise[j], route);
    }
  }

  /** A survivor sees what the object it stands for saw. */
  lemma RootSeesSame(h: Heap, roots: Roots, evacuation: bool, emergency: bool, b: Address, route: seq<nat>)
    requires HeapInv(h) && RootsLive(h.mem, roots)
    requires var (sp, list, defrag) := Before(h, evacuation, emergency);
             var mem := WithPins(h.mem, roots.conservative, true);
             && Ready(mem, sp, roots, !h.live)
             && var t := RunTrace(mem, sp, roots, Mode(!h.live, defrag)).0;
             Finished(mem, roots, t, !h.live) && Marked(t.mem, !h.live, b) && b in t.origin
    ensures var (sp, list, defrag) := Before(h, evacuation, emergency);
            var t := RunTrace(WithPins(h.mem, roots.conservative, true), sp, roots, Mode(!h.live, defrag)).0;
            See(Collect(h, roots, evacuation, emergency).0.mem, b, route) == See(h.mem, t.origin[b], route)
  {
    hide LaidOut, Conserved, Bytes, Finished, RunTrace, Before, Sweep, HandOut, See, EvacTargetOk;
    var (sp, list, defrag) := Before(h, evacuation, emergency);
    var mem, next := WithPins(h.mem, roots.conservative, true), !h.live;
    var t := RunTrace(mem, sp, roots, Mode(next, defrag)).0;
    SeesTheSame(mem, roots, t, next, b, route);
    PinsAreInvisible(h.mem, roots.conservative, true, t.origin[b], route);
    PinsAreInvisible(Survivors(t, next), roots.conservative, false, b, route);
  }

  // Sharing.

  /** `o` will not split in this collection; told before it. */
  ghost predicate WillStayWhole(h: Heap, roots: Roots, evacuation: bool, emergency: bool, o: Address) {
    var (sp, list, defrag) := Before(h, evacuation, emergency);
    StaysWhole(WithPins(h.mem, roots.conservative, true), sp, roots, Mode(!h.live, defrag), o)
  }

  /** A collection keeps the sharing of an object that stays whole: all routes from all roots that
      ended at `o` end at one and the same object `s` afterwards. */
  lemma CollectKeepsSharing(h: Heap, roots: Roots, evacuation: bool, emergency: bool, o: Address) returns (s: Address)
    requires HeapInv(h) && RootsLive(h.mem, roots) && o in h.mem && WillStayWhole(h, roots, evacuation, emergency, o)
    ensures var (h', precise) := Collect(h, roots, evacuation, emergency);
            && |precise| == |roots.precise|
            && (forall k, route ::
                  0 <= k < |roots.conservative| && Follow(h.mem, roots.conservative[k], route) == Some(o) ==>
                  Follow(h'.mem, roots.conservative[k], route) == Some(s))
            && (forall j, route | 0 <= j < |precise| && Follow(h.mem, roots.precise[j], route) == Some(o) ::
                  RootGoesStale(h, roots, evacuation, emergency, j) || Follow(h'.mem, precise[j], route) == Some(s))
  {
    hide HeapInv, Ready, Finished, RunTrace, Before, Sweep, HandOut, Follow, RootGoesStale, StaysWhole;
    RootsStandIn(h, roots, evacuation, emergency);
    var (sp, list, defrag) := Before(h, evacuation, emergency);
    var (t, precise) := RunTrace(WithPins(h.mem, roots.conservative, true), sp, roots, Mode(!h.live, defrag));
    var h' := Collect(h, roots, evacuation, emergency).0;
    s := StandIn(t, o);
    forall k, route | 0 <= k < |roots.conservative| && Follow(h.mem, roots.conservative[k], route) == Some(o)
      ensures Follow(h'.mem, roots.conservative[k], route) == Some(s)
    {
      RouteToWhole(h, roots, evacuation, emergency, roots.conservative[k], o, route);
    }
    forall j, route | 0 <= j < |precise| && !RootGoesStale(h, roots, evacuation, emergency, j)
                      && Follow(h.mem, roots.precise[j], route) == Some(o)
      ensures Follow(h'.mem, precise[j], route) == Some(s)
    {
      RouteToWhole(h, roots, evacuation, emergency, precise[j], o, route);
    }
  }

  lemma RouteToWhole(h: Heap, roots: Roots, evacuation: bool, emergency: bool, b: Address, o: Address, route: seq<nat>)
    requires HeapInv(h) && RootsLive(h.mem, roots) && o in h.mem && WillStayWhole(h, roots, evacuation, emergency, o)
    requires var (sp, list, defrag) := Before(h, evacuation, emergency);
             var mem := WithPins(h.mem, roots.conservative, true);
             && Ready(mem, sp, roots, !h.live)
             && var t := RunTrace(mem, sp, roots, Mode(!h.live, defrag)).0;
             Finished(mem, roots, t, !h.live) && Marked(t.mem, !h.live, b) && b in t.origin
             && Follow(h.mem, t.origin[b], route) == Some(o)
    ensures var (sp, list, defrag) := Before(h, evacuation, emergency);
            var t := RunTrace(WithPins(h.mem, roots.conservative, true), sp, roots, Mode(!h.live, defrag)).0;
            Follow(Collect(h, roots, evacuation, emergency).0.mem, b, route) == Some(StandIn(t, o))
  {
    hide LaidOut, Conserved, Bytes, Finished, RunTrace, Before, Sweep, HandOut, Follow, See, EvacTargetOk, StandsFor,
         SameImage;
    var (sp, list, defrag) := Before(h, evacuation, emergency);
    var mem, mode := WithPins(h.mem, roots.conservative, true), Mode(!h.live, defrag);
    var t := RunTrace(mem, sp, roots, mode).0;
    var survivors := Survivors(t, mode.next);
    forall x | x in survivors ensures StandsFor(mem, survivors, t.origin, x) {
      SurvivorsSimulate(mem, roots, t, mode.next, x);
    }
    RoutesPreserved(mem, survivors, t.origin, b, route);
    PinsAreInvisible(h.mem, roots.conservative, true, t.origin[b], route);
    PinsAreInvisible(survivors, roots.conservative, false, b, route);
    hide Ready;
    var y := Follow(survivors, b, route).value;
    OneStandIn(mem, sp, roots, mode, o, y);
  }

  /** The target of slot `i` of the first conservative root will get a copy of its own when that slot
      is traced; told before the collection. */
  ghost predicate WillSplitAt(h: Heap, roots: Roots, evacuation: bool, emergency: bool, i: nat) {
    var (sp, list, defrag) := Before(h, evacuation, emergency);
    |roots.conservative| > 0 &&
    SplitsAt(WithPins(h.mem, roots.conservative, true), sp, roots, Mode(!h.live, defrag), roots.conservative[0], i)
  }

  /** Two slots of the first conservative root that shared an object share it after a collection
      exactly when the first of them is not given a copy, told before the collection. */
  lemma CollectSharesPairExactlyWhen(h: Heap, roots: Roots, evacuation: bool, emergency: bool, i: nat, j: nat)
    requires HeapInv(h) && RootsLive(h.mem, roots) && |roots.conservative| > 0
    requires var a := roots.conservative[0];
             a in h.mem && i < j < |h.mem[a].slots| && h.mem[a].slots[i] == h.mem[a].slots[j]
    ensures var a, h' := roots.conservative[0], Collect(h, roots, evacuation, emergency).0;
            && a in h'.mem && |h'.mem[a].slots| == |h.mem[a].slots|
            && (h'.mem[a].slots[i] == h'.mem[a].slots[j] <==> !WillSplitAt(h, roots, evacuation, emergency, i))
  {
    hide LaidOut, Closed, Conserved, Bytes, RunTrace, Sweep, HandOut, SplitsAt, Before;
    BeforeReady(h, roots, evacuation, emergency);
    var (sp, list, defrag) := Before(h, evacuation, emergency);
    var mem, mode := WithPins(h.mem, roots.conservative, true), Mode(!h.live, defrag);
    hide Ready;
    PairSharesExactlyWhen(mem, sp, roots, mode, i, j);
  }

  /** Without precise roots, the first slot of the first conservative root splits off its target
      exactly when the collection evacuates, the target may move, and there is headroom. */
  lemma FirstSlotWillSplitExactlyWhen(h: Heap, roots: Roots, evacuation: bool, emergency: bool)
    requires HeapInv(h) && RootsLive(h.mem, roots) && roots.precise == [] && |roots.conservative| > 0
    requires roots.conservative[0] in h.mem && |h.mem[roots.conservative[0]].slots| > 0
    ensures var (sp, list, defrag) := Before(h, evacuation, emergency);
            WillSplitAt(h, roots, evacuation, emergency, 0) <==>
            defrag && Movable(WithPins(h.mem, roots.conservative, true), sp, h.mem[roots.conservative[0]].slots[0])
            && |h.space.evac.pool| > 0
  {
    hide LaidOut, Closed, Conserved, Bytes, Movable, Prepare, Gathered, SplitsAt;
    BeforeReady(h, roots, evacuation, emergency);
    var (sp, list, defrag) := Before(h, evacuation, emergency);
    hide Ready;
    var mem, mode := WithPins(h.mem, roots.conservative, true), Mode(!h.live, defrag);
    FirstSlotSplitsExactlyWhen(mem, sp, roots, mode, roots.conservative[0]);
  }

  // Collections that move nothing.

  lemma PinsKeepReach(mem: Memory, list: seq<Address>, roots: Roots)
    ensures Reached(WithPins(mem, list, true), roots) == Reached(mem, roots)
  {
    var mem' := WithPins(mem, list, true);
    assert forall a :: a in mem ==> mem'[a].slots == mem[a].slots;
    forall path ensures IsPath(mem', roots.Targets(), path) <==> IsPath(mem, roots.Targets(), path) {}
  }

  /** Without headroom, or when the collection does not evacuate, exactly the reachable objects are
      left, where they were and as they were but for the flipped mark, and the bytes in use are
      the sum of their sizes. */
  lemma StillCollectionKeepsExactlyTheReachable(h: Heap, roots: Roots, evacuation: bool, emergency: bool)
    requires HeapInv(h) && RootsLive(h.mem, roots)
    requires h.space.evac.pool == [] || !Before(h, evacuation, emergency).2
    ensures var (h', precise) := Collect(h, roots, evacuation, emergency);
            && precise == roots.precise
            && h'.mem.Keys == Reached(h.mem, roots)
            && (forall a :: a in h'.mem ==> h'.mem[a] == h.mem[a].(header := h.mem[a].header.(mark := !h.live)))
            && h'.used == Bytes(Sizes(h.mem), Reached(h.mem, roots))
  {
    hide LaidOut, Closed, Ledger, Bytes, Ready, Reached, RunTrace, Sweep, HandOut, Conserved, SameGraph;
    BeforeReady(h, roots, evacuation, emergency);
    var (sp, list, defrag) := Before(h, evacuation, emergency);
    var mem, mode := WithPins(h.mem, roots.conservative, true), Mode(!h.live, defrag);
    StillCollection(mem, sp, roots, mode);
    PinsKeepReach(h.mem, roots.conservative, roots);
    PinnedSizes(h.mem, roots.conservative, true);
    var t := RunTrace(mem, sp, roots, mode).0;
    assert Survivors(t, !h.live).Keys == MarkedSet(t.mem, !h.live);
    PinsUndone(h.mem, h.live, roots.conservative, t);
  }

  lemma PinsUndone(mem: Memory, live: bool, list: seq<Address>, t: Trace)
    requires Clean(mem, live) && SameGraph(WithPins(mem, list, true), t.mem)
    ensures var after := WithPins(Survivors(t, !live), list, false);
            forall a :: a in after ==> a in mem && after[a] == mem[a].(header := mem[a].header.(mark := !live))
  {}
}
