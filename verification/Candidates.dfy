/** When a collection evacuates, which blocks it selects, and the figures it goes by
    (src/collector.rs:132-179, 226-295). */
module Candidates {
  import opened Constants
  import opened Lines
  import opened Space
  import opened Layout
  import opened Memory
  import opened Trace
  import opened TraceProofs
  import opened TraceTheorems
  import opened RootSlots
  import opened Sharing
  import opened Evacuation
  import opened Histogram
  import opened Collection
  import opened CollectionProofs
  import opened HeapEvacuation

  // The threshold.

  /** More blocks count as the threshold rises. */
  lemma {:induction false} MoreLines(entries: seq<Entry>, t: int, u: int)
    requires t <= u
    ensures LinesUpTo(entries, t) <= LinesUpTo(entries, u)
  {
    if entries != [] { MoreLines(entries[..|entries| - 1], t, u); }
  }

  lemma EnoughStays(headroom: nat, free: seq<Entry>, marked: seq<Entry>, t: int, u: int)
    requires t <= u && Enough(headroom, free, marked, t)
    ensures Enough(headroom, free, marked, u)
  {
    MoreLines(free, t, u);
    MoreLines(marked, t, u);
  }

  /** A block with this many holes is worth evacuating: the blocks with at most as many holes, which
      hold what is left over, hold no fewer marked lines than the headroom has lines to spare. */
  predicate Fragmented(headroom: nat, free: seq<Entry>, marked: seq<Entry>, holes: nat) {
    holes >= LINES_PER_BLOCK || Enough(headroom, free, marked, holes)
  }

  /** Reaching the threshold that the loop finds is just that. */
  lemma ThresholdReachedExactlyWhen(headroom: nat, free: seq<Entry>, marked: seq<Entry>, holes: nat)
    ensures holes >= LeastEnough(headroom, free, marked, 0) <==> Fragmented(headroom, free, marked, holes)
  {
    hide Enough;
    var threshold := LeastEnough(headroom, free, marked, 0);
    if threshold <= holes && threshold < LINES_PER_BLOCK { EnoughStays(headroom, free, marked, threshold, holes); }
  }

  /** A collection evacuates exactly in an emergency, or if it is asked to or blocks are short and the
      headroom is worth more than the blocks without a hole. */
  lemma EvacuatesExactlyWhen(sp: Space, list: seq<Address>, marks: seq<Entry>, evacuation: bool, emergency: bool)
    ensures Prepare(sp, list, marks, evacuation, emergency).1 <==>
            || emergency
            || (&& (evacuation || AvailableBlocks(sp.ba) + |sp.evac.pool| < TotalBlocks(sp.ba) / 4)
                && !Enough(|sp.evac.pool|, FreeEntries(sp.blocks, list), marks, 0))
  {
    hide Enough, WithCandidates;
  }

  /** The candidates: all blocks in an emergency, otherwise the fragmented ones; a collection that does
      not evacuate, and a block that is not listed, is left alone. */
  lemma SelectedExactlyWhen(sp: Space, list: seq<Address>, marks: seq<Entry>, evacuation: bool, emergency: bool,
                            b: Address)
    requires b in sp.blocks
    ensures var (blocks, defrag) := Prepare(sp, list, marks, evacuation, emergency);
            && b in blocks && blocks[b] == sp.blocks[b].(candidate := blocks[b].candidate)
            && (!defrag || b !in list ==> blocks[b] == sp.blocks[b])
            && (defrag && b in list ==>
                  (blocks[b].candidate <==>
                   || emergency
                   || Fragmented(|sp.evac.pool|, FreeEntries(sp.blocks, list), marks, sp.blocks[b].holeCount)))
  {
    hide Fragmented, Enough;
    ThresholdReachedExactlyWhen(|sp.evac.pool|, FreeEntries(sp.blocks, list), marks, sp.blocks[b].holeCount);
  }

  /** A listed block with at least as many holes as a candidate is a candidate. */
  lemma MoreHolesSelectedToo(sp: Space, list: seq<Address>, marks: seq<Entry>, evacuation: bool, b: Address, c: Address)
    requires b in sp.blocks && b in list && c in sp.blocks && c in list
    requires sp.blocks[b].holeCount <= sp.blocks[c].holeCount
    ensures var (blocks, defrag) := Prepare(sp, list, marks, evacuation, false);
            defrag && b in blocks && blocks[b].candidate ==> c in blocks && blocks[c].candidate
  {
    hide Prepare, Enough;
    SelectedExactlyWhen(sp, list, marks, evacuation, false, b);
    SelectedExactlyWhen(sp, list, marks, evacuation, false, c);
    var free, holes := FreeEntries(sp.blocks, list), sp.blocks[b].holeCount;
    if Enough(|sp.evac.pool|, free, marks, holes) {
      EnoughStays(|sp.evac.pool|, free, marks, holes, sp.blocks[c].holeCount);
    }
  }

  // The figures.

  /** The lines that `of` gives for the listed blocks, each with its block. */
  ghost function LinesIn(of: map<Address, set<nat>>, list: seq<Address>): set<(Address, nat)> {
    set b, l | b in list && b in of && l in of[b] :: (b, l)
  }

  ghost function Tagged(b: Address, lines: set<nat>): set<(Address, nat)> { set l | l in lines :: (b, l) }

  lemma {:induction false} TaggedSize(b: Address, lines: set<nat>)
    ensures |Tagged(b, lines)| == |lines|
    decreases lines
  {
    if l :| l in lines {
      TaggedSize(b, lines - {l});
      assert Tagged(b, lines) == Tagged(b, lines - {l}) + {(b, l)};
      assert (b, l) !in Tagged(b, lines - {l});
    } else {
      assert lines == {} && Tagged(b, lines) == {};
    }
  }

  lemma OneMoreBlock(of: map<Address, set<nat>>, list: seq<Address>, b: Address)
    requires b !in list
    ensures |LinesIn(of, list + [b])| == |LinesIn(of, list)| + if b in of then |of[b]| else 0
  {
    var more := if b in of then of[b] else {};
    assert LinesIn(of, list + [b]) == LinesIn(of, list) + Tagged(b, more);
    assert LinesIn(of, list) !! Tagged(b, more);
    TaggedSize(b, more);
  }

  ghost function LinesBelow(n: nat): (lines: set<nat>)
    ensures |lines| == n && forall l: nat :: l in lines <==> l < n
  {
    if n == 0 then {} else LinesBelow(n - 1) + {n - 1}
  }

  ghost function AllLines(): set<nat> { LinesBelow(LINES_PER_BLOCK) }

  lemma UnmarkedCounted(lines: set<nat>)
    requires forall l :: l in lines ==> l < LINES_PER_BLOCK
    ensures |AllLines() - lines| == FreeLines(lines)
  {
    assert AllLines() == AllLines() - lines + lines;
  }

  /** The unmarked lines of the blocks with at most `t` holes. */
  ghost function UnmarkedLines(blocks: Headers, t: nat): map<Address, set<nat>> {
    map b | b in blocks && blocks[b].holeCount <= t :: AllLines() - blocks[b].lines
  }

  /** The marked lines of the blocks with at most `t` holes. */
  ghost function MarkedLines(blocks: Headers, t: nat): map<Address, set<nat>> {
    map b | b in blocks && blocks[b].holeCount <= t :: blocks[b].lines
  }

  /** The first figure: the unmarked lines of the listed blocks with at most `t` holes. */
  lemma {:induction false} FreeFigure(blocks: Headers, list: seq<Address>, t: nat)
    requires NoRepeats(list) && LinesInBlock(blocks) && forall b :: b in list ==> b in blocks
    ensures LinesUpTo(FreeEntries(blocks, list), t) == |LinesIn(UnmarkedLines(blocks, t), list)|
  {
    if list == [] {
      assert LinesIn(UnmarkedLines(blocks, t), list) == {};
    } else {
      var rest, b := list[..|list| - 1], list[|list| - 1];
      assert list == rest + [b] && b !in rest;
      FreeFigure(blocks, rest, t);
      assert FreeEntries(blocks, list)[..|list| - 1] == FreeEntries(blocks, rest);
      OneMoreBlock(UnmarkedLines(blocks, t), rest, b);
      UnmarkedCounted(blocks[b].lines);
    }
  }

  /** The second figure: the marked lines of the blocks that the sweep keeps and counts at most `t`
      holes in. */
  lemma {:induction false} MarkFigure(blocks: Headers, list: seq<Address>, t: nat)
    requires NoRepeats(list) && forall b :: b in list ==> b in blocks
    ensures var s := Sweep(blocks, list);
            LinesUpTo(s.marks, t) == |LinesIn(MarkedLines(s.blocks, t), s.recyclable + s.unavailable)|
  {
    if list == [] {
      assert LinesIn(MarkedLines(blocks, t), []) == {};
    } else {
      var rest, b := list[..|list| - 1], list[|list| - 1];
      assert list == rest + [b] && b !in rest;
      MarkFigure(blocks, rest, t);
      SweepPartitions(blocks, rest);
      var before := Sweep(blocks, rest);
      MarkOneMore(blocks, rest, before, b, t);
    }
  }

  lemma MarkOneMore(blocks: Headers, rest: seq<Address>, before: Swept, b: Address, t: nat)
    requires SweptOk(blocks, rest, before) && b in blocks && b !in rest
    requires LinesUpTo(before.marks, t) ==
             |LinesIn(MarkedLines(before.blocks, t), before.recyclable + before.unavailable)|
    ensures var s := SweepBlock(before, b);
            LinesUpTo(s.marks, t) == |LinesIn(MarkedLines(s.blocks, t), s.recyclable + s.unavailable)|
  {
    hide LinesIn, HoleWeight;
    var s, kept := SweepBlock(before, b), before.recyclable + before.unavailable;
    NotKept(rest, before, b);
    KeptAlone(before, b, t);
    if before.blocks[b].lines != {} {
      OneMoreBlock(MarkedLines(s.blocks, t), kept, b);
      SameLines(MarkedLines(s.blocks, t), s.recyclable + s.unavailable, kept + [b]);
    }
  }

  lemma NotKept(rest: seq<Address>, s: Swept, b: Address)
    requires Partition(rest, s) && b !in rest
    ensures b !in s.recyclable + s.unavailable
  {
    assert b !in multiset(rest);
  }

  /** Sweeping one more block changes no figure of the others. */
  lemma KeptAlone(s: Swept, b: Address, t: nat)
    requires b in s.blocks && b !in s.recyclable + s.unavailable
    ensures var kept := s.recyclable + s.unavailable;
            LinesIn(MarkedLines(SweepBlock(s, b).blocks, t), kept) == LinesIn(MarkedLines(s.blocks, t), kept)
  {}

  lemma SameLines(of: map<Address, set<nat>>, list: seq<Address>, other: seq<Address>)
    requires forall b :: b in list <==> b in other
    ensures LinesIn(of, list) == LinesIn(of, other)
  {}

  // The whole collection.

  /** The same for a whole collection: when it evacuates, and which of the gathered blocks it selects. */
  lemma CollectSelectsExactlyWhen(h: Heap, evacuation: bool, emergency: bool, b: Address)
    requires b in h.space.blocks
    ensures var (sp, list, defrag) := Before(h, evacuation, emergency);
            var headroom, free := |h.space.evac.pool|, FreeEntries(h.space.blocks, list);
            && (defrag <==>
                || emergency
                || (&& (evacuation || AvailableBlocks(h.space.ba) + headroom < TotalBlocks(h.space.ba) / 4)
                    && !Enough(headroom, free, h.marks, 0)))
            && (defrag && b in list ==>
                  (b in sp.blocks && sp.blocks[b].candidate <==>
                   emergency || Fragmented(headroom, free, h.marks, h.space.blocks[b].holeCount)))
  {
    hide Prepare, Enough, Fragmented, Gathered, AvailableBlocks, TotalBlocks;
    var list, drained := h.allBlocks + Gathered(h.space), Drained(h.space);
    EvacuatesExactlyWhen(drained, list, h.marks, evacuation, emergency);
    SelectedExactlyWhen(drained, list, h.marks, evacuation, emergency, b);
  }

  /** Every object lies in a gathered block. */
  lemma ObjectsAreGathered(h: Heap, evacuation: bool, emergency: bool, o: Address)
    requires HeapInv(h) && o in h.mem
    ensures BlockOf(o) in h.space.blocks && BlockOf(o) in Before(h, evacuation, emergency).1
  {
    hide Closed, Clean, Bytes, Before, Conserved, Owned, AllApart, CurrentOk, PoolScannable;
    var (sp, list, defrag) := Before(h, evacuation, emergency);
    BeforeSpace(h, evacuation, emergency);
    BeforeKeys(h, evacuation, emergency);
    assert o in Sizes(h.mem) && Placed(o, Sizes(h.mem)[o], h.space.blocks.Keys);
    HeldSomewhere(sp, list, BlockOf(o));
  }

  lemma BeforeKeys(h: Heap, evacuation: bool, emergency: bool)
    ensures Before(h, evacuation, emergency).0.blocks.Keys == h.space.blocks.Keys
  {
    hide Gathered;
  }

  /** An ordinary collection moves nothing out of a block that is not fragmented: every reachable object
      there is still there afterwards, and looks as it did. */
  lemma UnselectedStay(h: Heap, roots: Roots, evacuation: bool, o: Address)
    requires HeapInv(h) && RootsLive(h.mem, roots) && o in Reached(h.mem, roots)
    requires BlockOf(o) in h.space.blocks ==>
               !Fragmented(|h.space.evac.pool|, FreeEntries(h.space.blocks, Before(h, evacuation, false).1), h.marks,
                           h.space.blocks[BlockOf(o)].holeCount)
    ensures var h' := Collect(h, roots, evacuation, false).0;
            o in h.mem && o in h'.mem && Look(h'.mem[o]) == Look(h.mem[o])
  {
    hide LaidOut, Closed, Conserved, Bytes, Clean, Before, Fragmented, RunTrace, BlockOf, FreeEntries, Ready, Sweep,
         HandOut;
    assert o in h.mem;
    hide Reached;
    ObjectsAreGathered(h, evacuation, false, o);
    CollectSelectsExactlyWhen(h, evacuation, false, BlockOf(o));
    BeforeReady(h, roots, evacuation, false);
    PinsKeepReach(h.mem, roots.conservative, roots);
    var (sp, list, defrag) := Before(h, evacuation, false);
    UnmovableSurvives(WithPins(h.mem, roots.conservative, true), sp, roots, Mode(!h.live, defrag), o);
  }

  /** A reachable object that cannot be moved is marked where it is. */
  lemma UnmovableSurvives(mem: Memory, sp: Space, roots: Roots, mode: Mode, o: Address)
    requires Ready(mem, sp, roots, mode.next) && o in Reached(mem, roots) && (!mode.defrag || !Movable(mem, sp, o))
    ensures var t := RunTrace(mem, sp, roots, mode).0;
            Marked(t.mem, mode.next, o) && o in mem && Look(t.mem[o]) == Look(mem[o])
  {
    hide Ready, RunTrace, Finished, Traceable, SpaceFrame, SlotSurvives, Movable;
    assert o in mem;
    hide Reached;
    TraceFinishes(mem, sp, roots, mode);
    SurvivorsAreTheReachable(mem, sp, roots, mode, o);
    var t := RunTrace(mem, sp, roots, mode).0;
    var b :| Marked(t.mem, mode.next, b) && b in t.origin && t.origin[b] == o;
    UnmovableStays(mem, sp, roots, mode, o, b);
    SurvivorsSimulate(mem, roots, t, mode.next, o);
  }

  /** And while the headroom lasts, an ordinary collection that evacuates empties and frees every
      fragmented block without a conservative root in it. */
  lemma FragmentedFreed(h: Heap, roots: Roots, evacuation: bool, block: Address)
    requires HeapInv(h) && RootsLive(h.mem, roots) && HeadroomLeft(h, roots, evacuation, false)
    requires var (sp, list, defrag) := Before(h, evacuation, false);
             && defrag && block in list && block in h.space.blocks
             && Fragmented(|h.space.evac.pool|, FreeEntries(h.space.blocks, list), h.marks,
                           h.space.blocks[block].holeCount)
    requires forall k :: 0 <= k < |roots.conservative| ==> BlockOf(roots.conservative[k]) != block
    ensures var h' := Collect(h, roots, evacuation, false).0;
            && Vacant(Sizes(h'.mem), block)
            && (block in h'.space.evac.pool || block in h'.space.ba.free)
  {
    hide HeapInv, RootsLive, HeadroomLeft, Before, Fragmented, FreeEntries, Collect, Vacant, BlockOf;
    CollectSelectsExactlyWhen(h, evacuation, false, block);
    CollectFreesCandidates(h, roots, evacuation, false, block);
  }

  /** After a collection, the recorded figures are the marked lines of the recyclable blocks. */
  lemma MarksRecorded(h: Heap, roots: Roots, evacuation: bool, emergency: bool, t: nat)
    requires HeapInv(h) && RootsLive(h.mem, roots)
    ensures var h' := Collect(h, roots, evacuation, emergency).0;
            LinesUpTo(h'.marks, t) == |LinesIn(MarkedLines(h'.space.blocks, t), h'.space.normal.pool)|
  {
    hide LaidOut, Closed, Bytes, Clean, Ready, Finished, RunTrace, Before, Sweep, Conserved, LinesIn, MarkedLines,
         SpaceFrame, LinesUpTo, LinesOk, LinesJustified, SlotSurvives;
    BeforeReady(h, roots, evacuation, emergency);
    var (sp, list, defrag) := Before(h, evacuation, emergency);
    var mem, mode := WithPins(h.mem, roots.conservative, true), Mode(!h.live, defrag);
    TraceFinishes(mem, sp, roots, mode);
    var tr := RunTrace(mem, sp, roots, mode).0;
    FinishedBooks(mem, roots, tr, mode.next);
    FramedConserved(sp, tr.space, multiset(list));
    ListHasNoRepeats(tr.space, list);
    MarkFigure(tr.space.blocks, list, t);
    CollectKeepsInv(h, roots, evacuation, emergency);
    var s := Sweep(tr.space.blocks, list);
    assert s.unavailable == [];
    assert s.recyclable + [] == s.recyclable;
  }

  /** Freed blocks go to the headroom first: after a collection it is full, or no block was given back
      to the free list. */
  lemma HeadroomFirst(h: Heap, roots: Roots, evacuation: bool, emergency: bool)
    requires HeapInv(h) && RootsLive(h.mem, roots)
    ensures var h' := Collect(h, roots, evacuation, emergency).0;
            |h'.space.evac.pool| == EVAC_HEADROOM || h'.space.ba.free == h.space.ba.free
  {
    hide LaidOut, Closed, Bytes, Clean, Ready, Finished, RunTrace, Sweep, Conserved, SlotSurvives, Gathered, Prepare;
    BeforeReady(h, roots, evacuation, emergency);
    var (sp, list, defrag) := Before(h, evacuation, emergency);
    var mem, mode := WithPins(h.mem, roots.conservative, true), Mode(!h.live, defrag);
    TraceFinishes(mem, sp, roots, mode);
    HandOutHeadroom(RunTrace(mem, sp, roots, mode).0.space, Sweep(RunTrace(mem, sp, roots, mode).0.space.blocks, list));
  }
}
