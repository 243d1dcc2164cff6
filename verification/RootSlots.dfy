/** What becomes of the precise root slots (src/collector.rs:48-65), told before the collection. */
module RootSlots {
  import opened Constants
  import opened Space
  import opened Layout
  import opened Allocation
  import opened AllocationProofs
  import opened Memory
  import opened Trace
  import opened TraceProofs
  import opened TraceTheorems

  // Foretelling evacuation.

  /** `a` is unpinned and lies in a candidate block. */
  predicate Movable(mem: Memory, sp: Space, a: Address) {
    a in mem && !mem[a].header.pinned && BlockOf(a) in sp.blocks && sp.blocks[BlockOf(a)].candidate
  }

  /** The space after an attempt to evacuate `a`. */
  function CopyOne(mem: Memory, sp: Space, a: Address): Space {
    if Movable(mem, sp, a) then Allocate(sp, Evac, AlignUp(mem[a].size)).0 else sp
  }

  /** The space after attempts to evacuate the listed objects in order. */
  function CopyAll(mem: Memory, sp: Space, list: seq<Address>): Space {
    if list == [] then sp else CopyOne(mem, CopyAll(mem, sp, list[..|list| - 1]), list[|list| - 1])
  }

  /** After attempts at the listed objects, evacuating `a` will succeed. */
  predicate Room(mem: Memory, sp: Space, list: seq<Address>, a: Address) {
    Movable(mem, sp, a) && Allocate(CopyAll(mem, sp, list), Evac, AlignUp(mem[a].size)).1.Some?
  }

  /** The different elements of a list, in the order in which they first occur. */
  function Firsts(list: seq<Address>): seq<Address> {
    if list == [] then [] else
    var init, last := list[..|list| - 1], list[|list| - 1];
    Firsts(init) + if last in init then [] else [last]
  }

  /** Root slot `i` is the first one with its target, and the target will move. */
  predicate Moves(mem: Memory, sp: Space, list: seq<Address>, i: nat) {
    i < |list| && list[i] !in list[..i] && Room(mem, sp, Firsts(list[..i]), list[i])
  }

  /** The target `x` will be forwarded. */
  predicate WillForward(mem: Memory, sp: Space, list: seq<Address>, x: Address) {
    exists i :: 0 <= i < |list| && list[i] == x && Moves(mem, sp, list, i)
  }

  /** Root slot `j` will be left at the old address of a moved target. */
  predicate GoesStale(mem: Memory, sp: Space, mode: Mode, list: seq<Address>, j: nat) {
    mode.defrag && exists i :: 0 <= i < j < |list| && list[i] == list[j] && Moves(mem, sp, list, i)
  }

  lemma OneMoreMoves(mem: Memory, sp: Space, list: seq<Address>, r: Address)
    ensures forall i :: 0 <= i < |list| ==> (Moves(mem, sp, list + [r], i) <==> Moves(mem, sp, list, i))
    ensures Moves(mem, sp, list + [r], |list|) <==> r !in list && Room(mem, sp, Firsts(list), r)
  {
    hide Room, Firsts;
    var more := list + [r];
    assert more[..|list|] == list;
    forall i | 0 <= i < |list| ensures Moves(mem, sp, more, i) <==> Moves(mem, sp, list, i) {
      assert more[..i] == list[..i];
    }
  }

  lemma OneMoreForwards(mem: Memory, sp: Space, list: seq<Address>, r: Address, x: Address)
    ensures WillForward(mem, sp, list + [r], x) <==>
            WillForward(mem, sp, list, x) || (x == r && r !in list && Room(mem, sp, Firsts(list), r))
  {
    hide Moves, Room, Firsts;
    OneMoreMoves(mem, sp, list, r);
    var more := list + [r];
    if WillForward(mem, sp, list, x) {
      var i :| 0 <= i < |list| && list[i] == x && Moves(mem, sp, list, i);
      assert more[i] == x && Moves(mem, sp, more, i);
    }
    if x == r && r !in list && Room(mem, sp, Firsts(list), r) { assert more[|list|] == x; }
  }

  lemma OneMoreFirst(list: seq<Address>, r: Address)
    ensures Firsts(list + [r]) == if r in list then Firsts(list) else Firsts(list) + [r]
  {
    var more := list + [r];
    assert more[..|more| - 1] == list && more[|more| - 1] == r;
  }

  lemma OneMoreCopy(mem: Memory, sp: Space, list: seq<Address>, a: Address)
    ensures CopyAll(mem, sp, list + [a]) == CopyOne(mem, CopyAll(mem, sp, list), a)
  {
    hide CopyOne;
    var more := list + [a];
    assert more[..|more| - 1] == list && more[|more| - 1] == a;
  }

  // The loop over the precise roots, from its far end.

  lemma {:induction false} OneMoreRoot(t: Trace, mode: Mode, list: seq<Address>, r: Address)
    requires Traceable(t) && r in t.mem && forall k :: 0 <= k < |list| ==> list[k] in t.mem
    ensures forall k :: 0 <= k < |list + [r]| ==> (list + [r])[k] in t.mem
    ensures var (t1, rs) := TraceRoots(t, mode, list);
            && Traceable(t1) && r in t1.mem && r in t1.origin
            && TraceRoots(t, mode, list + [r]) == (TraceRoot(t1, mode, r).0, rs + [TraceRoot(t1, mode, r).1])
    decreases |list|
  {
    hide Traceable, TraceRoot, SpaceFrame;
    var more := list + [r];
    if list == [] {
      assert more[0] == r && more[1..] == [];
      TraceRootKeeps(t, mode, r);
      var (t1, r1) := TraceRoot(t, mode, r);
      assert TraceRoots(t1, mode, more[1..]) == (t1, []);
      assert [r1] + [] == [] + [r1];
    } else {
      TraceRootKeeps(t, mode, list[0]);
      var (t1, r1) := TraceRoot(t, mode, list[0]);
      OneMoreRoot(t1, mode, list[1..], r);
      assert more[1..] == list[1..] + [r] && more[0] == list[0];
      var (t2, rs) := TraceRoots(t1, mode, list[1..]);
      assert TraceRoots(t, mode, list) == (t2, [r1] + rs);
      assert [r1] + rs + [TraceRoot(t2, mode, r).1] == [r1] + (rs + [TraceRoot(t2, mode, r).1]);
    }
  }

  /** The originals as the root loop leaves them: the foretold ones forwarded, the others with their
      size and pin. */
  ghost predicate OriginalsOk(mem: Memory, sp: Space, mode: Mode, list: seq<Address>, t: Trace) {
    forall x :: x in mem ==>
      && x in t.mem && x in t.origin && t.mem[x].size == mem[x].size
      && (Forwarded(t.mem, x) <==> mode.defrag && WillForward(mem, sp, list, x))
      && (!Forwarded(t.mem, x) ==> t.mem[x].header.pinned == mem[x].header.pinned)
  }

  /** A movable target that was tried and has not moved met an exhausted evacuation allocator. */
  ghost predicate TriedInVain(mem: Memory, sp: Space, list: seq<Address>, t: Trace) {
    forall x :: x in list && Movable(mem, sp, x) && !Forwarded(t.mem, x) ==> EvacEmpty(t.space)
  }

  /** What the loop over the roots in `list` has done. */
  ghost predicate RootsDone(mem: Memory, sp: Space, mode: Mode, list: seq<Address>, t: Trace, values: seq<Address>) {
    && Traceable(t) && SpaceFrame(sp, t.space)
    && OriginalsOk(mem, sp, mode, list, t)
    && (mode.defrag ==> t.space == CopyAll(mem, sp, Firsts(list)) && TriedInVain(mem, sp, list, t))
    && |values| == |list|
    && (forall i :: 0 <= i < |list| ==> (values[i] != list[i] <==> mode.defrag && Moves(mem, sp, list, i)))
  }

  lemma SameCandidates(mem: Memory, sp: Space, t: Trace, a: Address)
    requires SpaceFrame(sp, t.space) && a in mem && a in t.mem && t.mem[a].header.pinned == mem[a].header.pinned
    ensures Evacuable(t, a) <==> Movable(mem, sp, a)
    ensures Movable(mem, t.space, a) <==> Movable(mem, sp, a)
  {
    hide BlockOf;
  }

  lemma EmptyAllocator(sp: Space, size: nat)
    requires EvacEmpty(sp)
    ensures Allocate(sp, Evac, size) == (sp, None)
  {}

  /** The space after one root: an attempt is made exactly at the first occurrence of a target. */
  lemma OneRootSpace(mem: Memory, sp: Space, mode: Mode, list: seq<Address>, t: Trace, values: seq<Address>, r: Address)
    requires RootsDone(mem, sp, mode, list, t, values) && mode.defrag && r in mem
    ensures r in t.mem && r in t.origin
    ensures TraceRoot(t, mode, r).0.space == CopyAll(mem, sp, Firsts(list + [r]))
    ensures TraceRoot(t, mode, r).1 != r <==> r !in list && Room(mem, sp, Firsts(list), r)
  {
    hide Traceable, SpaceFrame, WillForward, Moves, EvacFrame, EvacSpace, Allocate, BlockOf, TriedInVain;
    OneMoreFirst(list, r);
    OneMoreCopy(mem, sp, Firsts(list), r);
    if Forwarded(t.mem, r) {
      assert r in list by { ForwardedIsListed(mem, sp, list, r); }
    } else {
      SameCandidates(mem, sp, t, r);
      Evacuated(t, r);
      if r in list {
        if Movable(mem, sp, r) {
          assert EvacEmpty(t.space) by { assert TriedInVain(mem, sp, list, t); TriedSo(mem, sp, list, t, r); }
          EmptyAllocator(t.space, AlignUp(t.mem[r].size));
        }
      }
    }
  }

  lemma TriedSo(mem: Memory, sp: Space, list: seq<Address>, t: Trace, r: Address)
    requires TriedInVain(mem, sp, list, t) && r in list && Movable(mem, sp, r) && !Forwarded(t.mem, r)
    ensures EvacEmpty(t.space)
  {}

  lemma ForwardedIsListed(mem: Memory, sp: Space, list: seq<Address>, x: Address)
    requires WillForward(mem, sp, list, x)
    ensures x in list
  {
    hide Moves;
  }

  /** One root keeps the originals as foretold. */
  lemma OneRootOriginals(mem: Memory, sp: Space, mode: Mode, list: seq<Address>, t: Trace, values: seq<Address>,
                         r: Address)
    requires RootsDone(mem, sp, mode, list, t, values) && r in mem && r in t.mem && r in t.origin
    requires TraceRoot(t, mode, r).1 != r <==> mode.defrag && r !in list && Room(mem, sp, Firsts(list), r)
    ensures OriginalsOk(mem, sp, mode, list + [r], TraceRoot(t, mode, r).0)
  {
    hide Traceable, SpaceFrame, WillForward, Moves, EvacFrame, EvacSpace, MaybeEvacuate, BlockOf, TriedInVain, Room,
         Firsts, CopyAll;
    var t' := TraceRoot(t, mode, r).0;
    Evacuated(t, r);
    forall x | x in mem
      ensures x in t'.mem && x in t'.origin && t'.mem[x].size == mem[x].size
      ensures Forwarded(t'.mem, x) <==> mode.defrag && WillForward(mem, sp, list + [r], x)
      ensures !Forwarded(t'.mem, x) ==> t'.mem[x].header.pinned == mem[x].header.pinned
    {
      OneMoreForwards(mem, sp, list, r, x);
    }
  }

  lemma OneRootTried(mem: Memory, sp: Space, mode: Mode, list: seq<Address>, t: Trace, values: seq<Address>, r: Address)
    requires RootsDone(mem, sp, mode, list, t, values) && mode.defrag && r in mem && r in t.mem && r in t.origin
    requires forall x :: x in mem ==> (Forwarded(t.mem, x) ==> Forwarded(TraceRoot(t, mode, r).0.mem, x))
    ensures TriedInVain(mem, sp, list + [r], TraceRoot(t, mode, r).0)
  {
    hide Traceable, SpaceFrame, WillForward, Moves, EvacFrame, EvacSpace, MaybeEvacuate, BlockOf, Room, Firsts,
         CopyAll, Evacuable;
    var t' := TraceRoot(t, mode, r).0;
    Evacuated(t, r);
    EmptyKept(t, r);
    if !Forwarded(t.mem, r) {
      SameCandidates(mem, sp, t, r);
      if MaybeEvacuate(t, r).1.None? {
        FailedEvacuation(t, r);
        if Evacuable(t, r) { StillEvacuable(t, r); }
      }
    }
  }

  lemma OneRootDone(mem: Memory, sp: Space, mode: Mode, list: seq<Address>, t: Trace, values: seq<Address>, r: Address)
    requires RootsDone(mem, sp, mode, list, t, values) && r in mem
    ensures r in t.mem && r in t.origin
    ensures var (t', r') := TraceRoot(t, mode, r);
            RootsDone(mem, sp, mode, list + [r], t', values + [r'])
  {
    hide Traceable, SpaceFrame, WillForward, Moves, EvacFrame, EvacSpace, MaybeEvacuate, TriedInVain, Room, Firsts,
         CopyAll, Evacuable;
    var (t', r') := TraceRoot(t, mode, r);
    TraceRootKeeps(t, mode, r);
    SpaceFrameTwice(sp, t.space, t'.space);
    if mode.defrag { OneRootSpace(mem, sp, mode, list, t, values, r); }
    OneRootOriginals(mem, sp, mode, list, t, values, r);
    forall x | x in mem && Forwarded(t.mem, x) ensures Forwarded(t'.mem, x) { OneMoreForwards(mem, sp, list, r, x); }
    if mode.defrag { OneRootTried(mem, sp, mode, list, t, values, r); }
    OneMoreMoves(mem, sp, list, r);
  }

  lemma {:induction false} AllRootsDone(mem: Memory, sp: Space, roots: Roots, mode: Mode, n: nat)
    requires Ready(mem, sp, roots, mode.next) && n <= |roots.precise|
    ensures Traceable(Start(mem, {}, sp, roots.conservative))
    ensures var (t, values) := TraceRoots(Start(mem, {}, sp, roots.conservative), mode, roots.precise[..n]);
            RootsDone(mem, sp, mode, roots.precise[..n], t, values)
  {
    hide Traceable, RootsDone, TraceRoots, TraceRoot, LaidOut, Closed, EvacTargetOk;
    StartTraceable(mem, sp, roots, mode.next);
    var t0, list := Start(mem, {}, sp, roots.conservative), roots.precise[..n];
    if n == 0 {
      StartDone(mem, sp, roots, mode);
      NoRoots(t0, mode, list);
    } else {
      var init, r := roots.precise[..n - 1], roots.precise[n - 1];
      AllRootsDone(mem, sp, roots, mode, n - 1);
      assert list == init + [r] && r in mem;
      OneMoreRoot(t0, mode, init, r);
      var (t, values) := TraceRoots(t0, mode, init);
      OneRootDone(mem, sp, mode, init, t, values, r);
    }
  }

  lemma NoRoots(t: Trace, mode: Mode, list: seq<Address>)
    requires Traceable(t) && list == []
    ensures TraceRoots(t, mode, list) == (t, [])
  {}

  lemma StartDone(mem: Memory, sp: Space, roots: Roots, mode: Mode)
    requires Ready(mem, sp, roots, mode.next)
    ensures RootsDone(mem, sp, mode, [], Start(mem, {}, sp, roots.conservative), [])
  {
    hide LaidOut;
    StartTraceable(mem, sp, roots, mode.next);
    SpaceFrameSelf(sp);
    hide Traceable, SpaceFrame;
  }

  /** A precise root slot ends at a survivor unless it goes stale, which can be told before the
      collection: the branch for a forwarded target does not rewrite the slot
      (src/collector.rs:53-54). A stale slot still holds the old address of the moved target. */
  lemma RootSurvivesExactlyWhen(mem: Memory, sp: Space, roots: Roots, mode: Mode, j: nat)
    requires Ready(mem, sp, roots, mode.next) && j < |roots.precise|
    ensures var (t, precise) := RunTrace(mem, sp, roots, mode);
            && |precise| == |roots.precise|
            && (SlotSurvives(t, mode.next, roots, precise, j) <==> !GoesStale(mem, sp, mode, roots.precise, j))
            && (GoesStale(mem, sp, mode, roots.precise, j) ==>
                  precise[j] == roots.precise[j] && Forwarded(t.mem, precise[j]))
            && (MovedBefore(roots.precise, precise, j) <==> GoesStale(mem, sp, mode, roots.precise, j))
  {
    hide Finished, Traceable, SpaceFrame, Moves, OriginalsOk, CopyAll, TriedInVain, LaidOut, Closed;
    TraceFinishes(mem, sp, roots, mode);
    AllRootsDone(mem, sp, roots, mode, |roots.precise|);
    assert roots.precise[..|roots.precise|] == roots.precise;
    var (t, precise) := RunTrace(mem, sp, roots, mode);
    hide TraceRoots, TraceAll, Ready;
    assert forall i :: 0 <= i < |precise| ==>
             (precise[i] != roots.precise[i] <==> mode.defrag && Moves(mem, sp, roots.precise, i));
  }

  /** With different targets no slot goes stale. */
  lemma DifferentTargetsSurvive(mem: Memory, sp: Space, mode: Mode, list: seq<Address>, j: nat)
    requires NoSharedTargets(list)
    ensures !GoesStale(mem, sp, mode, list, j)
  {
    hide Moves;
  }

  /** With no evacuation window open, the first attempt succeeds exactly if there is headroom. */
  lemma RoomAtOnce(mem: Memory, sp: Space, a: Address)
    requires LaidOut(Sizes(mem), sp) && a in mem && sp.evac.current.None?
    ensures Room(mem, sp, [], a) <==> Movable(mem, sp, a) && |sp.evac.pool| > 0
  {
    PlacedSize(Sizes(mem), sp, a);
    AlignedAlready(mem[a].size);
    hide LaidOut, Movable;
  }
}
