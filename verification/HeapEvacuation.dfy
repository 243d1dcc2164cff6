/** What a whole evacuating collection achieves while its headroom lasts. */
module HeapEvacuation {
  import opened Constants
  import opened Space
  import opened Layout
  import opened Memory
  import opened Trace
  import opened TraceProofs
  import opened TraceTheorems
  import opened RootSlots
  import opened Sharing
  import opened Evacuation
  import opened Collection
  import opened CollectionProofs

  /** The trace of the collection does not use up the headroom. */
  ghost predicate HeadroomLeft(h: Heap, roots: Roots, evacuation: bool, emergency: bool)
    requires HeapInv(h) && RootsLive(h.mem, roots)
  {
    BeforeReady(h, roots, evacuation, emergency);
    var (sp, list, defrag) := Before(h, evacuation, emergency);
    !EvacEmpty(RunTrace(WithPins(h.mem, roots.conservative, true), sp, roots, Mode(!h.live, defrag)).0.space)
  }

  // Routes.

  /** A root that held `r` holds `r'` after the collection, and did not go stale. */
  ghost predicate Becomes(h: Heap, roots: Roots, evacuation: bool, emergency: bool, r: Address, r': Address)
    requires HeapInv(h) && RootsLive(h.mem, roots)
  {
    || (r in roots.conservative && r' == r)
    || exists j :: 0 <= j < |roots.precise| && RootHolds(h, roots, evacuation, emergency, r, r', j)
  }

  ghost predicate RootHolds(h: Heap, roots: Roots, evacuation: bool, emergency: bool, r: Address, r': Address, j: nat)
    requires HeapInv(h) && RootsLive(h.mem, roots) && j < |roots.precise|
  {
    var precise := Collect(h, roots, evacuation, emergency).1;
    roots.precise[j] == r && j < |precise| && precise[j] == r' && !RootGoesStale(h, roots, evacuation, emergency, j)
  }

  /** `k` steps before their ends, two routes are at one object that will stay whole, and from there on
      they are the same; told before the collection. */
  ghost predicate WillJoinAt(h: Heap, roots: Roots, evacuation: bool, emergency: bool, r: Address, u: seq<nat>,
                             q: Address, v: seq<nat>, k: nat)
  {
    && k <= |u| && k <= |v| && u[|u| - k..] == v[|v| - k..]
    && var x := Follow(h.mem, r, u[..|u| - k]);
    x.Some? && x == Follow(h.mem, q, v[..|v| - k]) && WillStayWhole(h, roots, evacuation, emergency, x.value)
  }

  /** What a root becomes is the one stand-in of its target. */
  lemma RootStandsIn(h: Heap, roots: Roots, evacuation: bool, emergency: bool, r: Address, r': Address)
    requires HeapInv(h) && RootsLive(h.mem, roots) && Becomes(h, roots, evacuation, emergency, r, r')
    ensures var (sp, list, defrag) := Before(h, evacuation, emergency);
            var mem, mode := WithPins(h.mem, roots.conservative, true), Mode(!h.live, defrag);
            && Ready(mem, sp, roots, mode.next)
            && var t := RunTrace(mem, sp, roots, mode).0;
            && Marked(t.mem, mode.next, r') && r' in t.origin && t.origin[r'] == r
            && StaysWhole(mem, sp, roots, mode, r)
  {
    hide LaidOut, Conserved, Bytes, Closed, Clean, Ready, Finished, RunTrace, Before, RootGoesStale, After, Still;
    RootsStandIn(h, roots, evacuation, emergency);
  }

  lemma JoinsAsForetold(h: Heap, roots: Roots, evacuation: bool, emergency: bool, r: Address, u: seq<nat>, q: Address,
                        v: seq<nat>, k: nat)
    ensures var (sp, list, defrag) := Before(h, evacuation, emergency);
            var mem, mode := WithPins(h.mem, roots.conservative, true), Mode(!h.live, defrag);
            JoinAt(mem, sp, roots, mode, r, u, q, v, k) <==> WillJoinAt(h, roots, evacuation, emergency, r, u, q, v, k)
  {
    hide Follow, See, StaysWhole, Before, WithPins;
    if k <= |u| && k <= |v| {
      PinsAreInvisible(h.mem, roots.conservative, true, r, u[..|u| - k]);
      PinsAreInvisible(h.mem, roots.conservative, true, q, v[..|v| - k]);
    }
  }

  /** While the headroom lasts, the shape of the heap after a collection is known before it. Two routes
      from roots end at one object afterwards exactly when, before, they join at an object that will
      stay whole: one that this collection cannot move, or that a precise root leads to. What lies
      beyond such objects is unfolded into a tree. */
  lemma CollectRoutesMeetExactlyWhen(h: Heap, roots: Roots, evacuation: bool, emergency: bool, r: Address,
                                     r': Address, u: seq<nat>, q: Address, q': Address, v: seq<nat>)
    requires HeapInv(h) && RootsLive(h.mem, roots) && HeadroomLeft(h, roots, evacuation, emergency)
    requires Becomes(h, roots, evacuation, emergency, r, r') && Becomes(h, roots, evacuation, emergency, q, q')
    requires Follow(h.mem, r, u).Some?
    ensures var h' := Collect(h, roots, evacuation, emergency).0;
            && Follow(h'.mem, r', u).Some?
            && (Follow(h'.mem, q', v) == Follow(h'.mem, r', u) <==>
                exists k: nat :: WillJoinAt(h, roots, evacuation, emergency, r, u, q, v, k))
  {
    RootStandsIn(h, roots, evacuation, emergency, r, r');
    RootStandsIn(h, roots, evacuation, emergency, q, q');
    hide HeapInv, Ready, RunTrace, Before, Sweep, HandOut, Follow, See, WillJoinAt, JoinAt, Becomes, StaysWhole,
         EvacEmpty;
    var (sp, list, defrag) := Before(h, evacuation, emergency);
    var mem, mode := WithPins(h.mem, roots.conservative, true), Mode(!h.live, defrag);
    var survivors := Survivors(RunTrace(mem, sp, roots, mode).0, mode.next);
    PinsAreInvisible(h.mem, roots.conservative, true, r, u);
    RoutesMeetExactlyWhen(mem, sp, roots, mode, r', u, q', v);
    PinsAreInvisible(survivors, roots.conservative, false, r', u);
    PinsAreInvisible(survivors, roots.conservative, false, q', v);
    forall k: nat
      ensures JoinAt(mem, sp, roots, mode, r, u, q, v, k) <==>
              WillJoinAt(h, roots, evacuation, emergency, r, u, q, v, k)
    {
      JoinsAsForetold(h, roots, evacuation, emergency, r, u, q, v, k);
    }
  }

  // Cycles.

  /** No object on the cycle `w` through `o` will stay whole. */
  ghost predicate NoneWillStayWhole(h: Heap, roots: Roots, evacuation: bool, emergency: bool, o: Address, w: seq<nat>) {
    forall m :: 0 <= m <= |w| ==>
      match Follow(h.mem, o, w[..m])
      case None => true
      case Some(x) => !WillStayWhole(h, roots, evacuation, emergency, x)
  }

  /** A collection that evacuates uses up its headroom if a root leads to a cycle of which no object
      stays whole, however small the cycle and however large the headroom. */
  lemma CollectCycleUsesUpHeadroom(h: Heap, roots: Roots, evacuation: bool, emergency: bool, r: Address, u: seq<nat>,
                                   o: Address, w: seq<nat>)
    requires HeapInv(h) && RootsLive(h.mem, roots) && r in roots.Targets() && Follow(h.mem, r, u) == Some(o)
    requires o in h.mem && |w| > 0 && Follow(h.mem, o, w) == Some(o)
    requires NoneWillStayWhole(h, roots, evacuation, emergency, o, w)
    ensures !HeadroomLeft(h, roots, evacuation, emergency)
  {
    hide LaidOut, Conserved, Bytes, Closed, Clean, RunTrace, Before, Follow, See, EvacEmpty, Still;
    BeforeReady(h, roots, evacuation, emergency);
    var (sp, list, defrag) := Before(h, evacuation, emergency);
    var mem, mode := WithPins(h.mem, roots.conservative, true), Mode(!h.live, defrag);
    hide Ready;
    TargetsSurvive(mem, sp, roots, mode);
    var t := RunTrace(mem, sp, roots, mode).0;
    var b :| Marked(t.mem, mode.next, b) && b in t.origin && t.origin[b] == r;
    PinsAreInvisible(h.mem, roots.conservative, true, r, u);
    PinsAreInvisible(h.mem, roots.conservative, true, o, w);
    forall m | 0 <= m <= |w| ensures Follow(mem, o, w[..m]) == Follow(h.mem, o, w[..m]) {
      PinsAreInvisible(h.mem, roots.conservative, true, o, w[..m]);
    }
    CycleUsesUpHeadroom(mem, sp, roots, mode, b, u, o, w);
  }

  // Candidate blocks.

  /** Nothing that a collection pins lies in a block without a conservative root. */
  lemma NonePinned(h: Heap, roots: Roots, block: Address)
    requires Clean(h.mem, h.live)
    requires forall k :: 0 <= k < |roots.conservative| ==> BlockOf(roots.conservative[k]) != block
    ensures var mem := WithPins(h.mem, roots.conservative, true);
            forall a :: a in mem && BlockOf(a) == block ==> !mem[a].header.pinned
  {
    hide BlockOf;
  }

  /** The sweep frees a candidate block in which nothing is pinned. */
  lemma CandidateSwept(mem: Memory, sp: Space, roots: Roots, mode: Mode, list: seq<Address>, block: Address)
    requires Ready(mem, sp, roots, mode.next) && Conserved(sp, multiset(list)) && Idle(sp)
    requires mode.defrag && block in list && block in sp.blocks && sp.blocks[block].candidate
    requires !EvacEmpty(RunTrace(mem, sp, roots, mode).0.space)
    requires forall a :: a in mem && BlockOf(a) == block ==> !mem[a].header.pinned
    ensures var t := RunTrace(mem, sp, roots, mode).0;
            Vacant(Sizes(Survivors(t, mode.next)), block) && block in Sweep(t.space.blocks, list).free
  {
    hide LaidOut, Ledger, Bytes, Ready, Finished, Traceable, SlotSurvives, RunTrace, Sweep, Conserved, EvacEmpty,
         BlockOf, Vacant, Survivors, MovedBefore, HandOut;
    TraceFinishes(mem, sp, roots, mode);
    var t := RunTrace(mem, sp, roots, mode).0;
    FinishedBooks(mem, roots, t, mode.next);
    FramedConserved(sp, t.space, multiset(list));
    hide LinesOk, LinesJustified;
    CandidateVacated(mem, sp, roots, mode, block);
    HandOutLaidOut(t, mode.next, list);
  }

  /** What evacuation is for. While the headroom lasts, a collection that evacuates frees every
      candidate block without a conservative root in it, and leaves no object there. */
  lemma CollectFreesCandidates(h: Heap, roots: Roots, evacuation: bool, emergency: bool, block: Address)
    requires HeapInv(h) && RootsLive(h.mem, roots) && HeadroomLeft(h, roots, evacuation, emergency)
    requires var (sp, list, defrag) := Before(h, evacuation, emergency);
             defrag && block in list && block in sp.blocks && sp.blocks[block].candidate
    requires forall k :: 0 <= k < |roots.conservative| ==> BlockOf(roots.conservative[k]) != block
    ensures var h' := Collect(h, roots, evacuation, emergency).0;
            && Vacant(Sizes(h'.mem), block)
            && (block in h'.space.evac.pool || block in h'.space.ba.free)
  {
    hide LaidOut, Closed, Conserved, Bytes, Clean, Ready, RunTrace, Before, Sweep, EvacEmpty, BlockOf, Vacant;
    BeforeReady(h, roots, evacuation, emergency);
    var (sp, list, defrag) := Before(h, evacuation, emergency);
    var mem, mode := WithPins(h.mem, roots.conservative, true), Mode(!h.live, defrag);
    NonePinned(h, roots, block);
    CandidateSwept(mem, sp, roots, mode, list, block);
    var t := RunTrace(mem, sp, roots, mode).0;
    PinnedSizes(Survivors(t, mode.next), roots.conservative, false);
    var s := Sweep(t.space.blocks, list);
    InTwoParts(s.free, Refilled(|t.space.evac.pool|, |s.free|), block);
  }

  lemma InTwoParts(list: seq<Address>, n: nat, b: Address)
    requires n <= |list| && b in list
    ensures b in list[..n] || b in list[n..]
  {
    assert list == list[..n] + list[n..];
  }

  lemma EmergencyCandidates(h: Heap, evacuation: bool, block: Address)
    requires var (sp, list, defrag) := Before(h, evacuation, true); block in list && block in sp.blocks
    ensures var (sp, list, defrag) := Before(h, evacuation, true); defrag && sp.blocks[block].candidate
  {
    hide Gathered;
  }

  /** In an emergency every gathered block is a candidate, so all of them that hold no conservative root
      come free if the headroom lasts. */
  lemma EmergencyFreesBlocks(h: Heap, roots: Roots, evacuation: bool, block: Address)
    requires HeapInv(h) && RootsLive(h.mem, roots) && HeadroomLeft(h, roots, evacuation, true)
    requires block in Gathered(h.space)
    requires forall k :: 0 <= k < |roots.conservative| ==> BlockOf(roots.conservative[k]) != block
    ensures var h' := Collect(h, roots, evacuation, true).0;
            && Vacant(Sizes(h'.mem), block)
            && (block in h'.space.evac.pool || block in h'.space.ba.free)
  {
    hide LaidOut, Closed, Conserved, Bytes, Clean, RootsLive, Collect, HeadroomLeft, BlockOf, Gathered, Vacant,
         ClearedLines;
    var (sp, list, defrag) := Before(h, evacuation, true);
    BeforeSpace(h, evacuation, true);
    ListHasNoRepeats(sp, list);
    EmergencyCandidates(h, evacuation, block);
    CollectFreesCandidates(h, roots, evacuation, true, block);
  }
}
