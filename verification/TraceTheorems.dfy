/** The whole trace of one collection, from the roots to the empty queue, and what it guarantees. */
module TraceTheorems {
  import opened Constants
  import opened Lines
  import opened Space
  import opened Layout
  import opened Allocation
  import opened AllocationProofs
  import opened Memory
  import opened Trace
  import opened TraceProofs

  /** The conservative roots, which are pinned, and the values of the precise root slots. */
  datatype Roots = Roots(conservative: seq<Address>, precise: seq<Address>) {
    function Targets(): set<Address> { (set a | a in conservative) + (set a | a in precise) }
  }

  /** What holds when the trace begins: nothing is marked or forwarded, no line is marked, every
      root is an object, and the conservative roots are pinned. */
  ghost predicate Ready(mem: Memory, sp: Space, roots: Roots, next: bool) {
    && LaidOut(Sizes(mem), sp) && EvacTargetOk(sp) && Closed(mem)
    && (forall a :: a in mem ==> !mem[a].header.forwarded && mem[a].header.mark != next)
    && (forall b :: b in sp.blocks && b !in sp.ba.free ==> sp.blocks[b].lines == {})
    && (forall k :: 0 <= k < |roots.conservative| ==>
          roots.conservative[k] in mem && mem[roots.conservative[k]].header.pinned)
    && (forall k :: 0 <= k < |roots.precise| ==> roots.precise[k] in mem)
  }

  lemma StartTraceable(mem: Memory, sp: Space, roots: Roots, next: bool)
    requires Ready(mem, sp, roots, next)
    ensures Traceable(Start(mem, {}, sp, roots.conservative))
  {
    hide LaidOut;
  }

  /** `ImmixCollector::collect`: the final state and the new values of the precise root slots. */
  function RunTrace(mem: Memory, sp: Space, roots: Roots, mode: Mode): (Trace, seq<Address>)
    requires Ready(mem, sp, roots, mode.next)
  {
    StartTraceable(mem, sp, roots, mode.next);
    var (t, precise) := TraceRoots(Start(mem, {}, sp, roots.conservative), mode, roots.precise);
    assert Traceable(t) by {
      TraceRootsKeeps(Start(mem, {}, sp, roots.conservative), mode, roots.precise);
    }
    (TraceAll(t, mode), precise)
  }

  ghost function Reached(mem: Memory, roots: Roots): set<Address> { ReachableSet(mem, roots.Targets()) }

  lemma StartSimulates(mem: Memory, sp: Space, roots: Roots, next: bool)
    requires Ready(mem, sp, roots, next)
    ensures Simulates(mem, Start(mem, {}, sp, roots.conservative))
  {
    hide LaidOut;
  }

  lemma StartBooks(mem: Memory, sp: Space, roots: Roots, next: bool)
    requires Ready(mem, sp, roots, next)
    ensures Books(mem, Start(mem, {}, sp, roots.conservative), next)
  {
    hide LaidOut;
    assert MarkedSet(mem, next) == {};
  }

  lemma StartColours(mem: Memory, sp: Space, roots: Roots, next: bool)
    requires Ready(mem, sp, roots, next)
    ensures Colours(mem, Start(mem, {}, sp, roots.conservative), next)
  {
    hide LaidOut, Closed;
    var t := Start(mem, {}, sp, roots.conservative);
    forall k | 0 <= k < |t.queue| ensures t.queue[k] in t.mem && !t.mem[t.queue[k]].header.forwarded {
      var a := roots.conservative[k];
      assert a in mem && t.queue[k] == a;
      assert !mem[a].header.forwarded;
    }
  }

  lemma StartStems(mem: Memory, sp: Space, roots: Roots, mode: Mode)
    requires Ready(mem, sp, roots, mode.next)
    ensures StemsFrom(Start(mem, {}, sp, roots.conservative), mode.next, Reached(mem, roots))
    ensures Settled(mem, Start(mem, {}, sp, roots.conservative), mode)
  {
    hide LaidOut, Closed;
    assert forall a :: a in roots.Targets() ==> a in mem;
    RootsAreReachable(mem, roots.Targets());
    hide ReachableSet;
  }

  lemma StartInv(mem: Memory, sp: Space, roots: Roots, mode: Mode)
    requires Ready(mem, sp, roots, mode.next)
    ensures RootInv(mem, Start(mem, {}, sp, roots.conservative), mode, Reached(mem, roots))
  {
    hide LaidOut, Closed, Traceable, Simulates, Books, Colours, StemsFrom, Settled, Reached;
    StartTraceable(mem, sp, roots, mode.next);
    StartSimulates(mem, sp, roots, mode.next);
    StartBooks(mem, sp, roots, mode.next);
    StartColours(mem, sp, roots, mode.next);
    StartStems(mem, sp, roots, mode);
  }

  /** The state after the trace: everything that survives is marked, and the marked objects
      simulate what was reachable. */
  ghost predicate Finished(mem: Memory, roots: Roots, t: Trace, next: bool) {
    && TraceInv(mem, t, next, Reached(mem, roots)) && TricolorBut(t, next, {}) && t.queue == []
  }

  ghost predicate NoSharedTargets(roots: seq<Address>) {
    forall i, j :: 0 <= i < j < |roots| ==> roots[i] != roots[j]
  }

  /** Root slot `j` ends up at a marked object that is its target or a copy of it. */
  ghost predicate SlotSurvives(t: Trace, next: bool, roots: Roots, precise: seq<Address>, j: nat) {
    && j < |precise| && j < |roots.precise|
    && Marked(t.mem, next, precise[j]) && precise[j] in t.origin && t.origin[precise[j]] == roots.precise[j]
  }

  lemma TraceFinishes(mem: Memory, sp: Space, roots: Roots, mode: Mode)
    requires Ready(mem, sp, roots, mode.next)
    ensures var (t, precise) := RunTrace(mem, sp, roots, mode);
            && Finished(mem, roots, t, mode.next) && Traceable(t)
            && SpaceFrame(sp, t.space) && |precise| == |roots.precise|
            && (forall k :: 0 <= k < |roots.conservative| ==> Marked(t.mem, mode.next, roots.conservative[k]))
            && (forall j :: 0 <= j < |precise| && !MovedBefore(roots.precise, precise, j) ==>
                  SlotSurvives(t, mode.next, roots, precise, j))
            && (forall j :: 0 <= j < |precise| && MovedBefore(roots.precise, precise, j) ==>
                  precise[j] == roots.precise[j] && Forwarded(t.mem, precise[j]))
  {
    hide RootInv, TraceInv, Traceable, TricolorBut, SpaceFrame, Reached, LaidOut, Closed, Grows, MovedBefore;
    var t0 := Start(mem, {}, sp, roots.conservative);
    StartInv(mem, sp, roots, mode);
    StartTraceable(mem, sp, roots, mode.next);
    TargetsReached(mem, sp, roots, mode.next);
    TraceRootsInv(mem, t0, mode, Reached(mem, roots), roots.precise);
    TraceRootsKeeps(t0, mode, roots.precise);
    var (t1, precise) := TraceRoots(t0, mode, roots.precise);
    RootsReadyToLoop(mem, t1, mode, Reached(mem, roots));
    TraceAllInv(mem, t1, mode, Reached(mem, roots));
    TraceAllKeeps(t1, mode);
    var t2 := TraceAll(t1, mode);
    SpaceFrameTwice(sp, t1.space, t2.space);
    RootOrigins(mem, t1, mode, Reached(mem, roots));
    assert forall k :: 0 <= k < |roots.conservative| ==> Alive(t0, mode.next, roots.conservative[k]);
    FinallyMarked(t0, t1, t2, mode.next);
    forall j | 0 <= j < |precise| && !MovedBefore(roots.precise, precise, j)
      ensures SlotSurvives(t2, mode.next, roots, precise, j)
    {
      assert RootSlotOk(t0, t1, mode.next, roots.precise, precise, j);
    }
    forall j | 0 <= j < |precise| && MovedBefore(roots.precise, precise, j)
      ensures precise[j] == roots.precise[j] && Forwarded(t2.mem, precise[j])
    {
      assert RootSlotOk(t0, t1, mode.next, roots.precise, precise, j);
    }
  }

  lemma TargetsReached(mem: Memory, sp: Space, roots: Roots, next: bool)
    requires Ready(mem, sp, roots, next)
    ensures Saturated(mem, Reached(mem, roots))
    ensures forall k :: 0 <= k < |roots.precise| ==> roots.precise[k] in Reached(mem, roots)
  {
    hide LaidOut;
    ReachableIsSaturated(mem, roots.Targets());
    assert forall a :: a in roots.Targets() ==> a in mem;
    RootsAreReachable(mem, roots.Targets());
    hide ReachableSet;
  }

  lemma RootsReadyToLoop(mem: Memory, t: Trace, mode: Mode, within: set<Address>)
    requires RootInv(mem, t, mode, within)
    ensures TraceInv(mem, t, mode.next, within) && TricolorBut(t, mode.next, {})
  {
    hide TraceInv;
    NoneMarkedTricolor(t, mode.next);
  }

  /** With the queue empty, being alive means being marked. */
  lemma FinallyMarked(t0: Trace, t1: Trace, t2: Trace, next: bool)
    requires Grows(t0, t1, next) && Grows(t1, t2, next) && t2.queue == []
    ensures forall a :: Alive(t0, next, a) || Alive(t1, next, a) ==> Marked(t2.mem, next, a)
  {}

  // What the finished trace means.

  /** The objects that survive, as the sweep leaves them. */
  function Survivors(t: Trace, next: bool): Memory { map a | a in t.mem && Marked(t.mem, next, a) :: t.mem[a] }

  /** `b` in `mem'` stands for `a` in `mem`: same size, type and payload, and each of its slots leads
      to what stands for the target of that slot. */
  ghost predicate StandsFor(mem: Memory, mem': Memory, origin: map<Address, Address>, b: Address) {
    && b in mem' && b in origin && origin[b] in mem && SameImage(mem[origin[b]], mem'[b])
    && !mem'[b].header.forwarded
    && forall i :: 0 <= i < |mem'[b].slots| ==>
         mem'[b].slots[i] in mem' && mem'[b].slots[i] in origin
         && origin[mem'[b].slots[i]] == mem[origin[b]].slots[i]
  }

  /** Evacuation is a simulation: every survivor is an original or a copy of one with the same
      payload, and each of its slots leads to a survivor that is, or is a copy of, what the
      slot led to before. */
  lemma SurvivorsSimulate(mem: Memory, roots: Roots, t: Trace, next: bool, b: Address)
    requires Finished(mem, roots, t, next) && Marked(t.mem, next, b)
    ensures StandsFor(mem, Survivors(t, next), t.origin, b)
    ensures t.origin[b] in Reached(mem, roots)
  {
    hide Traceable, Colours, Books, Reached;
    assert Alive(t, next, b);
    assert Traced(t, next, b, |t.mem[b].slots|);
    forall i | 0 <= i < |t.mem[b].slots|
      ensures SlotLeads(mem, t.mem, t.origin, b, i) && Marked(t.mem, next, t.mem[b].slots[i])
    {
      assert Alive(t, next, t.mem[b].slots[i]);
    }
  }

  /** Following the same slots before and after the collection leads to the same payloads, for any
      route, however long; a route that does not exist before does not exist after. */
  lemma {:induction false} RoutesPreserved(mem: Memory, mem': Memory, origin: map<Address, Address>, b: Address,
                                           route: seq<nat>)
    requires forall x :: x in mem' ==> StandsFor(mem, mem', origin, x)
    requires b in mem' && b in origin && Closed(mem)
    ensures match Follow(mem', b, route)
            case None => Follow(mem, origin[b], route).None?
            case Some(y) =>
              y in mem' && y in origin && origin[y] in mem && Follow(mem, origin[b], route) == Some(origin[y])
              && SameImage(mem[origin[y]], mem'[y])
    decreases |route|
  {
    hide SameImage;
    assert StandsFor(mem, mem', origin, b);
    assert |mem'[b].slots| == |mem[origin[b]].slots| by { SameShape(mem[origin[b]], mem'[b]); }
    if route != [] && route[0] < |mem'[b].slots| {
      RoutesPreserved(mem, mem', origin, mem'[b].slots[route[0]], route[1..]);
    }
  }

  lemma SameShape(x: Object, y: Object)
    requires SameImage(x, y)
    ensures |y.slots| == |x.slots|
  {}

  /** Everything reachable survives, itself or as a copy. */
  lemma {:induction false} PathSurvives(mem: Memory, roots: Roots, t: Trace, next: bool, path: seq<Address>)
    returns (b: Address)
    requires Finished(mem, roots, t, next) && IsPath(mem, roots.Targets(), path)
    requires forall r :: r in roots.Targets() ==>
               exists s :: Marked(t.mem, next, s) && s in t.origin && t.origin[s] == r
    ensures Marked(t.mem, next, b) && b in t.origin && t.origin[b] == path[|path| - 1]
    decreases |path|
  {
    hide Finished;
    if |path| == 1 {
      b :| Marked(t.mem, next, b) && b in t.origin && t.origin[b] == path[0];
    } else {
      var rest := path[..|path| - 1];
      assert forall k :: 0 <= k < |rest| ==> rest[k] == path[k];
      var p := PathSurvives(mem, roots, t, next, rest);
      SurvivorsSimulate(mem, roots, t, next, p);
      var o := path[|path| - 2];
      assert path[|path| - 1] in mem[o].slots;
      var i :| 0 <= i < |mem[o].slots| && mem[o].slots[i] == path[|path| - 1];
      SameShape(mem[o], t.mem[p]);
      b := t.mem[p].slots[i];
    }
  }

  /** Every root target survives, itself or as a copy. */
  lemma TargetsSurvive(mem: Memory, sp: Space, roots: Roots, mode: Mode)
    requires Ready(mem, sp, roots, mode.next)
    ensures var t := RunTrace(mem, sp, roots, mode).0;
            forall r :: r in roots.Targets() ==>
              exists s :: Marked(t.mem, mode.next, s) && s in t.origin && t.origin[s] == r
  {
    hide Ready, Finished, Traceable, SpaceFrame, RunTrace;
    TraceFinishes(mem, sp, roots, mode);
    var (t, precise) := RunTrace(mem, sp, roots, mode);
    forall r | r in roots.Targets()
      ensures exists s :: Marked(t.mem, mode.next, s) && s in t.origin && t.origin[s] == r
    {
      if r in roots.conservative {
        var k :| 0 <= k < |roots.conservative| && roots.conservative[k] == r;
        ConservativeStays(mem, sp, roots, t, mode.next, k);
        assert Marked(t.mem, mode.next, r);
      } else {
        var j :| 0 <= j < |roots.precise| && roots.precise[j] == r;
        var i := FirstMoved(roots.precise, precise, j);
        assert SlotSurvives(t, mode.next, roots, precise, i);
      }
    }
  }

  lemma ConservativeStays(mem: Memory, sp: Space, roots: Roots, t: Trace, next: bool, k: nat)
    requires Ready(mem, sp, roots, next) && Finished(mem, roots, t, next) && k < |roots.conservative|
    ensures roots.conservative[k] in t.origin && t.origin[roots.conservative[k]] == roots.conservative[k]
  {
    hide TraceInv, LaidOut, Closed;
    OriginalsInMemory(mem, t, next, Reached(mem, roots));
    var a := roots.conservative[k];
    assert a in mem && a in t.origin;
  }

  /** The first root slot with the target of slot `j` was not moved by an earlier one. */
  lemma {:induction false} FirstMoved(roots: seq<Address>, roots': seq<Address>, j: nat) returns (i: nat)
    requires j < |roots| && |roots'| == |roots|
    ensures i <= j && roots[i] == roots[j] && !MovedBefore(roots, roots', i)
    decreases j
  {
    i := j;
    if MovedBefore(roots, roots', j) {
      var k :| 0 <= k < j && roots[k] == roots[j] && roots'[k] != roots[k];
      i := FirstMoved(roots, roots', k);
    }
  }

  /** The survivors stand for exactly the reachable objects, in every collection: nothing reachable
      is lost, and nothing unreachable is kept. */
  lemma SurvivorsAreTheReachable(mem: Memory, sp: Space, roots: Roots, mode: Mode, a: Address)
    requires Ready(mem, sp, roots, mode.next)
    ensures var t := RunTrace(mem, sp, roots, mode).0;
            a in Reached(mem, roots) <==>
              exists b :: Marked(t.mem, mode.next, b) && b in t.origin && t.origin[b] == a
  {
    hide Ready, Finished, Traceable, SpaceFrame, RunTrace, SlotSurvives;
    TraceFinishes(mem, sp, roots, mode);
    TargetsSurvive(mem, sp, roots, mode);
    var t := RunTrace(mem, sp, roots, mode).0;
    if a in Reached(mem, roots) {
      var path :| IsPath(mem, roots.Targets(), path) && path[|path| - 1] == a;
      var b := PathSurvives(mem, roots, t, mode.next, path);
    }
    if b :| Marked(t.mem, mode.next, b) && b in t.origin && t.origin[b] == a {
      SurvivorsSimulate(mem, roots, t, mode.next, b);
    }
  }

  /** A pinned object never moves: it is its own and only stand-in. */
  lemma PinnedNeverMoves(mem: Memory, roots: Roots, t: Trace, next: bool, a: Address, b: Address)
    requires Finished(mem, roots, t, next) && a in mem && mem[a].header.pinned
    requires b in t.mem && b in t.origin && t.origin[b] == a
    ensures b == a && !t.mem[a].header.forwarded && t.mem[a].header.pinned
  {
    hide Traceable, Colours, IndexOk, LinesOk, LinesJustified, VisitedOk, StemsFrom, Reached;
  }

  /** A copy is never evacuable, so it is never copied again. */
  lemma CopiesAreNotCopied(mem: Memory, t: Trace, next: bool, within: set<Address>, c: Address)
    requires TraceInv(mem, t, next, within) && c in t.mem && c !in mem && c in t.origin
    ensures MaybeEvacuate(t, c) == (t, None)
  {
    hide Traceable, Simulates, Forwards, QueueOk, Books, StemsFrom;
  }

  // Collections that move nothing.

  /** This collection cannot move anything: it does not evacuate, or there is no headroom. */
  predicate Still(mode: Mode, sp: Space) { !mode.defrag || EvacEmpty(sp) }

  /** Only marks differ. */
  ghost predicate SameGraph(mem: Memory, mem': Memory) {
    && mem'.Keys == mem.Keys
    && forall a :: a in mem ==> mem'[a] == mem[a].(header := mem[a].header.(mark := mem'[a].header.mark))
  }

  ghost predicate Unmoved(mem: Memory, t: Trace, mode: Mode) {
    SameGraph(mem, t.mem) && Still(mode, t.space) && forall a :: a in mem ==> !mem[a].header.forwarded
  }

  lemma StillEvacuates(t: Trace, mode: Mode, a: Address)
    requires Traceable(t) && a in t.mem && a in t.origin && mode.defrag && Still(mode, t.space)
    ensures var (t', got) := MaybeEvacuate(t, a);
            got.None? && t'.mem == t.mem && Still(mode, t'.space)
  {
    EmptyStaysEmpty(t, a);
    EmptyKept(t, a);
  }

  lemma {:induction false} TraceSlotsStill(mem: Memory, t: Trace, mode: Mode, a: Address, i: nat)
    requires Traceable(t) && a in t.mem && i <= |t.mem[a].slots| && Unmoved(mem, t, mode)
    ensures Unmoved(mem, TraceSlots(t, mode, a, i), mode)
    decreases |t.mem[a].slots| - i
  {
    if i < |t.mem[a].slots| {
      TraceSlotKeeps(t, mode, a, i);
      var child := t.mem[a].slots[i];
      hide Traceable, MaybeEvacuate;
      assert !t.mem[child].header.forwarded;
      if mode.defrag { StillEvacuates(t, mode, child); }
      TraceSlotsStill(mem, TraceSlot(t, mode, a, i), mode, a, i + 1);
    }
  }

  lemma MarkStill(mem: Memory, t: Trace, mode: Mode, a: Address)
    requires a in t.mem && Unmoved(mem, t, mode)
    ensures Unmoved(mem, MarkObject(t, mode.next, a), mode)
  {
    hide BlockOf, Offset, MarkSpan;
  }

  lemma TraceNextStill(mem: Memory, t: Trace, mode: Mode)
    requires Traceable(t) && |t.queue| > 0 && Unmoved(mem, t, mode)
    ensures Unmoved(mem, TraceNext(t, mode), mode)
  {
    hide Traceable, SameGraph, Still, MarkObject, TraceSlots, SpaceFrame;
    PopKeeps(t);
    var a, popped := t.queue[0], t.(queue := t.queue[1..]);
    if t.mem[a].header.mark != mode.next {
      MarkObjectKeeps(popped, mode.next, a);
      MarkStill(mem, popped, mode, a);
      TraceSlotsStill(mem, MarkObject(popped, mode.next, a), mode, a, 0);
    }
  }

  lemma SameGraphSizes(mem: Memory, mem': Memory)
    requires SameGraph(mem, mem')
    ensures Sizes(mem') == Sizes(mem)
  {
    assert forall a :: a in mem ==> mem'[a].size == mem[a].size;
  }

  lemma {:induction false} TraceAllStill(mem: Memory, t: Trace, mode: Mode)
    requires Traceable(t) && Unmoved(mem, t, mode)
    ensures Unmoved(mem, TraceAll(t, mode), mode)
    decreases EvacSpace(t.space), Unmarked(t.mem, mode.next), |t.queue|
  {
    hide Traceable, Unmoved, TraceNext, EvacSpace, Unmarked;
    if |t.queue| > 0 {
      TraceNextKeeps(t, mode);
      TraceNextStill(mem, t, mode);
      TraceAllStill(mem, TraceNext(t, mode), mode);
    }
  }

  lemma {:induction false} TraceRootsStill(mem: Memory, t: Trace, mode: Mode, roots: seq<Address>)
    requires Traceable(t) && Unmoved(mem, t, mode) && forall k :: 0 <= k < |roots| ==> roots[k] in t.mem
    ensures var (t', roots') := TraceRoots(t, mode, roots);
            Unmoved(mem, t', mode) && roots' == roots
    decreases |roots|
  {
    if |roots| > 0 {
      hide Traceable, Unmoved, TraceRoot;
      var r := roots[0];
      TraceRootKeeps(t, mode, r);
      TraceRootStill(mem, t, mode, r);
      TraceRootsStill(mem, TraceRoot(t, mode, r).0, mode, roots[1..]);
      assert roots == [r] + roots[1..];
    }
  }

  lemma TraceRootStill(mem: Memory, t: Trace, mode: Mode, r: Address)
    requires Traceable(t) && Unmoved(mem, t, mode) && r in t.mem && r in t.origin
    ensures Unmoved(mem, TraceRoot(t, mode, r).0, mode) && TraceRoot(t, mode, r).1 == r
  {
    hide Traceable, MaybeEvacuate;
    if mode.defrag { StillEvacuates(t, mode, r); }
    assert !t.mem[r].header.forwarded;
  }

  // Once the headroom is used up, nothing moves any more.

  /** No copy was made on the way from `t` to `t'`, and none can be made after. */
  ghost predicate NoCopies(t: Trace, t': Trace) { t'.mem.Keys == t.mem.Keys && EvacEmpty(t'.space) }

  lemma AttemptMakesNoCopy(t: Trace, a: Address)
    requires Traceable(t) && a in t.mem && EvacEmpty(t.space)
    ensures a in t.origin && MaybeEvacuate(t, a).1.None? && NoCopies(t, MaybeEvacuate(t, a).0)
  {
    Evacuated(t, a);
    EmptyStaysEmpty(t, a);
    EmptyKept(t, a);
  }

  lemma TraceSlotMakesNoCopy(t: Trace, mode: Mode, a: Address, i: nat)
    requires Traceable(t) && EvacEmpty(t.space) && a in t.mem && i < |t.mem[a].slots|
    requires t.mem[a].slots[i] in t.mem && t.mem[a].slots[i] in t.origin
    ensures NoCopies(t, TraceSlot(t, mode, a, i))
  {
    hide Traceable, MaybeEvacuate;
    AttemptMakesNoCopy(t, t.mem[a].slots[i]);
  }

  lemma {:induction false} TraceSlotsMakeNoCopy(t: Trace, mode: Mode, a: Address, i: nat)
    requires Traceable(t) && EvacEmpty(t.space) && a in t.mem && i <= |t.mem[a].slots|
    ensures NoCopies(t, TraceSlots(t, mode, a, i))
    decreases |t.mem[a].slots| - i
  {
    hide Traceable, TraceSlot, SpaceFrame, EvacSpace;
    if i < |t.mem[a].slots| {
      TraceSlotKeeps(t, mode, a, i);
      TraceSlotMakesNoCopy(t, mode, a, i);
      TraceSlotsMakeNoCopy(TraceSlot(t, mode, a, i), mode, a, i + 1);
    }
  }

  lemma TraceNextMakesNoCopy(t: Trace, mode: Mode)
    requires Traceable(t) && EvacEmpty(t.space) && |t.queue| > 0
    ensures NoCopies(t, TraceNext(t, mode))
  {
    hide Traceable, TraceSlots, SpaceFrame, EvacSpace, BlockOf, Offset, MarkSpan;
    PopKeeps(t);
    var a, popped := t.queue[0], t.(queue := t.queue[1..]);
    if t.mem[a].header.mark != mode.next {
      MarkObjectKeeps(popped, mode.next, a);
      TraceSlotsMakeNoCopy(MarkObject(popped, mode.next, a), mode, a, 0);
    }
  }

  /** From the moment the headroom is used up, the rest of the trace makes no copy, although it goes
      on marking lines. */
  lemma {:induction false} TraceAllMakesNoCopy(t: Trace, mode: Mode)
    requires Traceable(t) && EvacEmpty(t.space)
    ensures NoCopies(t, TraceAll(t, mode))
    decreases EvacSpace(t.space), Unmarked(t.mem, mode.next), |t.queue|
  {
    hide Traceable, TraceNext, EvacSpace, Unmarked, SpaceFrame;
    if |t.queue| > 0 {
      TraceNextKeeps(t, mode);
      TraceNextMakesNoCopy(t, mode);
      TraceAllMakesNoCopy(TraceNext(t, mode), mode);
    }
  }

  lemma TraceRootMakesNoCopy(t: Trace, mode: Mode, r: Address)
    requires Traceable(t) && EvacEmpty(t.space) && r in t.mem && r in t.origin
    ensures NoCopies(t, TraceRoot(t, mode, r).0) && TraceRoot(t, mode, r).1 == r
  {
    hide Traceable, MaybeEvacuate;
    AttemptMakesNoCopy(t, r);
  }

  /** The same for the precise roots that are left. */
  lemma {:induction false} TraceRootsMakeNoCopy(t: Trace, mode: Mode, roots: seq<Address>)
    requires Traceable(t) && EvacEmpty(t.space) && forall k :: 0 <= k < |roots| ==> roots[k] in t.mem
    ensures var (t', roots') := TraceRoots(t, mode, roots); NoCopies(t, t') && roots' == roots
    decreases |roots|
  {
    hide Traceable, TraceRoot, SpaceFrame;
    if |roots| > 0 {
      TraceRootKeeps(t, mode, roots[0]);
      TraceRootMakesNoCopy(t, mode, roots[0]);
      TraceRootsMakeNoCopy(TraceRoot(t, mode, roots[0]).0, mode, roots[1..]);
      assert roots == [roots[0]] + roots[1..];
    }
  }

  /** Once one evacuation of a candidate fails for want of room, no later one in that collection
      succeeds: neither for the slots left in the object at hand, nor for the roots that are left,
      nor in the loop. */
  lemma FailureEndsEvacuation(t: Trace, mode: Mode, a: Address)
    requires Traceable(t) && a in t.mem && a in t.origin && Evacuable(t, a) && MaybeEvacuate(t, a).1.None?
    ensures var t' := MaybeEvacuate(t, a).0;
            && Traceable(t') && NoCopies(t, t') && NoCopies(t', TraceAll(t', mode))
            && (forall b, i :: b in t'.mem && 0 <= i <= |t'.mem[b].slots| ==> NoCopies(t', TraceSlots(t', mode, b, i)))
            && (forall roots :: (forall k :: 0 <= k < |roots| ==> roots[k] in t'.mem) ==>
                  NoCopies(t', TraceRoots(t', mode, roots).0))
  {
    hide LaidOut, References, EvacFrame, SpaceFrame, EvacSpace, EvacTargetOk, MaybeEvacuate, TraceAll, TraceRoots,
         TraceSlots;
    Evacuated(t, a);
    FailedEvacuation(t, a);
    var t' := MaybeEvacuate(t, a).0;
    assert Evacuable(t', a) by { StillEvacuable(t, a); }
    hide Traceable;
    TraceAllMakesNoCopy(t', mode);
    forall b, i | b in t'.mem && 0 <= i <= |t'.mem[b].slots| ensures NoCopies(t', TraceSlots(t', mode, b, i)) {
      TraceSlotsMakeNoCopy(t', mode, b, i);
    }
    forall roots | forall k :: 0 <= k < |roots| ==> roots[k] in t'.mem
      ensures NoCopies(t', TraceRoots(t', mode, roots).0)
    {
      TraceRootsMakeNoCopy(t', mode, roots);
    }
  }

  lemma StillEvacuable(t: Trace, a: Address)
    requires Traceable(t) && a in t.mem && a in t.origin && Evacuable(t, a) && MaybeEvacuate(t, a).1.None?
    ensures Evacuable(MaybeEvacuate(t, a).0, a)
  {
    hide Traceable, MaybeEvacuate, BlockOf;
    Evacuated(t, a);
  }

  /** A collection that moves nothing marks exactly the reachable objects, counts the bytes of each
      once although the queue may hold it many times, and changes nothing but marks. */
  lemma StillCollection(mem: Memory, sp: Space, roots: Roots, mode: Mode)
    requires Ready(mem, sp, roots, mode.next) && Still(mode, sp)
    ensures var (t, precise) := RunTrace(mem, sp, roots, mode);
            && SameGraph(mem, t.mem) && precise == roots.precise
            && MarkedSet(t.mem, mode.next) == Reached(mem, roots)
            && t.visited == Bytes(Sizes(mem), Reached(mem, roots))
  {
    hide LaidOut, Finished, Traceable, TraceRoots, TraceAll, Bytes, SpaceFrame, SlotSurvives, Reached;
    var t0 := Start(mem, {}, sp, roots.conservative);
    StartTraceable(mem, sp, roots, mode.next);
    TraceRootsKeeps(t0, mode, roots.precise);
    TraceRootsStill(mem, t0, mode, roots.precise);
    TraceAllStill(mem, TraceRoots(t0, mode, roots.precise).0, mode);
    TraceFinishes(mem, sp, roots, mode);
    var t := RunTrace(mem, sp, roots, mode).0;
    FinishedStill(mem, roots, t, mode.next);
    forall a ensures a in MarkedSet(t.mem, mode.next) <==> a in Reached(mem, roots) {
      SurvivorsAreTheReachable(mem, sp, roots, mode, a);
    }
    assert MarkedSet(t.mem, mode.next) == Reached(mem, roots);
    SameGraphSizes(mem, t.mem);
  }

  lemma FinishedStill(mem: Memory, roots: Roots, t: Trace, next: bool)
    requires Finished(mem, roots, t, next)
    ensures t.visited == Bytes(Sizes(t.mem), MarkedSet(t.mem, next))
    ensures t.origin.Keys == t.mem.Keys && forall a :: a in mem ==> a in t.origin && t.origin[a] == a
  {
    hide Traceable, Colours, IndexOk, LinesOk, LinesJustified, PinsOk, StemsFrom;
    OriginalsInMemory(mem, t, next, Reached(mem, roots));
  }

  // Whether an object moves.

  /** The evacuation allocator has room for `size` bytes. */
  ghost predicate EvacRoom(sp: Space, size: nat) {
    || |sp.evac.pool| > 0
    || (sp.evac.current.Some? &&
        var w := sp.evac.current.value;
        w.low + size <= w.high || RunFits(LinesOf(sp.blocks, w.block), w.high / LINE_SIZE + 1, size))
  }

  /** Whether an object will move can be told before the attempt. */
  lemma MovesExactlyWhen(t: Trace, a: Address)
    requires Traceable(t) && a in t.mem && a in t.origin
    ensures MaybeEvacuate(t, a).1.Some? <==> Evacuable(t, a) && EvacRoom(t.space, t.mem[a].size)
  {
    hide LaidOut, References, EvacTargetOk, BlockOf, ScanWindow, RunFits;
    if t.space.evac.current.Some? {
      var w := t.space.evac.current.value;
      ScanWindowFitsExactlyWhen(LinesOf(t.space.blocks, w.block), w, t.mem[a].size);
    }
    PlacedSize(Sizes(t.mem), t.space, a);
    AlignedAlready(t.mem[a].size);
  }
}
