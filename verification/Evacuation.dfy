/** What an evacuating collection achieves while its headroom lasts: no movable object is left where it
    was, so sharing is lost exactly where it is foretold, and candidate blocks come free. */
module Evacuation {
  import opened Constants
  import opened Space
  import opened Layout
  import opened Allocation
  import opened AllocationProofs
  import opened Memory
  import opened Trace
  import opened TraceProofs
  import opened TraceTheorems
  import opened RootSlots
  import opened Sharing

  /** An original that survives although it may move was refused for want of room. */
  ghost predicate OnlyRefusedStay(mem0: Memory, t: Trace, mode: Mode) {
    mode.defrag ==> forall x :: x in mem0 && Alive(t, mode.next, x) && Movable(mem0, t.space, x) ==> EvacEmpty(t.space)
  }

  // One slot.

  /** In a state of the trace, an original that is not forwarded can be evacuated if it may move. */
  lemma MovableIsEvacuable(mem0: Memory, t: Trace, next: bool, within: set<Address>, x: Address)
    requires TraceInv(mem0, t, next, within) && x in mem0 && x in t.mem && !Forwarded(t.mem, x)
    ensures Evacuable(t, x) <==> Movable(mem0, t.space, x)
  {
    hide Traceable, Colours, IndexOk, LinesOk, LinesJustified, VisitedOk, StemsFrom, BlockOf;
  }

  /** A step that makes no original alive, and neither refills the headroom nor changes a candidate. */
  lemma NoneNewlyAlive(mem0: Memory, t: Trace, t': Trace, mode: Mode)
    requires OnlyRefusedStay(mem0, t, mode) && SpaceFrame(t.space, t'.space)
    requires EvacEmpty(t.space) ==> EvacEmpty(t'.space)
    requires forall x :: x in mem0 && Alive(t', mode.next, x) ==> Alive(t, mode.next, x)
    ensures OnlyRefusedStay(mem0, t', mode)
  {
    hide BlockOf, Alive;
  }

  /** Queueing an original. */
  lemma OneNewlyAlive(mem0: Memory, t: Trace, t': Trace, mode: Mode, child: Address)
    requires OnlyRefusedStay(mem0, t, mode) && SpaceFrame(t.space, t'.space)
    requires EvacEmpty(t.space) ==> EvacEmpty(t'.space)
    requires forall x :: x in mem0 && Alive(t', mode.next, x) ==> x == child || Alive(t, mode.next, x)
    requires mode.defrag && Movable(mem0, t.space, child) ==> EvacEmpty(t'.space)
    ensures OnlyRefusedStay(mem0, t', mode)
  {
    hide BlockOf, Alive;
  }

  lemma TraceSlotRefuses(mem0: Memory, t: Trace, mode: Mode, within: set<Address>, a: Address, i: nat)
    requires SlotInv(mem0, t, mode.next, within, a, i) && i < |t.mem[a].slots| && OnlyRefusedStay(mem0, t, mode)
    requires t.mem[a].slots[i] in mem0 && t.mem[a].slots[i] in t.mem && t.mem[a].slots[i] in t.origin
    ensures OnlyRefusedStay(mem0, TraceSlot(t, mode, a, i), mode)
  {
    hide TraceInv, TricolorBut, Traced, EvacFrame, MaybeEvacuate, Evacuable, SpaceFrame, EvacSpace, Movable,
         OnlyRefusedStay, Traceable;
    var child, t' := t.mem[a].slots[i], TraceSlot(t, mode, a, i);
    InvTraceable(mem0, t, mode.next, within);
    SpaceFrameSelf(t.space);
    if Forwarded(t.mem, child) || t.mem[child].header.mark == mode.next {
      NoneNewlyAlive(mem0, t, t', mode);
    } else if !mode.defrag {
      OneNewlyAlive(mem0, t, t', mode, child);
    } else {
      OriginalsInMemory(mem0, t, mode.next, within);
      MovableIsEvacuable(mem0, t, mode.next, within, child);
      Evacuated(t, child);
      EmptyKept(t, child);
      if MaybeEvacuate(t, child).1.Some? {
        NoneNewlyAlive(mem0, t, t', mode);
      } else {
        FailedEvacuation(t, child);
        if Evacuable(t, child) { StillEvacuable(t, child); }
        OneNewlyAlive(mem0, t, t', mode, child);
      }
    }
  }

  // The loop.

  lemma {:induction false} TraceSlotsRefuse(mem0: Memory, t: Trace, mode: Mode, within: set<Address>, a: Address,
                                            i: nat)
    requires SlotInv(mem0, t, mode.next, within, a, i) && Saturated(mem0, within) && Traceable(t)
    requires SharingInv(mem0, t, mode.next, a, i) && OnlyRefusedStay(mem0, t, mode)
    ensures OnlyRefusedStay(mem0, TraceSlots(t, mode, a, i), mode)
    decreases |t.mem[a].slots| - i
  {
    hide TraceSlot, TraceInv, TricolorBut, Traced, Traceable, Advances, SpaceFrame, EvacSpace, Unmarked,
         OnlyRefusedStay, CopiesMoved, OneForward, OneSlot;
    if i < |t.mem[a].slots| {
      assert Refers(t, a, i, t.mem[a].slots[i]);
      TraceSlotKeeps(t, mode, a, i);
      TraceSlotInv(mem0, t, mode, within, a, i);
      TraceSlotSharing(mem0, t, mode, within, a, i);
      TraceSlotRefuses(mem0, t, mode, within, a, i);
      TraceSlotsRefuse(mem0, TraceSlot(t, mode, a, i), mode, within, a, i + 1);
    }
  }

  lemma MarkRefuses(mem0: Memory, t: Trace, mode: Mode)
    requires OnlyRefusedStay(mem0, t, mode) && |t.queue| > 0 && t.queue[0] in t.mem
    ensures OnlyRefusedStay(mem0, MarkObject(t.(queue := t.queue[1..]), mode.next, t.queue[0]), mode)
    ensures t.mem[t.queue[0]].header.mark == mode.next ==> OnlyRefusedStay(mem0, t.(queue := t.queue[1..]), mode)
  {
    var a, popped := t.queue[0], t.(queue := t.queue[1..]);
    hide OnlyRefusedStay, SpaceFrame, MarkLines, EvacSpace;
    MarkLinesFrame(t.space, a, t.mem[a].size);
    MarkLinesEvac(t.space, a, t.mem[a].size);
    SpaceFrameSelf(t.space);
    NoneNewlyAlive(mem0, t, MarkObject(popped, mode.next, a), mode);
    NoneNewlyAlive(mem0, t, popped, mode);
  }

  lemma MarkLinesEvac(sp: Space, a: Address, size: nat)
    ensures MarkLines(sp, a, size).evac == sp.evac
  {}

  lemma TraceNextRefuses(mem0: Memory, t: Trace, mode: Mode, within: set<Address>)
    requires TraceInv(mem0, t, mode.next, within) && TricolorBut(t, mode.next, {}) && Saturated(mem0, within)
    requires |t.queue| > 0 && Traceable(t) && Rested(mem0, t, mode.next) && OnlyRefusedStay(mem0, t, mode)
    ensures OnlyRefusedStay(mem0, TraceNext(t, mode), mode)
  {
    hide TraceInv, TricolorBut, SlotInv, MarkObject, Traceable, Rested, Advances, SharingInv, OnlyRefusedStay;
    PopKeeps(t);
    var a, popped := t.queue[0], t.(queue := t.queue[1..]);
    MarkRefuses(mem0, t, mode);
    if t.mem[a].header.mark != mode.next {
      PopSharing(mem0, t, mode.next, t.queue[1..]);
      MarkInv(mem0, t, mode.next, within);
      MarkSharing(mem0, popped, mode.next, a);
      TraceSlotsRefuse(mem0, MarkObject(popped, mode.next, a), mode, within, a, 0);
    }
  }

  /** Through the queue loop, an original that may move and survives was refused for want of room. */
  lemma {:induction false} TraceAllRefuses(mem0: Memory, t: Trace, mode: Mode, within: set<Address>)
    requires TraceInv(mem0, t, mode.next, within) && TricolorBut(t, mode.next, {}) && Saturated(mem0, within)
    requires Traceable(t) && Rested(mem0, t, mode.next) && OnlyRefusedStay(mem0, t, mode)
    ensures OnlyRefusedStay(mem0, TraceAll(t, mode), mode)
    decreases EvacSpace(t.space), Unmarked(t.mem, mode.next), |t.queue|
  {
    hide TraceInv, TricolorBut, TraceNext, Traceable, EvacSpace, Unmarked, Rested, SpaceFrame, Advances,
         OnlyRefusedStay;
    if |t.queue| > 0 {
      TraceNextKeeps(t, mode);
      TraceNextInv(mem0, t, mode, within);
      TraceNextSharing(mem0, t, mode, within);
      TraceNextRefuses(mem0, t, mode, within);
      TraceAllRefuses(mem0, TraceNext(t, mode), mode, within);
    }
  }

  /** The roots leave it so. */
  lemma RootsRefuse(mem0: Memory, t: Trace, mode: Mode, within: set<Address>)
    requires RootInv(mem0, t, mode, within)
    ensures OnlyRefusedStay(mem0, t, mode)
  {
    hide TraceInv, Evacuable, Movable;
    forall x | x in mem0 && Alive(t, mode.next, x) && Movable(mem0, t.space, x) && mode.defrag
      ensures EvacEmpty(t.space)
    {
      MovableIsEvacuable(mem0, t, mode.next, within, x);
    }
  }

  /** After the trace of a collection. */
  lemma FinallyRefused(mem: Memory, sp: Space, roots: Roots, mode: Mode)
    requires Ready(mem, sp, roots, mode.next)
    ensures OnlyRefusedStay(mem, RunTrace(mem, sp, roots, mode).0, mode)
  {
    hide Ready, RunTrace, Rested, TraceInv, Traceable, RootsDone, TricolorBut, SpaceFrame, Reached, RootInv,
         OnlyRefusedStay;
    var t := AfterRoots(mem, sp, roots, mode);
    RootsRefuse(mem, t, mode, Reached(mem, roots));
    TraceAllRefuses(mem, t, mode, Reached(mem, roots));
  }

  // Sharing.

  /** While the headroom lasts, two different surviving slots that led to one object share it after the
      collection exactly when the object was foretold to stay whole. */
  lemma SharedExactlyWhenWhole(mem: Memory, sp: Space, roots: Roots, mode: Mode, o: Address, p: Address, i: nat,
                               q: Address, j: nat)
    requires Ready(mem, sp, roots, mode.next) && o in mem && (p, i) != (q, j)
    requires var t := RunTrace(mem, sp, roots, mode).0;
             && Marked(t.mem, mode.next, p) && LedTo(mem, t, p, i, o)
             && Marked(t.mem, mode.next, q) && LedTo(mem, t, q, j, o)
             && !EvacEmpty(t.space)
    ensures var t := RunTrace(mem, sp, roots, mode).0;
            && i < |t.mem[p].slots| && j < |t.mem[q].slots|
            && (t.mem[p].slots[i] == t.mem[q].slots[j] <==> StaysWhole(mem, sp, roots, mode, o))
  {
    hide Ready, RunTrace, WillForward, Movable, Still, SpaceFrame, Finished, Traceable, SlotSurvives, MovedBefore;
    var t := RunTrace(mem, sp, roots, mode).0;
    SharedExactlyWhen(mem, sp, roots, mode, o, p, i, q, j);
    if StaysWhole(mem, sp, roots, mode, o) {
      SharingKept(mem, sp, roots, mode, o, p, i);
      SharingKept(mem, sp, roots, mode, o, q, j);
    } else {
      NotStill(mode, sp);
      assert !WillForward(mem, sp, roots.precise, o) by {
        if WillForward(mem, sp, roots.precise, o) { ForwardedIsListed(mem, sp, roots.precise, o); }
      }
      FinallyRefused(mem, sp, roots, mode);
      TraceFinishes(mem, sp, roots, mode);
      SurvivorsSimulate(mem, roots, t, mode.next, p);
      SameCandidatesAfter(mem, sp, t.space, o);
      assert t.mem[p].slots[i] in Survivors(t, mode.next);
    }
  }

  lemma SameCandidatesAfter(mem: Memory, sp: Space, sp': Space, o: Address)
    requires SpaceFrame(sp, sp')
    ensures Movable(mem, sp', o) == Movable(mem, sp, o)
  {
    hide BlockOf;
  }

  // Routes.

  /** `k` steps before their ends, route `u` from `a` and route `v` from `c` are at one object that
      stays whole, and from there on they are the same. */
  ghost predicate JoinAt(mem: Memory, sp: Space, roots: Roots, mode: Mode, a: Address, u: seq<nat>, c: Address,
                         v: seq<nat>, k: nat)
  {
    && k <= |u| && k <= |v| && u[|u| - k..] == v[|v| - k..]
    && var x := Follow(mem, a, u[..|u| - k]);
    x.Some? && x == Follow(mem, c, v[..|v| - k]) && StaysWhole(mem, sp, roots, mode, x.value)
  }

  /** A survivor's routes end at survivors that stand for where the routes ended before. */
  lemma RouteEnds(mem: Memory, sp: Space, roots: Roots, mode: Mode, b: Address, u: seq<nat>)
    requires Ready(mem, sp, roots, mode.next)
    requires var t := RunTrace(mem, sp, roots, mode).0; Marked(t.mem, mode.next, b) && b in t.origin
    ensures var t := RunTrace(mem, sp, roots, mode).0;
            match Follow(Survivors(t, mode.next), b, u)
            case None => Follow(mem, t.origin[b], u).None?
            case Some(y) =>
              && Marked(t.mem, mode.next, y) && y in t.origin && t.origin[y] in mem
              && Follow(mem, t.origin[b], u) == Some(t.origin[y])
  {
    hide RunTrace, Finished, Traceable, SpaceFrame, SlotSurvives, MovedBefore, LaidOut, StandsFor, SameImage;
    TraceFinishes(mem, sp, roots, mode);
    var t := RunTrace(mem, sp, roots, mode).0;
    forall x | x in Survivors(t, mode.next) ensures StandsFor(mem, Survivors(t, mode.next), t.origin, x) {
      SurvivorsSimulate(mem, roots, t, mode.next, x);
    }
    RoutesPreserved(mem, Survivors(t, mode.next), t.origin, b, u);
  }

  /** The last step of a route. */
  lemma LastStep(mem: Memory, a: Address, u: seq<nat>) returns (p: Address)
    requires Follow(mem, a, u).Some? && |u| > 0
    ensures var init, i := u[..|u| - 1], u[|u| - 1];
            && Follow(mem, a, init) == Some(p) && p in mem && i < |mem[p].slots|
            && Follow(mem, a, u) == Some(mem[p].slots[i])
  {
    var init, i := u[..|u| - 1], u[|u| - 1];
    assert u == init + [i];
    FollowAppend(mem, a, init, [i]);
    p := Follow(mem, a, init).value;
    assert [i][0] == i && [i][1..] == [];
  }

  /** Routes that join at an object that stays whole end at one survivor. */
  lemma JoinedRoutesMeet(mem: Memory, sp: Space, roots: Roots, mode: Mode, b: Address, u: seq<nat>, c: Address,
                         v: seq<nat>, k: nat)
    requires Ready(mem, sp, roots, mode.next)
    requires var t := RunTrace(mem, sp, roots, mode).0;
             && Marked(t.mem, mode.next, b) && b in t.origin && Marked(t.mem, mode.next, c) && c in t.origin
             && JoinAt(mem, sp, roots, mode, t.origin[b], u, t.origin[c], v, k) && Follow(mem, t.origin[b], u).Some?
    ensures var survivors := Survivors(RunTrace(mem, sp, roots, mode).0, mode.next);
            Follow(survivors, b, u).Some? && Follow(survivors, c, v) == Follow(survivors, b, u)
  {
    hide Ready, RunTrace, StaysWhole, Follow;
    var t := RunTrace(mem, sp, roots, mode).0;
    var survivors := Survivors(t, mode.next);
    hide Survivors;
    var m, n := |u| - k, |v| - k;
    RouteEnds(mem, sp, roots, mode, b, u);
    RouteEnds(mem, sp, roots, mode, b, u[..m]);
    RouteEnds(mem, sp, roots, mode, c, v[..n]);
    var x := Follow(mem, t.origin[b], u[..m]).value;
    OneStandIn(mem, sp, roots, mode, x, Follow(survivors, b, u[..m]).value);
    OneStandIn(mem, sp, roots, mode, x, Follow(survivors, c, v[..n]).value);
    assert u == u[..m] + u[m..] && v == v[..n] + v[n..];
    FollowAppend(survivors, b, u[..m], u[m..]);
    FollowAppend(survivors, c, v[..n], v[n..]);
  }

  /** While the headroom lasts, routes from two objects that stay whole end at one survivor only if
      they join at an object that stays whole. */
  lemma {:induction false} MeetingRoutesJoin(mem: Memory, sp: Space, roots: Roots, mode: Mode, b: Address,
                                             u: seq<nat>, c: Address, v: seq<nat>) returns (k: nat)
    requires Ready(mem, sp, roots, mode.next)
    requires var t := RunTrace(mem, sp, roots, mode).0;
             && Marked(t.mem, mode.next, b) && b in t.origin && StaysWhole(mem, sp, roots, mode, t.origin[b])
             && Marked(t.mem, mode.next, c) && c in t.origin && StaysWhole(mem, sp, roots, mode, t.origin[c])
             && !EvacEmpty(t.space)
             && var survivors := Survivors(t, mode.next);
             Follow(survivors, b, u).Some? && Follow(survivors, c, v) == Follow(survivors, b, u)
    ensures var t := RunTrace(mem, sp, roots, mode).0;
            JoinAt(mem, sp, roots, mode, t.origin[b], u, t.origin[c], v, k)
    decreases |u|
  {
    hide Ready, RunTrace, StaysWhole;
    var t := RunTrace(mem, sp, roots, mode).0;
    var survivors := Survivors(t, mode.next);
    RouteEnds(mem, sp, roots, mode, b, u);
    RouteEnds(mem, sp, roots, mode, c, v);
    var o := t.origin[Follow(survivors, b, u).value];
    k := 0;
    assert u[..|u|] == u && v[..|v|] == v;
    if !StaysWhole(mem, sp, roots, mode, o) {
      assert u != [] && v != [];
      var p := LastStep(survivors, b, u);
      var q := LastStep(survivors, c, v);
      var i, j := u[|u| - 1], v[|v| - 1];
      SameLastStep(mem, sp, roots, mode, o, p, i, q, j);
      var n := MeetingRoutesJoin(mem, sp, roots, mode, b, u[..|u| - 1], c, v[..|v| - 1]);
      k := n + 1;
      JoinLonger(mem, sp, roots, mode, t.origin[b], u, t.origin[c], v, n);
    }
  }

  /** An object that does not stay whole is entered by one slot only. */
  lemma SameLastStep(mem: Memory, sp: Space, roots: Roots, mode: Mode, o: Address, p: Address, i: nat, q: Address,
                     j: nat)
    requires Ready(mem, sp, roots, mode.next) && o in mem && !StaysWhole(mem, sp, roots, mode, o)
    requires var t := RunTrace(mem, sp, roots, mode).0;
             && !EvacEmpty(t.space)
             && Marked(t.mem, mode.next, p) && i < |t.mem[p].slots|
             && Marked(t.mem, mode.next, q) && j < |t.mem[q].slots|
             && t.mem[p].slots[i] == t.mem[q].slots[j]
             && t.mem[p].slots[i] in t.origin && t.origin[t.mem[p].slots[i]] == o
    ensures p == q && i == j
  {
    hide Ready, RunTrace, StaysWhole, Finished, Traceable, SpaceFrame, SlotSurvives, MovedBefore, SameImage;
    var t := RunTrace(mem, sp, roots, mode).0;
    TraceFinishes(mem, sp, roots, mode);
    SurvivorsSimulate(mem, roots, t, mode.next, p);
    SurvivorsSimulate(mem, roots, t, mode.next, q);
    SameShape(mem[t.origin[p]], t.mem[p]);
    SameShape(mem[t.origin[q]], t.mem[q]);
    if (p, i) != (q, j) { SharedExactlyWhenWhole(mem, sp, roots, mode, o, p, i, q, j); }
  }

  lemma JoinLonger(mem: Memory, sp: Space, roots: Roots, mode: Mode, a: Address, u: seq<nat>, c: Address, v: seq<nat>,
                   n: nat)
    requires |u| > 0 && |v| > 0 && u[|u| - 1] == v[|v| - 1]
    requires JoinAt(mem, sp, roots, mode, a, u[..|u| - 1], c, v[..|v| - 1], n)
    ensures JoinAt(mem, sp, roots, mode, a, u, c, v, n + 1)
  {
    hide Follow, StaysWhole;
    EndOfInit(u, n);
    EndOfInit(v, n);
  }

  lemma EndOfInit(u: seq<nat>, n: nat)
    requires |u| > n
    ensures var init := u[..|u| - 1];
            && init[..|init| - n] == u[..|u| - (n + 1)]
            && u[|u| - (n + 1)..] == init[|init| - n..] + [u[|u| - 1]]
  {}

  /** While the headroom lasts, the shape of the heap after an evacuating collection is known before
      it: two routes from objects that stay whole end at one object exactly when they join at one
      that stays whole. Everything else is unfolded into a tree. */
  lemma RoutesMeetExactlyWhen(mem: Memory, sp: Space, roots: Roots, mode: Mode, b: Address, u: seq<nat>, c: Address,
                              v: seq<nat>)
    requires Ready(mem, sp, roots, mode.next)
    requires var t := RunTrace(mem, sp, roots, mode).0;
             && Marked(t.mem, mode.next, b) && b in t.origin && StaysWhole(mem, sp, roots, mode, t.origin[b])
             && Marked(t.mem, mode.next, c) && c in t.origin && StaysWhole(mem, sp, roots, mode, t.origin[c])
             && !EvacEmpty(t.space) && Follow(mem, t.origin[b], u).Some?
    ensures var t := RunTrace(mem, sp, roots, mode).0;
            var survivors := Survivors(t, mode.next);
            && Follow(survivors, b, u).Some?
            && (Follow(survivors, c, v) == Follow(survivors, b, u) <==>
                exists k: nat :: JoinAt(mem, sp, roots, mode, t.origin[b], u, t.origin[c], v, k))
  {
    hide Ready, RunTrace, StaysWhole, Follow, Survivors, JoinAt;
    var t := RunTrace(mem, sp, roots, mode).0;
    RouteEnds(mem, sp, roots, mode, b, u);
    if Follow(Survivors(t, mode.next), c, v) == Follow(Survivors(t, mode.next), b, u) {
      var k := MeetingRoutesJoin(mem, sp, roots, mode, b, u, c, v);
    }
    if k: nat :| JoinAt(mem, sp, roots, mode, t.origin[b], u, t.origin[c], v, k) {
      JoinedRoutesMeet(mem, sp, roots, mode, b, u, c, v, k);
    }
  }

  // Cycles.

  /** A route run `n` times. */
  function Laps(w: seq<nat>, n: nat): seq<nat> { if n == 0 then [] else w + Laps(w, n - 1) }

  lemma {:induction false} LapsGrow(w: seq<nat>, i: nat, j: nat)
    requires |w| > 0 && i < j
    ensures |Laps(w, j)| >= |Laps(w, i)| + |w| && |Laps(w, j)| >= j
  {
    if i > 0 {
      LapsGrow(w, i - 1, j - 1);
    } else if j > 1 {
      LapsGrow(w, i, j - 1);
    }
  }

  lemma {:induction false} LapsReturn(mem: Memory, o: Address, w: seq<nat>, n: nat)
    requires o in mem && Follow(mem, o, w) == Some(o)
    ensures Follow(mem, o, Laps(w, n)) == Some(o)
  {
    if n > 0 {
      LapsReturn(mem, o, w, n - 1);
      FollowAppend(mem, o, w, Laps(w, n - 1));
    }
  }

  /** A place on some lap is a place on the cycle. */
  lemma {:induction false} PlaceOnCycle(mem: Memory, o: Address, w: seq<nat>, n: nat, l: nat) returns (m: nat)
    requires o in mem && Follow(mem, o, w) == Some(o) && |w| > 0 && l <= |Laps(w, n)|
    ensures m <= |w| && Follow(mem, o, w[..m]) == Follow(mem, o, Laps(w, n)[..l])
    decreases n
  {
    hide Follow;
    if l <= |w| {
      m := l;
      assert n > 0 ==> Laps(w, n)[..l] == w[..l];
      assert n == 0 ==> Laps(w, n)[..l] == w[..l];
    } else {
      m := PlaceOnCycle(mem, o, w, n - 1, l - |w|);
      assert Laps(w, n)[..l] == w + Laps(w, n - 1)[..l - |w|];
      FollowAppend(mem, o, w, Laps(w, n - 1)[..l - |w|]);
    }
  }

  /** Of more numbers than places, two share a place. */
  lemma {:induction false} TwoShareAPlace(places: set<Address>, f: seq<Address>) returns (i: nat, j: nat)
    requires |f| > |places| && forall n :: 0 <= n < |f| ==> f[n] in places
    ensures i < j < |f| && f[i] == f[j]
    decreases |f|
  {
    var last := |f| - 1;
    if n :| 0 <= n < last && f[n] == f[last] {
      i, j := n, last;
    } else {
      assert |places - {f[last]}| == |places| - 1;
      i, j := TwoShareAPlace(places - {f[last]}, f[..last]);
    }
  }

  /** What a lap leads to, from survivor `b`. */
  lemma LapEnds(mem: Memory, sp: Space, roots: Roots, mode: Mode, b: Address, u: seq<nat>, o: Address, w: seq<nat>,
                n: nat)
    requires Ready(mem, sp, roots, mode.next) && o in mem && Follow(mem, o, w) == Some(o)
    requires var t := RunTrace(mem, sp, roots, mode).0;
             Marked(t.mem, mode.next, b) && b in t.origin && Follow(mem, t.origin[b], u) == Some(o)
    ensures var survivors := Survivors(RunTrace(mem, sp, roots, mode).0, mode.next);
            match Follow(survivors, b, u + Laps(w, n)) case None => false case Some(y) => y in survivors
  {
    hide Ready, RunTrace, Follow;
    LapsReturn(mem, o, w, n);
    FollowAppend(mem, RunTrace(mem, sp, roots, mode).0.origin[b], u, Laps(w, n));
    RouteEnds(mem, sp, roots, mode, b, u + Laps(w, n));
  }

  /** Two laps of a cycle that end at one survivor, and are more than `|u|` steps apart, join on the
      cycle. */
  lemma LapsJoinOnCycle(mem: Memory, sp: Space, roots: Roots, mode: Mode, a: Address, u: seq<nat>, o: Address,
                        w: seq<nat>, i: nat, j: nat, k: nat) returns (m: nat)
    requires o in mem && Follow(mem, a, u) == Some(o) && Follow(mem, o, w) == Some(o) && |w| > |u| && i < j
    requires JoinAt(mem, sp, roots, mode, a, u + Laps(w, i), a, u + Laps(w, j), k)
    ensures m <= |w| && Follow(mem, o, w[..m]).Some? && StaysWhole(mem, sp, roots, mode, Follow(mem, o, w[..m]).value)
  {
    hide Follow, StaysWhole, Laps;
    LapsGrow(w, i, j);
    var v := u + Laps(w, j);
    var l := |v| - k - |u|;
    assert v[..|v| - k] == u + Laps(w, j)[..l];
    FollowAppend(mem, a, u, Laps(w, j)[..l]);
    m := PlaceOnCycle(mem, o, w, j, l);
  }

  /** No object on the cycle `w` through `o` stays whole. */
  ghost predicate NoneWhole(mem: Memory, sp: Space, roots: Roots, mode: Mode, o: Address, w: seq<nat>) {
    forall m :: 0 <= m <= |w| ==>
      match Follow(mem, o, w[..m]) case None => true case Some(x) => !StaysWhole(mem, sp, roots, mode, x)
  }

  lemma LapsNoneWhole(mem: Memory, sp: Space, roots: Roots, mode: Mode, o: Address, w: seq<nat>, n: nat)
    requires o in mem && Follow(mem, o, w) == Some(o) && |w| > 0 && NoneWhole(mem, sp, roots, mode, o, w)
    ensures NoneWhole(mem, sp, roots, mode, o, Laps(w, n))
  {
    hide Follow, StaysWhole, Laps;
    forall l | 0 <= l <= |Laps(w, n)|
      ensures match Follow(mem, o, Laps(w, n)[..l])
              case None => true
              case Some(x) => !StaysWhole(mem, sp, roots, mode, x)
    {
      var m := PlaceOnCycle(mem, o, w, n, l);
    }
  }

  /** A reachable cycle of which no object stays whole uses up the headroom, however small its objects
      and however large the headroom: its copies lead round to the originals again. */
  lemma CycleUsesUpHeadroom(mem: Memory, sp: Space, roots: Roots, mode: Mode, b: Address, u: seq<nat>, o: Address,
                            w: seq<nat>)
    requires Ready(mem, sp, roots, mode.next) && o in mem && |w| > 0 && Follow(mem, o, w) == Some(o)
    requires NoneWhole(mem, sp, roots, mode, o, w)
    requires var t := RunTrace(mem, sp, roots, mode).0;
             && Marked(t.mem, mode.next, b) && b in t.origin && StaysWhole(mem, sp, roots, mode, t.origin[b])
             && Follow(mem, t.origin[b], u) == Some(o)
    ensures EvacEmpty(RunTrace(mem, sp, roots, mode).0.space)
  {
    hide Ready, RunTrace, StaysWhole, Follow, EvacEmpty, JoinAt, Laps;
    var t := RunTrace(mem, sp, roots, mode).0;
    var long := Laps(w, |u| + 1);
    LapsGrow(w, 0, |u| + 1);
    LapsReturn(mem, o, w, |u| + 1);
    LapsNoneWhole(mem, sp, roots, mode, o, w, |u| + 1);
    var survivors := Survivors(t, mode.next);
    forall n: nat
      ensures match Follow(survivors, b, u + Laps(long, n)) case None => false case Some(y) => y in survivors
    {
      LapEnds(mem, sp, roots, mode, b, u, o, long, n);
    }
    hide Survivors;
    var ends := seq(|survivors.Keys| + 1, n requires n >= 0 => Follow(survivors, b, u + Laps(long, n)).value);
    var i, j := TwoShareAPlace(survivors.Keys, ends);
    if !EvacEmpty(t.space) {
      var k := MeetingRoutesJoin(mem, sp, roots, mode, b, u + Laps(long, i), b, u + Laps(long, j));
      var m := LapsJoinOnCycle(mem, sp, roots, mode, t.origin[b], u, o, long, i, j, k);
      assert false;
    }
  }

  // Candidate blocks.

  /** While the headroom lasts, an evacuating collection leaves only pinned objects in the candidate
      blocks. */
  lemma CandidatesEvacuated(mem: Memory, sp: Space, roots: Roots, mode: Mode, b: Address)
    requires Ready(mem, sp, roots, mode.next) && mode.defrag
    requires var t := RunTrace(mem, sp, roots, mode).0; Marked(t.mem, mode.next, b) && !EvacEmpty(t.space)
    requires BlockOf(b) in sp.blocks && sp.blocks[BlockOf(b)].candidate
    ensures b in mem && mem[b].header.pinned
  {
    hide Ready, RunTrace, Traceable, SlotSurvives, MovedBefore, Simulates, Books, StemsFrom, TricolorBut, Forwards,
         QueueOk, BlockOf;
    var t := RunTrace(mem, sp, roots, mode).0;
    TraceFinishes(mem, sp, roots, mode);
    FinallyRefused(mem, sp, roots, mode);
    assert Alive(t, mode.next, b);
  }

  /** So a candidate block with nothing pinned in it holds no survivor. */
  lemma CandidateVacated(mem: Memory, sp: Space, roots: Roots, mode: Mode, block: Address)
    requires Ready(mem, sp, roots, mode.next) && mode.defrag && block in sp.blocks && sp.blocks[block].candidate
    requires !EvacEmpty(RunTrace(mem, sp, roots, mode).0.space)
    requires forall a :: a in mem && BlockOf(a) == block ==> !mem[a].header.pinned
    ensures Vacant(Sizes(Survivors(RunTrace(mem, sp, roots, mode).0, mode.next)), block)
  {
    hide Ready, RunTrace, EvacEmpty, BlockOf;
    var t := RunTrace(mem, sp, roots, mode).0;
    forall a | a in Sizes(Survivors(t, mode.next)) ensures BlockOf(a) != block {
      if BlockOf(a) == block { CandidatesEvacuated(mem, sp, roots, mode, a); }
    }
  }
}
