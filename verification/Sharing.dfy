/** Which slots still lead to the same object after a collection (src/collector.rs:16-61). The slot
    path installs no forwarding, so every slot that is traced while there is room gets a copy of its
    own; the root path does, so all slots follow it to one copy. */
module Sharing {
  import opened Space
  import opened Layout
  import opened Allocation
  import opened AllocationProofs
  import opened Memory
  import opened Trace
  import opened TraceProofs
  import opened TraceTheorems
  import opened RootSlots

  // What the trace keeps.

  /** Every copy stems from an unpinned original in a candidate block. */
  ghost predicate CopiesMoved(mem0: Memory, t: Trace) {
    forall c :: c in t.mem && c !in mem0 && c in t.origin ==> Movable(mem0, t.space, t.origin[c])
  }

  /** A forwarded original has one copy, the one it forwards to. */
  ghost predicate OneForward(mem0: Memory, t: Trace) {
    forall c :: c in t.mem && c !in mem0 && c in t.origin && Forwarded(t.mem, t.origin[c]) ==>
      t.mem[t.origin[c]].header.pointer == c
  }

  /** Slot `i` of `p` refers to `c`. */
  predicate Refers(t: Trace, p: Address, i: nat, c: Address) {
    p in t.mem && i < |t.mem[p].slots| && t.mem[p].slots[i] == c
  }

  /** A copy that nothing forwards to. */
  predicate Lone(mem0: Memory, t: Trace, c: Address) {
    c !in mem0 && c in t.origin && !Forwarded(t.mem, t.origin[c])
  }

  /** A copy that nothing forwards to is in one slot only. */
  ghost predicate OneSlot(mem0: Memory, t: Trace) {
    forall c, p, i, q, j :: Lone(mem0, t, c) && Refers(t, p, i, c) && Refers(t, q, j, c) ==> p == q && i == j
  }

  /** The slots of an object that has not been marked lead where they led before, and so do the slots
      of `a` from `k` on. */
  ghost predicate Untouched(mem0: Memory, t: Trace, next: bool, a: Address, k: nat) {
    forall x, i, v :: Refers(t, x, i, v) && (!Marked(t.mem, next, x) || (x == a && k <= i)) ==> v in mem0
  }

  ghost predicate SharingInv(mem0: Memory, t: Trace, next: bool, a: Address, k: nat) {
    CopiesMoved(mem0, t) && OneForward(mem0, t) && OneSlot(mem0, t) && Untouched(mem0, t, next, a, k)
  }

  // One slot.

  lemma SpaceSharing(mem0: Memory, t: Trace, next: bool, a: Address, k: nat, sp: Space)
    requires SharingInv(mem0, t, next, a, k) && SpaceFrame(t.space, sp)
    ensures SharingInv(mem0, t.(space := sp), next, a, k)
  {
    hide BlockOf;
    var t' := t.(space := sp);
    assert forall c :: Lone(mem0, t', c) == Lone(mem0, t, c);
    assert forall x, i, v :: Refers(t', x, i, v) == Refers(t, x, i, v);
  }

  lemma PushSharing(mem0: Memory, t: Trace, next: bool, a: Address, k: nat, v: Address)
    requires SharingInv(mem0, t, next, a, k)
    ensures SharingInv(mem0, Push(t, v), next, a, k)
  {
    hide Movable;
    var t' := Push(t, v);
    assert forall c :: Lone(mem0, t', c) == Lone(mem0, t, c);
    assert forall x, i, v :: Refers(t', x, i, v) == Refers(t, x, i, v);
  }

  /** What one slot step needs to know about the child that is copied. */
  ghost predicate Copyable(mem0: Memory, t: Trace, next: bool, x: Address) {
    x in mem0 && x in t.mem && x in t.origin && t.origin[x] == x && !Marked(t.mem, next, x)
    && !Forwarded(t.mem, x) && Movable(mem0, t.space, x)
  }

  lemma CopyRefers(t: Trace, sp: Space, x: Address, c: Address)
    requires References(t) && x in t.mem && c !in t.mem
    ensures var t' := Copy(t, sp, x, c);
            && (forall p, i: nat, v :: Refers(t', p, i, v) <==> Refers(t, if p == c then x else p, i, v))
            && (forall p, i: nat :: !Refers(t', p, i, c))
  {
    var t' := Copy(t, sp, x, c);
    assert forall p, i: nat, v :: Refers(t, p, i, v) ==> v in t.mem;
  }

  lemma CopySharing(mem0: Memory, t: Trace, next: bool, a: Address, k: nat, sp: Space, x: Address, c: Address)
    requires SharingInv(mem0, t, next, a, k) && References(t) && Copyable(mem0, t, next, x)
    requires c !in t.mem && c !in mem0 && a != c && SpaceFrame(t.space, sp)
    ensures SharingInv(mem0, Copy(t, sp, x, c), next, a, k)
    ensures forall p, i: nat :: !Refers(Copy(t, sp, x, c), p, i, c)
  {
    hide BlockOf, References;
    var t' := Copy(t, sp, x, c);
    CopyRefers(t, sp, x, c);
    hide Refers;
    assert forall d :: d != c ==> Lone(mem0, t', d) == Lone(mem0, t, d);
    assert forall d, i: nat :: Refers(t', c, i, d) ==> Refers(t, x, i, d) && d in mem0;
  }

  /** The slot being traced is set to a copy that is in no other slot, or to one that is forwarded to. */
  lemma SetSlotSharing(mem0: Memory, t: Trace, next: bool, a: Address, i: nat, v: Address)
    requires SharingInv(mem0, t, next, a, i) && Marked(t.mem, next, a) && i < |t.mem[a].slots|
    requires !Lone(mem0, t, v) || forall p, j: nat :: !Refers(t, p, j, v)
    ensures SharingInv(mem0, SetSlot(t, a, i, v), next, a, i + 1)
  {
    hide Movable;
    var t' := SetSlot(t, a, i, v);
    forall p, j: nat, w ensures Refers(t', p, j, w) <==> if p == a && j == i then w == v else Refers(t, p, j, w) {}
    assert forall x :: Marked(t'.mem, next, x) == Marked(t.mem, next, x);
    assert forall d :: Lone(mem0, t', d) == Lone(mem0, t, d);
    hide Refers, Lone, Marked, SetSlot;
  }

  /** Tracing one slot. */
  lemma TraceSlotSharing(mem0: Memory, t: Trace, mode: Mode, within: set<Address>, a: Address, i: nat)
    requires SlotInv(mem0, t, mode.next, within, a, i) && i < |t.mem[a].slots| && SharingInv(mem0, t, mode.next, a, i)
    requires t.mem[a].slots[i] in t.mem && t.mem[a].slots[i] in t.origin
    ensures SharingInv(mem0, TraceSlot(t, mode, a, i), mode.next, a, i + 1)
  {
    hide Traceable, Simulates, Colours, Books, StemsFrom, TricolorBut, Traced, EvacFrame, MaybeEvacuate, Evacuable,
         SpaceFrame, EvacSpace, Movable, CopiesMoved, OneForward, OneSlot;
    var child := t.mem[a].slots[i];
    assert Refers(t, a, i, child) && child in mem0;
    InvTraceable(mem0, t, mode.next, within);
    OriginalsInMemory(mem0, t, mode.next, within);
    if Forwarded(t.mem, child) {
      var c := t.mem[child].header.pointer;
      assert !Lone(mem0, t, c) by { ForwardTarget(mem0, t, mode.next, within, child); }
      SetSlotSharing(mem0, t, mode.next, a, i, c);
    } else if t.mem[child].header.mark != mode.next {
      if mode.defrag {
        Evacuated(t, child);
        var (t', got) := MaybeEvacuate(t, child);
        if got.Some? {
          var c := got.value;
          ChildMovable(mem0, t, mode.next, within, child);
          CopySharing(mem0, t, mode.next, a, i, t'.space, child, c);
          SetSlotSharing(mem0, t', mode.next, a, i, c);
          PushSharing(mem0, SetSlot(t', a, i, c), mode.next, a, i + 1, c);
        } else {
          SpaceSharing(mem0, t, mode.next, a, i, t'.space);
          PushSharing(mem0, t', mode.next, a, i, child);
          UntouchedOn(mem0, Push(t', child), mode.next, a, i);
        }
      } else {
        PushSharing(mem0, t, mode.next, a, i, child);
        UntouchedOn(mem0, Push(t, child), mode.next, a, i);
      }
    } else {
      UntouchedOn(mem0, t, mode.next, a, i);
    }
  }

  lemma UntouchedOn(mem0: Memory, t: Trace, next: bool, a: Address, i: nat)
    requires Untouched(mem0, t, next, a, i)
    ensures Untouched(mem0, t, next, a, i + 1)
  {}

  lemma ForwardTarget(mem0: Memory, t: Trace, next: bool, within: set<Address>, x: Address)
    requires TraceInv(mem0, t, next, within) && x in mem0 && Forwarded(t.mem, x)
    ensures var c := t.mem[x].header.pointer; c in t.origin && t.origin[c] == x && c !in mem0 && c in t.mem
  {
    hide Traceable, Books, StemsFrom, CopiesOk, QueueOk;
  }

  lemma ChildMovable(mem0: Memory, t: Trace, next: bool, within: set<Address>, x: Address)
    requires TraceInv(mem0, t, next, within) && x in mem0 && x in t.mem && !Forwarded(t.mem, x) && Evacuable(t, x)
    ensures Movable(mem0, t.space, x)
  {
    hide Traceable, Colours, IndexOk, LinesOk, LinesJustified, VisitedOk, StemsFrom, BlockOf;
  }

  // The loop.

  /** Between two objects of the queue. */
  ghost predicate Rested(mem0: Memory, t: Trace, next: bool) {
    && CopiesMoved(mem0, t) && OneForward(mem0, t) && OneSlot(mem0, t)
    && forall x, i, v :: Refers(t, x, i, v) && !Marked(t.mem, next, x) ==> v in mem0
  }

  lemma {:induction false} TraceSlotsSharing(mem0: Memory, t: Trace, mode: Mode, within: set<Address>, a: Address,
                                             i: nat)
    requires SlotInv(mem0, t, mode.next, within, a, i) && Saturated(mem0, within) && Traceable(t)
    requires SharingInv(mem0, t, mode.next, a, i)
    ensures Rested(mem0, TraceSlots(t, mode, a, i), mode.next)
    decreases |t.mem[a].slots| - i
  {
    hide TraceSlot, TraceInv, TricolorBut, Traced, Traceable, Advances, SpaceFrame, EvacSpace, Unmarked, SharingInv;
    if i < |t.mem[a].slots| {
      TraceSlotKeeps(t, mode, a, i);
      TraceSlotInv(mem0, t, mode, within, a, i);
      TraceSlotSharing(mem0, t, mode, within, a, i);
      TraceSlotsSharing(mem0, TraceSlot(t, mode, a, i), mode, within, a, i + 1);
    } else {
      AllSlotsDone(mem0, t, mode.next, a);
    }
  }

  lemma AllSlotsDone(mem0: Memory, t: Trace, next: bool, a: Address)
    requires SharingInv(mem0, t, next, a, if a in t.mem then |t.mem[a].slots| else 0)
    ensures Rested(mem0, t, next)
  {
    hide CopiesMoved, OneForward, OneSlot;
  }

  lemma PopSharing(mem0: Memory, t: Trace, next: bool, queue: seq<Address>)
    requires Rested(mem0, t, next)
    ensures Rested(mem0, t.(queue := queue), next)
  {
    hide Movable;
    var t' := t.(queue := queue);
    assert forall c :: Lone(mem0, t', c) == Lone(mem0, t, c);
    assert forall x, i: nat, v :: Refers(t', x, i, v) == Refers(t, x, i, v);
  }

  /** Giving an object its mark changes no slot and forwards nothing. */
  lemma MarkSharing(mem0: Memory, t: Trace, next: bool, a: Address)
    requires Rested(mem0, t, next) && a in t.mem && !Marked(t.mem, next, a)
    ensures SharingInv(mem0, MarkObject(t, next, a), next, a, 0)
  {
    hide Rested, SharingInv, SpaceFrame, EvacSpace, MarkLines;
    MarkLinesFrame(t.space, a, t.mem[a].size);
    SpaceRested(mem0, t, next, MarkLines(t.space, a, t.mem[a].size));
    HeaderSharing(mem0, t.(space := MarkLines(t.space, a, t.mem[a].size)), MarkObject(t, next, a), next, a);
  }

  lemma HeaderSharing(mem0: Memory, t: Trace, t': Trace, next: bool, a: Address)
    requires Rested(mem0, t, next) && a in t.mem && !Marked(t.mem, next, a)
    requires t'.space == t.space && t'.origin == t.origin
    requires t'.mem == SetHeader(t.mem, a, t.mem[a].header.(mark := next))
    ensures SharingInv(mem0, t', next, a, 0)
  {
    hide Movable;
    assert forall x :: Forwarded(t'.mem, x) == Forwarded(t.mem, x);
    assert forall x, i: nat, v :: Refers(t', x, i, v) == Refers(t, x, i, v);
    assert forall x :: x != a ==> Marked(t'.mem, next, x) == Marked(t.mem, next, x);
    hide Refers, Marked;
    assert forall c :: Lone(mem0, t', c) == Lone(mem0, t, c);
    hide Lone;
  }

  lemma TraceNextSharing(mem0: Memory, t: Trace, mode: Mode, within: set<Address>)
    requires TraceInv(mem0, t, mode.next, within) && TricolorBut(t, mode.next, {}) && Saturated(mem0, within)
    requires |t.queue| > 0 && Traceable(t) && Rested(mem0, t, mode.next)
    ensures Rested(mem0, TraceNext(t, mode), mode.next)
  {
    hide TraceInv, TricolorBut, SlotInv, MarkObject, Traceable, Rested, Advances, SharingInv;
    PopKeeps(t);
    var a, popped := t.queue[0], t.(queue := t.queue[1..]);
    PopSharing(mem0, t, mode.next, t.queue[1..]);
    if t.mem[a].header.mark != mode.next {
      MarkInv(mem0, t, mode.next, within);
      MarkSharing(mem0, popped, mode.next, a);
      TraceSlotsSharing(mem0, MarkObject(popped, mode.next, a), mode, within, a, 0);
    }
  }

  lemma {:induction false} TraceAllSharing(mem0: Memory, t: Trace, mode: Mode, within: set<Address>)
    requires TraceInv(mem0, t, mode.next, within) && TricolorBut(t, mode.next, {}) && Saturated(mem0, within)
    requires Traceable(t) && Rested(mem0, t, mode.next)
    ensures Rested(mem0, TraceAll(t, mode), mode.next)
    decreases EvacSpace(t.space), Unmarked(t.mem, mode.next), |t.queue|
  {
    hide TraceInv, TricolorBut, TraceNext, Traceable, EvacSpace, Unmarked, Rested, SpaceFrame, Advances;
    if |t.queue| > 0 {
      TraceNextKeeps(t, mode);
      TraceNextInv(mem0, t, mode, within);
      TraceNextSharing(mem0, t, mode, within);
      TraceAllSharing(mem0, TraceNext(t, mode), mode, within);
    }
  }

  // The roots.

  /** While the roots are visited, every copy is forwarded to. */
  ghost predicate RootSharing(mem0: Memory, t: Trace, next: bool) {
    && Rested(mem0, t, next)
    && forall c :: c in t.mem && c !in mem0 && c in t.origin ==> Forwarded(t.mem, t.origin[c])
  }

  lemma MovedRootSharing(mem0: Memory, t: Trace, next: bool, sp: Space, r: Address, c: Address)
    requires RootSharing(mem0, t, next) && References(t) && Copyable(mem0, t, next, r)
    requires c !in t.mem && c !in mem0 && SpaceFrame(t.space, sp)
    ensures var copied := Copy(t, sp, r, c);
            RootSharing(mem0, copied.(mem := SetHeader(copied.mem, r, copied.mem[r].header.Forward(c))), next)
  {
    var copied := Copy(t, sp, r, c);
    var t' := copied.(mem := SetHeader(copied.mem, r, copied.mem[r].header.Forward(c)));
    CopyRefers(t, sp, r, c);
    assert forall p, i: nat, v :: Refers(t', p, i, v) <==> Refers(copied, p, i, v);
    CopyMoved(mem0, t, next, sp, r, c);
    hide References, Refers, Movable, SpaceFrame;
    assert forall x :: Forwarded(t'.mem, x) <==> Forwarded(t.mem, x) || x == r;
    assert forall d :: !Lone(mem0, t', d) || d !in t'.mem;
    assert forall x :: Marked(t'.mem, next, x) ==> Marked(t.mem, next, x);
  }

  lemma CopyMoved(mem0: Memory, t: Trace, next: bool, sp: Space, x: Address, c: Address)
    requires CopiesMoved(mem0, t) && Copyable(mem0, t, next, x) && SpaceFrame(t.space, sp)
    ensures CopiesMoved(mem0, Copy(t, sp, x, c))
  {
    hide BlockOf;
  }

  lemma TraceRootSharing(mem0: Memory, t: Trace, mode: Mode, within: set<Address>, r: Address)
    requires RootInv(mem0, t, mode, within) && r in t.mem && r in t.origin && r in mem0
    requires RootSharing(mem0, t, mode.next)
    ensures RootSharing(mem0, TraceRoot(t, mode, r).0, mode.next)
  {
    hide Traceable, Simulates, Colours, Books, StemsFrom, Settled, EvacFrame, MaybeEvacuate, Evacuable, SpaceFrame,
         EvacSpace, Movable, Rested;
    InvTraceable(mem0, t, mode.next, within);
    OriginalsInMemory(mem0, t, mode.next, within);
    if Forwarded(t.mem, r) {
      PopSharing(mem0, t, mode.next, t.queue + [t.mem[r].header.pointer]);
    } else if mode.defrag {
      Evacuated(t, r);
      var (t', got) := MaybeEvacuate(t, r);
      if got.Some? {
        ChildMovable(mem0, t, mode.next, within, r);
        MovedRootSharing(mem0, t, mode.next, t'.space, r, got.value);
        var moved := t'.(mem := SetHeader(t'.mem, r, t'.mem[r].header.Forward(got.value)));
        PopSharing(mem0, moved, mode.next, moved.queue + [got.value]);
      } else {
        SpaceRested(mem0, t, mode.next, t'.space);
        PopSharing(mem0, t', mode.next, t'.queue + [r]);
      }
    } else {
      PopSharing(mem0, t, mode.next, t.queue + [r]);
    }
  }

  lemma SpaceRested(mem0: Memory, t: Trace, next: bool, sp: Space)
    requires Rested(mem0, t, next) && SpaceFrame(t.space, sp)
    ensures Rested(mem0, t.(space := sp), next)
  {
    hide BlockOf;
    var t' := t.(space := sp);
    assert forall c :: Lone(mem0, t', c) == Lone(mem0, t, c);
    assert forall x, i: nat, v :: Refers(t', x, i, v) == Refers(t, x, i, v);
  }

  lemma {:induction false} TraceRootsSharing(mem0: Memory, t: Trace, mode: Mode, within: set<Address>,
                                             roots: seq<Address>)
    requires RootInv(mem0, t, mode, within) && Traceable(t) && RootSharing(mem0, t, mode.next)
    requires forall k :: 0 <= k < |roots| ==> roots[k] in mem0 && roots[k] in within && roots[k] in t.mem
    ensures RootSharing(mem0, TraceRoots(t, mode, roots).0, mode.next)
    decreases |roots|
  {
    hide RootInv, Traceable, TraceRoot, Grows, RootSharing, SpaceFrame, RootStepped;
    if |roots| > 0 {
      TraceRootKeeps(t, mode, roots[0]);
      RootOrigins(mem0, t, mode, within);
      TraceRootInv(mem0, t, mode, within, roots[0]);
      TraceRootSharing(mem0, t, mode, within, roots[0]);
      var t1 := TraceRoot(t, mode, roots[0]).0;
      TraceRootsSharing(mem0, t1, mode, within, roots[1..]);
    }
  }

  // What the loop leaves alone.

  /** Except for the slots of `a`, nothing happens to the objects that are there; `a` keeps its slots
      below `k`, and any other slot of `a` is as before, follows a forwarding, or leads to a new
      copy. */
  ghost predicate SlotsSteady(t: Trace, t': Trace, a: Address, k: nat) {
    && (forall x :: x in t.mem ==> x in t'.mem && (x != a ==> t'.mem[x] == t.mem[x]))
    && a in t.mem && a in t'.mem && |t'.mem[a].slots| == |t.mem[a].slots|
    && t'.mem[a] == t.mem[a].(slots := t'.mem[a].slots)
    && (forall n :: 0 <= n < k && n < |t.mem[a].slots| ==> t'.mem[a].slots[n] == t.mem[a].slots[n])
    && (forall n :: 0 <= n < |t.mem[a].slots| ==>
          var was, now := t.mem[a].slots[n], t'.mem[a].slots[n];
          now == was || Forwarded(t.mem, was) || now !in t.mem)
  }

  lemma TraceSlotSteady(t: Trace, mode: Mode, a: Address, i: nat)
    requires Traceable(t) && a in t.mem && i < |t.mem[a].slots|
    requires t.mem[a].slots[i] in t.mem && t.mem[a].slots[i] in t.origin
    ensures SlotsSteady(t, TraceSlot(t, mode, a, i), a, i)
    ensures forall n :: i < n < |t.mem[a].slots| ==> TraceSlot(t, mode, a, i).mem[a].slots[n] == t.mem[a].slots[n]
  {
    hide Traceable, SpaceFrame, EvacSpace, EvacFrame, BlockOf, MaybeEvacuate, Evacuable;
    Evacuated(t, t.mem[a].slots[i]);
  }

  lemma {:induction false} TraceSlotsSteady(t: Trace, mode: Mode, a: Address, k: nat)
    requires Traceable(t) && a in t.mem && k <= |t.mem[a].slots|
    ensures SlotsSteady(t, TraceSlots(t, mode, a, k), a, k)
    decreases |t.mem[a].slots| - k
  {
    hide Traceable, TraceSlot, SpaceFrame, EvacSpace, Unmarked, SlotsSteady;
    if k < |t.mem[a].slots| {
      TraceSlotKeeps(t, mode, a, k);
      TraceSlotSteady(t, mode, a, k);
      TraceSlotsSteady(TraceSlot(t, mode, a, k), mode, a, k + 1);
      SteadyTwice(t, TraceSlot(t, mode, a, k), TraceSlots(t, mode, a, k), a, k);
    } else {
      SteadySelf(t, a, k);
    }
  }

  lemma SteadySelf(t: Trace, a: Address, k: nat)
    requires a in t.mem
    ensures SlotsSteady(t, t, a, k)
  {}

  /** Slot `k`, and then the ones after it. */
  lemma SteadyTwice(t: Trace, t1: Trace, t2: Trace, a: Address, k: nat)
    requires SlotsSteady(t, t1, a, k) && SlotsSteady(t1, t2, a, k + 1) && k < |t.mem[a].slots|
    requires forall n :: k < n < |t.mem[a].slots| ==> t1.mem[a].slots[n] == t.mem[a].slots[n]
    requires Traceable(t)
    ensures SlotsSteady(t, t2, a, k)
  {
    assert forall n :: 0 <= n < |t.mem[a].slots| ==> t.mem[a].slots[n] in t.mem;
    hide Traceable;
    assert t2.mem[a] == t.mem[a].(slots := t2.mem[a].slots);
    forall n | 0 <= n < |t.mem[a].slots|
      ensures n < k ==> t2.mem[a].slots[n] == t.mem[a].slots[n]
      ensures var was, now := t.mem[a].slots[n], t2.mem[a].slots[n];
              now == was || Forwarded(t.mem, was) || now !in t.mem
    {
      assert t1.mem[a].slots[n] == t.mem[a].slots[n] || n <= k;
    }
  }

  /** Marked objects keep their slots, and nothing is forwarded. */
  ghost predicate Steady(t: Trace, t': Trace, next: bool) {
    forall x :: x in t.mem ==>
      && x in t'.mem && Forwarded(t'.mem, x) == Forwarded(t.mem, x)
      && (Forwarded(t.mem, x) ==> t'.mem[x].header.pointer == t.mem[x].header.pointer)
      && (Marked(t.mem, next, x) ==> Marked(t'.mem, next, x) && t'.mem[x].slots == t.mem[x].slots)
  }

  lemma TraceNextSteady(t: Trace, mode: Mode)
    requires Traceable(t) && |t.queue| > 0
    ensures Steady(t, TraceNext(t, mode), mode.next)
  {
    hide Traceable, TraceSlots, SpaceFrame, EvacSpace, MarkLines;
    PopKeeps(t);
    var a, popped := t.queue[0], t.(queue := t.queue[1..]);
    if t.mem[a].header.mark != mode.next {
      MarkObjectKeeps(popped, mode.next, a);
      TraceSlotsSteady(MarkObject(popped, mode.next, a), mode, a, 0);
    }
  }

  lemma {:induction false} TraceAllSteady(t: Trace, mode: Mode)
    requires Traceable(t)
    ensures Steady(t, TraceAll(t, mode), mode.next)
    decreases EvacSpace(t.space), Unmarked(t.mem, mode.next), |t.queue|
  {
    hide Traceable, TraceNext, EvacSpace, Unmarked, SpaceFrame;
    if |t.queue| > 0 {
      TraceNextKeeps(t, mode);
      TraceNextSteady(t, mode);
      TraceAllSteady(TraceNext(t, mode), mode);
    }
  }

  // What holds after a whole collection.

  /** The precise roots join the queue behind the conservative ones, and change no slot; the space
      changes only if the collection evacuates. */
  lemma {:induction false} TraceRootsAppend(t: Trace, mode: Mode, list: seq<Address>)
    requires Traceable(t) && forall k :: 0 <= k < |list| ==> list[k] in t.mem
    ensures var t' := TraceRoots(t, mode, list).0;
            && |t.queue| <= |t'.queue| && t'.queue[..|t.queue|] == t.queue
            && (!mode.defrag ==> t'.space == t.space)
            && forall x :: x in t.mem ==> x in t'.mem && t'.mem[x].slots == t.mem[x].slots
    decreases |list|
  {
    hide Traceable, TraceRoot, SpaceFrame, EvacSpace;
    if |list| > 0 {
      TraceRootKeeps(t, mode, list[0]);
      TraceRootAppends(t, mode, list[0]);
      var t1 := TraceRoot(t, mode, list[0]).0;
      TraceRootsAppend(t1, mode, list[1..]);
      assert t.queue == t1.queue[..|t.queue|];
    }
  }

  lemma TraceRootAppends(t: Trace, mode: Mode, r: Address)
    requires Traceable(t) && r in t.mem && r in t.origin
    ensures var t' := TraceRoot(t, mode, r).0;
            && |t'.queue| == |t.queue| + 1 && t'.queue[..|t.queue|] == t.queue
            && (!mode.defrag ==> t'.space == t.space)
            && forall x :: x in t.mem ==> x in t'.mem && t'.mem[x].slots == t.mem[x].slots
  {
    hide Traceable, SpaceFrame, EvacSpace, EvacFrame, BlockOf, MaybeEvacuate, Evacuable;
    Evacuated(t, r);
  }

  /** The state between the roots and the loop. */
  lemma AfterRoots(mem: Memory, sp: Space, roots: Roots, mode: Mode) returns (t: Trace)
    requires Ready(mem, sp, roots, mode.next)
    ensures Traceable(t) && RunTrace(mem, sp, roots, mode).0 == TraceAll(t, mode)
    ensures RootSharing(mem, t, mode.next) && exists values :: RootsDone(mem, sp, mode, roots.precise, t, values)
    ensures TraceInv(mem, t, mode.next, Reached(mem, roots)) && TricolorBut(t, mode.next, {}) && SpaceFrame(sp, t.space)
    ensures RootInv(mem, t, mode, Reached(mem, roots)) && Saturated(mem, Reached(mem, roots))
    ensures |roots.conservative| <= |t.queue| && t.queue[..|roots.conservative|] == roots.conservative
    ensures !mode.defrag ==> t.space == sp
    ensures forall x :: x in mem ==> x in t.mem && t.mem[x].slots == mem[x].slots
  {
    hide Finished, LaidOut, Closed, TraceAll, RootsDone, RootSharing, TraceInv, TricolorBut, RootInv, TraceRoots,
         Grows, Reached;
    var t0 := Start(mem, {}, sp, roots.conservative);
    StartInv(mem, sp, roots, mode);
    StartTraceable(mem, sp, roots, mode.next);
    TargetsReached(mem, sp, roots, mode.next);
    StartSharing(mem, sp, roots, mode.next);
    TraceRootsInv(mem, t0, mode, Reached(mem, roots), roots.precise);
    TraceRootsSharing(mem, t0, mode, Reached(mem, roots), roots.precise);
    AllRootsDone(mem, sp, roots, mode, |roots.precise|);
    assert roots.precise[..|roots.precise|] == roots.precise;
    TraceRootsKeeps(t0, mode, roots.precise);
    TraceRootsAppend(t0, mode, roots.precise);
    t := TraceRoots(t0, mode, roots.precise).0;
    RootsReadyToLoop(mem, t, mode, Reached(mem, roots));
  }

  lemma StartSharing(mem: Memory, sp: Space, roots: Roots, next: bool)
    requires Ready(mem, sp, roots, next)
    ensures RootSharing(mem, Start(mem, {}, sp, roots.conservative), next)
  {
    hide LaidOut;
    var t := Start(mem, {}, sp, roots.conservative);
    assert forall x, i: nat, v :: Refers(t, x, i, v) ==> v in mem;
  }

  lemma FinallyRested(mem: Memory, sp: Space, roots: Roots, mode: Mode)
    requires Ready(mem, sp, roots, mode.next)
    ensures Rested(mem, RunTrace(mem, sp, roots, mode).0, mode.next)
  {
    hide Ready, RunTrace, Rested, TraceInv, Traceable, RootsDone, TricolorBut, SpaceFrame, Reached;
    var t := AfterRoots(mem, sp, roots, mode);
    TraceAllSharing(mem, t, mode, Reached(mem, roots));
  }

  /** Exactly the foretold originals are forwarded. */
  lemma ForwardedAsForetold(mem: Memory, sp: Space, roots: Roots, mode: Mode, o: Address)
    requires Ready(mem, sp, roots, mode.next) && o in mem
    ensures var t := RunTrace(mem, sp, roots, mode).0;
            Forwarded(t.mem, o) <==> mode.defrag && WillForward(mem, sp, roots.precise, o)
  {
    hide Ready, RunTrace, Rested, TraceInv, Traceable, TricolorBut, SpaceFrame, Reached, RootSharing, WillForward,
         TriedInVain;
    var t := AfterRoots(mem, sp, roots, mode);
    TraceAllSteady(t, mode);
  }

  /** The one object that stands for `o` if `o` does not split. */
  function StandIn(t: Trace, o: Address): Address {
    if Forwarded(t.mem, o) then t.mem[o].header.pointer else o
  }

  /** `o` will not split: this collection cannot move it, or a precise root leads to it. */
  ghost predicate StaysWhole(mem: Memory, sp: Space, roots: Roots, mode: Mode, o: Address) {
    Still(mode, sp) || !Movable(mem, sp, o) || o in roots.precise
  }

  /** An object that cannot be moved is its own only stand-in. */
  lemma UnmovableStays(mem: Memory, sp: Space, roots: Roots, mode: Mode, o: Address, b: Address)
    requires Ready(mem, sp, roots, mode.next) && o in mem && (Still(mode, sp) || !Movable(mem, sp, o))
    requires var t := RunTrace(mem, sp, roots, mode).0; b in t.mem && b in t.origin && t.origin[b] == o
    ensures b == o
  {
    hide Ready, RunTrace, Traceable, TraceInv, Reached, SlotSurvives, MovedBefore, Still, SameGraph;
    var t := RunTrace(mem, sp, roots, mode).0;
    TraceFinishes(mem, sp, roots, mode);
    OriginalsInMemory(mem, t, mode.next, Reached(mem, roots));
    if !Movable(mem, sp, o) {
      FinallyRested(mem, sp, roots, mode);
      assert !Movable(mem, t.space, o) by { hide BlockOf; }
      hide Movable, OneForward, OneSlot;
    } else {
      StillCollection(mem, sp, roots, mode);
      SameGraphKeys(mem, t.mem);
    }
  }

  lemma SameGraphKeys(mem: Memory, mem': Memory)
    requires SameGraph(mem, mem')
    ensures mem'.Keys == mem.Keys
  {}

  /** A precise root's target has one stand-in: it is forwarded if it moves, and if it does not for
      want of room, nothing moves after it. */
  lemma RootTargetStays(mem: Memory, sp: Space, roots: Roots, mode: Mode, o: Address, b: Address)
    requires Ready(mem, sp, roots, mode.next) && o in mem && o in roots.precise && mode.defrag && Movable(mem, sp, o)
    requires var t := RunTrace(mem, sp, roots, mode).0;
             Marked(t.mem, mode.next, b) && b in t.origin && t.origin[b] == o
    ensures b == StandIn(RunTrace(mem, sp, roots, mode).0, o)
  {
    hide Ready, RunTrace, Traceable, TraceInv, TricolorBut, SpaceFrame, Reached, Movable, OriginalsOk, CopyAll, Moves;
    var t := RunTrace(mem, sp, roots, mode).0;
    var t1 := AfterRoots(mem, sp, roots, mode);
    TraceAllInv(mem, t1, mode, Reached(mem, roots));
    OriginalsInMemory(mem, t1, mode.next, Reached(mem, roots));
    TraceAllSteady(t1, mode);
    FinallyRested(mem, sp, roots, mode);
    if !Forwarded(t1.mem, o) {
      TraceAllMakesNoCopy(t1, mode);
      InvTraceable(mem, t1, mode.next, Reached(mem, roots));
      assert b in t1.mem && b in t1.origin && t1.origin[b] == o;
    }
  }

  /** An object that stays whole has one surviving stand-in. */
  lemma OneStandIn(mem: Memory, sp: Space, roots: Roots, mode: Mode, o: Address, b: Address)
    requires Ready(mem, sp, roots, mode.next) && o in mem && StaysWhole(mem, sp, roots, mode, o)
    requires var t := RunTrace(mem, sp, roots, mode).0;
             Marked(t.mem, mode.next, b) && b in t.origin && t.origin[b] == o
    ensures b == StandIn(RunTrace(mem, sp, roots, mode).0, o)
  {
    hide Ready, RunTrace, Movable, Still;
    if Still(mode, sp) || !Movable(mem, sp, o) {
      UnmovableStays(mem, sp, roots, mode, o, b);
    } else {
      NotStill(mode, sp);
      RootTargetStays(mem, sp, roots, mode, o, b);
    }
  }

  /** Sharing is kept. All surviving slots that led to `o` lead to one and the same object after the
      collection if `o` is pinned or outside the candidate blocks, if nothing can move, or if a
      precise root leads to `o`. */
  lemma SharingKept(mem: Memory, sp: Space, roots: Roots, mode: Mode, o: Address, p: Address, i: nat)
    requires Ready(mem, sp, roots, mode.next) && o in mem && StaysWhole(mem, sp, roots, mode, o)
    requires var t := RunTrace(mem, sp, roots, mode).0; Marked(t.mem, mode.next, p) && LedTo(mem, t, p, i, o)
    ensures var t := RunTrace(mem, sp, roots, mode).0;
            i < |t.mem[p].slots| && t.mem[p].slots[i] == StandIn(t, o)
  {
    hide Ready, RunTrace, Finished, Traceable, SpaceFrame, SlotSurvives, MovedBefore, Movable, Still, SameImage;
    var t := RunTrace(mem, sp, roots, mode).0;
    TraceFinishes(mem, sp, roots, mode);
    SurvivorsSimulate(mem, roots, t, mode.next, p);
    SameShape(mem[t.origin[p]], t.mem[p]);
    var b := t.mem[p].slots[i];
    assert b in Survivors(t, mode.next) && t.origin[b] == o;
    OneStandIn(mem, sp, roots, mode, o, b);
  }

  lemma NotStill(mode: Mode, sp: Space)
    requires !Still(mode, sp)
    ensures mode.defrag
  {}

  /** Slot `i` of what `p` stands for led to `o` before the collection. */
  predicate LedTo(mem: Memory, t: Trace, p: Address, i: nat, o: Address) {
    p in t.origin && t.origin[p] in mem && i < |mem[t.origin[p]].slots| && mem[t.origin[p]].slots[i] == o
  }

  /** In every collection: two different surviving slots that led to `o` lead to the same object
      afterwards exactly when `o` is forwarded, which is foretold, or neither of them was given a
      copy. No copy that the slot path makes is ever shared. */
  lemma SharedExactlyWhen(mem: Memory, sp: Space, roots: Roots, mode: Mode, o: Address, p: Address, i: nat,
                          q: Address, j: nat)
    requires Ready(mem, sp, roots, mode.next) && o in mem && (p, i) != (q, j)
    requires var t := RunTrace(mem, sp, roots, mode).0;
             && Marked(t.mem, mode.next, p) && LedTo(mem, t, p, i, o)
             && Marked(t.mem, mode.next, q) && LedTo(mem, t, q, j, o)
    ensures var t := RunTrace(mem, sp, roots, mode).0;
            && i < |t.mem[p].slots| && j < |t.mem[q].slots|
            && (t.mem[p].slots[i] == t.mem[q].slots[j] <==>
                || (mode.defrag && WillForward(mem, sp, roots.precise, o))
                || (t.mem[p].slots[i] == o && t.mem[q].slots[j] == o))
  {
    hide Ready, RunTrace, Traceable, SpaceFrame, SlotSurvives, MovedBefore, WillForward, SameImage, TraceInv,
         TricolorBut;
    var t := RunTrace(mem, sp, roots, mode).0;
    TraceFinishes(mem, sp, roots, mode);
    SurvivorsSimulate(mem, roots, t, mode.next, p);
    SurvivorsSimulate(mem, roots, t, mode.next, q);
    SameShape(mem[t.origin[p]], t.mem[p]);
    SameShape(mem[t.origin[q]], t.mem[q]);
    OriginalsInMemory(mem, t, mode.next, Reached(mem, roots));
    ForwardedAsForetold(mem, sp, roots, mode, o);
    FinallyRested(mem, sp, roots, mode);
    var b, c := t.mem[p].slots[i], t.mem[q].slots[j];
    assert Refers(t, p, i, b) && Refers(t, q, j, c);
    assert b in Survivors(t, mode.next) && c in Survivors(t, mode.next);
  }

  // Two slots of one object.

  /** The originals that the precise roots will have forwarded. */
  ghost function Gone(mem: Memory, sp: Space, roots: Roots, mode: Mode): set<Address> {
    set x | x in mem && mode.defrag && WillForward(mem, sp, roots.precise, x)
  }

  /** The listed objects at which an evacuation is attempted: those that are not forwarded yet. */
  ghost function Attempted(list: seq<Address>, gone: set<Address>): seq<Address> {
    if list == [] then [] else
    var init, last := list[..|list| - 1], list[|list| - 1];
    Attempted(init, gone) + if last in gone then [] else [last]
  }

  lemma OneMoreAttempted(list: seq<Address>, gone: set<Address>, a: Address)
    ensures Attempted(list + [a], gone) == if a in gone then Attempted(list, gone) else Attempted(list, gone) + [a]
  {
    var more := list + [a];
    assert more[..|more| - 1] == list && more[|more| - 1] == a;
  }

  /** Before slot `k` of the first conservative root `a` is traced: the evacuation allocator has tried
      the movable targets of the slots before it, and nothing else has happened since the roots. */
  ghost predicate BeforeSlot(mem: Memory, sp: Space, mode: Mode, gone: set<Address>, a: Address, k: nat, t: Trace) {
    && Traceable(t) && SpaceFrame(sp, t.space) && a in mem && a in t.mem && k <= |mem[a].slots| == |t.mem[a].slots|
    && a !in gone
    && (mode.defrag ==> t.space == CopyAll(mem, sp, Attempted(mem[a].slots[..k], gone)))
    && (forall n :: k <= n < |mem[a].slots| ==> t.mem[a].slots[n] == mem[a].slots[n])
    && (forall x :: x in mem ==>
          && x in t.mem && x in t.origin && t.mem[x].size == mem[x].size
          && (t.mem[x].header.forwarded <==> x in gone)
          && (x !in gone ==>
                t.mem[x].header.pinned == mem[x].header.pinned && (x != a ==> t.mem[x].header.mark != mode.next)))
  }

  /** What tracing slot `k` does to the space and to the slot. */
  lemma OneSlotValue(mem: Memory, sp: Space, mode: Mode, gone: set<Address>, a: Address, k: nat, t: Trace)
    requires BeforeSlot(mem, sp, mode, gone, a, k, t) && k < |mem[a].slots| && Closed(mem) && mem[a].header.pinned
    ensures t.mem[a].slots[k] in t.mem && t.mem[a].slots[k] in t.origin
    ensures mode.defrag ==> TraceSlot(t, mode, a, k).space == CopyAll(mem, sp, Attempted(mem[a].slots[..k + 1], gone))
    ensures var child, t' := mem[a].slots[k], TraceSlot(t, mode, a, k);
            && a in t'.mem && |t'.mem[a].slots| == |t.mem[a].slots|
            && (child in gone ||
                if mode.defrag && Room(mem, sp, Attempted(mem[a].slots[..k], gone), child)
                then t'.mem[a].slots[k] !in t.mem
                else t'.mem[a].slots[k] == child)
  {
    hide Traceable, SpaceFrame, EvacSpace, EvacFrame, BlockOf, Evacuable, Movable, Allocate, CopyAll, Attempted;
    var child := mem[a].slots[k];
    assert child in mem && t.mem[a].slots[k] == child;
    assert mem[a].slots[..k + 1] == mem[a].slots[..k] + [child];
    OneMoreAttempted(mem[a].slots[..k], gone, child);
    if child !in gone {
      Evacuated(t, child);
      SameCandidates(mem, sp, t, child);
      OneMoreCopy(mem, sp, Attempted(mem[a].slots[..k], gone), child);
      if child == a { assert !Movable(mem, sp, child) by { PinnedStays(mem, sp, a); } }
    }
  }

  lemma OneSlotMore(mem: Memory, sp: Space, mode: Mode, gone: set<Address>, a: Address, k: nat, t: Trace)
    requires BeforeSlot(mem, sp, mode, gone, a, k, t) && k < |mem[a].slots| && Closed(mem) && mem[a].header.pinned
    ensures t.mem[a].slots[k] in t.mem && t.mem[a].slots[k] in t.origin
    ensures BeforeSlot(mem, sp, mode, gone, a, k + 1, TraceSlot(t, mode, a, k))
    ensures var v := TraceSlot(t, mode, a, k).mem[a].slots[k];
            mem[a].slots[k] in gone ||
            if mode.defrag && Room(mem, sp, Attempted(mem[a].slots[..k], gone), mem[a].slots[k]) then v !in t.mem
            else v == mem[a].slots[k]
  {
    hide Traceable, SpaceFrame, EvacSpace, Unmarked, Room, CopyAll, TraceSlot, Closed, Attempted;
    OneSlotValue(mem, sp, mode, gone, a, k, t);
    TraceSlotKeeps(t, mode, a, k);
    TraceSlotSteady(t, mode, a, k);
    TraceSlotOrigins(t, mode, a, k);
    SpaceFrameTwice(sp, t.space, TraceSlot(t, mode, a, k).space);
  }

  lemma TraceSlotOrigins(t: Trace, mode: Mode, a: Address, i: nat)
    requires Traceable(t) && a in t.mem && i < |t.mem[a].slots|
    requires t.mem[a].slots[i] in t.mem && t.mem[a].slots[i] in t.origin
    ensures forall x :: x in t.origin ==> x in TraceSlot(t, mode, a, i).origin
  {
    hide Traceable, SpaceFrame, EvacSpace, EvacFrame, BlockOf, MaybeEvacuate, Evacuable;
    Evacuated(t, t.mem[a].slots[i]);
  }

  lemma PinnedStays(mem: Memory, sp: Space, a: Address)
    requires a in mem && mem[a].header.pinned
    ensures !Movable(mem, sp, a)
  {}

  lemma {:induction false} ReachSlot(mem: Memory, sp: Space, mode: Mode, gone: set<Address>, a: Address, k: nat,
                                     i: nat, t: Trace) returns (t': Trace)
    requires BeforeSlot(mem, sp, mode, gone, a, k, t) && k <= i < |mem[a].slots| && Closed(mem) && mem[a].header.pinned
    ensures BeforeSlot(mem, sp, mode, gone, a, i, t') && TraceSlots(t', mode, a, i) == TraceSlots(t, mode, a, k)
    decreases i - k
  {
    hide BeforeSlot, TraceSlot, Closed, Traceable, SpaceFrame, EvacSpace, Unmarked, Room;
    SlotReady(mem, sp, mode, gone, a, k, t);
    t' := t;
    if k < i {
      OneSlotMore(mem, sp, mode, gone, a, k, t);
      TraceSlotKeeps(t, mode, a, k);
      t' := ReachSlot(mem, sp, mode, gone, a, k + 1, i, TraceSlot(t, mode, a, k));
    }
  }

  lemma SlotReady(mem: Memory, sp: Space, mode: Mode, gone: set<Address>, a: Address, k: nat, t: Trace)
    requires BeforeSlot(mem, sp, mode, gone, a, k, t)
    ensures Traceable(t) && a in t.mem && |t.mem[a].slots| == |mem[a].slots|
  {}

  lemma LaterSlot(mem: Memory, sp: Space, mode: Mode, gone: set<Address>, a: Address, k: nat, t: Trace, j: nat)
    requires BeforeSlot(mem, sp, mode, gone, a, k, t) && k <= j < |mem[a].slots| && Closed(mem)
    ensures t.mem[a].slots[j] == mem[a].slots[j] && mem[a].slots[j] in mem
    ensures Forwarded(t.mem, mem[a].slots[j]) <==> mem[a].slots[j] in gone
  {
    hide Traceable, SpaceFrame, CopyAll;
    assert mem[a].slots[j] in mem;
  }

  /** A slot that gets a copy shares it with no later slot of the same object. */
  lemma CopyNotShared(mem: Memory, sp: Space, mode: Mode, gone: set<Address>, a: Address, i: nat, j: nat, t: Trace)
    requires BeforeSlot(mem, sp, mode, gone, a, i, t) && i < j < |mem[a].slots| && Closed(mem) && mem[a].header.pinned
    requires mode.defrag && Room(mem, sp, Attempted(mem[a].slots[..i], gone), mem[a].slots[i])
    requires mem[a].slots[i] !in gone && mem[a].slots[j] == mem[a].slots[i]
    ensures var t' := TraceSlots(t, mode, a, i);
            a in t'.mem && |t'.mem[a].slots| == |mem[a].slots| && t'.mem[a].slots[i] != t'.mem[a].slots[j]
  {
    hide Room, CopyAll, SpaceFrame, TraceSlot, EvacSpace, Unmarked;
    OneSlotMore(mem, sp, mode, gone, a, i, t);
    TraceSlotKeeps(t, mode, a, i);
    var t1 := TraceSlot(t, mode, a, i);
    var c, o := t1.mem[a].slots[i], mem[a].slots[j];
    assert c in t1.mem && o in mem by { SlotsClosed(t1, a, i); }
    hide Traceable;
    TraceSlotsSteady(t1, mode, a, i + 1);
  }

  lemma SlotsClosed(t: Trace, a: Address, i: nat)
    requires Traceable(t) && a in t.mem && i < |t.mem[a].slots|
    ensures t.mem[a].slots[i] in t.mem
  {
    hide LaidOut;
  }

  /** A slot whose target is movable but is refused a copy ends evacuation. */
  lemma RefusedSlot(mem: Memory, sp: Space, mode: Mode, gone: set<Address>, a: Address, i: nat, t: Trace)
    requires BeforeSlot(mem, sp, mode, gone, a, i, t) && i < |mem[a].slots| && Closed(mem) && mem[a].header.pinned
    requires mode.defrag && Movable(mem, sp, mem[a].slots[i]) && mem[a].slots[i] !in gone
    requires !Room(mem, sp, Attempted(mem[a].slots[..i], gone), mem[a].slots[i])
    ensures t.mem[a].slots[i] in t.mem && t.mem[a].slots[i] in t.origin && EvacEmpty(TraceSlot(t, mode, a, i).space)
  {
    hide SpaceFrame, EvacSpace, EvacFrame, Movable, Evacuable, MaybeEvacuate, Traceable;
    var child := mem[a].slots[i];
    assert child in mem;
    SameCandidates(mem, sp, t, child);
    assert child != a by { if child == a { PinnedStays(mem, sp, a); } }
    Evacuated(t, child);
    assert MaybeEvacuate(t, child).1.None? by { NoRoomNoCopy(mem, sp, mode, gone, a, i, t); }
    FailedEvacuation(t, child);
    StillEvacuable(t, child);
  }

  lemma NoRoomNoCopy(mem: Memory, sp: Space, mode: Mode, gone: set<Address>, a: Address, i: nat, t: Trace)
    requires BeforeSlot(mem, sp, mode, gone, a, i, t) && i < |mem[a].slots| && Closed(mem) && mode.defrag
    requires Movable(mem, sp, mem[a].slots[i]) && mem[a].slots[i] !in gone
    requires !Room(mem, sp, Attempted(mem[a].slots[..i], gone), mem[a].slots[i])
    ensures var child := mem[a].slots[i];
            child in mem && child in t.mem && child in t.origin && MaybeEvacuate(t, child).1.None?
  {
    hide SpaceFrame, Traceable, BlockOf, Allocate;
    assert mem[a].slots[i] in mem;
  }

  /** A slot that is refused a copy, and every later one, stays as it is. */
  lemma RefusalKeepsSlots(mem: Memory, sp: Space, mode: Mode, gone: set<Address>, a: Address, i: nat, j: nat, t: Trace)
    requires BeforeSlot(mem, sp, mode, gone, a, i, t) && i < j < |mem[a].slots| && Closed(mem) && mem[a].header.pinned
    requires mode.defrag && Movable(mem, sp, mem[a].slots[i])
    requires mem[a].slots[i] !in gone && mem[a].slots[j] == mem[a].slots[i]
    requires !Room(mem, sp, Attempted(mem[a].slots[..i], gone), mem[a].slots[i])
    ensures var t' := TraceSlots(t, mode, a, i);
            && a in t'.mem && |t'.mem[a].slots| == |mem[a].slots|
            && t'.mem[a].slots[i] == mem[a].slots[i] && t'.mem[a].slots[j] == mem[a].slots[j]
  {
    hide Room, SpaceFrame, EvacSpace, Unmarked, Movable, TraceSlot, Traceable, Closed, BeforeSlot;
    SlotReady(mem, sp, mode, gone, a, i, t);
    OneSlotMore(mem, sp, mode, gone, a, i, t);
    RefusedSlot(mem, sp, mode, gone, a, i, t);
    TraceSlotKeeps(t, mode, a, i);
    var t1 := TraceSlot(t, mode, a, i);
    LaterSlot(mem, sp, mode, gone, a, i + 1, t1, j);
    TraceSlotsSteady(t1, mode, a, i + 1);
    TraceSlotsMakeNoCopy(t1, mode, a, i + 1);
    TraceSlotsKeeps(t1, mode, a, i + 1);
    SlotsClosed(TraceSlots(t1, mode, a, i + 1), a, j);
  }

  /** The space in which the slots of the first conservative root `a` are traced. */
  function AtFirstVisit(mem: Memory, sp: Space, roots: Roots, mode: Mode, a: Address): Space
    requires a in mem
  {
    MarkLines(if mode.defrag then CopyAll(mem, sp, Firsts(roots.precise)) else sp, a, mem[a].size)
  }

  /** The first object that the loop visits. */
  lemma FirstVisit(mem: Memory, sp: Space, roots: Roots, mode: Mode) returns (t: Trace)
    requires Ready(mem, sp, roots, mode.next) && |roots.conservative| > 0
    ensures var a, gone := roots.conservative[0], Gone(mem, sp, roots, mode);
            && a in mem && mem[a].header.pinned && Closed(mem)
            && BeforeSlot(mem, AtFirstVisit(mem, sp, roots, mode, a), mode, gone, a, 0, t)
            && Marked(t.mem, mode.next, a)
            && Traceable(TraceSlots(t, mode, a, 0))
            && RunTrace(mem, sp, roots, mode).0 == TraceAll(TraceSlots(t, mode, a, 0), mode)
  {
    hide LaidOut, SpaceFrame, EvacSpace, Unmarked, TraceSlots, EvacTargetOk, TraceInv, TricolorBut, RootSharing,
         Reached, RunTrace, Settled, Traceable, AtFirstVisit, RootsDone, BeforeSlot, Gone, MarkLines;
    var a := roots.conservative[0];
    var t0 := AfterRoots(mem, sp, roots, mode);
    var values :| RootsDone(mem, sp, mode, roots.precise, t0, values);
    PopKeeps(t0);
    assert t0.queue[0] == a;
    var popped := t0.(queue := t0.queue[1..]);
    MarkObjectKeeps(popped, mode.next, a);
    t := MarkObject(popped, mode.next, a);
    VisitBegins(mem, sp, roots, mode, t0, values, a, t);
    TraceSlotsKeeps(t, mode, a, 0);
    TraceNextKeeps(t0, mode);
    assert TraceNext(t0, mode) == TraceSlots(t, mode, a, 0);
    assert TraceAll(t0, mode) == TraceAll(TraceNext(t0, mode), mode);
  }

  /** What the roots leave behind, with `a` marked. */
  lemma VisitBegins(mem: Memory, sp: Space, roots: Roots, mode: Mode, t0: Trace, values: seq<Address>, a: Address,
                    t: Trace)
    requires RootsDone(mem, sp, mode, roots.precise, t0, values) && NoneMarked(t0.mem, mode.next)
    requires !mode.defrag ==> t0.space == sp
    requires a in mem && mem[a].header.pinned && a in t0.mem && t0.mem[a].slots == mem[a].slots
    requires t == MarkObject(t0.(queue := t.queue), mode.next, a) && Traceable(t)
    ensures BeforeSlot(mem, AtFirstVisit(mem, sp, roots, mode, a), mode, Gone(mem, sp, roots, mode), a, 0, t)
    ensures !Forwarded(t0.mem, a) && t0.mem[a].header.mark != mode.next
  {
    hide SpaceFrame, Traceable, WillForward, CopyAll, TriedInVain, Firsts, MarkLines;
    PinnedNotGone(mem, sp, roots, mode, a);
    SpaceFrameSelf(t.space);
    assert mem[a].slots[..0] == [];
    NothingAttempted(mem, t.space);
    assert t.space == AtFirstVisit(mem, sp, roots, mode, a);
  }

  lemma NothingAttempted(mem: Memory, sp: Space)
    ensures CopyAll(mem, sp, []) == sp
  {}

  lemma PinnedNotGone(mem: Memory, sp: Space, roots: Roots, mode: Mode, a: Address)
    requires a in mem && mem[a].header.pinned
    ensures a !in Gone(mem, sp, roots, mode)
  {
    hide CopyAll, Firsts, BlockOf;
  }

  /** Two slots of the first conservative root that led to one object `o` share it after the
      collection exactly when a precise root leads to `o` or `o` does not move at the first of them,
      and that is told before the collection: `o` moves if the collection evacuates, `o` is unpinned
      in a candidate block, and room is left after the roots and the slots before it. */
  lemma PairSharesExactlyWhen(mem: Memory, sp: Space, roots: Roots, mode: Mode, i: nat, j: nat)
    requires Ready(mem, sp, roots, mode.next) && |roots.conservative| > 0
    requires var a := roots.conservative[0];
             a in mem && i < j < |mem[a].slots| && mem[a].slots[i] == mem[a].slots[j]
    ensures var a, t := roots.conservative[0], RunTrace(mem, sp, roots, mode).0;
            && Marked(t.mem, mode.next, a) && |t.mem[a].slots| == |mem[a].slots|
            && (t.mem[a].slots[i] == t.mem[a].slots[j] <==> !SplitsAt(mem, sp, roots, mode, a, i))
  {
    var a, o := roots.conservative[0], mem[roots.conservative[0]].slots[i];
    var marked, gone := AtFirstVisit(mem, sp, roots, mode, a), Gone(mem, sp, roots, mode);
    assert o in mem && a in mem;
    assert mode.defrag && Room(mem, marked, Attempted(mem[a].slots[..i], gone), o) ==> Movable(mem, marked, o);
    hide Ready, RunTrace, Room, CopyAll, BeforeSlot, Traceable, MarkLines, Movable, Closed, SlotsSteady, TraceAll,
         TraceSlots, Gone, AtFirstVisit, Attempted, Still;
    var t0 := FirstVisit(mem, sp, roots, mode);
    var t1 := ReachSlot(mem, marked, mode, gone, a, 0, i, t0);
    SlotReady(mem, marked, mode, gone, a, 0, t0);
    SlotReady(mem, marked, mode, gone, a, i, t1);
    var t2 := TraceSlots(t1, mode, a, i);
    MarkedThrough(t0, mode, a);
    TraceAllSteady(t2, mode);
    SameMovable(mem, sp, roots, mode, a, o);
    if o !in roots.precise { NotListedNotGone(mem, sp, roots, mode, o); }
    if SplitsAt(mem, sp, roots, mode, a, i) {
      CopyNotShared(mem, marked, mode, gone, a, i, j, t1);
    } else if mode.defrag && Movable(mem, sp, o) && o !in roots.precise {
      RefusalKeepsSlots(mem, marked, mode, gone, a, i, j, t1);
    } else {
      RootIsItself(mem, sp, roots, mode, a);
      SharingKept(mem, sp, roots, mode, o, a, i);
      SharingKept(mem, sp, roots, mode, o, a, j);
    }
  }

  /** The target of slot `i` of the first conservative root `a` gets a copy of its own when that slot
      is traced. */
  ghost predicate SplitsAt(mem: Memory, sp: Space, roots: Roots, mode: Mode, a: Address, i: nat) {
    && a in mem && i < |mem[a].slots| && mem[a].slots[i] !in roots.precise && mode.defrag
    && var earlier := Attempted(mem[a].slots[..i], Gone(mem, sp, roots, mode));
    Room(mem, AtFirstVisit(mem, sp, roots, mode, a), earlier, mem[a].slots[i])
  }

  lemma NotListedNotGone(mem: Memory, sp: Space, roots: Roots, mode: Mode, o: Address)
    requires o !in roots.precise
    ensures o !in Gone(mem, sp, roots, mode)
  {
    hide Moves;
  }

  lemma SameMovable(mem: Memory, sp: Space, roots: Roots, mode: Mode, a: Address, o: Address)
    requires Ready(mem, sp, roots, mode.next) && a in mem
    ensures Movable(mem, AtFirstVisit(mem, sp, roots, mode, a), o) == Movable(mem, sp, o)
  {
    hide BlockOf, MarkLines, TraceInv, Traceable, TricolorBut, RootSharing, Reached, RunTrace, RootInv, OriginalsOk,
         CopyAll, Ready;
    var t := AfterRoots(mem, sp, roots, mode);
    var base := if mode.defrag then CopyAll(mem, sp, Firsts(roots.precise)) else sp;
    MarkLinesFrame(base, a, mem[a].size);
    assert SpaceFrame(sp, base);
  }

  lemma MarkedThrough(t: Trace, mode: Mode, a: Address)
    requires Traceable(t) && Marked(t.mem, mode.next, a)
    ensures var t' := TraceSlots(t, mode, a, 0);
            Marked(t'.mem, mode.next, a) && |t'.mem[a].slots| == |t.mem[a].slots|
  {
    hide Traceable, TraceSlots;
    TraceSlotsSteady(t, mode, a, 0);
  }

  lemma RootIsItself(mem: Memory, sp: Space, roots: Roots, mode: Mode, a: Address)
    requires Ready(mem, sp, roots, mode.next) && a in mem
    ensures var t := RunTrace(mem, sp, roots, mode).0; a in t.origin && t.origin[a] == a
  {
    hide Ready, RunTrace, TraceInv, Traceable, SpaceFrame, TricolorBut, SlotSurvives, MovedBefore;
    TraceFinishes(mem, sp, roots, mode);
    OriginalsInMemory(mem, RunTrace(mem, sp, roots, mode).0, mode.next, Reached(mem, roots));
  }

  /** The smallest case: the first slot and a later one, with no precise roots and no evacuation
      window open. */
  lemma FirstSlotSplitsExactlyWhen(mem: Memory, sp: Space, roots: Roots, mode: Mode, a: Address)
    requires Ready(mem, sp, roots, mode.next) && roots.precise == [] && sp.evac.current.None?
    requires a in mem && |mem[a].slots| > 0
    ensures SplitsAt(mem, sp, roots, mode, a, 0) <==>
            mode.defrag && Movable(mem, sp, mem[a].slots[0]) && |sp.evac.pool| > 0
  {
    var o := mem[a].slots[0];
    assert o in mem && mem[a].slots[..0] == [];
    SameMovable(mem, sp, roots, mode, a, o);
    MarkLinesKeepsLayout(Sizes(mem), sp, a);
    MarkLinesFrame(sp, a, mem[a].size);
    assert MarkLines(sp, a, mem[a].size).evac == sp.evac;
    hide LaidOut, MarkLines, Movable, Room;
    RoomAtOnce(mem, MarkLines(sp, a, mem[a].size), o);
  }
}
