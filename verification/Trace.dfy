/** The tracing loop (src/collector.rs:16-101) with opportunistic evacuation
    (src/allocation.rs:535-551), as functions from one tracing state to the next. */
module Trace {
  import opened Constants
  import opened Lines
  import opened Header
  import opened Space
  import opened Layout
  import opened Allocation
  import opened AllocationProofs
  import opened Memory

  /** The state of a trace. `origin` is a history variable: it names, for each object in memory,
      the object it was before the trace began. */
  datatype Trace = Trace(
    mem: Memory,
    index: set<Address>,
    space: Space,
    queue: seq<Address>,
    visited: nat,
    origin: map<Address, Address>)

  /** The mark to give and whether this collection evacuates. */
  datatype Mode = Mode(next: bool, defrag: bool)

  predicate Forwarded(mem: Memory, a: Address) { a in mem && mem[a].header.forwarded }

  /** Marked by this trace. */
  predicate Marked(mem: Memory, next: bool, a: Address) {
    a in mem && mem[a].header.mark == next && !mem[a].header.forwarded
  }

  function Push(t: Trace, a: Address): Trace { t.(queue := t.queue + [a]) }

  function SetHeader(mem: Memory, a: Address, h: Header<Address>): Memory
    requires a in mem
  {
    mem[a := mem[a].(header := h)]
  }

  function SetSlot(t: Trace, a: Address, i: nat, v: Address): Trace {
    if a in t.mem && i < |t.mem[a].slots| then
      t.(mem := t.mem[a := t.mem[a].(slots := t.mem[a].slots[i := v])])
    else t
  }

  predicate Evacuable(t: Trace, a: Address)
    requires a in t.mem
  {
    && !t.mem[a].header.pinned
    && BlockOf(a) in t.space.blocks && t.space.blocks[BlockOf(a)].candidate
  }

  /** The copy `c` of object `a`, made after the space became `sp`. */
  function Copy(t: Trace, sp: Space, a: Address, c: Address): Trace
    requires a in t.mem && a in t.origin
  {
    t.(space := sp, mem := t.mem[c := t.mem[a]], index := t.index + {c}, origin := t.origin[c := t.origin[a]])
  }

  /** `maybe_evacuate`: copies an unpinned object out of a candidate block if there is room. */
  function MaybeEvacuate(t: Trace, a: Address): (Trace, Option<Address>)
    requires a in t.mem && a in t.origin
  {
    if !Evacuable(t, a) then (t, None) else
    var (sp, got) := Allocate(t.space, Evac, AlignUp(t.mem[a].size));
    match got
    case None => (t.(space := sp), None)
    case Some(c) => (Copy(t, sp, a, c), Some(c))
  }

  /** One precise root: the new state and the new value of the root slot. */
  function TraceRoot(t: Trace, mode: Mode, r: Address): (Trace, Address)
    requires r in t.mem && r in t.origin
  {
    if Forwarded(t.mem, r) then
      (Push(t, t.mem[r].header.pointer), r)
    else if mode.defrag then
      var (t', got) := MaybeEvacuate(t, r);
      match got
      case None => (Push(t', r), r)
      case Some(c) =>
        (Push(t'.(mem := SetHeader(t'.mem, r, t'.mem[r].header.Forward(c))), c), c)
    else
      (Push(t, r), r)
  }

  /** `Visitor::trace` on slot `i` of object `a`. */
  function TraceSlot(t: Trace, mode: Mode, a: Address, i: nat): Trace
    requires a in t.mem && i < |t.mem[a].slots| && t.mem[a].slots[i] in t.mem && t.mem[a].slots[i] in t.origin
  {
    var child := t.mem[a].slots[i];
    if Forwarded(t.mem, child) then
      SetSlot(t, a, i, t.mem[child].header.pointer)
    else if t.mem[child].header.mark != mode.next then
      if mode.defrag then
        var (t', got) := MaybeEvacuate(t, child);
        match got
        case None => Push(t', child)
        case Some(c) => Push(SetSlot(t', a, i, c), c)
      else
        Push(t, child)
    else t
  }

  function MarkLines(sp: Space, a: Address, size: nat): Space {
    if BlockOf(a) in sp.blocks then
      var header := sp.blocks[BlockOf(a)];
      sp.(blocks := sp.blocks[BlockOf(a) := header.(lines := header.lines + MarkSpan(Offset(a), size))])
    else sp
  }

  /** Marks an object: in its header, in the object index and in the lines of its block. */
  function MarkObject(t: Trace, next: bool, a: Address): Trace
    requires a in t.mem
  {
    t.(mem := SetHeader(t.mem, a, t.mem[a].header.(mark := next)),
       index := t.index + {a},
       space := MarkLines(t.space, a, t.mem[a].size),
       visited := t.visited + t.mem[a].size)
  }

  // What the trace needs to go on.

  /** Slots, forwarding pointers and queue entries all refer to objects. */
  ghost predicate References(t: Trace) {
    && t.origin.Keys == t.mem.Keys
    && Closed(t.mem)
    && (forall a :: a in t.mem && t.mem[a].header.forwarded ==> t.mem[a].header.pointer in t.mem)
    && (forall k :: 0 <= k < |t.queue| ==> t.queue[k] in t.mem)
  }

  ghost predicate Traceable(t: Trace) {
    && LaidOut(Sizes(t.mem), t.space)
    && EvacTargetOk(t.space)
    && References(t)
  }

  lemma SizesOfUpdate(mem: Memory, a: Address, o: Object)
    ensures Sizes(mem[a := o]) == Sizes(mem)[a := o.size]
  {}

  lemma SizesSame(mem: Memory, a: Address, o: Object)
    requires a in mem && o.size == mem[a].size
    ensures Sizes(mem[a := o]) == Sizes(mem)
  {}

  /** A trace moves no block except inside the evacuation allocator, and changes no candidate. */
  ghost predicate SpaceFrame(sp: Space, sp': Space) {
    && sp'.blocks.Keys == sp.blocks.Keys
    && (forall b :: b in sp.blocks ==> sp'.blocks[b].candidate == sp.blocks[b].candidate)
    && sp'.ba == sp.ba && sp'.normal == sp.normal && sp'.overflow == sp.overflow
    && sp'.evac.pool <= sp.evac.pool
    && Ledger(sp') == Ledger(sp)
  }

  lemma SpaceFrameSelf(sp: Space)
    ensures SpaceFrame(sp, sp)
  {}

  lemma SpaceFrameTwice(sp: Space, sp1: Space, sp2: Space)
    requires SpaceFrame(sp, sp1) && SpaceFrame(sp1, sp2)
    ensures SpaceFrame(sp, sp2)
  {
    hide Ledger;
  }

  lemma EvacKeepsLedger(ext: Extents, sp: Space, size: nat)
    requires LaidOut(ext, sp) && EvacTargetOk(sp) && size % GRANULE == 0 && 0 < size < LARGE_OBJECT
    ensures SpaceFrame(sp, Allocate(sp, Evac, size).0)
  {
    hide Allocate, Carved, LinesInBlock, ObjectsPlaced, Reserved, Ledger;
    var held := multiset(sp.blocks.Keys) - Ledger(sp);
    AllocateKeepsLayout(ext, sp, Evac, size, held);
    EvacAllocate(ext, sp, size);
  }

  /** Everything there is to know about one evacuation. */
  lemma Evacuated(t: Trace, a: Address)
    requires Traceable(t) && a in t.mem
    ensures var (t', got) := MaybeEvacuate(t, a);
            && Traceable(t')
            && EvacFrame(t.space, t'.space) && EvacSpace(t'.space) <= EvacSpace(t.space)
            && SpaceFrame(t.space, t'.space)
            && match got
               case None => t' == t.(space := t'.space)
               case Some(c) =>
                 && Evacuable(t, a) && c !in t.mem && t' == Copy(t, t'.space, a, c)
                 && EvacSpace(t'.space) < EvacSpace(t.space)
                 && BlockOf(c) in t.space.blocks && !t.space.blocks[BlockOf(c)].candidate
  {
    hide LaidOut, Allocate, EvacFrame, EvacSpace, EvacTargetOk, AlignUp, BlockOf, SpaceFrame;
    if Evacuable(t, a) {
      var size := t.mem[a].size;
      PlacedSize(Sizes(t.mem), t.space, a);
      AlignedAlready(size);
      EvacAllocate(Sizes(t.mem), t.space, size);
      EvacKeepsLedger(Sizes(t.mem), t.space, size);
      AllocateKeepsLayout(Sizes(t.mem), t.space, Evac, size, multiset{});
      var (sp, got) := Allocate(t.space, Evac, size);
      if got.Some? {
        var c := got.value;
        SizesOfUpdate(t.mem, c, t.mem[a]);
        CopyKeepsReferences(t, sp, a, c);
      }
    } else {
      EvacFrameSelf(t.space);
      SpaceFrameSelf(t.space);
    }
  }

  lemma EvacFrameSelf(sp: Space)
    ensures EvacFrame(sp, sp)
  {}

  lemma PlacedSize(ext: Extents, sp: Space, a: Address)
    requires LaidOut(ext, sp) && a in ext
    ensures ext[a] % GRANULE == 0 && 0 < ext[a] < LARGE_OBJECT && BlockOf(a) in sp.blocks
  {
    hide Owned, Reserved;
    assert Placed(a, ext[a], sp.blocks.Keys);
  }

  lemma CopyKeepsReferences(t: Trace, sp: Space, a: Address, c: Address)
    requires References(t) && a in t.mem && c !in t.mem
    ensures References(Copy(t, sp, a, c))
  {}

  // Marking lines.

  lemma MarkSpanInBlock(offset: nat, size: nat)
    requires LINE_SIZE <= offset && offset + size <= BLOCK_SIZE - GRANULE
    ensures forall l :: l in MarkSpan(offset, size) ==> 1 <= l < LINES_PER_BLOCK
  {}

  /** Marking an object's lines keeps the layout, and leaves line 0 and everything past line 255
      alone. */
  lemma MarkLinesKeepsLayout(ext: Extents, sp: Space, a: Address)
    requires LaidOut(ext, sp) && a in ext
    ensures LaidOut(ext, MarkLines(sp, a, ext[a]))
  {
    var b := BlockOf(a);
    var sp' := MarkLines(sp, a, ext[a]);
    assert Placed(a, ext[a], sp.blocks.Keys);
    assert sp'.blocks.Keys == sp.blocks.Keys;
    MarkSpanInBlock(Offset(a), ext[a]);
    MoreLinesOwned(sp, b, MarkSpan(Offset(a), ext[a]));
    hide Owned, ObjectsPlaced, MarkSpan, Offset;
    assert b !in sp.evac.pool by {
      hide FreeVacant, PoolScannable, CurrentOk;
    }
    MoreLinesReserved(ext, sp, b, MarkSpan(Offset(a), ext[a]));
  }

  lemma MoreLinesOwned(sp: Space, b: Address, more: set<nat>)
    requires Owned(sp) && b in sp.blocks && forall l :: l in more ==> 1 <= l < LINES_PER_BLOCK
    ensures Owned(sp.(blocks := sp.blocks[b := sp.blocks[b].(lines := sp.blocks[b].lines + more)]))
  {
    hide Carved, Holds;
    assert sp.blocks[b := sp.blocks[b].(lines := sp.blocks[b].lines + more)].Keys == sp.blocks.Keys;
  }

  lemma CurrentWithMoreLines(ext: Extents, blocks: map<Address, BlockState>, current: Option<Window>, b: Address,
                             more: set<nat>)
    requires CurrentOk(ext, blocks, current) && b in blocks
    ensures CurrentOk(ext, blocks[b := blocks[b].(lines := blocks[b].lines + more)], current)
  {
    if current.Some? {
      var lines := LinesOf(blocks, current.value.block);
      var lines' := LinesOf(blocks[b := blocks[b].(lines := blocks[b].lines + more)], current.value.block);
      assert forall o, n :: LineMarked(lines, o, n) ==> LineMarked(lines', o, n);
    }
  }

  lemma MoreLinesReserved(ext: Extents, sp: Space, b: Address, more: set<nat>)
    requires Reserved(ext, sp) && b in sp.blocks && b !in sp.evac.pool
    ensures Reserved(ext, sp.(blocks := sp.blocks[b := sp.blocks[b].(lines := sp.blocks[b].lines + more)]))
  {
    hide FreeVacant, CurrentOk, Vacant;
    var blocks' := sp.blocks[b := sp.blocks[b].(lines := sp.blocks[b].lines + more)];
    CurrentWithMoreLines(ext, sp.blocks, sp.normal.current, b, more);
    CurrentWithMoreLines(ext, sp.blocks, sp.overflow.current, b, more);
    CurrentWithMoreLines(ext, sp.blocks, sp.evac.current, b, more);
    forall c | c in sp.normal.pool ensures Scannable(ext, LinesOf(blocks', c), c) {
      assert forall o, n :: LineMarked(LinesOf(sp.blocks, c), o, n) ==> LineMarked(LinesOf(blocks', c), o, n);
    }
  }

  // One slot, all slots of an object, and the loop over the queue.

  function Unmarked(mem: Memory, next: bool): set<Address> { set a | a in mem && mem[a].header.mark != next }

  lemma PushKeepsReferences(t: Trace, a: Address)
    requires References(t) && a in t.mem
    ensures References(Push(t, a))
  {}

  lemma SetSlotKeepsReferences(t: Trace, a: Address, i: nat, v: Address)
    requires References(t) && a in t.mem && i < |t.mem[a].slots| && v in t.mem
    ensures References(SetSlot(t, a, i, v)) && Sizes(SetSlot(t, a, i, v).mem) == Sizes(t.mem)
    ensures forall next :: Unmarked(SetSlot(t, a, i, v).mem, next) == Unmarked(t.mem, next)
  {
    SizesSame(t.mem, a, t.mem[a].(slots := t.mem[a].slots[i := v]));
  }

  /** Tracing one slot keeps the state traceable; either it uses up evacuation space, or it
      leaves the set of unmarked objects as it is. */
  lemma TraceSlotKeeps(t: Trace, mode: Mode, a: Address, i: nat)
    requires Traceable(t) && a in t.mem && i < |t.mem[a].slots|
    ensures t.mem[a].slots[i] in t.mem && t.mem[a].slots[i] in t.origin
    ensures var t' := TraceSlot(t, mode, a, i);
            && Traceable(t') && a in t'.mem && |t'.mem[a].slots| == |t.mem[a].slots|
            && SpaceFrame(t.space, t'.space)
            && EvacSpace(t'.space) <= EvacSpace(t.space)
            && (EvacSpace(t'.space) == EvacSpace(t.space) ==> Unmarked(t'.mem, mode.next) == Unmarked(t.mem, mode.next))
  {
    hide LaidOut, EvacFrame, EvacSpace, EvacTargetOk, MaybeEvacuate, Evacuable, BlockOf, Unmarked, SpaceFrame;
    SpaceFrameSelf(t.space);
    var child := t.mem[a].slots[i];
    if t.mem[child].header.forwarded {
      SetSlotKeepsReferences(t, a, i, t.mem[child].header.pointer);
    } else if t.mem[child].header.mark != mode.next {
      if mode.defrag {
        Evacuated(t, child);
        var (t', got) := MaybeEvacuate(t, child);
        match got
        case None => PushKeepsReferences(t', child);
        case Some(c) =>
          SetSlotKeepsReferences(t', a, i, c);
          PushKeepsReferences(SetSlot(t', a, i, c), c);
      } else {
        PushKeepsReferences(t, child);
      }
    }
  }

  /** `visit_references` with the collector's visitor: the slots from `i` on, in order. */
  function TraceSlots(t: Trace, mode: Mode, a: Address, i: nat): Trace
    requires Traceable(t) && a in t.mem && i <= |t.mem[a].slots|
    decreases |t.mem[a].slots| - i
  {
    if i == |t.mem[a].slots| then t else
    TraceSlotKeeps(t, mode, a, i);
    TraceSlots(TraceSlot(t, mode, a, i), mode, a, i + 1)
  }

  lemma {:induction false} TraceSlotsKeeps(t: Trace, mode: Mode, a: Address, i: nat)
    requires Traceable(t) && a in t.mem && i <= |t.mem[a].slots|
    ensures var t' := TraceSlots(t, mode, a, i);
            && Traceable(t') && SpaceFrame(t.space, t'.space)
            && EvacSpace(t'.space) <= EvacSpace(t.space)
            && (EvacSpace(t'.space) == EvacSpace(t.space) ==> Unmarked(t'.mem, mode.next) == Unmarked(t.mem, mode.next))
    decreases |t.mem[a].slots| - i
  {
    hide Traceable, TraceSlot, EvacSpace, Unmarked, SpaceFrame;
    SpaceFrameSelf(t.space);
    if i < |t.mem[a].slots| {
      TraceSlotKeeps(t, mode, a, i);
      TraceSlotsKeeps(TraceSlot(t, mode, a, i), mode, a, i + 1);
      SpaceFrameTwice(t.space, TraceSlot(t, mode, a, i).space, TraceSlots(t, mode, a, i).space);
    }
  }

  lemma MarkObjectKeeps(t: Trace, next: bool, a: Address)
    requires Traceable(t) && a in t.mem
    ensures var t' := MarkObject(t, next, a);
            && Traceable(t') && a in t'.mem && SpaceFrame(t.space, t'.space)
            && EvacSpace(t'.space) == EvacSpace(t.space)
            && Unmarked(t'.mem, next) == Unmarked(t.mem, next) - {a}
  {
    hide LaidOut, Unmarked, SpaceFrame, MarkLines, EvacSpace;
    var marked := t.mem[a].(header := t.mem[a].header.(mark := next));
    SizesSame(t.mem, a, marked);
    UnmarkedLess(t.mem, a, marked, next);
    MarkLinesKeepsLayout(Sizes(t.mem), t.space, a);
    MarkLinesFrame(t.space, a, t.mem[a].size);
  }

  lemma MarkLinesFrame(sp: Space, a: Address, size: nat)
    ensures var sp' := MarkLines(sp, a, size);
            && SpaceFrame(sp, sp') && EvacSpace(sp') == EvacSpace(sp) && (EvacTargetOk(sp) ==> EvacTargetOk(sp'))
  {
    var sp' := MarkLines(sp, a, size);
    assert sp' == sp.(blocks := sp'.blocks);
    MarkLinesBlocks(sp, a, size);
    hide MarkLines, EvacSpace, Ledger;
    assert EvacSpace(sp') == EvacSpace(sp) by { EvacSpaceOf(sp, sp'); }
    assert Ledger(sp') == Ledger(sp) by { LedgerOf(sp, sp'); }
  }

  lemma EvacSpaceOf(sp: Space, sp': Space)
    requires sp'.evac == sp.evac
    ensures EvacSpace(sp') == EvacSpace(sp)
  {}

  lemma LedgerOf(sp: Space, sp': Space)
    requires sp' == sp.(blocks := sp'.blocks)
    ensures Ledger(sp') == Ledger(sp)
  {}

  lemma MarkLinesBlocks(sp: Space, a: Address, size: nat)
    ensures var sp' := MarkLines(sp, a, size);
            && sp'.blocks.Keys == sp.blocks.Keys
            && forall b :: b in sp.blocks ==> sp'.blocks[b].candidate == sp.blocks[b].candidate
  {
    hide MarkSpan, BlockOf, Offset;
  }

  lemma UnmarkedLess(mem: Memory, a: Address, marked: Object, next: bool)
    requires marked.header.mark == next
    ensures Unmarked(mem[a := marked], next) == Unmarked(mem, next) - {a}
  {}

  /** One round of the loop: an object that is marked already is dropped, any other one is marked
      and its slots are traced. */
  function TraceNext(t: Trace, mode: Mode): Trace
    requires Traceable(t) && |t.queue| > 0
  {
    var a, popped := t.queue[0], t.(queue := t.queue[1..]);
    assert Traceable(popped) by { PopKeeps(t); }
    if t.mem[a].header.mark == mode.next then popped else
    MarkObjectKeeps(popped, mode.next, a);
    TraceSlots(MarkObject(popped, mode.next, a), mode, a, 0)
  }

  lemma PopKeeps(t: Trace)
    requires Traceable(t) && |t.queue| > 0
    ensures Traceable(t.(queue := t.queue[1..])) && t.queue[0] in t.mem
  {
    hide LaidOut, EvacTargetOk;
  }

  /** The measure of the loop: evacuation space left, then unmarked objects, then queue length. */
  lemma TraceNextKeeps(t: Trace, mode: Mode)
    requires Traceable(t) && |t.queue| > 0
    ensures var t' := TraceNext(t, mode);
            && Traceable(t') && SpaceFrame(t.space, t'.space)
            && EvacSpace(t'.space) <= EvacSpace(t.space)
            && (EvacSpace(t'.space) == EvacSpace(t.space) ==>
                  || Unmarked(t'.mem, mode.next) < Unmarked(t.mem, mode.next)
                  || (Unmarked(t'.mem, mode.next) == Unmarked(t.mem, mode.next) && |t'.queue| < |t.queue|))
  {
    hide LaidOut, EvacTargetOk, EvacSpace, References, MarkObject, TraceSlots, SpaceFrame;
    PopKeeps(t);
    SpaceFrameSelf(t.space);
    var a, popped := t.queue[0], t.(queue := t.queue[1..]);
    if t.mem[a].header.mark != mode.next {
      var marked := MarkObject(popped, mode.next, a);
      MarkObjectKeeps(popped, mode.next, a);
      TraceSlotsKeeps(marked, mode, a, 0);
      SpaceFrameTwice(t.space, marked.space, TraceNext(t, mode).space);
      assert a in Unmarked(t.mem, mode.next);
    }
  }

  /** The loop runs until the queue is empty. It ends on every heap, although evacuation may keep
      making new unmarked copies of the same object. */
  function TraceAll(t: Trace, mode: Mode): Trace
    requires Traceable(t)
    decreases EvacSpace(t.space), Unmarked(t.mem, mode.next), |t.queue|
  {
    if |t.queue| == 0 then t else
    TraceNextKeeps(t, mode);
    TraceAll(TraceNext(t, mode), mode)
  }

  lemma {:induction false} TraceAllKeeps(t: Trace, mode: Mode)
    requires Traceable(t)
    ensures Traceable(TraceAll(t, mode)) && TraceAll(t, mode).queue == []
    ensures SpaceFrame(t.space, TraceAll(t, mode).space)
    decreases EvacSpace(t.space), Unmarked(t.mem, mode.next), |t.queue|
  {
    hide Traceable, EvacSpace, Unmarked, TraceNext, SpaceFrame;
    SpaceFrameSelf(t.space);
    if |t.queue| > 0 {
      TraceNextKeeps(t, mode);
      TraceAllKeeps(TraceNext(t, mode), mode);
      SpaceFrameTwice(t.space, TraceNext(t, mode).space, TraceAll(t, mode).space);
    }
  }

  // The roots.

  lemma ForwardKeeps(t: Trace, r: Address, c: Address)
    requires Traceable(t) && r in t.mem && c in t.mem
    ensures Traceable(t.(mem := SetHeader(t.mem, r, t.mem[r].header.Forward(c))))
  {
    hide LaidOut;
    SizesSame(t.mem, r, t.mem[r].(header := t.mem[r].header.Forward(c)));
  }

  lemma TraceRootKeeps(t: Trace, mode: Mode, r: Address)
    requires Traceable(t) && r in t.mem
    ensures r in t.origin
    ensures var t' := TraceRoot(t, mode, r).0;
            Traceable(t') && t.mem.Keys <= t'.mem.Keys && SpaceFrame(t.space, t'.space)
  {
    hide LaidOut, EvacTargetOk, MaybeEvacuate, Evacuable, EvacFrame, EvacSpace, BlockOf, SpaceFrame;
    SpaceFrameSelf(t.space);
    if t.mem[r].header.forwarded {
      PushKeepsReferences(t, t.mem[r].header.pointer);
    } else if mode.defrag {
      Evacuated(t, r);
      var (t', got) := MaybeEvacuate(t, r);
      match got
      case None => PushKeepsReferences(t', r);
      case Some(c) =>
        ForwardKeeps(t', r, c);
        PushKeepsReferences(t'.(mem := SetHeader(t'.mem, r, t'.mem[r].header.Forward(c))), c);
    } else {
      PushKeepsReferences(t, r);
    }
  }

  /** The loop over the precise roots: the new state and the new values of the root slots. */
  function TraceRoots(t: Trace, mode: Mode, roots: seq<Address>): (Trace, seq<Address>)
    requires Traceable(t) && forall k :: 0 <= k < |roots| ==> roots[k] in t.mem
    decreases |roots|
  {
    if |roots| == 0 then (t, []) else
    TraceRootKeeps(t, mode, roots[0]);
    var (t1, r) := TraceRoot(t, mode, roots[0]);
    var (t2, rs) := TraceRoots(t1, mode, roots[1..]);
    (t2, [r] + rs)
  }

  lemma {:induction false} TraceRootsKeeps(t: Trace, mode: Mode, roots: seq<Address>)
    requires Traceable(t) && forall k :: 0 <= k < |roots| ==> roots[k] in t.mem
    ensures var t' := TraceRoots(t, mode, roots).0;
            Traceable(t') && SpaceFrame(t.space, t'.space)
    decreases |roots|
  {
    hide Traceable, TraceRoot, SpaceFrame;
    SpaceFrameSelf(t.space);
    if |roots| > 0 {
      TraceRootKeeps(t, mode, roots[0]);
      var t1 := TraceRoot(t, mode, roots[0]).0;
      TraceRootsKeeps(t1, mode, roots[1..]);
      SpaceFrameTwice(t.space, t1.space, TraceRoots(t, mode, roots).0.space);
    }
  }

  /** The trace of one collection from memory `mem`, with the conservative roots `roots` already
      pinned: precise roots first, then the loop. */
  function Start(mem: Memory, index: set<Address>, space: Space, roots: seq<Address>): Trace {
    Trace(mem, index, space, roots, 0, map a | a in mem :: a)
  }
}
