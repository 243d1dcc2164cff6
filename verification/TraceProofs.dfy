/** What the trace keeps: after it, memory simulates the memory `mem0` it started from. */
module TraceProofs {
  import opened Constants
  import opened Lines
  import opened Header
  import opened Space
  import opened Layout
  import opened Allocation
  import opened AllocationProofs
  import opened Memory
  import opened Trace

  // The simulation.

  /** `y` is `x` or a copy of it: only marks, pins and slots may differ, and the type information
      is intact unless `y` has been forwarded. */
  predicate SameImage(x: Object, y: Object) {
    && y.size == x.size && y.payload == x.payload && |y.slots| == |x.slots|
    && (!y.header.forwarded ==> y.header.pointer == x.header.pointer)
  }

  ghost predicate Images(mem0: Memory, mem: Memory, origin: map<Address, Address>) {
    && origin.Keys == mem.Keys
    && forall a :: a in mem ==> origin[a] in mem0 && SameImage(mem0[origin[a]], mem[a])
  }

  /** Slot `i` of `a` leads to what it led to before, or to a copy of that. */
  ghost predicate SlotLeads(mem0: Memory, mem: Memory, origin: map<Address, Address>, a: Address, i: nat) {
    && a in mem && a in origin && origin[a] in mem0 && i < |mem[a].slots| && i < |mem0[origin[a]].slots|
    && mem[a].slots[i] in origin && origin[mem[a].slots[i]] == mem0[origin[a]].slots[i]
  }

  ghost predicate SlotsLead(mem0: Memory, mem: Memory, origin: map<Address, Address>) {
    forall a, i :: a in mem && 0 <= i < |mem[a].slots| ==> SlotLeads(mem0, mem, origin, a, i)
  }

  /** The originals stay in memory until the sweep. */
  ghost predicate Kept(mem0: Memory, origin: map<Address, Address>) {
    forall a :: a in mem0 ==> a in origin && origin[a] == a
  }

  ghost predicate Simulates(mem0: Memory, t: Trace) {
    && Images(mem0, t.mem, t.origin)
    && SlotsLead(mem0, t.mem, t.origin)
    && Kept(mem0, t.origin)
  }

  lemma CopySimulates(mem0: Memory, t: Trace, sp: Space, a: Address, c: Address)
    requires Simulates(mem0, t) && a in t.mem && c !in t.mem
    ensures Simulates(mem0, Copy(t, sp, a, c))
  {
    var t' := Copy(t, sp, a, c);
    forall b, i | b in t'.mem && 0 <= i < |t'.mem[b].slots|
      ensures SlotLeads(mem0, t'.mem, t'.origin, b, i)
    {
      assert SlotLeads(mem0, t.mem, t.origin, if b == c then a else b, i);
    }
  }

  lemma SetSlotSimulates(mem0: Memory, t: Trace, a: Address, i: nat, v: Address)
    requires Simulates(mem0, t) && a in t.mem && i < |t.mem[a].slots|
    requires v in t.origin && t.mem[a].slots[i] in t.origin && t.origin[v] == t.origin[t.mem[a].slots[i]]
    ensures Simulates(mem0, SetSlot(t, a, i, v))
  {
    var t' := SetSlot(t, a, i, v);
    forall b, j | b in t'.mem && 0 <= j < |t'.mem[b].slots|
      ensures SlotLeads(mem0, t'.mem, t'.origin, b, j)
    {
      assert SlotLeads(mem0, t.mem, t.origin, b, j);
    }
  }

  lemma SetHeaderSimulates(mem0: Memory, t: Trace, a: Address, h: Header<Address>)
    requires Simulates(mem0, t) && a in t.mem
    requires h.forwarded || (!t.mem[a].header.forwarded && h.pointer == t.mem[a].header.pointer)
    ensures Simulates(mem0, t.(mem := SetHeader(t.mem, a, h)))
  {
    var t' := t.(mem := SetHeader(t.mem, a, h));
    forall b, j | b in t'.mem && 0 <= j < |t'.mem[b].slots|
      ensures SlotLeads(mem0, t'.mem, t'.origin, b, j)
    {
      assert SlotLeads(mem0, t.mem, t.origin, b, j);
    }
  }

  // Colours: an object is marked, waiting in the queue, or untouched.

  /** Not forwarded, and marked or waiting: it will survive. */
  predicate Alive(t: Trace, next: bool, a: Address) {
    && a in t.mem && !t.mem[a].header.forwarded
    && (t.mem[a].header.mark == next || a in t.queue)
  }

  /** A forwarded object leads to a surviving copy of itself. */
  ghost predicate Forwards(mem0: Memory, t: Trace, next: bool) {
    forall a :: a in t.mem && t.mem[a].header.forwarded ==>
      var c := t.mem[a].header.pointer;
      c !in mem0 && Alive(t, next, c) && a in t.origin && c in t.origin && t.origin[c] == t.origin[a]
  }

  ghost predicate QueueOk(t: Trace) {
    forall k :: 0 <= k < |t.queue| ==> t.queue[k] in t.mem && !t.mem[t.queue[k]].header.forwarded
  }

  /** Copies survive, and lie in blocks that are no evacuation candidates. */
  ghost predicate CopiesOk(mem0: Memory, t: Trace, next: bool) {
    forall c :: c in t.mem && c !in mem0 ==>
      Alive(t, next, c) && BlockOf(c) in t.space.blocks && !t.space.blocks[BlockOf(c)].candidate
  }

  /** The first `n` slots of `a` lead to survivors. */
  ghost predicate Traced(t: Trace, next: bool, a: Address, n: nat) {
    a in t.mem ==> forall i :: 0 <= i < n && i < |t.mem[a].slots| ==> Alive(t, next, t.mem[a].slots[i])
  }

  /** Every marked object other than `but` has all its slots traced. */
  ghost predicate TricolorBut(t: Trace, next: bool, but: set<Address>) {
    forall a :: Marked(t.mem, next, a) && a !in but ==> Traced(t, next, a, |t.mem[a].slots|)
  }

  ghost predicate Colours(mem0: Memory, t: Trace, next: bool) {
    Forwards(mem0, t, next) && QueueOk(t) && CopiesOk(mem0, t, next)
  }

  /** From `t` to `t'` nobody dies. */
  ghost predicate Grows(t: Trace, t': Trace, next: bool) {
    forall a :: Alive(t, next, a) ==> Alive(t', next, a)
  }

  /** Nobody dies, nobody's origin is forgotten, and forwarding is final. */
  ghost predicate Advances(t: Trace, t': Trace, next: bool) {
    && Grows(t, t', next)
    && (forall a :: a in t.origin ==> a in t'.origin && t'.origin[a] == t.origin[a])
    && (forall a :: Forwarded(t.mem, a) ==> Forwarded(t'.mem, a))
  }

  lemma AdvancesTwice(t: Trace, t1: Trace, t2: Trace, next: bool)
    requires Advances(t, t1, next) && Advances(t1, t2, next)
    ensures Advances(t, t2, next)
  {
    hide Alive;
  }

  lemma GrowKeepsTricolor(t: Trace, t': Trace, next: bool, but: set<Address>)
    requires TricolorBut(t, next, but) && Grows(t, t', next)
    requires forall a :: Marked(t'.mem, next, a) && a !in but ==>
               Marked(t.mem, next, a) && t'.mem[a].slots == t.mem[a].slots
    ensures TricolorBut(t', next, but)
  {
    hide Alive;
    forall a | Marked(t'.mem, next, a) && a !in but
      ensures Traced(t', next, a, |t'.mem[a].slots|)
    {
      assert Traced(t, next, a, |t.mem[a].slots|);
    }
  }

  lemma PushColours(mem0: Memory, t: Trace, next: bool, but: set<Address>, a: Address)
    requires Colours(mem0, t, next) && TricolorBut(t, next, but)
    requires a in t.mem && !t.mem[a].header.forwarded
    ensures Colours(mem0, Push(t, a), next) && TricolorBut(Push(t, a), next, but)
    ensures Grows(t, Push(t, a), next) && Alive(Push(t, a), next, a)
  {
    assert Grows(t, Push(t, a), next);
    GrowKeepsTricolor(t, Push(t, a), next, but);
  }

  /** Copying an unmarked object and queueing the copy. */
  lemma CopyColours(mem0: Memory, t: Trace, next: bool, but: set<Address>, sp: Space, a: Address, c: Address)
    requires Colours(mem0, t, next) && TricolorBut(t, next, but) && References(t)
    requires a in t.mem && c !in t.mem && !t.mem[a].header.forwarded && t.mem[a].header.mark != next
    requires EvacFrame(t.space, sp) && BlockOf(c) in t.space.blocks && !t.space.blocks[BlockOf(c)].candidate
    ensures var t' := Push(Copy(t, sp, a, c), c);
            && Colours(mem0, t', next) && TricolorBut(t', next, but)
            && Grows(t, t', next) && Alive(t', next, c)
  {
    hide BlockOf;
    var t' := Push(Copy(t, sp, a, c), c);
    assert Grows(t, t', next);
    GrowKeepsTricolor(t, t', next, but);
  }

  lemma SetSlotColours(mem0: Memory, t: Trace, next: bool, a: Address, i: nat, v: Address)
    requires Colours(mem0, t, next) && TricolorBut(t, next, {a}) && Traced(t, next, a, i)
    requires a in t.mem && i < |t.mem[a].slots| && Alive(t, next, v)
    ensures var t' := SetSlot(t, a, i, v);
            && Colours(mem0, t', next) && TricolorBut(t', next, {a}) && Traced(t', next, a, i + 1)
            && Grows(t, t', next)
  {
    hide BlockOf;
    var t' := SetSlot(t, a, i, v);
    assert Grows(t, t', next);
    GrowKeepsTricolor(t, t', next, {a});
  }

  lemma PopGrows(t: Trace, t': Trace, next: bool)
    requires |t.queue| > 0 && t'.queue == t.queue[1..]
    requires t'.mem.Keys == t.mem.Keys && t.queue[0] in t.mem && t'.mem[t.queue[0]].header.mark == next
    requires forall a :: a in t.mem ==>
               t'.mem[a].header.forwarded == t.mem[a].header.forwarded
               && (a != t.queue[0] ==> t'.mem[a].header.mark == t.mem[a].header.mark)
    ensures Grows(t, t', next)
  {
    assert t.queue == [t.queue[0]] + t'.queue;
  }

  /** Dropping a queue entry that is marked already. */
  lemma DropColours(mem0: Memory, t: Trace, next: bool)
    requires Colours(mem0, t, next) && TricolorBut(t, next, {})
    requires |t.queue| > 0 && t.queue[0] in t.mem && t.mem[t.queue[0]].header.mark == next
    ensures var t' := t.(queue := t.queue[1..]);
            && Colours(mem0, t', next) && TricolorBut(t', next, {}) && Grows(t, t', next)
  {
    hide BlockOf;
    var t' := t.(queue := t.queue[1..]);
    PopGrows(t, t', next);
    GrowKeepsTricolor(t, t', next, {});
  }

  /** Marking the first queue entry. */
  lemma MarkColours(mem0: Memory, t: Trace, next: bool)
    requires Colours(mem0, t, next) && TricolorBut(t, next, {})
    requires |t.queue| > 0 && t.queue[0] in t.mem && t.mem[t.queue[0]].header.mark != next
    ensures var a := t.queue[0];
            var t' := MarkObject(t.(queue := t.queue[1..]), next, a);
            && Colours(mem0, t', next) && TricolorBut(t', next, {a}) && Traced(t', next, a, 0) && Grows(t, t', next)
  {
    hide BlockOf, MarkLines;
    var a := t.queue[0];
    var t' := MarkObject(t.(queue := t.queue[1..]), next, a);
    PopGrows(t, t', next);
    GrowKeepsTricolor(t, t', next, {a});
    MarkLinesBlocks(t.space, a, t.mem[a].size);
  }

  // Bookkeeping: the object index, the line marks, the byte count and the pins.

  ghost function MarkedSet(mem: Memory, next: bool): set<Address> { set a | a in mem && Marked(mem, next, a) }

  /** The index holds the marked objects and the copies. */
  ghost predicate IndexOk(mem0: Memory, t: Trace, next: bool) {
    forall a :: a in t.index <==> Marked(t.mem, next, a) || (a in t.mem && a !in mem0)
  }

  /** Every marked object has its lines marked. */
  ghost predicate LinesOk(t: Trace, next: bool) {
    forall a :: Marked(t.mem, next, a) ==> LineMarked(LinesOf(t.space.blocks, BlockOf(a)), Offset(a), t.mem[a].size)
  }

  /** Each marked object has been counted once. */
  ghost predicate VisitedOk(t: Trace, next: bool) {
    t.visited == Bytes(Sizes(t.mem), MarkedSet(t.mem, next))
  }

  /** Pinned objects have no copies and are not forwarded. */
  ghost predicate PinsOk(mem0: Memory, t: Trace) {
    forall a :: a in t.mem && a in t.origin && t.origin[a] in mem0 ==>
      && (!t.mem[a].header.forwarded ==> t.mem[a].header.pinned == mem0[t.origin[a]].header.pinned)
      && (mem0[t.origin[a]].header.pinned ==> t.origin[a] == a && !t.mem[a].header.forwarded)
  }

  /** Line `l` of block `b` holds part of the marked object `a`. */
  predicate Justifies(mem: Memory, next: bool, a: Address, b: Address, l: nat) {
    Marked(mem, next, a) && BlockOf(a) == b && InMarkSpan(Offset(a), mem[a].size, l)
  }

  /** No line is marked without a marked object in it. */
  ghost predicate LinesJustified(t: Trace, next: bool) {
    forall b, l :: b in t.space.blocks && b !in t.space.ba.free && l in t.space.blocks[b].lines ==>
      exists a :: Justifies(t.mem, next, a, b, l)
  }

  ghost predicate Books(mem0: Memory, t: Trace, next: bool) {
    IndexOk(mem0, t, next) && LinesOk(t, next) && LinesJustified(t, next) && VisitedOk(t, next) && PinsOk(mem0, t)
  }

  lemma StillJustified(t: Trace, t': Trace, next: bool)
    requires LinesJustified(t, next) && t'.space.ba == t.space.ba && SameMarks(t.space.blocks, t'.space.blocks)
    requires forall a :: Marked(t.mem, next, a) ==> Marked(t'.mem, next, a) && t'.mem[a].size == t.mem[a].size
    ensures LinesJustified(t', next)
  {
    hide BlockOf, Offset, InMarkSpan;
    forall b, l | b in t'.space.blocks && b !in t'.space.ba.free && l in t'.space.blocks[b].lines
      ensures exists a :: Justifies(t'.mem, next, a, b, l)
    {
      var a :| Justifies(t.mem, next, a, b, l);
      assert Justifies(t'.mem, next, a, b, l);
    }
  }

  lemma MarkJustifies(t: Trace, next: bool, a: Address)
    requires a in t.mem && LinesJustified(t, next) && !t.mem[a].header.forwarded
    ensures LinesJustified(MarkObject(t, next, a), next)
  {
    hide BlockOf, Offset, InMarkSpan;
    var t' := MarkObject(t, next, a);
    forall b, l | b in t'.space.blocks && b !in t'.space.ba.free && l in t'.space.blocks[b].lines
      ensures exists c :: Justifies(t'.mem, next, c, b, l)
    {
      if b in t.space.blocks && l in t.space.blocks[b].lines {
        var c :| Justifies(t.mem, next, c, b, l);
        assert Justifies(t'.mem, next, c, b, l);
      } else {
        assert Justifies(t'.mem, next, a, b, l);
      }
    }
  }

  lemma CopyBooks(mem0: Memory, t: Trace, next: bool, sp: Space, a: Address, c: Address)
    requires Books(mem0, t, next) && Kept(mem0, t.origin) && t.origin.Keys == t.mem.Keys
    requires a in t.mem && c !in t.mem && Evacuable(t, a) && EvacFrame(t.space, sp)
    requires !t.mem[a].header.forwarded && t.mem[a].header.mark != next
    ensures Books(mem0, Copy(t, sp, a, c), next)
  {
    hide BlockOf, Offset, LineMarked, Bytes;
    var t' := Copy(t, sp, a, c);
    assert MarkedSet(t'.mem, next) == MarkedSet(t.mem, next);
    SizesOfUpdate(t.mem, c, t.mem[a]);
    BytesSame(Sizes(t.mem), Sizes(t'.mem), MarkedSet(t.mem, next));
    StillJustified(t, t', next);
    hide LinesJustified;
  }

  lemma SpaceBooks(mem0: Memory, t: Trace, next: bool, sp: Space)
    requires Books(mem0, t, next) && EvacFrame(t.space, sp)
    ensures Books(mem0, t.(space := sp), next)
  {
    hide BlockOf, Offset, LineMarked, Bytes, LinesJustified;
    StillJustified(t, t.(space := sp), next);
  }

  /** The books do not depend on slots. */
  lemma SameHeadersBooks(mem0: Memory, t: Trace, t': Trace, next: bool)
    requires Books(mem0, t, next) && t' == t.(mem := t'.mem) && t'.mem.Keys == t.mem.Keys
    requires forall x :: x in t.mem ==> t'.mem[x].header == t.mem[x].header && t'.mem[x].size == t.mem[x].size
    ensures Books(mem0, t', next)
  {
    hide BlockOf, Offset, LineMarked, Bytes, LinesJustified, LinesOf;
    assert forall x :: Marked(t'.mem, next, x) == Marked(t.mem, next, x);
    StillJustified(t, t', next);
    assert MarkedSet(t'.mem, next) == MarkedSet(t.mem, next);
    SizesAgree(t.mem, t'.mem);
    hide Marked, MarkedSet, Sizes;
  }

  lemma SizesAgree(mem: Memory, mem': Memory)
    requires mem'.Keys == mem.Keys && forall x :: x in mem ==> mem'[x].size == mem[x].size
    ensures Sizes(mem') == Sizes(mem)
  {
    var sizes, sizes' := Sizes(mem), Sizes(mem');
    assert sizes'.Keys == mem'.Keys == sizes.Keys;
    forall x | x in sizes ensures sizes'[x] == sizes[x] {
      assert x in mem && x in mem';
    }
  }

  lemma SetSlotBooks(mem0: Memory, t: Trace, next: bool, a: Address, i: nat, v: Address)
    requires Books(mem0, t, next)
    ensures Books(mem0, SetSlot(t, a, i, v), next)
  {
    hide Books;
    SameHeadersBooks(mem0, t, SetSlot(t, a, i, v), next);
  }

  lemma MarkLinesMarks(t: Trace, next: bool, a: Address)
    requires a in t.mem && BlockOf(a) in t.space.blocks && LinesOk(t, next) && !t.mem[a].header.forwarded
    ensures LinesOk(MarkObject(t, next, a), next)
  {
    hide BlockOf, Offset;
    var t' := MarkObject(t, next, a);
    forall b | Marked(t'.mem, next, b)
      ensures LineMarked(LinesOf(t'.space.blocks, BlockOf(b)), Offset(b), t'.mem[b].size)
    {
      if b != a { assert Marked(t.mem, next, b); }
    }
  }

  lemma MarkBooks(mem0: Memory, t: Trace, next: bool, a: Address)
    requires Books(mem0, t, next) && a in t.mem && BlockOf(a) in t.space.blocks
    requires t.mem[a].header.mark != next && !t.mem[a].header.forwarded
    ensures Books(mem0, MarkObject(t, next, a), next)
  {
    hide BlockOf, Offset, LinesOk, Bytes, MarkLines, LinesJustified;
    MarkLinesMarks(t, next, a);
    MarkJustifies(t, next, a);
    var t' := MarkObject(t, next, a);
    assert MarkedSet(t'.mem, next) == MarkedSet(t.mem, next) + {a};
    assert Sizes(t'.mem) == Sizes(t.mem);
    BytesPlus(Sizes(t.mem), MarkedSet(t.mem, next), a);
  }

  // What tells which objects are reached at all.

  /** Everything marked or waiting stems from an object of `within`. */
  ghost predicate StemsFrom(t: Trace, next: bool, within: set<Address>) {
    forall a :: Alive(t, next, a) && a in t.origin ==> t.origin[a] in within
  }

  // Together: the invariant of the loop.

  ghost predicate TraceInv(mem0: Memory, t: Trace, next: bool, within: set<Address>) {
    && Traceable(t)
    && Simulates(mem0, t)
    && Colours(mem0, t, next)
    && Books(mem0, t, next)
    && StemsFrom(t, next, within)
  }

  lemma SpaceInv(mem0: Memory, t: Trace, next: bool, within: set<Address>, but: set<Address>, sp: Space)
    requires TraceInv(mem0, t, next, within) && TricolorBut(t, next, but)
    requires EvacFrame(t.space, sp) && Traceable(t.(space := sp))
    ensures TraceInv(mem0, t.(space := sp), next, within) && TricolorBut(t.(space := sp), next, but)
    ensures Grows(t, t.(space := sp), next)
  {
    hide Traceable, Simulates, Books, BlockOf;
    SpaceBooks(mem0, t, next, sp);
    SimulatesSpace(mem0, t, sp);
    GrowKeepsTricolor(t, t.(space := sp), next, but);
  }

  lemma SimulatesSpace(mem0: Memory, t: Trace, sp: Space)
    requires Simulates(mem0, t)
    ensures Simulates(mem0, t.(space := sp))
  {}

  lemma PushInv(mem0: Memory, t: Trace, next: bool, within: set<Address>, but: set<Address>, a: Address)
    requires TraceInv(mem0, t, next, within) && TricolorBut(t, next, but)
    requires a in t.mem && !t.mem[a].header.forwarded && t.origin[a] in within
    ensures TraceInv(mem0, Push(t, a), next, within) && TricolorBut(Push(t, a), next, but)
    ensures Grows(t, Push(t, a), next) && Alive(Push(t, a), next, a)
  {
    hide LaidOut, EvacTargetOk, Images, SlotsLead, Kept, Colours, LinesOk, VisitedOk, PinsOk, TricolorBut, Grows;
    PushColours(mem0, t, next, but, a);
    PushKeepsReferences(t, a);
    PushBooks(mem0, t, next, a);
  }

  lemma PushBooks(mem0: Memory, t: Trace, next: bool, a: Address)
    requires Books(mem0, t, next)
    ensures Books(mem0, Push(t, a), next)
  {
    hide BlockOf, Offset, LineMarked, Bytes, LinesJustified;
    StillJustified(t, Push(t, a), next);
  }

  /** Copying and queueing the copy. */
  lemma CopyInv(mem0: Memory, t: Trace, next: bool, within: set<Address>, but: set<Address>,
                sp: Space, a: Address, c: Address)
    requires TraceInv(mem0, t, next, within) && TricolorBut(t, next, but)
    requires a in t.mem && c !in t.mem && Evacuable(t, a) && t.origin[a] in within
    requires !t.mem[a].header.forwarded && t.mem[a].header.mark != next
    requires EvacFrame(t.space, sp) && BlockOf(c) in t.space.blocks && !t.space.blocks[BlockOf(c)].candidate
    requires Traceable(Copy(t, sp, a, c))
    ensures var t' := Push(Copy(t, sp, a, c), c);
            && TraceInv(mem0, t', next, within) && TricolorBut(t', next, but)
            && Grows(t, t', next) && Alive(t', next, c)
  {
    hide LaidOut, EvacTargetOk, Colours, Books, TricolorBut, Images, SlotsLead, BlockOf, EvacFrame;
    var copied := Copy(t, sp, a, c);
    CopySimulates(mem0, t, sp, a, c);
    CopyColours(mem0, t, next, but, sp, a, c);
    CopyBooks(mem0, t, next, sp, a, c);
    PushBooks(mem0, copied, next, c);
    PushKeepsReferences(copied, c);
    hide References;
    assert StemsFrom(Push(copied, c), next, within);
  }

  /** Redirecting a slot of the object being traced. */
  lemma SetSlotInv(mem0: Memory, t: Trace, next: bool, within: set<Address>, a: Address, i: nat, v: Address)
    requires TraceInv(mem0, t, next, within) && TricolorBut(t, next, {a}) && Traced(t, next, a, i)
    requires a in t.mem && i < |t.mem[a].slots| && Alive(t, next, v)
    requires v in t.origin && t.mem[a].slots[i] in t.origin && t.origin[v] == t.origin[t.mem[a].slots[i]]
    ensures var t' := SetSlot(t, a, i, v);
            && TraceInv(mem0, t', next, within) && TricolorBut(t', next, {a}) && Traced(t', next, a, i + 1)
            && Advances(t, t', next)
  {
    hide LaidOut, EvacTargetOk, References, Simulates, Colours, Books, TricolorBut, Traced;
    SetSlotSimulates(mem0, t, a, i, v);
    SetSlotColours(mem0, t, next, a, i, v);
    SetSlotBooks(mem0, t, next, a, i, v);
    SetSlotKeepsReferences(t, a, i, v);
  }

  // One slot.

  /** The state while the slots of the marked object `a` are traced, `i` of them done. */
  ghost predicate SlotInv(mem0: Memory, t: Trace, next: bool, within: set<Address>, a: Address, i: nat) {
    && TraceInv(mem0, t, next, within)
    && TricolorBut(t, next, {a})
    && Marked(t.mem, next, a) && i <= |t.mem[a].slots|
    && Traced(t, next, a, i)
  }

  lemma TracedGrows(t: Trace, t': Trace, next: bool, a: Address, n: nat)
    requires Traced(t, next, a, n) && Grows(t, t', next)
    requires a in t.mem && a in t'.mem && t'.mem[a].slots == t.mem[a].slots
    ensures Traced(t', next, a, n)
  {
    hide Alive;
  }

  lemma TracedOneMore(t: Trace, next: bool, a: Address, i: nat)
    requires Traced(t, next, a, i) && a in t.mem && i < |t.mem[a].slots| && Alive(t, next, t.mem[a].slots[i])
    ensures Traced(t, next, a, i + 1)
  {
    hide Alive;
  }

  /** The child of a slot is an object that stems from `within`. */
  lemma ChildStems(mem0: Memory, t: Trace, next: bool, within: set<Address>, a: Address, i: nat)
    requires TraceInv(mem0, t, next, within) && Marked(t.mem, next, a) && i < |t.mem[a].slots|
    requires Saturated(mem0, within)
    ensures var child := t.mem[a].slots[i];
            && child in t.mem && child in t.origin && t.origin[child] in within
  {
    hide LaidOut, EvacTargetOk, Colours, Books;
    assert Alive(t, next, a);
    assert SlotLeads(mem0, t.mem, t.origin, a, i);
    var o := t.origin[a];
    assert o in within && o in mem0 && 0 <= i < |mem0[o].slots|;
    assert mem0[o].slots[i] in within;
  }

  /** A slot whose child has been forwarded is redirected to the copy. */
  lemma ForwardedSlotInv(mem0: Memory, t: Trace, mode: Mode, within: set<Address>, a: Address, i: nat)
    requires SlotInv(mem0, t, mode.next, within, a, i) && i < |t.mem[a].slots| && Saturated(mem0, within)
    requires t.mem[a].slots[i] in t.mem && t.mem[a].slots[i] in t.origin && Forwarded(t.mem, t.mem[a].slots[i])
    ensures SlotInv(mem0, TraceSlot(t, mode, a, i), mode.next, within, a, i + 1)
    ensures |TraceSlot(t, mode, a, i).mem[a].slots| == |t.mem[a].slots|
    ensures Advances(t, TraceSlot(t, mode, a, i), mode.next)
  {
    var child := t.mem[a].slots[i];
    hide Traceable, Simulates, Books, StemsFrom, QueueOk, CopiesOk, Alive;
    SetSlotInv(mem0, t, mode.next, within, a, i, t.mem[child].header.pointer);
    hide TraceInv;
  }

  /** An unmarked child that stays where it is goes into the queue. */
  lemma QueuedSlotInv(mem0: Memory, t: Trace, next: bool, within: set<Address>, a: Address, i: nat, sp: Space)
    requires SlotInv(mem0, t, next, within, a, i) && i < |t.mem[a].slots| && Saturated(mem0, within)
    requires t.mem[a].slots[i] in t.mem && !Forwarded(t.mem, t.mem[a].slots[i])
    requires EvacFrame(t.space, sp) && Traceable(t.(space := sp))
    ensures SlotInv(mem0, Push(t.(space := sp), t.mem[a].slots[i]), next, within, a, i + 1)
    ensures Advances(t, Push(t.(space := sp), t.mem[a].slots[i]), next)
  {
    hide TraceInv, TricolorBut, Traced, EvacFrame;
    var child := t.mem[a].slots[i];
    ChildStems(mem0, t, next, within, a, i);
    SpaceInv(mem0, t, next, within, {a}, sp);
    var t1 := t.(space := sp);
    TracedGrows(t, t1, next, a, i);
    PushInv(mem0, t1, next, within, {a}, child);
    TracedGrows(t1, Push(t1, child), next, a, i);
    TracedOneMore(Push(t1, child), next, a, i);
  }

  /** An unmarked child that is evacuated: its copy goes into the slot and into the queue. */
  lemma EvacuatedSlotInv(mem0: Memory, t: Trace, mode: Mode, within: set<Address>, a: Address, i: nat)
    requires SlotInv(mem0, t, mode.next, within, a, i) && i < |t.mem[a].slots| && Saturated(mem0, within)
    requires t.mem[a].slots[i] in t.mem && t.mem[a].slots[i] in t.origin && !Forwarded(t.mem, t.mem[a].slots[i])
    requires t.mem[t.mem[a].slots[i]].header.mark != mode.next
    requires MaybeEvacuate(t, t.mem[a].slots[i]).1.Some?
    ensures var (t', got) := MaybeEvacuate(t, t.mem[a].slots[i]);
            && SlotInv(mem0, Push(SetSlot(t', a, i, got.value), got.value), mode.next, within, a, i + 1)
            && a in SetSlot(t', a, i, got.value).mem
            && |SetSlot(t', a, i, got.value).mem[a].slots| == |t.mem[a].slots|
            && Advances(t, Push(SetSlot(t', a, i, got.value), got.value), mode.next)
  {
    hide Traceable, Simulates, Colours, Books, StemsFrom, TricolorBut, Traced, EvacFrame, MaybeEvacuate, Evacuable,
         BlockOf, EvacSpace;
    var child := t.mem[a].slots[i];
    ChildStems(mem0, t, mode.next, within, a, i);
    Evacuated(t, child);
    var (t', got) := MaybeEvacuate(t, child);
    var c := got.value;
    CopyInv(mem0, t, mode.next, within, {a}, t'.space, child, c);
    var t2 := Push(t', c);
    TracedGrows(t, t2, mode.next, a, i);
    SetSlotInv(mem0, t2, mode.next, within, a, i, c);
    assert SetSlot(t2, a, i, c) == Push(SetSlot(t', a, i, c), c);
    InvTraceable(mem0, t, mode.next, within);
    assert Advances(t, t2, mode.next);
    AdvancesTwice(t, t2, SetSlot(t2, a, i, c), mode.next);
  }

  lemma TraceSlotInv(mem0: Memory, t: Trace, mode: Mode, within: set<Address>, a: Address, i: nat)
    requires SlotInv(mem0, t, mode.next, within, a, i) && i < |t.mem[a].slots| && Saturated(mem0, within)
    requires t.mem[a].slots[i] in t.mem && t.mem[a].slots[i] in t.origin
    ensures var t' := TraceSlot(t, mode, a, i);
            && SlotInv(mem0, t', mode.next, within, a, i + 1) && |t'.mem[a].slots| == |t.mem[a].slots|
            && Advances(t, t', mode.next)
  {
    hide TraceInv, TricolorBut, Traced, EvacFrame, MaybeEvacuate, Evacuable, BlockOf, EvacSpace;
    var child := t.mem[a].slots[i];
    if Forwarded(t.mem, child) {
      ForwardedSlotInv(mem0, t, mode, within, a, i);
    } else if t.mem[child].header.mark != mode.next {
      EvacFrameSelf(t.space);
      InvTraceable(mem0, t, mode.next, within);
      if mode.defrag {
        Evacuated(t, child);
        if MaybeEvacuate(t, child).1.Some? {
          EvacuatedSlotInv(mem0, t, mode, within, a, i);
        } else {
          QueuedSlotInv(mem0, t, mode.next, within, a, i, MaybeEvacuate(t, child).0.space);
        }
      } else {
        QueuedSlotInv(mem0, t, mode.next, within, a, i, t.space);
      }
    } else {
      TracedOneMore(t, mode.next, a, i);
    }
  }

  lemma InvTraceable(mem0: Memory, t: Trace, next: bool, within: set<Address>)
    requires TraceInv(mem0, t, next, within)
    ensures Traceable(t) && t.origin.Keys == t.mem.Keys
  {}

  // The whole loop.

  lemma {:induction false} TraceSlotsInv(mem0: Memory, t: Trace, mode: Mode, within: set<Address>, a: Address, i: nat)
    requires SlotInv(mem0, t, mode.next, within, a, i) && Saturated(mem0, within) && Traceable(t)
    ensures var t' := TraceSlots(t, mode, a, i);
            && TraceInv(mem0, t', mode.next, within) && TricolorBut(t', mode.next, {})
            && Advances(t, t', mode.next)
    decreases |t.mem[a].slots| - i
  {
    hide TraceSlot, TraceInv, TricolorBut, Traced, Traceable, Advances, SpaceFrame, EvacSpace, Unmarked;
    if i < |t.mem[a].slots| {
      TraceSlotKeeps(t, mode, a, i);
      TraceSlotInv(mem0, t, mode, within, a, i);
      TraceSlotsInv(mem0, TraceSlot(t, mode, a, i), mode, within, a, i + 1);
      AdvancesTwice(t, TraceSlot(t, mode, a, i), TraceSlots(t, mode, a, i), mode.next);
    } else {
      AllTraced(t, mode.next, a);
    }
  }

  lemma AllTraced(t: Trace, next: bool, a: Address)
    requires TricolorBut(t, next, {a}) && a in t.mem && Traced(t, next, a, |t.mem[a].slots|)
    ensures TricolorBut(t, next, {}) && Advances(t, t, next)
  {
    hide Alive;
  }

  lemma DropInv(mem0: Memory, t: Trace, next: bool, within: set<Address>)
    requires TraceInv(mem0, t, next, within) && TricolorBut(t, next, {})
    requires |t.queue| > 0 && t.queue[0] in t.mem && t.mem[t.queue[0]].header.mark == next
    ensures var t' := t.(queue := t.queue[1..]);
            TraceInv(mem0, t', next, within) && TricolorBut(t', next, {}) && Advances(t, t', next)
  {
    hide Colours, TricolorBut, LaidOut, EvacTargetOk, Images, SlotsLead, Kept, Books;
    DropColours(mem0, t, next);
    PopKeeps(t);
    PopBooks(mem0, t, next);
  }

  lemma MarkStems(t: Trace, next: bool, within: set<Address>)
    requires StemsFrom(t, next, within) && QueueOk(t)
    requires |t.queue| > 0 && t.queue[0] in t.mem && t.queue[0] in t.origin
    ensures StemsFrom(MarkObject(t.(queue := t.queue[1..]), next, t.queue[0]), next, within)
  {
    hide MarkLines;
    assert Alive(t, next, t.queue[0]);
  }

  /** Marking the first queue entry keeps the invariant. */
  lemma MarkKeepsInv(mem0: Memory, t: Trace, next: bool, within: set<Address>)
    requires TraceInv(mem0, t, next, within) && TricolorBut(t, next, {})
    requires |t.queue| > 0 && t.queue[0] in t.mem && t.mem[t.queue[0]].header.mark != next
    ensures TraceInv(mem0, MarkObject(t.(queue := t.queue[1..]), next, t.queue[0]), next, within)
  {
    var a := t.queue[0];
    var popped := t.(queue := t.queue[1..]);
    assert QueueOk(t) && Books(mem0, t, next) && Simulates(mem0, t) && Colours(mem0, t, next);
    assert LaidOut(Sizes(t.mem), t.space);
    assert !t.mem[a].header.forwarded && a in t.origin;
    hide Traceable, Simulates, Colours, TricolorBut, Books, StemsFrom, MarkObject, LaidOut, QueueOk, SpaceFrame,
         EvacSpace, Unmarked;
    PopKeeps(t);
    MarkColours(mem0, t, next);
    MarkObjectKeeps(popped, next, a);
    MarkStems(t, next, within);
    PlacedSize(Sizes(t.mem), t.space, a);
    PopBooks(mem0, t, next);
    MarkBooks(mem0, popped, next, a);
    MarkSimulates(mem0, t, next);
  }

  lemma MarkInv(mem0: Memory, t: Trace, next: bool, within: set<Address>)
    requires TraceInv(mem0, t, next, within) && TricolorBut(t, next, {})
    requires |t.queue| > 0 && t.queue[0] in t.mem && t.mem[t.queue[0]].header.mark != next
    ensures var a := t.queue[0];
            var t' := MarkObject(t.(queue := t.queue[1..]), next, a);
            Traceable(t') && SlotInv(mem0, t', next, within, a, 0) && Advances(t, t', next)
  {
    hide TraceInv, Colours, TricolorBut, Traced, Traceable, MarkLines, Grows;
    MarkKeepsInv(mem0, t, next, within);
    InvColours(mem0, t, next, within);
    MarkColours(mem0, t, next);
    InvTraceable(mem0, MarkObject(t.(queue := t.queue[1..]), next, t.queue[0]), next, within);
  }

  lemma InvColours(mem0: Memory, t: Trace, next: bool, within: set<Address>)
    requires TraceInv(mem0, t, next, within)
    ensures Colours(mem0, t, next)
    ensures forall k :: 0 <= k < |t.queue| ==> t.queue[k] in t.mem && !t.mem[t.queue[k]].header.forwarded
  {
    hide Traceable, Simulates, Books, StemsFrom, Forwards, CopiesOk;
  }

  lemma PopBooks(mem0: Memory, t: Trace, next: bool)
    requires Books(mem0, t, next) && |t.queue| > 0
    ensures Books(mem0, t.(queue := t.queue[1..]), next)
  {
    hide LineMarked, Bytes, BlockOf, Offset, LinesJustified;
    StillJustified(t, t.(queue := t.queue[1..]), next);
  }

  lemma MarkSimulates(mem0: Memory, t: Trace, next: bool)
    requires Simulates(mem0, t) && |t.queue| > 0 && t.queue[0] in t.mem && !t.mem[t.queue[0]].header.forwarded
    ensures Simulates(mem0, MarkObject(t.(queue := t.queue[1..]), next, t.queue[0]))
  {
    var a := t.queue[0];
    SetHeaderSimulates(mem0, t, a, t.mem[a].header.(mark := next));
    hide Images, SlotsLead, Kept, MarkLines;
  }

  /** One round of the loop keeps the invariant. */
  lemma TraceNextInv(mem0: Memory, t: Trace, mode: Mode, within: set<Address>)
    requires TraceInv(mem0, t, mode.next, within) && TricolorBut(t, mode.next, {}) && Saturated(mem0, within)
    requires |t.queue| > 0 && Traceable(t)
    ensures var t' := TraceNext(t, mode);
            && TraceInv(mem0, t', mode.next, within) && TricolorBut(t', mode.next, {})
            && Advances(t, t', mode.next)
  {
    hide TraceInv, TricolorBut, SlotInv, MarkObject, Traceable;
    PopKeeps(t);
    var a := t.queue[0];
    if t.mem[a].header.mark == mode.next {
      DropInv(mem0, t, mode.next, within);
    } else {
      MarkInv(mem0, t, mode.next, within);
      var marked := MarkObject(t.(queue := t.queue[1..]), mode.next, a);
      TraceSlotsInv(mem0, marked, mode, within, a, 0);
      AdvancesTwice(t, marked, TraceNext(t, mode), mode.next);
    }
  }

  /** The trace ends with an empty queue, the invariant intact. */
  lemma {:induction false} TraceAllInv(mem0: Memory, t: Trace, mode: Mode, within: set<Address>)
    requires TraceInv(mem0, t, mode.next, within) && TricolorBut(t, mode.next, {}) && Saturated(mem0, within)
    requires Traceable(t)
    ensures var t' := TraceAll(t, mode);
            && TraceInv(mem0, t', mode.next, within) && TricolorBut(t', mode.next, {}) && t'.queue == []
            && Advances(t, t', mode.next)
    decreases EvacSpace(t.space), Unmarked(t.mem, mode.next), |t.queue|
  {
    hide TraceInv, TricolorBut, TraceNext, Traceable, EvacSpace, Unmarked;
    if |t.queue| > 0 {
      TraceNextKeeps(t, mode);
      TraceNextInv(mem0, t, mode, within);
      TraceAllInv(mem0, TraceNext(t, mode), mode, within);
      AdvancesTwice(t, TraceNext(t, mode), TraceAll(t, mode), mode.next);
    }
  }

  // The roots.

  predicate EvacEmpty(sp: Space) { sp.evac.current.None? && sp.evac.pool == [] }

  /** Nothing is marked yet. */
  ghost predicate NoneMarked(mem: Memory, next: bool) {
    forall a :: a in mem ==> mem[a].header.forwarded || mem[a].header.mark != next
  }

  /** An original in the queue will not be evacuated any more. */
  ghost predicate Settled(mem0: Memory, t: Trace, mode: Mode) {
    mode.defrag ==> forall k :: 0 <= k < |t.queue| ==>
      t.queue[k] !in mem0 || (t.queue[k] in t.mem && !Evacuable(t, t.queue[k])) || EvacEmpty(t.space)
  }

  ghost predicate RootInv(mem0: Memory, t: Trace, mode: Mode, within: set<Address>) {
    && TraceInv(mem0, t, mode.next, within)
    && NoneMarked(t.mem, mode.next)
    && Settled(mem0, t, mode)
  }

  /** With nothing marked, no object has slots left to trace. */
  lemma NoneMarkedTricolor(t: Trace, next: bool)
    requires NoneMarked(t.mem, next)
    ensures TricolorBut(t, next, {})
  {}

  /** A failed evacuation attempt settles the object. */
  lemma FailedEvacuation(t: Trace, a: Address)
    requires Traceable(t) && a in t.mem && a in t.origin && MaybeEvacuate(t, a).1.None?
    ensures var t' := MaybeEvacuate(t, a).0;
            !Evacuable(t', a) || EvacEmpty(t'.space)
  {
    if Evacuable(t, a) {
      hide LaidOut, EvacFrame, References;
      PlacedSize(Sizes(t.mem), t.space, a);
      AlignedAlready(t.mem[a].size);
      EvacRefill(Sizes(t.mem), t.space, t.mem[a].size);
    }
  }

  lemma EmptyStaysEmpty(t: Trace, a: Address)
    requires a in t.mem && a in t.origin && EvacEmpty(t.space)
    ensures MaybeEvacuate(t, a).1.None?
  {}

  /** Forwarding an original that is neither marked nor queued to its queued copy. */
  lemma ForwardColours(mem0: Memory, t: Trace, next: bool, r: Address, c: Address)
    requires Colours(mem0, t, next) && r in t.mem && r in mem0 && !Alive(t, next, r) && !t.mem[r].header.forwarded
    requires c !in mem0 && Alive(t, next, c) && r in t.origin && c in t.origin && t.origin[c] == t.origin[r]
    ensures var t' := t.(mem := SetHeader(t.mem, r, t.mem[r].header.Forward(c)));
            Colours(mem0, t', next) && Grows(t, t', next)
  {
    hide BlockOf;
  }

  lemma ForwardBooks(mem0: Memory, t: Trace, next: bool, r: Address, c: Address)
    requires Books(mem0, t, next) && r in t.mem && r in mem0
    requires !t.mem[r].header.forwarded && t.mem[r].header.mark != next && !t.mem[r].header.pinned
    ensures Books(mem0, t.(mem := SetHeader(t.mem, r, t.mem[r].header.Forward(c))), next)
  {
    hide BlockOf, Offset, LineMarked, Bytes, LinesJustified;
    var t' := t.(mem := SetHeader(t.mem, r, t.mem[r].header.Forward(c)));
    StillJustified(t, t', next);
    assert MarkedSet(t'.mem, next) == MarkedSet(t.mem, next);
    assert Sizes(t'.mem) == Sizes(t.mem);
  }

  lemma ForwardInv(mem0: Memory, t: Trace, next: bool, within: set<Address>, r: Address, c: Address)
    requires TraceInv(mem0, t, next, within)
    requires r in t.mem && r in mem0 && !Alive(t, next, r) && !t.mem[r].header.forwarded && !t.mem[r].header.pinned
    requires c !in mem0 && Alive(t, next, c) && r in t.origin && c in t.origin && t.origin[c] == t.origin[r]
    ensures var t' := t.(mem := SetHeader(t.mem, r, t.mem[r].header.Forward(c)));
            TraceInv(mem0, t', next, within) && Grows(t, t', next)
  {
    hide LaidOut, EvacTargetOk, References, Simulates, Colours, Books;
    SetHeaderSimulates(mem0, t, r, t.mem[r].header.Forward(c));
    ForwardColours(mem0, t, next, r, c);
    ForwardBooks(mem0, t, next, r, c);
    ForwardKeeps(t, r, c);
  }

  /** What one root step does to the root's slot: unless the target was forwarded already, the slot
      ends up at a survivor that is the target or a copy of it. */
  ghost predicate RootStepped(t: Trace, t': Trace, next: bool, r: Address, r': Address) {
    && Grows(t, t', next)
    && r' in t'.origin && r in t'.origin && t'.origin[r'] == t'.origin[r]
    && (Forwarded(t.mem, r) ==> r' == r)
    && (!Forwarded(t.mem, r) ==> Alive(t', next, r'))
    && (forall x :: x in t.mem ==> (Forwarded(t'.mem, x) <==> Forwarded(t.mem, x) || (x == r && r' != r)))
    && (forall x :: x in t.mem ==> x in t'.mem)
    && (forall x :: x in t.origin ==> x in t'.origin && t'.origin[x] == t.origin[x])
  }

  /** The evacuated root's target is an original that nobody has queued. */
  lemma EvacuatedRootIsFresh(mem0: Memory, t: Trace, mode: Mode, within: set<Address>, r: Address)
    requires RootInv(mem0, t, mode, within) && mode.defrag && r in t.mem && r in t.origin
    requires !t.mem[r].header.forwarded && MaybeEvacuate(t, r).1.Some?
    ensures r in mem0 && r !in t.queue && !Alive(t, mode.next, r) && Evacuable(t, r) && !t.mem[r].header.pinned
  {
    hide Traceable, Simulates, Forwards, QueueOk, Books, StemsFrom;
    assert Evacuable(t, r);
    if EvacEmpty(t.space) { EmptyStaysEmpty(t, r); }
  }

  lemma EvacuatedRootInv(mem0: Memory, t: Trace, mode: Mode, within: set<Address>, r: Address)
    requires RootInv(mem0, t, mode, within) && mode.defrag && r in t.mem && r in t.origin && t.origin[r] in within
    requires !t.mem[r].header.forwarded && MaybeEvacuate(t, r).1.Some?
    ensures var (t', r') := TraceRoot(t, mode, r);
            TraceInv(mem0, t', mode.next, within) && RootStepped(t, t', mode.next, r, r')
  {
    hide Traceable, Simulates, Colours, Books, StemsFrom, Settled, MaybeEvacuate, EvacSpace, EvacFrame, BlockOf,
         Allocate, Evacuable, TricolorBut;
    EvacuatedRootIsFresh(mem0, t, mode, within, r);
    InvTraceable(mem0, t, mode.next, within);
    Evacuated(t, r);
    var (t1, got) := MaybeEvacuate(t, r);
    var c := got.value;
    NoneMarkedTricolor(t, mode.next);
    CopyInv(mem0, t, mode.next, within, {}, t1.space, r, c);
    var t2 := Push(t1, c);
    hide TraceInv;
    assert c !in mem0 by { OriginalsInMemory(mem0, t, mode.next, within); }
    ForwardInv(mem0, t2, mode.next, within, r, c);
    var t3 := t2.(mem := SetHeader(t2.mem, r, t2.mem[r].header.Forward(c)));
    assert TraceRoot(t, mode, r) == (t3, c);
  }

  lemma OriginalsInMemory(mem0: Memory, t: Trace, next: bool, within: set<Address>)
    requires TraceInv(mem0, t, next, within)
    ensures mem0.Keys <= t.mem.Keys
    ensures forall a :: a in mem0 ==> a in t.origin && t.origin[a] == a
  {
    hide Traceable, SlotsLead, Colours, Books;
    assert forall a :: a in mem0 ==> a in t.origin.Keys;
  }

  lemma SettledAfter(mem0: Memory, t: Trace, t': Trace, mode: Mode, a: Address)
    requires Settled(mem0, t, mode) && QueueOk(t) && t'.queue == t.queue + [a]
    requires EvacFrame(t.space, t'.space) && (EvacEmpty(t.space) ==> EvacEmpty(t'.space))
    requires forall x :: x in t.mem && !Forwarded(t.mem, x) && x in t.queue ==>
               x in t'.mem && t'.mem[x].header.pinned == t.mem[x].header.pinned
    requires a !in mem0 || (a in t'.mem && !Evacuable(t', a)) || EvacEmpty(t'.space)
    ensures Settled(mem0, t', mode)
  {
    hide BlockOf;
  }

  /** Evacuation never refills the headroom. */
  lemma EmptyKept(t: Trace, a: Address)
    requires Traceable(t) && a in t.mem && a in t.origin
    ensures EvacEmpty(t.space) ==> EvacEmpty(MaybeEvacuate(t, a).0.space)
  {}

  lemma ForwardedRootInv(mem0: Memory, t: Trace, mode: Mode, within: set<Address>, r: Address)
    requires RootInv(mem0, t, mode, within) && r in t.mem && r in t.origin && t.origin[r] in within
    requires Forwarded(t.mem, r)
    ensures var t' := Push(t, t.mem[r].header.pointer);
            RootInv(mem0, t', mode, within) && RootStepped(t, t', mode.next, r, r)
  {
    hide Traceable, Simulates, CopiesOk, Books, StemsFrom, TricolorBut, BlockOf, Evacuable;
    NoneMarkedTricolor(t, mode.next);
    InvTraceable(mem0, t, mode.next, within);
    var c := t.mem[r].header.pointer;
    PushInv(mem0, t, mode.next, within, {}, c);
    EvacFrameSelf(t.space);
    SettledAfter(mem0, t, Push(t, c), mode, c);
  }

  lemma StayingRootInv(mem0: Memory, t: Trace, mode: Mode, within: set<Address>, r: Address, sp: Space)
    requires RootInv(mem0, t, mode, within) && r in t.mem && r in t.origin && t.origin[r] in within
    requires !Forwarded(t.mem, r) && EvacFrame(t.space, sp) && Traceable(t.(space := sp))
    requires EvacEmpty(t.space) ==> EvacEmpty(sp)
    requires mode.defrag ==> !Evacuable(t.(space := sp), r) || EvacEmpty(sp)
    ensures var t' := Push(t.(space := sp), r);
            RootInv(mem0, t', mode, within) && RootStepped(t, t', mode.next, r, r)
  {
    hide Traceable, Simulates, CopiesOk, Forwards, Books, StemsFrom, TricolorBut, BlockOf, EvacFrame;
    NoneMarkedTricolor(t, mode.next);
    SpaceInv(mem0, t, mode.next, within, {}, sp);
    var t1 := t.(space := sp);
    PushInv(mem0, t1, mode.next, within, {}, r);
    var t' := Push(t1, r);
    if mode.defrag { SettledAfter(mem0, t, t', mode, r); }
  }

  lemma MovedRootInv(mem0: Memory, t: Trace, mode: Mode, within: set<Address>, r: Address)
    requires RootInv(mem0, t, mode, within) && mode.defrag && r in t.mem && r in t.origin && t.origin[r] in within
    requires !Forwarded(t.mem, r) && MaybeEvacuate(t, r).1.Some?
    ensures var (t', r') := TraceRoot(t, mode, r);
            RootInv(mem0, t', mode, within) && RootStepped(t, t', mode.next, r, r')
  {
    hide Traceable, Simulates, CopiesOk, Forwards, Books, StemsFrom, MaybeEvacuate, EvacSpace, EvacFrame, BlockOf,
         Evacuable, Settled;
    InvTraceable(mem0, t, mode.next, within);
    Evacuated(t, r);
    EvacuatedRootInv(mem0, t, mode, within, r);
    EvacuatedRootIsFresh(mem0, t, mode, within, r);
    EmptyKept(t, r);
    OriginalsInMemory(mem0, t, mode.next, within);
    var (t', c) := TraceRoot(t, mode, r);
    SettledAfter(mem0, t, t', mode, c);
  }

  /** One root keeps the invariant of the root phase. */
  lemma TraceRootInv(mem0: Memory, t: Trace, mode: Mode, within: set<Address>, r: Address)
    requires RootInv(mem0, t, mode, within) && r in t.mem && r in t.origin && t.origin[r] in within
    ensures var (t', r') := TraceRoot(t, mode, r);
            RootInv(mem0, t', mode, within) && RootStepped(t, t', mode.next, r, r')
  {
    hide RootInv, RootStepped, MaybeEvacuate, EvacSpace, EvacFrame, Evacuable, Traceable;
    assert Traceable(t) by { RootTraceable(mem0, t, mode, within); }
    EvacFrameSelf(t.space);
    if t.mem[r].header.forwarded {
      ForwardedRootInv(mem0, t, mode, within, r);
    } else if !mode.defrag {
      StayingRootInv(mem0, t, mode, within, r, t.space);
    } else if MaybeEvacuate(t, r).1.Some? {
      MovedRootInv(mem0, t, mode, within, r);
    } else {
      Evacuated(t, r);
      FailedEvacuation(t, r);
      EmptyKept(t, r);
      StayingRootInv(mem0, t, mode, within, r, MaybeEvacuate(t, r).0.space);
    }
  }

  lemma RootTraceable(mem0: Memory, t: Trace, mode: Mode, within: set<Address>)
    requires RootInv(mem0, t, mode, within)
    ensures Traceable(t) && t.origin.Keys == t.mem.Keys
  {}

  /** Some earlier root with the same target has been moved. */
  predicate MovedBefore(roots: seq<Address>, roots': seq<Address>, j: nat) {
    exists i ::
      0 <= i < j && i < |roots| && j < |roots| && i < |roots'| && roots[i] == roots[j] && roots'[i] != roots[i]
  }

  /** What the loop over the precise roots, begun in `t`, leaves in root slot `j`: the stale address
      of the target if that was forwarded before its turn, or else a survivor that is the target
      or a copy of it. */
  ghost predicate RootSlotOk(t: Trace, t': Trace, next: bool, roots: seq<Address>, roots': seq<Address>, j: nat) {
    && j < |roots| && j < |roots'|
    && roots'[j] in t'.origin && roots[j] in t'.origin && t'.origin[roots'[j]] == t'.origin[roots[j]]
    && (if Forwarded(t.mem, roots[j]) || MovedBefore(roots, roots', j)
        then roots'[j] == roots[j] && Forwarded(t'.mem, roots[j])
        else Alive(t', next, roots'[j]))
  }

  /** From `t` to `t'` nobody dies, nobody leaves, and forwarding is final. */
  ghost predicate Progress(t: Trace, t': Trace, next: bool) {
    && Grows(t, t', next)
    && (forall x :: x in t.mem ==> x in t'.mem && (Forwarded(t.mem, x) ==> Forwarded(t'.mem, x)))
    && (forall x :: x in t.origin ==> x in t'.origin && t'.origin[x] == t.origin[x])
  }

  lemma FirstRootSlot(t: Trace, t1: Trace, t2: Trace, next: bool, r: Address, r': Address, rest: seq<Address>,
                      rest': seq<Address>)
    requires RootStepped(t, t1, next, r, r') && Progress(t1, t2, next) && r in t.mem
    ensures RootSlotOk(t, t2, next, [r] + rest, [r'] + rest', 0) && Progress(t, t2, next)
  {
    hide Alive;
  }

  lemma LaterRootSlot(t: Trace, t1: Trace, t2: Trace, next: bool, r: Address, r': Address,
                      rest: seq<Address>, rest': seq<Address>, j: nat)
    requires RootStepped(t, t1, next, r, r') && |rest'| == |rest|
    requires RootSlotOk(t1, t2, next, rest, rest', j) && rest[j] in t.mem
    ensures RootSlotOk(t, t2, next, [r] + rest, [r'] + rest', j + 1)
  {
    hide Alive, Grows;
    var roots, roots' := [r] + rest, [r'] + rest';
    assert MovedBefore(roots, roots', j + 1) <==> (r == rest[j] && r' != r) || MovedBefore(rest, rest', j) by {
      if MovedBefore(rest, rest', j) {
        var i :| 0 <= i < j && i < |rest| && j < |rest| && i < |rest'| && rest[i] == rest[j] && rest'[i] != rest[i];
        assert roots[i + 1] == roots[j + 1] && roots'[i + 1] != roots[i + 1];
      }
      if r == rest[j] && r' != r { assert roots[0] == roots[j + 1] && roots'[0] != roots[0]; }
    }
  }

  /** The loop over the precise roots. */
  lemma {:induction false} TraceRootsInv(mem0: Memory, t: Trace, mode: Mode, within: set<Address>, roots: seq<Address>)
    requires RootInv(mem0, t, mode, within) && Traceable(t)
    requires forall k :: 0 <= k < |roots| ==> roots[k] in mem0 && roots[k] in within && roots[k] in t.mem
    ensures var (t', roots') := TraceRoots(t, mode, roots);
            && RootInv(mem0, t', mode, within) && Traceable(t') && Progress(t, t', mode.next) && |roots'| == |roots|
            && forall j :: 0 <= j < |roots| ==> RootSlotOk(t, t', mode.next, roots, roots', j)
    decreases |roots|
  {
    hide RootInv, Traceable, TraceRoot, RootSlotOk, Grows;
    if |roots| > 0 {
      TraceRootKeeps(t, mode, roots[0]);
      RootOrigins(mem0, t, mode, within);
      TraceRootInv(mem0, t, mode, within, roots[0]);
      var (t1, r) := TraceRoot(t, mode, roots[0]);
      var rest := roots[1..];
      assert forall k :: 0 <= k < |rest| ==> rest[k] == roots[k + 1];
      TraceRootsInv(mem0, t1, mode, within, rest);
      var (t2, rest') := TraceRoots(t1, mode, rest);
      assert roots == [roots[0]] + rest && TraceRoots(t, mode, roots) == (t2, [r] + rest');
      FirstRootSlot(t, t1, t2, mode.next, roots[0], r, rest, rest');
      forall j | 0 <= j < |roots| ensures RootSlotOk(t, t2, mode.next, roots, [r] + rest', j) {
        if j > 0 { LaterRootSlot(t, t1, t2, mode.next, roots[0], r, rest, rest', j - 1); }
      }
    } else {
      GrowsSelf(t, mode.next);
    }
  }

  lemma GrowsSelf(t: Trace, next: bool)
    ensures Grows(t, t, next)
  {}

  lemma RootOrigins(mem0: Memory, t: Trace, mode: Mode, within: set<Address>)
    requires RootInv(mem0, t, mode, within)
    ensures forall a :: a in mem0 ==> a in t.mem && a in t.origin && t.origin[a] == a
  {
    hide TraceInv;
    OriginalsInMemory(mem0, t, mode.next, within);
  }
}
