/** The garbage collector in its imperative form (src/lib.rs, src/collector.rs): one object that
    owns the space, the object bitmap and memory. Its methods are proved equal to the functions
    whose properties modules `TraceTheorems`, `CollectionProofs` and `HeapRuns` establish. */
module Immix {
  import opened Constants
  import opened Lines
  import opened Header
  import opened Space
  import opened Layout
  import opened Allocation
  import opened AllocationProofs
  import opened Memory
  import opened Trace
  import opened TraceTheorems
  import opened Histogram
  import opened Collection
  import opened CollectionProofs
  import opened HeapRuns
  import Bitmap = SpaceBitmap
  import Allocators = ImmixSpace

  /** What `filter` says of an address. */
  datatype Lookup = Found(address: Address) | NotFound | PastTheMap

  /** The last address that the bounds test admits is the only one without a word in the bitmap. */
  lemma LastWord(words: nat, start: Address, bound: Address, address: Address)
    requires words * Bitmap.BYTES_PER_WORD == bound - start && start % GRANULE == 0
    ensures bound % GRANULE == 0
    ensures start <= address <= bound ==>
              (Bitmap.WordIndex(address - start) >= words <==> address == bound)
  {
    assert bound == start + words * 64 * GRANULE;
    if start <= address <= bound {
      assert Bitmap.WordIndex(address - start) == (address - start) / Bitmap.BYTES_PER_WORD;
    }
  }

  lemma MappingNotEmpty(h: Heap)
    requires HeapInv(h)
    ensures h.space.ba.start < h.space.ba.bound
  {
    hide ObjectsPlaced, Reserved, Ledger, Bytes, Closed, Clean, LinesInBlock;
  }

  lemma IndexIsMemory(h: Heap)
    requires HeapInv(h)
    ensures h.index == h.mem.Keys
  {}

  lemma BlocksAreAligned(begin: Address, b: Address)
    requires begin % GRANULE == 0 && b % BLOCK_SIZE == 0
    ensures (b - begin) % GRANULE == 0 && (b + BLOCK_SIZE - begin) % GRANULE == 0
  {
    GranuleDifference(b / BLOCK_SIZE, begin / GRANULE);
    GranuleDifference(b / BLOCK_SIZE + 1, begin / GRANULE);
  }

  lemma GranuleDifference(m: int, n: int)
    ensures (m * BLOCK_SIZE - n * GRANULE) % GRANULE == 0
  {
    assert m * BLOCK_SIZE - n * GRANULE == (m * 2048 - n) * GRANULE;
  }

  lemma PagesAreGranules(a: Address)
    requires a % Bitmap.PAGE_SIZE == 0
    ensures a % GRANULE == 0
  {
    assert a == a / Bitmap.PAGE_SIZE * 256 * GRANULE;
  }

  class Immix {
    const space: Allocators.ImmixSpace
    const bitmap: Bitmap.SpaceBitmap
    var mem: Memory
    var allBlocks: seq<Address>
    var markHistogram: Histogram
    ghost var marks: seq<Entry>
    var used: nat
    var threshold: nat
    var live: bool

    ghost function Value(): Heap
      reads this, space, bitmap.words
    {
      Heap(mem, bitmap.Addresses(), space.Value(), allBlocks, marks, used, threshold, live)
    }

    /** The bitmap covers the mapping, and the histogram is that of the last sweep. */
    ghost predicate Wired()
      reads this
    {
      && bitmap.Valid() && bitmap.heapBegin == space.start && bitmap.heapLimit == space.bound
      && bitmap.words.Length * Bitmap.BYTES_PER_WORD == space.bound - space.start
      && space.start % GRANULE == 0 && markHistogram == Build(marks)
    }

    /** The mapping is page-aligned and a whole number of pages, and larger than one block. */
    constructor (start: Address, capacity: nat, threshold: nat)
      requires start % Bitmap.PAGE_SIZE == 0 && capacity % Bitmap.PAGE_SIZE == 0 && BLOCK_SIZE <= capacity
      ensures Wired() && Value() == EmptyHeap(start, start + capacity, threshold) && HeapInv(Value())
    {
      space := new Allocators.ImmixSpace(start, start + capacity);
      bitmap := new Bitmap.SpaceBitmap(start, capacity);
      mem, allBlocks, markHistogram, marks := map[], [], map[], [];
      used, this.threshold, live := 0, threshold, false;
      new;
      hide HeapInv;
      PagesAreGranules(start);
      EmptyHeapInv(start, start + capacity, threshold);
    }

    /** `filter`: whether an address found on the stack starts an object. The bounds test also admits
        the end of the mapping itself; for that one address the code reads the word after the last
        one of the bitmap. */
    method Filter(address: Address) returns (found: Lookup)
      requires Wired() && HeapInv(Value())
      ensures found == if address in mem then Found(address)
                       else if address == space.bound then PastTheMap
                       else NotFound
    {
      hide HeapInv, Build;
      InsideMapping(Value());
      MappingNotEmpty(Value());
      IndexIsMemory(Value());
      LastWord(bitmap.words.Length, space.start, space.bound, address);
      if address % GRANULE != 0 { return NotFound; }
      if !(space.start < address <= space.bound) { return NotFound; }
      if Bitmap.WordIndex(address - space.start) >= bitmap.words.Length { return PastTheMap; }
      var marked := bitmap.Test(address);
      bitmap.InAddresses(address);
      found := if marked then Found(address) else NotFound;
    }

    /** `is_in_space` and `set_gc_object`. */
    method SetObject(a: Address)
      requires Wired() && space.start <= a < space.bound && a % GRANULE == 0
      modifies bitmap.words
      ensures bitmap.Addresses() == old(bitmap.Addresses()) + {a}
    {
      bitmap.SetObject(a);
    }

    // The trace.

    ghost function Tracing(queue: seq<Address>, visited: nat, origin: map<Address, Address>): Trace
      reads this, space, bitmap.words
    {
      Trace(mem, bitmap.Addresses(), space.Value(), queue, visited, origin)
    }

    /** `maybe_evacuate`. */
    method Evacuate(a: Address, ghost queue: seq<Address>, ghost visited: nat, ghost origin: map<Address, Address>)
      returns (copy: Option<Address>, ghost origin': map<Address, Address>)
      requires Wired() && Traceable(Tracing(queue, visited, origin)) && a in mem && a in origin
      modifies this`mem, space, bitmap.words
      ensures Wired()
      ensures (Tracing(queue, visited, origin'), copy) == MaybeEvacuate(old(Tracing(queue, visited, origin)), a)
    {
      ghost var t := Tracing(queue, visited, origin);
      Evacuated(t, a);
      hide Traceable, EvacFrame, SpaceFrame, EvacSpace, EvacTargetOk, Allocate, AlignUp;
      origin' := origin;
      var pinned := mem[a].header.pinned;
      var candidate := BlockOf(a) in space.blocks && space.blocks[BlockOf(a)].candidate;
      if pinned || !candidate { return None, origin; }
      copy := space.Allocate(Evac, AlignUp(mem[a].size));
      if copy.Some? {
        CopyInside(t, a);
        mem := mem[copy.value := mem[a]];
        SetObject(copy.value);
        origin' := origin[copy.value := origin[a]];
      }
    }

    /** `Visitor::trace` on one slot of `a`; the queue comes back with the child, if it is new. */
    method VisitSlot(mode: Mode, a: Address, i: nat, queue: seq<Address>, ghost visited: nat,
                     ghost origin: map<Address, Address>)
      returns (queue': seq<Address>, ghost origin': map<Address, Address>)
      requires Wired() && Traceable(Tracing(queue, visited, origin)) && a in mem && i < |mem[a].slots|
      requires mem[a].slots[i] in mem && mem[a].slots[i] in origin
      modifies this`mem, space, bitmap.words
      ensures Wired()
      ensures Tracing(queue', visited, origin') == TraceSlot(old(Tracing(queue, visited, origin)), mode, a, i)
    {
      ghost var t := Tracing(queue, visited, origin);
      hide Traceable, EvacFrame, SpaceFrame, EvacSpace, MaybeEvacuate, Evacuable, BlockOf;
      queue', origin' := queue, origin;
      var child := mem[a].slots[i];
      if mem[child].header.forwarded {
        mem := mem[a := mem[a].(slots := mem[a].slots[i := mem[child].header.pointer])];
      } else if mem[child].header.mark != mode.next {
        if mode.defrag {
          Evacuated(t, child);
          var copy;
          copy, origin' := Evacuate(child, queue, visited, origin);
          if copy.Some? {
            mem := mem[a := mem[a].(slots := mem[a].slots[i := copy.value])];
            child := copy.value;
          }
        }
        queue' := queue + [child];
      }
    }

    /** `visit_references`: the slots of `a` in order. */
    method VisitReferences(mode: Mode, a: Address, queue: seq<Address>, ghost visited: nat,
                           ghost origin: map<Address, Address>)
      returns (queue': seq<Address>, ghost origin': map<Address, Address>)
      requires Wired() && Traceable(Tracing(queue, visited, origin)) && a in mem
      modifies this`mem, space, bitmap.words
      ensures Wired()
      ensures Tracing(queue', visited, origin') == TraceSlots(old(Tracing(queue, visited, origin)), mode, a, 0)
    {
      hide Traceable, TraceSlot, EvacSpace, SpaceFrame, Unmarked;
      ghost var t := Tracing(queue, visited, origin);
      queue', origin' := queue, origin;
      var i := 0;
      while i < |mem[a].slots|
        invariant Wired() && Traceable(Tracing(queue', visited, origin')) && a in mem && i <= |mem[a].slots|
        invariant TraceSlots(Tracing(queue', visited, origin'), mode, a, i) == TraceSlots(t, mode, a, 0)
        decreases |mem[a].slots| - i
      {
        TraceSlotKeeps(Tracing(queue', visited, origin'), mode, a, i);
        queue', origin' := VisitSlot(mode, a, i, queue', visited, origin');
        i := i + 1;
      }
    }

    /** The loop of `ImmixCollector::collect` over the object queue. */
    method ProcessQueue(mode: Mode, roots: seq<Address>, ghost origin: map<Address, Address>)
      returns (visited: nat, ghost origin': map<Address, Address>)
      requires Wired() && Traceable(Tracing(roots, 0, origin))
      modifies this`mem, space, bitmap.words
      ensures Wired()
      ensures Tracing([], visited, origin') == TraceAll(old(Tracing(roots, 0, origin)), mode)
    {
      hide Traceable, TraceSlots, EvacSpace, SpaceFrame, Unmarked, MarkLines;
      ghost var t := Tracing(roots, 0, origin);
      var queue := roots;
      visited, origin' := 0, origin;
      while |queue| > 0
        invariant Wired() && Traceable(Tracing(queue, visited, origin'))
        invariant TraceAll(Tracing(queue, visited, origin'), mode) == TraceAll(t, mode)
        decreases EvacSpace(space.Value()), Unmarked(mem, mode.next), |queue|
      {
        ghost var now := Tracing(queue, visited, origin');
        TraceNextKeeps(now, mode);
        PopKeeps(now);
        var a := queue[0];
        queue := queue[1..];
        if mem[a].header.mark != mode.next {
          ghost var popped := Tracing(queue, visited, origin');
          MarkObjectKeeps(popped, mode.next, a);
          ObjectInside(popped, a);
          mem := mem[a := mem[a].(header := mem[a].header.(mark := mode.next))];
          SetObject(a);
          MarkBlockLines(a, mem[a].size);
          visited := visited + mem[a].size;
          queue, origin' := VisitReferences(mode, a, queue, visited, origin');
        }
      }
    }

    /** `line_object_mark` on the block of `a`. */
    method MarkBlockLines(a: Address, size: nat)
      modifies space
      ensures space.Value() == MarkLines(old(space.Value()), a, size)
    {
      var b := BlockOf(a);
      if b in space.blocks {
        var header := space.blocks[b];
        space.blocks := space.blocks[b := header.(lines := header.lines + MarkSpan(Offset(a), size))];
      }
    }

    /** The loop over the precise roots, which may move their targets. */
    method VisitRoots(mode: Mode, roots: seq<Address>, queue: seq<Address>, ghost origin: map<Address, Address>)
      returns (roots': seq<Address>, queue': seq<Address>, ghost origin': map<Address, Address>)
      requires Wired() && Traceable(Tracing(queue, 0, origin)) && forall k :: 0 <= k < |roots| ==> roots[k] in mem
      modifies this`mem, space, bitmap.words
      ensures Wired()
      ensures (Tracing(queue', 0, origin'), roots') == TraceRoots(old(Tracing(queue, 0, origin)), mode, roots)
    {
      hide Traceable, EvacSpace, SpaceFrame, TraceRoot, EvacFrame;
      ghost var t := Tracing(queue, 0, origin);
      roots', queue', origin' := [], queue, origin;
      assert roots[0..] == roots && [] + TraceRoots(t, mode, roots).1 == TraceRoots(t, mode, roots).1;
      for k := 0 to |roots|
        invariant Wired() && Traceable(Tracing(queue', 0, origin'))
        invariant forall j :: 0 <= j < |roots| ==> roots[j] in mem
        invariant var (last, rest) := TraceRoots(Tracing(queue', 0, origin'), mode, roots[k..]);
                  TraceRoots(t, mode, roots) == (last, roots' + rest)
      {
        ghost var now := Tracing(queue', 0, origin');
        assert roots[k..][0] == roots[k] && roots[k..][1..] == roots[k + 1..];
        TraceRootKeeps(now, mode, roots[k]);
        var root;
        root, queue', origin' := VisitRoot(mode, roots[k], queue', origin');
        KeysStay(now, Tracing(queue', 0, origin'), roots);
        ghost var rest := TraceRoots(Tracing(queue', 0, origin'), mode, roots[k + 1..]).1;
        assert roots' + ([root] + rest) == roots' + [root] + rest;
        roots' := roots' + [root];
      }
      assert roots[|roots|..] == [] && roots' + [] == roots';
    }

    method VisitRoot(mode: Mode, r: Address, queue: seq<Address>, ghost origin: map<Address, Address>)
      returns (root: Address, queue': seq<Address>, ghost origin': map<Address, Address>)
      requires Wired() && Traceable(Tracing(queue, 0, origin)) && r in mem && r in origin
      modifies this`mem, space, bitmap.words
      ensures Wired()
      ensures (Tracing(queue', 0, origin'), root) == TraceRoot(old(Tracing(queue, 0, origin)), mode, r)
    {
      ghost var t := Tracing(queue, 0, origin);
      Evacuated(t, r);
      hide Traceable, EvacFrame, SpaceFrame, EvacSpace, MaybeEvacuate, Evacuable, BlockOf;
      root, origin' := r, origin;
      var raw := r;
      if mem[r].header.forwarded {
        raw := mem[r].header.pointer;
      } else if mode.defrag {
        var copy;
        copy, origin' := Evacuate(r, queue, 0, origin);
        if copy.Some? {
          root := copy.value;
          mem := mem[r := mem[r].(header := mem[r].header.Forward(copy.value))];
          raw := copy.value;
        }
      }
      queue' := queue + [raw];
    }

    // The phases around the trace.

    /** `prepare_collection`. */
    method PrepareCollection(evacuation: bool, emergency: bool) returns (defrag: bool)
      requires Wired()
      modifies space`blocks
      ensures (space.blocks, defrag) == Prepare(old(space.Value()), allBlocks, marks, evacuation, emergency)
    {
      var sp := space;
      if emergency {
        SetCandidates(0);
        return true;
      }
      var available := (sp.bound - sp.cursor) / BLOCK_SIZE + |sp.free|;
      var total := (sp.bound - FirstBlock(sp.start)) / BLOCK_SIZE;
      defrag := false;
      if evacuation || available + |sp.evac.pool| < total / 4 {
        var threshold := EstablishHoleThreshold(|sp.evac.pool|, FreeEntries(sp.blocks, allBlocks), markHistogram,
                                                marks);
        defrag := threshold > 0;
        if defrag { SetCandidates(threshold); }
      }
    }

    method SetCandidates(threshold: nat)
      modifies space`blocks
      ensures space.blocks == WithCandidates(old(space.blocks), allBlocks, threshold)
    {
      for k := 0 to |allBlocks|
        invariant space.blocks == WithCandidates(old(space.blocks), allBlocks[..k], threshold)
      {
        var b := allBlocks[k];
        if b in space.blocks {
          space.blocks := space.blocks[b := space.blocks[b].(candidate := space.blocks[b].holeCount >= threshold)];
        }
        assert allBlocks[..k + 1] == allBlocks[..k] + [b];
      }
      assert allBlocks[..|allBlocks|] == allBlocks;
    }

    lemma ClearedNone(blocks: Headers, index: set<Address>)
      ensures ClearedIndex(index, []) == index && ClearedLines(blocks, []) == blocks
    {}

    lemma ClearedOneMore(blocks: Headers, index: set<Address>, list: seq<Address>, b: Address)
      requires b % BLOCK_SIZE == 0
      ensures ClearedIndex(index, list + [b]) == set a | a in ClearedIndex(index, list) && !(b <= a < b + BLOCK_SIZE)
      ensures var before := ClearedLines(blocks, list);
              ClearedLines(blocks, list + [b]) == if b in before then before[b := before[b].(lines := {})] else before
    {
      assert forall a :: BlockOf(a) == b <==> b <= a < b + BLOCK_SIZE by { OneBlock(b); }
      hide BlockOf;
    }

    /** Clears the line marks and the bitmap of every block about to be traced. */
    method ClearMarks()
      requires Wired()
      requires forall b :: b in allBlocks ==> b % BLOCK_SIZE == 0 && space.start <= b && b + BLOCK_SIZE <= space.bound
      requires forall a :: a in bitmap.Addresses() ==> a % GRANULE == 0
      modifies space`blocks, bitmap.words
      ensures space.blocks == ClearedLines(old(space.blocks), allBlocks)
      ensures bitmap.Addresses() == ClearedIndex(old(bitmap.Addresses()), allBlocks)
    {
      assert allBlocks[..0] == [];
      ClearedNone(space.blocks, bitmap.Addresses());
      hide ClearedLines, ClearedIndex, Build;
      for k := 0 to |allBlocks|
        invariant space.blocks == ClearedLines(old(space.blocks), allBlocks[..k])
        invariant bitmap.Addresses() == ClearedIndex(old(bitmap.Addresses()), allBlocks[..k])
      {
        var b := allBlocks[k];
        assert b in allBlocks;
        BlocksAreAligned(bitmap.heapBegin, b);
        bitmap.ClearObjects(b, b + BLOCK_SIZE);
        ClearedOneMore(old(space.blocks), old(bitmap.Addresses()), allBlocks[..k], b);
        assert allBlocks[..k + 1] == allBlocks[..k] + [b];
        if b in space.blocks { space.blocks := space.blocks[b := space.blocks[b].(lines := {})]; }
      }
      assert allBlocks[..|allBlocks|] == allBlocks;
    }

    method RecordMarks(e: Entry)
      requires markHistogram == Build(marks)
      modifies this`markHistogram, this`marks
      ensures marks == old(marks) + [e] && markHistogram == Build(marks)
    {
      if e.holes in markHistogram {
        markHistogram := markHistogram[e.holes := markHistogram[e.holes] + e.lines];
      } else {
        markHistogram := markHistogram[e.holes := e.lines];
      }
      marks := marks + [e];
      assert marks[..|marks| - 1] == old(marks);
    }

    /** `sweep_all_blocks`: drains the collector's list and refills it with the unavailable blocks. */
    method SweepAllBlocks() returns (recyclable: seq<Address>, free: seq<Address>)
      requires forall b :: b in allBlocks ==> b in space.blocks
      modifies space`blocks, this`allBlocks, this`markHistogram, this`marks
      ensures var s := Sweep(old(space.blocks), old(allBlocks));
              && space.blocks == s.blocks && allBlocks == s.unavailable && marks == s.marks
              && recyclable == s.recyclable && free == s.free && markHistogram == Build(marks)
    {
      hide Build, HoleWeight;
      markHistogram, marks := map[], [];
      assert markHistogram == Build(marks) by { EmptyHistogram(); }
      var unavailable: seq<Address> := [];
      recyclable, free := [], [];
      for k := 0 to |allBlocks|
        invariant allBlocks == old(allBlocks)
        invariant space.blocks.Keys == old(space.blocks.Keys)
        invariant Swept(space.blocks, unavailable, recyclable, free, marks) == Sweep(old(space.blocks), allBlocks[..k])
        invariant markHistogram == Build(marks)
      {
        var b := allBlocks[k];
        assert b in allBlocks && allBlocks[..k + 1][..k] == allBlocks[..k];
        var header := space.blocks[b];
        if header.lines == {} {
          space.blocks := space.blocks[b := CLEAR_BLOCK];
          free := free + [b];
        } else {
          var holes := HoleWeight(header.lines, 0);
          space.blocks := space.blocks[b := header.(holeCount := holes)];
          RecordMarks(Entry(holes, |header.lines|));
          if holes == 0 { unavailable := unavailable + [b]; } else { recyclable := recyclable + [b]; }
        }
      }
      assert allBlocks[..|allBlocks|] == allBlocks;
      allBlocks := unavailable;
    }

    /** Pins or unpins every root of the list. */
    method SetPins(list: seq<Address>, pinned: bool)
      modifies this`mem
      ensures mem == WithPins(old(mem), list, pinned)
    {
      for k := 0 to |list|
        invariant mem == WithPins(old(mem), list[..k], pinned)
      {
        var a := list[k];
        assert list[..k + 1] == list[..k] + [a];
        if a in mem { mem := mem[a := mem[a].(header := mem[a].header.(pinned := pinned))]; }
      }
      assert list[..|list|] == list;
    }

    /** The sweep and what becomes of its blocks (src/collector.rs:206-218). */
    method SweepAndHandOut()
      requires forall b :: b in allBlocks ==> b in space.blocks
      requires |space.evac.pool| <= EVAC_HEADROOM
      modifies space, this`allBlocks, this`markHistogram, this`marks
      ensures var s := Sweep(old(space.blocks), old(allBlocks));
              && space.Value() == HandOut(old(space.Value()), s)
              && allBlocks == s.unavailable && marks == s.marks && markHistogram == Build(marks)
    {
      hide Sweep, Build;
      var recyclable, free := SweepAllBlocks();
      space.normal := space.normal.(pool := recyclable);
      var wanted := EVAC_HEADROOM - |space.evac.pool|;
      var n := if wanted <= |free| then wanted else |free|;
      space.evac := space.evac.(pool := space.evac.pool + free[..n]);
      space.ReturnBlocks(free[n..]);
    }

    /** Everything up to the trace: roots are pinned, the blocks gathered, candidates chosen, and the
        marks of the last collection cleared. */
    method BeginCollection(roots: Roots, evacuation: bool, emergency: bool) returns (defrag: bool)
      requires Wired() && HeapInv(Value())
      modifies this`mem, this`allBlocks, space, bitmap.words
      ensures Wired() && mem == WithPins(old(mem), roots.conservative, true)
      ensures (space.Value(), allBlocks, defrag) == Before(old(Value()), evacuation, emergency)
      ensures bitmap.Addresses() == ClearedIndex(old(bitmap.Addresses()), allBlocks)
    {
      ghost var h := Value();
      BlocksInside(h);
      IndexAligned(h);
      hide HeapInv, Prepare, ClearedLines, ClearedIndex, Build, Gathered, WithPins, BlockOf;
      SetPins(roots.conservative, true);
      var gathered := space.GetAllBlocks();
      allBlocks := allBlocks + gathered;
      defrag := PrepareCollection(evacuation, emergency);
      assert space.Value() == Drained(h.space).(blocks := space.blocks);
      ClearMarks();
    }

    /** `ImmixCollector::collect`. */
    method CollectorTrace(roots: Roots, mode: Mode)
      returns (precise: seq<Address>, visited: nat, ghost origin: map<Address, Address>)
      requires Wired() && Ready(mem, space.Value(), roots, mode.next) && bitmap.Addresses() == {}
      modifies this`mem, space, bitmap.words
      ensures Wired()
      ensures (Tracing([], visited, origin), precise) == RunTrace(old(mem), old(space.Value()), roots, mode)
    {
      StartTraceable(mem, space.Value(), roots, mode.next);
      ghost var start := map a | a in mem :: a;
      TraceRootsKeeps(Tracing(roots.conservative, 0, start), mode, roots.precise);
      hide Traceable, LaidOut, SpaceFrame, TraceRoots, TraceAll, Closed;
      var queue;
      precise, queue, origin := VisitRoots(mode, roots.precise, roots.conservative, start);
      visited, origin := ProcessQueue(mode, queue, origin);
    }

    /** Everything after the trace. The dead are forgotten with the sweep. */
    method FinishCollection(roots: Roots, visited: nat, ghost t: Trace)
      requires t == Tracing([], visited, t.origin) && Wired()
      requires (forall b :: b in allBlocks ==> b in space.blocks) && |space.evac.pool| <= EVAC_HEADROOM
      modifies this, space
      ensures Wired() && Value() == After(old(live), old(threshold), t, old(allBlocks), roots)
    {
      hide Sweep, HandOut, Build;
      SweepAndHandOut();
      mem := map a | a in mem && Marked(mem, !live, a) :: mem[a];
      SetPins(roots.conservative, false);
      live := !live;
      used := visited;
      if visited >= threshold { threshold := visited * 7 / 4; }
    }

    /** `collect_internal`: returns the new values of the precise root slots. */
    method CollectGarbage(roots: Roots, evacuation: bool, emergency: bool) returns (precise: seq<Address>)
      requires Wired() && HeapInv(Value()) && RootsLive(mem, roots)
      modifies this, space, bitmap.words
      ensures Wired() && HeapInv(Value())
      ensures (Value(), precise) == Collect(old(Value()), roots, evacuation, emergency)
    {
      hide HeapInv, Before, ClearedIndex, RunTrace, Ready, Build, RootsLive, Conserved, WithPins, After, Wired, Idle;
      ghost var h := Value();
      BeforeReady(h, roots, evacuation, emergency);
      CollectKeepsInv(h, roots, evacuation, emergency);
      ListCarved(h, roots, evacuation, emergency);
      var defrag := BeginCollection(roots, evacuation, emergency);
      var visited;
      ghost var origin;
      precise, visited, origin := CollectorTrace(roots, Mode(!live, defrag));
      FinishCollection(roots, visited, Tracing([], visited, origin));
    }

    /** One attempt of `ImmixSpace::allocate`, with the header written on success. */
    method PlaceObject(req: Request) returns (a: Option<Address>)
      requires Wired() && HeapInv(Value()) && Requestable(req)
      requires forall k :: 0 <= k < |req.slots| ==> req.slots[k] in mem
      modifies this`mem, this`used, space, bitmap.words
      ensures Wired() && HeapInv(Value())
      ensures (Value(), a) == Place(old(Value()), req)
    {
      hide HeapInv, Build, Allocation.Allocate, Requestable;
      ghost var h := Value();
      PlaceKeepsInv(h, req);
      var size := AlignUp(req.bytes);
      a := space.Allocate(if size < MEDIUM_OBJECT then Normal else Overflow, size);
      if a.Some? {
        PlacedWhere(h, req);
        SetObject(a.value);
        used := used + size;
        mem := mem[a.value := Object(Fresh(req.rtti).(mark := live), size, req.slots, req.payload)];
      }
    }

    /** `Immix::allocate`: null only if there is no room even after an emergency collection. */
    method AllocateInHeap(roots: Roots, req: Request) returns (a: Option<Address>, precise: seq<Address>)
      requires Wired() && HeapInv(Value()) && CanAllocate(Value(), roots, req)
      modifies this, space, bitmap.words
      ensures Wired() && HeapInv(Value())
      ensures (Value(), precise, a) == AllocateObject(old(Value()), roots, req)
    {
      hide HeapInv, Collect, Place, Requestable, RootsLive, EarlyStaleSlots, Wired;
      ghost var h := Value();
      PacedKeeps(h, roots);
      TriedKeeps(h, roots, req);
      precise := roots.precise;
      if used >= threshold { precise := CollectGarbage(roots, false, true); }
      assert (Value(), precise) == Paced(h, roots);
      StackSlotsLive(mem, roots, req);
      a := PlaceObject(req);
      var roots1 := Roots(roots.conservative, precise);
      assert (Value(), roots1, a) == Tried(h, roots, req);
      if a == None {
        RetryKeeps(Value(), roots1, req);
        precise := CollectGarbage(roots1, true, true);
        a := PlaceObject(req);
      }
    }

    /** A slot write of the mutator. */
    method Store(a: Address, i: nat, v: Address)
      requires Wired() && HeapInv(Value()) && a in mem && i < |mem[a].slots| && v in mem
      modifies this`mem
      ensures Wired() && HeapInv(Value()) && Value() == Write(old(Value()), a, i, v)
    {
      hide HeapInv, Build;
      WriteKeepsInv(Value(), a, i, v);
      mem := mem[a := mem[a].(slots := mem[a].slots[i := v])];
    }
  }

  lemma PlacedWhere(h: Heap, req: Request)
    requires HeapInv(h) && Requestable(req) && (forall k :: 0 <= k < |req.slots| ==> req.slots[k] in h.mem)
    requires Place(h, req).1.Some?
    ensures var a := Place(h, req).1.value;
            Place(h, req).0.space.ba.start < a < Place(h, req).0.space.ba.bound && a % GRANULE == 0
  {
    hide HeapInv, Place, Requestable;
    PlaceKeepsInv(h, req);
    InsideMapping(Place(h, req).0);
  }

  lemma EmptyHistogram()
    ensures Build([]) == map[]
  {}

  lemma KeysStay(t: Trace, t': Trace, roots: seq<Address>)
    requires t.mem.Keys <= t'.mem.Keys && forall j :: 0 <= j < |roots| ==> roots[j] in t.mem
    ensures forall j :: 0 <= j < |roots| ==> roots[j] in t'.mem
  {
    forall j | 0 <= j < |roots| ensures roots[j] in t'.mem {
      var a := roots[j];
      assert a in t.mem.Keys;
    }
  }

  lemma OneBlock(b: Address)
    requires b % BLOCK_SIZE == 0
    ensures forall a :: BlockOf(a) == b <==> b <= a < b + BLOCK_SIZE
  {
    forall a ensures BlockOf(a) == b <==> b <= a < b + BLOCK_SIZE {
      if b <= a < b + BLOCK_SIZE { InsideBlock(b, a - b); }
    }
  }

  lemma ObjectInside(t: Trace, a: Address)
    requires Traceable(t) && a in t.mem
    ensures t.space.ba.start < a < t.space.ba.bound && a % GRANULE == 0
  {
    PlacedInside(Sizes(t.mem), t.space, a);
  }

  lemma CopyInside(t: Trace, a: Address)
    requires Traceable(t) && a in t.mem && a in t.origin && MaybeEvacuate(t, a).1.Some?
    ensures var c := MaybeEvacuate(t, a).1.value;
            t.space.ba.start < c < t.space.ba.bound && c % GRANULE == 0
  {
    hide Traceable, EvacSpace, MaybeEvacuate;
    Evacuated(t, a);
    ObjectInside(MaybeEvacuate(t, a).0, MaybeEvacuate(t, a).1.value);
  }

  /** Every object lies strictly inside the mapping and is aligned. */
  lemma InsideMapping(h: Heap)
    requires HeapInv(h)
    ensures forall a :: a in h.mem ==> h.space.ba.start < a < h.space.ba.bound && a % GRANULE == 0
  {
    hide LinesInBlock, AllApart, Reserved, Ledger, Bytes, Closed, Clean;
    var ext := Sizes(h.mem);
    forall a | a in h.mem ensures h.space.ba.start < a < h.space.ba.bound && a % GRANULE == 0 {
      PlacedInside(ext, h.space, a);
    }
  }

  lemma PlacedInside(ext: Extents, sp: Space, a: Address)
    requires LaidOut(ext, sp) && a in ext
    ensures sp.ba.start < a < sp.ba.bound && a % GRANULE == 0
  {
    hide LinesInBlock, AllApart, Reserved, Ledger;
    assert Placed(a, ext[a], sp.blocks.Keys);
    NextBoundary(BlockOf(a), sp.ba.cursor);
  }

  lemma NextBoundary(b: Address, cursor: Address)
    requires b % BLOCK_SIZE == 0 && cursor % BLOCK_SIZE == 0 && b < cursor
    ensures b + BLOCK_SIZE <= cursor
  {}

  /** The gathered blocks lie on block boundaries inside the mapping. */
  lemma BlocksInside(h: Heap)
    requires HeapInv(h)
    ensures forall b :: b in h.space.blocks ==>
              b % BLOCK_SIZE == 0 && h.space.ba.start <= b && b + BLOCK_SIZE <= h.space.ba.bound
    ensures forall b :: b in h.allBlocks + Gathered(h.space) ==> b in h.space.blocks
  {
    hide LinesInBlock, ObjectsPlaced, Reserved, Bytes, Closed, Clean, Ledger;
    forall b | b in h.space.blocks ensures b + BLOCK_SIZE <= h.space.ba.bound { NextBoundary(b, h.space.ba.cursor); }
    GatheredHolds(h.space);
    forall b | b in Gathered(h.space) ensures b in h.space.blocks {
      assert b in multiset(Gathered(h.space));
      assert b in Ledger(h.space);
    }
  }

  lemma IndexAligned(h: Heap)
    requires HeapInv(h)
    ensures forall a :: a in h.index ==> a % GRANULE == 0
  {
    InsideMapping(h);
    hide LaidOut, Conserved, Bytes, Closed, Clean;
  }

  /** The collector's list holds carved blocks only, also after the trace. */
  lemma ListCarved(h: Heap, roots: Roots, evacuation: bool, emergency: bool)
    requires HeapInv(h) && RootsLive(h.mem, roots)
    requires var (sp, list, defrag) := Before(h, evacuation, emergency);
             Ready(WithPins(h.mem, roots.conservative, true), sp, roots, !h.live)
    ensures var (sp, list, defrag) := Before(h, evacuation, emergency);
            var t := RunTrace(WithPins(h.mem, roots.conservative, true), sp, roots, Mode(!h.live, defrag)).0;
            (forall b :: b in list ==> b in t.space.blocks) && |t.space.evac.pool| <= EVAC_HEADROOM
  {
    BeforeReady(h, roots, evacuation, emergency);
    hide HeapInv, Ready, RunTrace, Before, Finished, Traceable, SlotSurvives, Ledger;
    var (sp, list, defrag) := Before(h, evacuation, emergency);
    TraceFinishes(WithPins(h.mem, roots.conservative, true), sp, roots, Mode(!h.live, defrag));
    ListHasNoRepeats(sp, list);
  }
}
