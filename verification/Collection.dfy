/** One collection of the non-threaded build, as functions from one heap to the next
    (src/collector.rs, src/lib.rs:149-338). */
module Collection {
  import opened Constants
  import opened Lines
  import opened Space
  import opened Memory
  import opened Trace
  import opened TraceTheorems
  import opened Histogram

  /** The heap: memory with its object index, the space, the collector's own block list and the
      entries of its mark histogram, and the byte accounting and live mark of src/lib.rs. */
  datatype Heap = Heap(
    mem: Memory,
    index: set<Address>,
    space: Space,
    allBlocks: seq<Address>,
    marks: seq<Entry>,
    used: nat,
    threshold: nat,
    live: bool)

  type Headers = map<Address, BlockState>

  function CurrentList(current: Option<Window>): seq<Address> {
    match current
    case None => []
    case Some(w) => [w.block]
  }

  /** `get_all_blocks`: every allocator gives up its blocks; only the headroom stays. */
  function Gathered(sp: Space): seq<Address> {
    sp.normal.unavailable + sp.normal.pool + CurrentList(sp.normal.current)
    + (sp.overflow.unavailable + CurrentList(sp.overflow.current))
    + (sp.evac.unavailable + CurrentList(sp.evac.current))
  }

  function Drained(sp: Space): Space {
    sp.(normal := Allocator([], [], None),
        overflow := Allocator([], sp.overflow.pool, None),
        evac := Allocator([], sp.evac.pool, None))
  }

  // Preparing: which blocks to evacuate.

  function TotalBlocks(ba: BlockAllocator): int { (ba.bound - FirstBlock(ba.start)) / BLOCK_SIZE }

  function AvailableBlocks(ba: BlockAllocator): int { (ba.bound - ba.cursor) / BLOCK_SIZE + |ba.free| }

  /** The listed blocks with at least `threshold` holes become candidates, the others do not. */
  function WithCandidates(blocks: Headers, list: seq<Address>, threshold: nat): Headers {
    map b | b in blocks :: if b in list then blocks[b].(candidate := blocks[b].holeCount >= threshold) else blocks[b]
  }

  function FreeLines(lines: set<nat>): nat { if |lines| <= LINES_PER_BLOCK then LINES_PER_BLOCK - |lines| else 0 }

  /** The holes of the last count and the unmarked lines of a block. */
  function FreeEntry(blocks: Headers, b: Address): Entry {
    if b in blocks then Entry(blocks[b].holeCount, FreeLines(blocks[b].lines)) else Entry(0, 0)
  }

  function FreeEntries(blocks: Headers, list: seq<Address>): seq<Entry> {
    seq(|list|, i requires 0 <= i < |list| => FreeEntry(blocks, list[i]))
  }

  /** `prepare_collection`: the new headers and whether this collection evacuates. */
  function Prepare(sp: Space, list: seq<Address>, marks: seq<Entry>, evacuation: bool,
                   emergency: bool): (Headers, bool) {
    if emergency then
      (WithCandidates(sp.blocks, list, 0), true)
    else if evacuation || AvailableBlocks(sp.ba) + |sp.evac.pool| < TotalBlocks(sp.ba) / 4 then
      var threshold := LeastEnough(|sp.evac.pool|, FreeEntries(sp.blocks, list), marks, 0);
      if threshold > 0 then (WithCandidates(sp.blocks, list, threshold), true) else (sp.blocks, false)
    else
      (sp.blocks, false)
  }

  // Clearing the marks of the last collection.

  function ClearedLines(blocks: Headers, list: seq<Address>): Headers {
    map b | b in blocks :: if b in list then blocks[b].(lines := {}) else blocks[b]
  }

  function ClearedIndex(index: set<Address>, list: seq<Address>): set<Address> {
    set a | a in index && BlockOf(a) !in list
  }

  // Sweeping.

  datatype Swept = Swept(
    blocks: Headers,
    unavailable: seq<Address>,
    recyclable: seq<Address>,
    free: seq<Address>,
    marks: seq<Entry>)

  function SweepBlock(s: Swept, b: Address): Swept {
    if b !in s.blocks then s else
    var header := s.blocks[b];
    if header.lines == {} then
      s.(blocks := s.blocks[b := CLEAR_BLOCK], free := s.free + [b])
    else
      var holes := HoleWeight(header.lines, 0);
      var counted := s.(blocks := s.blocks[b := header.(holeCount := holes)],
                        marks := s.marks + [Entry(holes, |header.lines|)]);
      if holes == 0 then counted.(unavailable := s.unavailable + [b])
      else counted.(recyclable := s.recyclable + [b])
  }

  function Sweep(blocks: Headers, list: seq<Address>): Swept {
    if list == [] then Swept(blocks, [], [], [], [])
    else SweepBlock(Sweep(blocks, list[..|list| - 1]), list[|list| - 1])
  }

  /** How many of the freed blocks refill the headroom. */
  function Refilled(headroom: nat, free: nat): nat {
    if headroom >= EVAC_HEADROOM then 0
    else if free <= EVAC_HEADROOM - headroom then free
    else EVAC_HEADROOM - headroom
  }

  /** The space once the sweep's results have been handed out. */
  function HandOut(sp: Space, s: Swept): Space {
    var n := Refilled(|sp.evac.pool|, |s.free|);
    sp.(blocks := s.blocks,
        normal := sp.normal.(pool := s.recyclable),
        evac := sp.evac.(pool := sp.evac.pool + s.free[..n]),
        ba := sp.ba.(free := sp.ba.free + s.free[n..]))
  }

  // Pins.

  function WithPins(mem: Memory, roots: seq<Address>, pinned: bool): Memory {
    map a | a in mem :: if a in roots then mem[a].(header := mem[a].header.(pinned := pinned)) else mem[a]
  }

  /** The space at the start of the trace, with the blocks that the collector holds. */
  function Before(h: Heap, evacuation: bool, emergency: bool): (Space, seq<Address>, bool) {
    var list := h.allBlocks + Gathered(h.space);
    var drained := Drained(h.space);
    var (blocks, defrag) := Prepare(drained, list, h.marks, evacuation, emergency);
    (drained.(blocks := ClearedLines(blocks, list)), list, defrag)
  }

  function NextThreshold(threshold: nat, visited: nat): nat {
    if visited >= threshold then visited * 7 / 4 else threshold
  }

  /** What the phases after the trace make of it. */
  function After(live: bool, threshold: nat, t: Trace, list: seq<Address>, roots: Roots): Heap {
    var s := Sweep(t.space.blocks, list);
    Heap(WithPins(Survivors(t, !live), roots.conservative, false),
         t.index,
         HandOut(t.space, s),
         s.unavailable,
         s.marks,
         t.visited,
         NextThreshold(threshold, t.visited),
         !live)
  }
}
