/** The immix space as a value: the blocks carved from the mapped region, and the lists and
    windows through which the three allocators own them (src/allocation.rs,
    src/block_allocator.rs). Memory contents are kept apart from it, in module `Memory`. */
module Space {
  import opened Constants

  type Address = int

  function BlockOf(a: Address): Address { a - a % BLOCK_SIZE }

  function Offset(a: Address): nat { a % BLOCK_SIZE }

  /** The header of a block: its marked lines and its three flags. */
  datatype BlockState = BlockState(lines: set<nat>, isAllocated: bool, holeCount: nat, candidate: bool)

  const CLEAR_BLOCK := BlockState({}, false, 0, false)

  /** The offsets `low` to `high` of a block that are left for bump allocation. */
  datatype Window = Window(block: Address, low: nat, high: nat)

  /** The whole of a block after its header line. */
  function FreshWindow(b: Address): Window { Window(b, LINE_SIZE, BLOCK_SIZE - 1) }

  /** One allocator. The pool holds the recyclable blocks of the normal allocator and the
      headroom of the evacuation allocator; the overflow allocator has none. */
  datatype Allocator = Allocator(unavailable: seq<Address>, pool: seq<Address>, current: Option<Window>)

  datatype Kind = Normal | Overflow | Evac

  /** The mapped region from `start` to `bound`: blocks are carved at `cursor`, and blocks given
      back wait in `free`. */
  datatype BlockAllocator = BlockAllocator(start: Address, bound: Address, cursor: Address, free: seq<Address>)

  datatype Space = Space(
    blocks: map<Address, BlockState>,
    ba: BlockAllocator,
    normal: Allocator,
    overflow: Allocator,
    evac: Allocator)
  {
    function Get(kind: Kind): Allocator {
      match kind
      case Normal => normal
      case Overflow => overflow
      case Evac => evac
    }

    function Put(kind: Kind, al: Allocator): Space {
      match kind
      case Normal => this.(normal := al)
      case Overflow => this.(overflow := al)
      case Evac => this.(evac := al)
    }
  }

  function LinesOf(blocks: map<Address, BlockState>, b: Address): set<nat> {
    if b in blocks then blocks[b].lines else {}
  }

  /** `Mmap::aligned`: the first block boundary strictly above the start of the mapping. */
  function FirstBlock(start: Address): Address { start + (BLOCK_SIZE - start % BLOCK_SIZE) }

  function CurrentBlock(current: Option<Window>): multiset<Address> {
    match current
    case None => multiset{}
    case Some(w) => multiset{w.block}
  }

  /** The blocks an allocator holds, with multiplicity. */
  function Holds(al: Allocator): multiset<Address> {
    multiset(al.unavailable) + multiset(al.pool) + CurrentBlock(al.current)
  }

  /** All blocks held anywhere outside the collector. */
  function Ledger(sp: Space): multiset<Address> {
    multiset(sp.ba.free) + Holds(sp.normal) + Holds(sp.overflow) + Holds(sp.evac)
  }

  /** Conservation: together with the blocks `held` by the collector, every carved block is in
      exactly one place. */
  ghost predicate Conserved(sp: Space, held: multiset<Address>) {
    Ledger(sp) + held == multiset(sp.blocks.Keys)
  }
}

/** Where objects lie. `LaidOut` is the invariant that ties the extents of the live objects to the
    blocks, the free lists and the allocation windows; every operation keeps it. */
module Layout {
  import opened Constants
  import opened Lines
  import opened Space

  /** The live objects: start address to size. */
  type Extents = map<Address, nat>

  /** An object lies in one carved block, above the header line, 16-aligned, and ends at least
      16 bytes below the end of the block. */
  predicate Placed(a: Address, size: nat, blocks: set<Address>) {
    && a % GRANULE == 0 && size % GRANULE == 0 && 0 < size < LARGE_OBJECT
    && BlockOf(a) in blocks && LINE_SIZE <= Offset(a) && Offset(a) + size <= BLOCK_SIZE - GRANULE
  }

  predicate Apart(a: Address, m: nat, b: Address, n: nat) { a + m <= b || b + n <= a }

  ghost predicate AllPlaced(ext: Extents, blocks: set<Address>) {
    forall a :: a in ext ==> Placed(a, ext[a], blocks)
  }

  ghost predicate AllApart(ext: Extents) {
    forall a, b :: a in ext && b in ext && a != b ==> Apart(a, ext[a], b, ext[b])
  }

  /** No object lies in block `b`. */
  ghost predicate Vacant(ext: Extents, b: Address) {
    forall a :: a in ext ==> BlockOf(a) != b
  }

  /** Every object in block `b` has its lines marked, so scanning `b` is safe. */
  ghost predicate Scannable(ext: Extents, lines: set<nat>, b: Address) {
    forall a :: a in ext && BlockOf(a) == b ==> LineMarked(lines, Offset(a), ext[a])
  }

  /** Every object in the window's block lies below the window, or above it with its lines
      marked: neither the window nor a hole still to be scanned meets an object. */
  ghost predicate WindowClear(ext: Extents, lines: set<nat>, w: Window) {
    forall a :: a in ext && BlockOf(a) == w.block ==>
      || Offset(a) + ext[a] <= w.low
      || (w.high < Offset(a) && LineMarked(lines, Offset(a), ext[a]))
  }

  predicate WindowShape(w: Window) {
    && w.block % BLOCK_SIZE == 0
    && LINE_SIZE <= w.low <= w.high < BLOCK_SIZE
    && w.low % GRANULE == 0 && (w.high + 1) % LINE_SIZE == 0
  }

  ghost predicate CurrentOk(ext: Extents, blocks: map<Address, BlockState>, current: Option<Window>) {
    current.Some? ==>
      && WindowShape(current.value)
      && WindowClear(ext, LinesOf(blocks, current.value.block), current.value)
  }

  /** The carved blocks are the block-sized steps from the first boundary up to the cursor. */
  ghost predicate Carved(ba: BlockAllocator, blocks: set<Address>) {
    && FirstBlock(ba.start) <= ba.cursor <= ba.bound
    && ba.cursor % BLOCK_SIZE == 0
    && forall b :: b in blocks <==> FirstBlock(ba.start) <= b < ba.cursor && b % BLOCK_SIZE == 0
  }

  /** Marked lines exist, and the header line is never one of them. */
  ghost predicate LinesInBlock(blocks: map<Address, BlockState>) {
    forall b, l :: b in blocks && l in blocks[b].lines ==> 1 <= l < LINES_PER_BLOCK
  }

  ghost predicate FreeVacant(ext: Extents, free: seq<Address>) {
    forall b :: b in free ==> Vacant(ext, b)
  }

  ghost predicate HeadroomVacant(ext: Extents, blocks: map<Address, BlockState>, pool: seq<Address>) {
    forall b :: b in pool ==>
      Vacant(ext, b) && b in blocks && blocks[b].lines == {} && !blocks[b].candidate
  }

  ghost predicate PoolScannable(ext: Extents, blocks: map<Address, BlockState>, pool: seq<Address>) {
    forall b :: b in pool ==> Scannable(ext, LinesOf(blocks, b), b)
  }

  /** Who owns the blocks: no block is held twice, and only carved blocks are held. */
  ghost predicate Owned(sp: Space) {
    && Carved(sp.ba, sp.blocks.Keys)
    && LinesInBlock(sp.blocks)
    && Ledger(sp) <= multiset(sp.blocks.Keys)
    && sp.overflow.pool == []
  }

  ghost predicate ObjectsPlaced(ext: Extents, blocks: set<Address>) {
    AllPlaced(ext, blocks) && AllApart(ext)
  }

  /** No object lies where memory may be handed out next. */
  ghost predicate Reserved(ext: Extents, sp: Space) {
    && FreeVacant(ext, sp.ba.free)
    && HeadroomVacant(ext, sp.blocks, sp.evac.pool)
    && PoolScannable(ext, sp.blocks, sp.normal.pool)
    && CurrentOk(ext, sp.blocks, sp.normal.current)
    && CurrentOk(ext, sp.blocks, sp.overflow.current)
    && CurrentOk(ext, sp.blocks, sp.evac.current)
  }

  ghost predicate LaidOut(ext: Extents, sp: Space) {
    && Owned(sp)
    && ObjectsPlaced(ext, sp.blocks.Keys)
    && Reserved(ext, sp)
  }
}
