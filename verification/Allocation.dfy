/** Bump allocation in holes (src/allocation.rs) and carving of blocks (src/block_allocator.rs), as
    functions from one space to the next. */
module Allocation {
  import opened Constants
  import opened Lines
  import opened Space

  /** `BlockAllocator::get_block`: the last freed block with a fresh header, or a new one. */
  function GetBlock(sp: Space): (Space, Option<Address>) {
    if |sp.ba.free| > 0 then
      var b := sp.ba.free[|sp.ba.free| - 1];
      (sp.(ba := sp.ba.(free := sp.ba.free[..|sp.ba.free| - 1]), blocks := sp.blocks[b := CLEAR_BLOCK]), Some(b))
    else if sp.ba.cursor + BLOCK_SIZE > sp.ba.bound then
      (sp, None)
    else
      var b := sp.ba.cursor;
      (sp.(ba := sp.ba.(cursor := b + BLOCK_SIZE), blocks := sp.blocks[b := CLEAR_BLOCK]), Some(b))
  }

  /** `scan_for_hole`: the window itself if it has room, or the next hole of its block that has. */
  function ScanWindow(lines: set<nat>, w: Window, size: nat): (r: Option<Window>)
    ensures r.Some? ==> r.value.block == w.block && r.value.low + size <= r.value.high
    ensures r.Some? && w.low <= w.high ==> w.low <= r.value.low
    decreases BLOCK_SIZE - w.high
  {
    if w.low + size <= w.high then Some(w) else
    match Scan(lines, w.high)
    case None => None
    case Some(h) => ScanWindow(lines, Window(w.block, h.low, h.high), size)
  }

  /** The current block if one of its holes has room, else nothing: a full block is put aside. */
  function UseCurrent(sp: Space, kind: Kind, size: nat): Space {
    var al := sp.Get(kind);
    match al.current
    case None => sp
    case Some(w) =>
      match ScanWindow(LinesOf(sp.blocks, w.block), w, size)
      case Some(w') => sp.Put(kind, al.(current := Some(w')))
      case None => sp.Put(kind, al.(unavailable := al.unavailable + [w.block], current := None))
  }

  /** `handle_no_hole` of the normal allocator: recyclable blocks from the back, each scanned from
      its header on, until one has room. */
  function UsePool(sp: Space, size: nat): Space
    decreases |sp.normal.pool|
  {
    var al := sp.normal;
    if |al.pool| == 0 then sp else
    var b, rest := al.pool[|al.pool| - 1], al.pool[..|al.pool| - 1];
    var full := sp.(normal := al.(pool := rest, unavailable := al.unavailable + [b]));
    match Scan(LinesOf(sp.blocks, b), BLOCK_HEADER_SIZE - 1)
    case None => UsePool(full, size)
    case Some(h) =>
      match ScanWindow(LinesOf(sp.blocks, b), Window(b, h.low, h.high), size)
      case Some(w) => sp.(normal := al.(pool := rest, current := Some(w)))
      case None => UsePool(full, size)
  }

  /** `get_new_block`: from the region, or from the headroom for the evacuation allocator. */
  function UseNewBlock(sp: Space, kind: Kind): Space {
    if kind.Evac? then
      var al := sp.evac;
      if |al.pool| == 0 then sp else
      var b, rest := al.pool[|al.pool| - 1], al.pool[..|al.pool| - 1];
      var header := if b in sp.blocks then sp.blocks[b] else CLEAR_BLOCK;
      sp.(blocks := sp.blocks[b := header.(isAllocated := true)],
          evac := al.(pool := rest, current := Some(FreshWindow(b))))
    else
      var (sp', got) := GetBlock(sp);
      match got
      case None => sp'
      case Some(b) =>
        sp'.(blocks := sp'.blocks[b := CLEAR_BLOCK.(isAllocated := true)])
           .Put(kind, sp'.Get(kind).(current := Some(FreshWindow(b))))
  }

  /** `Allocator::allocate` up to the point where a window with room is current, or none is left. */
  function Refill(sp: Space, kind: Kind, size: nat): Space {
    var one := UseCurrent(sp, kind, size);
    var two := if one.Get(kind).current.None? && kind.Normal? && size < LINE_SIZE then UsePool(one, size) else one;
    if two.Get(kind).current.None? then UseNewBlock(two, kind) else two
  }

  /** `allocate_from_block`: the object starts at the window's low offset, aligned. */
  function Bump(sp: Space, kind: Kind, size: nat): (Space, Address)
    requires sp.Get(kind).current.Some?
  {
    var al := sp.Get(kind);
    var w := al.current.value;
    var low := AlignUp(w.low);
    (sp.Put(kind, al.(current := Some(w.(low := low + size)))), w.block + low)
  }

  /** `Allocator::allocate`. */
  function Allocate(sp: Space, kind: Kind, size: nat): (Space, Option<Address>) {
    var ready := Refill(sp, kind, size);
    if ready.Get(kind).current.None? then (ready, None) else
    var (sp', a) := Bump(ready, kind, size);
    (sp', Some(a))
  }
}

/** Allocation keeps `LaidOut`, and finds room whenever there is any. */
module AllocationProofs {
  import opened Constants
  import opened Lines
  import opened Space
  import opened Layout
  import opened Allocation

  // Blocks move inside one allocator.

  lemma LedgerOfReplaced(sp: Space, kind: Kind, al: Allocator)
    requires Holds(al) == Holds(sp.Get(kind))
    ensures Ledger(sp.Put(kind, al)) == Ledger(sp)
  {}

  /** An allocator may move its blocks around as long as it neither gains nor loses one, does not
      grow its pool, and ends up with a clear window. */
  lemma ReplaceAllocator(ext: Extents, sp: Space, kind: Kind, al: Allocator)
    requires LaidOut(ext, sp)
    requires Holds(al) == Holds(sp.Get(kind))
    requires al.pool <= sp.Get(kind).pool
    requires CurrentOk(ext, sp.blocks, al.current)
    ensures LaidOut(ext, sp.Put(kind, al))
    ensures Ledger(sp.Put(kind, al)) == Ledger(sp)
  {
    hide Carved, LinesInBlock, ObjectsPlaced, FreeVacant, CurrentOk, Vacant, Scannable, Ledger, Holds;
    LedgerOfReplaced(sp, kind, al);
    assert forall b :: b in al.pool ==> b in sp.Get(kind).pool;
  }

  lemma NextHoleClear(ext: Extents, lines: set<nat>, w: Window)
    requires WindowShape(w) && WindowClear(ext, lines, w) && Scan(lines, w.high).Some?
    ensures var h := Scan(lines, w.high).value;
            WindowShape(Window(w.block, h.low, h.high)) && WindowClear(ext, lines, Window(w.block, h.low, h.high))
  {
    hide Scan, LineMarked, BlockOf, Offset;
    var h := Scan(lines, w.high).value;
    forall a | a in ext && BlockOf(a) == w.block && w.high < Offset(a)
      ensures Offset(a) + ext[a] <= h.low || (h.high < Offset(a) && LineMarked(lines, Offset(a), ext[a]))
    {
      HoleIsClear(lines, w.high, Offset(a), ext[a]);
    }
  }

  lemma PoolHoleClear(ext: Extents, lines: set<nat>, b: Address, last: nat)
    requires b % BLOCK_SIZE == 0 && Scannable(ext, lines, b) && Scan(lines, last).Some?
    ensures var h := Scan(lines, last).value;
            WindowShape(Window(b, h.low, h.high)) && WindowClear(ext, lines, Window(b, h.low, h.high))
  {
    hide Scan, LineMarked, BlockOf, Offset;
    var h := Scan(lines, last).value;
    forall a | a in ext && BlockOf(a) == b
      ensures Offset(a) + ext[a] <= h.low || (h.high < Offset(a) && LineMarked(lines, Offset(a), ext[a]))
    {
      HoleIsClear(lines, last, Offset(a), ext[a]);
    }
  }

  /** A scanned window is as clear as the one it was scanned from. */
  lemma {:induction false} ScanWindowClear(ext: Extents, lines: set<nat>, w: Window, size: nat)
    requires WindowShape(w) && WindowClear(ext, lines, w)
    ensures var r := ScanWindow(lines, w, size);
            r.Some? ==> WindowShape(r.value) && WindowClear(ext, lines, r.value)
    decreases BLOCK_SIZE - w.high
  {
    hide WindowClear;
    if w.low + size > w.high && Scan(lines, w.high).Some? {
      var h := Scan(lines, w.high).value;
      NextHoleClear(ext, lines, w);
      ScanWindowClear(ext, lines, Window(w.block, h.low, h.high), size);
    }
  }

  lemma UseCurrentKeepsLayout(ext: Extents, sp: Space, kind: Kind, size: nat)
    requires LaidOut(ext, sp)
    ensures LaidOut(ext, UseCurrent(sp, kind, size))
    ensures Ledger(UseCurrent(sp, kind, size)) == Ledger(sp)
  {
    hide Owned, ObjectsPlaced, FreeVacant, HeadroomVacant, PoolScannable, Ledger;
    var al := sp.Get(kind);
    if al.current.Some? {
      var w := al.current.value;
      ScanWindowClear(ext, LinesOf(sp.blocks, w.block), w, size);
      match ScanWindow(LinesOf(sp.blocks, w.block), w, size)
      case Some(w') => ReplaceAllocator(ext, sp, kind, al.(current := Some(w')));
      case None => ReplaceAllocator(ext, sp, kind, al.(unavailable := al.unavailable + [w.block], current := None));
    }
  }

  lemma PopKeepsHolds(al: Allocator)
    requires |al.pool| > 0 && al.current.None?
    ensures var b, rest := al.pool[|al.pool| - 1], al.pool[..|al.pool| - 1];
            && rest <= al.pool
            && Holds(al.(pool := rest, unavailable := al.unavailable + [b])) == Holds(al)
            && forall w: Window :: w.block == b ==> Holds(al.(pool := rest, current := Some(w))) == Holds(al)
  {
    assert al.pool == al.pool[..|al.pool| - 1] + [al.pool[|al.pool| - 1]];
  }

  lemma HolderIsCarved(sp: Space, b: Address)
    requires Owned(sp) && b in sp.normal.pool
    ensures b in sp.blocks && b % BLOCK_SIZE == 0
  {
    assert b in Holds(sp.normal);
    assert b in Ledger(sp);
  }

  /** The recyclable block taken last, scanned from its header on, offers a clear window. */
  lemma PooledWindowClear(ext: Extents, sp: Space, size: nat)
    requires LaidOut(ext, sp) && |sp.normal.pool| > 0
    ensures var b := sp.normal.pool[|sp.normal.pool| - 1];
            var lines := LinesOf(sp.blocks, b);
            Scan(lines, BLOCK_HEADER_SIZE - 1).Some? ==>
              var h := Scan(lines, BLOCK_HEADER_SIZE - 1).value;
              CurrentOk(ext, sp.blocks, ScanWindow(lines, Window(b, h.low, h.high), size))
  {
    hide Owned, ObjectsPlaced, FreeVacant, HeadroomVacant, Scannable, WindowClear;
    var b := sp.normal.pool[|sp.normal.pool| - 1];
    var lines := LinesOf(sp.blocks, b);
    if Scan(lines, BLOCK_HEADER_SIZE - 1).Some? {
      var h := Scan(lines, BLOCK_HEADER_SIZE - 1).value;
      HolderIsCarved(sp, b);
      PoolHoleClear(ext, lines, b, BLOCK_HEADER_SIZE - 1);
      ScanWindowClear(ext, lines, Window(b, h.low, h.high), size);
    }
  }

  lemma {:induction false} UsePoolKeepsLayout(ext: Extents, sp: Space, size: nat)
    requires LaidOut(ext, sp) && sp.normal.current.None?
    ensures LaidOut(ext, UsePool(sp, size))
    ensures Ledger(UsePool(sp, size)) == Ledger(sp)
    decreases |sp.normal.pool|
  {
    hide LaidOut, Ledger, Holds;
    var al := sp.normal;
    if |al.pool| > 0 {
      var b, rest := al.pool[|al.pool| - 1], al.pool[..|al.pool| - 1];
      var lines := LinesOf(sp.blocks, b);
      PopKeepsHolds(al);
      PooledWindowClear(ext, sp, size);
      var full := al.(pool := rest, unavailable := al.unavailable + [b]);
      ReplaceAllocator(ext, sp, Normal, full);
      var w := if Scan(lines, BLOCK_HEADER_SIZE - 1).None? then None else
               var h := Scan(lines, BLOCK_HEADER_SIZE - 1).value;
               ScanWindow(lines, Window(b, h.low, h.high), size);
      if w.Some? {
        ReplaceAllocator(ext, sp, Normal, al.(pool := rest, current := w));
      } else {
        UsePoolKeepsLayout(ext, sp.Put(Normal, full), size);
      }
    }
  }

  // A block is taken from the free list, from the headroom or from the region.

  lemma OneHolder(sp: Space, sp': Space, b: Address)
    requires Ledger(sp) == Ledger(sp') + multiset{b} && Ledger(sp) <= multiset(sp.blocks.Keys)
    ensures b in sp.blocks && b !in Ledger(sp') && Ledger(sp') <= multiset(sp.blocks.Keys)
  {
    assert Ledger(sp)[b] <= multiset(sp.blocks.Keys)[b];
  }

  lemma DropFree(ext: Extents, sp: Space)
    requires LaidOut(ext, sp) && |sp.ba.free| > 0
    ensures var b, rest := sp.ba.free[|sp.ba.free| - 1], sp.ba.free[..|sp.ba.free| - 1];
            var sp' := sp.(ba := sp.ba.(free := rest));
            && LaidOut(ext, sp') && b !in Ledger(sp') && b in sp.blocks && Vacant(ext, b)
            && Ledger(sp) == Ledger(sp') + multiset{b}
  {
    hide LinesInBlock, ObjectsPlaced, Vacant, HeadroomVacant, PoolScannable, CurrentOk, Holds;
    var b, rest := sp.ba.free[|sp.ba.free| - 1], sp.ba.free[..|sp.ba.free| - 1];
    var sp' := sp.(ba := sp.ba.(free := rest));
    assert sp.ba.free == rest + [b];
    OneHolder(sp, sp', b);
  }

  lemma DropHeadroom(ext: Extents, sp: Space)
    requires LaidOut(ext, sp) && |sp.evac.pool| > 0
    ensures var b, rest := sp.evac.pool[|sp.evac.pool| - 1], sp.evac.pool[..|sp.evac.pool| - 1];
            var sp' := sp.(evac := sp.evac.(pool := rest));
            && LaidOut(ext, sp') && b !in Ledger(sp') && b in sp.blocks && Vacant(ext, b)
            && sp.blocks[b].lines == {}
            && Ledger(sp) == Ledger(sp') + multiset{b}
  {
    hide LinesInBlock, ObjectsPlaced, Vacant, PoolScannable, CurrentOk, FreeVacant;
    var b, rest := sp.evac.pool[|sp.evac.pool| - 1], sp.evac.pool[..|sp.evac.pool| - 1];
    var sp' := sp.(evac := sp.evac.(pool := rest));
    assert sp.evac.pool == rest + [b];
    OneHolder(sp, sp', b);
  }

  lemma NotHeld(sp: Space, b: Address)
    requires b !in Ledger(sp)
    ensures b !in sp.ba.free && b !in sp.normal.pool && b !in sp.evac.pool
    ensures forall kind: Kind :: sp.Get(kind).current.Some? ==> sp.Get(kind).current.value.block != b
  {
    HeldIsListed(sp, b);
    hide Ledger;
    forall kind: Kind ensures b !in Holds(sp.Get(kind)) {}
    assert b !in Holds(sp.Get(Normal)) && b !in Holds(sp.Get(Evac));
  }

  lemma HeldIsListed(sp: Space, b: Address)
    ensures b in sp.ba.free ==> b in Ledger(sp)
    ensures forall kind: Kind :: b in Holds(sp.Get(kind)) ==> b in Ledger(sp)
  {
    hide Holds;
  }

  lemma CurrentIgnores(ext: Extents, blocks: map<Address, BlockState>, current: Option<Window>,
                       b: Address, header: BlockState)
    requires CurrentOk(ext, blocks, current) && (current.Some? ==> current.value.block != b)
    ensures CurrentOk(ext, blocks[b := header], current)
  {}

  /** What is reserved does not depend on the header of a block nobody holds. */
  lemma ReservedIgnores(ext: Extents, sp: Space, b: Address, header: BlockState)
    requires Reserved(ext, sp) && b !in Ledger(sp)
    ensures Reserved(ext, sp.(blocks := sp.blocks[b := header]))
  {
    NotHeld(sp, b);
    hide FreeVacant, Ledger, CurrentOk, Vacant, Scannable;
    CurrentIgnores(ext, sp.blocks, sp.Get(Normal).current, b, header);
    CurrentIgnores(ext, sp.blocks, sp.Get(Overflow).current, b, header);
    CurrentIgnores(ext, sp.blocks, sp.Get(Evac).current, b, header);
  }

  lemma ChangeUnheld(ext: Extents, sp: Space, b: Address, header: BlockState)
    requires LaidOut(ext, sp) && b !in Ledger(sp) && b in sp.blocks && header.lines == {}
    ensures var sp' := sp.(blocks := sp.blocks[b := header]);
            LaidOut(ext, sp') && Ledger(sp') == Ledger(sp)
  {
    hide Carved, ObjectsPlaced, Reserved, Holds;
    ReservedIgnores(ext, sp, b, header);
    assert sp.blocks[b := header].Keys == sp.blocks.Keys;
  }

  lemma LedgerGains(sp: Space, kind: Kind, w: Window)
    requires sp.Get(kind).current.None?
    ensures var sp' := sp.Put(kind, sp.Get(kind).(current := Some(w)));
            Ledger(sp') == Ledger(sp) + multiset{w.block}
  {}

  lemma GainWithin(m: multiset<Address>, keys: set<Address>, b: Address)
    requires m <= multiset(keys) && b !in m && b in keys
    ensures m + multiset{b} <= multiset(keys)
  {}

  lemma FreshWindowClear(ext: Extents, blocks: map<Address, BlockState>, b: Address)
    requires Vacant(ext, b) && b % BLOCK_SIZE == 0
    ensures CurrentOk(ext, blocks, Some(FreshWindow(b)))
  {}

  lemma GiveFreshWindow(ext: Extents, sp: Space, kind: Kind, b: Address)
    requires LaidOut(ext, sp) && b !in Ledger(sp) && b in sp.blocks && Vacant(ext, b)
    requires sp.Get(kind).current.None?
    ensures var sp' := sp.Put(kind, sp.Get(kind).(current := Some(FreshWindow(b))));
            LaidOut(ext, sp') && Ledger(sp') == Ledger(sp) + multiset{b}
  {
    hide LinesInBlock, ObjectsPlaced, FreeVacant, HeadroomVacant, PoolScannable, Ledger, Vacant, CurrentOk;
    LedgerGains(sp, kind, FreshWindow(b));
    GainWithin(Ledger(sp), sp.blocks.Keys, b);
    FreshWindowClear(ext, sp.blocks, b);
  }

  lemma CarveBlock(ext: Extents, sp: Space, header: BlockState)
    requires LaidOut(ext, sp) && sp.ba.cursor + BLOCK_SIZE <= sp.ba.bound && header.lines == {}
    ensures var b := sp.ba.cursor;
            var sp' := sp.(ba := sp.ba.(cursor := b + BLOCK_SIZE), blocks := sp.blocks[b := header]);
            && LaidOut(ext, sp') && Ledger(sp') == Ledger(sp) && b !in Ledger(sp) && b !in sp.blocks && Vacant(ext, b)
  {
    hide Holds;
    var b := sp.ba.cursor;
    var blocks' := sp.blocks[b := header];
    assert b !in sp.blocks && b !in Ledger(sp);
    assert blocks'.Keys == sp.blocks.Keys + {b};
    ReservedIgnores(ext, sp, b, header);
    hide AllApart, FreeVacant, HeadroomVacant, PoolScannable, CurrentOk;
  }

  /** A new block changes hands, or a block is carved and held at once. */
  lemma UseNewBlockKeepsLayout(ext: Extents, sp: Space, kind: Kind, held: multiset<Address>)
    requires LaidOut(ext, sp) && sp.Get(kind).current.None?
    ensures LaidOut(ext, UseNewBlock(sp, kind))
    ensures Conserved(sp, held) ==> Conserved(UseNewBlock(sp, kind), held)
  {
    hide LaidOut, Ledger, Vacant;
    if kind.Evac? {
      if |sp.evac.pool| > 0 {
        var b, rest := sp.evac.pool[|sp.evac.pool| - 1], sp.evac.pool[..|sp.evac.pool| - 1];
        DropHeadroom(ext, sp);
        TakenBlock(ext, sp.(evac := sp.evac.(pool := rest)), kind, b, sp.blocks[b].(isAllocated := true));
      }
    } else if |sp.ba.free| > 0 {
      var b, rest := sp.ba.free[|sp.ba.free| - 1], sp.ba.free[..|sp.ba.free| - 1];
      DropFree(ext, sp);
      var one := sp.(ba := sp.ba.(free := rest));
      TakenBlock(ext, one, kind, b, CLEAR_BLOCK.(isAllocated := true));
      assert sp.blocks[b := CLEAR_BLOCK][b := CLEAR_BLOCK.(isAllocated := true)]
          == sp.blocks[b := CLEAR_BLOCK.(isAllocated := true)];
    } else if sp.ba.cursor + BLOCK_SIZE <= sp.ba.bound {
      var b := sp.ba.cursor;
      CarveBlock(ext, sp, CLEAR_BLOCK);
      var one := sp.(ba := sp.ba.(cursor := b + BLOCK_SIZE), blocks := sp.blocks[b := CLEAR_BLOCK]);
      TakenBlock(ext, one, kind, b, CLEAR_BLOCK.(isAllocated := true));
      KeysGain(sp.blocks.Keys, b);
      assert UseNewBlock(sp, kind).blocks.Keys == sp.blocks.Keys + {b};
    }
  }

  lemma KeysGain(keys: set<Address>, b: Address)
    requires b !in keys
    ensures multiset(keys + {b}) == multiset(keys) + multiset{b}
  {}

  lemma TakenBlock(ext: Extents, sp: Space, kind: Kind, b: Address, header: BlockState)
    requires LaidOut(ext, sp) && b !in Ledger(sp) && b in sp.blocks && Vacant(ext, b) && header.lines == {}
    requires sp.Get(kind).current.None?
    ensures var sp' := sp.(blocks := sp.blocks[b := header]).Put(kind, sp.Get(kind).(current := Some(FreshWindow(b))));
            LaidOut(ext, sp') && Ledger(sp') == Ledger(sp) + multiset{b}
  {
    hide LaidOut, Ledger, Vacant;
    ChangeUnheld(ext, sp, b, header);
    GiveFreshWindow(ext, sp.(blocks := sp.blocks[b := header]), kind, b);
  }

  // An object is placed in the current window.

  /** The block of the current window is held nowhere else. */
  lemma CurrentAlone(sp: Space, kind: Kind)
    requires Ledger(sp) <= multiset(sp.blocks.Keys) && sp.Get(kind).current.Some?
    ensures var b := sp.Get(kind).current.value.block;
            && b in sp.blocks && b !in sp.ba.free && b !in sp.normal.pool && b !in sp.evac.pool
            && forall k: Kind :: k != kind && sp.Get(k).current.Some? ==> sp.Get(k).current.value.block != b
  {
    hide Ledger;
    var b := sp.Get(kind).current.value.block;
    var rest := sp.Put(kind, sp.Get(kind).(current := None));
    LedgerGains(rest, kind, sp.Get(kind).current.value);
    assert rest.Put(kind, rest.Get(kind).(current := sp.Get(kind).current)) == sp;
    OneHolder(sp, rest, b);
    NotHeld(rest, b);
    assert forall k: Kind :: k != kind ==> rest.Get(k) == sp.Get(k);
  }

  lemma InsideBlock(b: Address, offset: nat)
    requires b % BLOCK_SIZE == 0 && offset < BLOCK_SIZE
    ensures BlockOf(b + offset) == b && Offset(b + offset) == offset
    ensures offset % GRANULE == 0 ==> (b + offset) % GRANULE == 0
  {
    AlignedPlus(b / BLOCK_SIZE, offset);
    if offset % GRANULE == 0 { GranulePlus(b / BLOCK_SIZE, offset / GRANULE); }
  }

  lemma AlignedPlus(q: int, offset: nat)
    requires offset < BLOCK_SIZE
    ensures (q * BLOCK_SIZE + offset) % BLOCK_SIZE == offset
  {}

  lemma GranulePlus(q: int, m: nat)
    ensures (q * BLOCK_SIZE + m * GRANULE) % GRANULE == 0
  {
    assert q * BLOCK_SIZE + m * GRANULE == (q * 2048 + m) * GRANULE;
  }

  lemma EndOfWindow(high: nat, end: nat)
    requires high < BLOCK_SIZE && end <= high && end % GRANULE == 0
    ensures end <= BLOCK_SIZE - GRANULE
  {}

  lemma BumpAddress(w: Window, size: nat)
    requires WindowShape(w) && w.low + size <= w.high && size % GRANULE == 0
    ensures var a := w.block + w.low;
            && AlignUp(w.low) == w.low && a % GRANULE == 0 && BlockOf(a) == w.block && Offset(a) == w.low
            && w.low + size <= BLOCK_SIZE - GRANULE && WindowShape(w.(low := w.low + size))
  {
    hide BlockOf, Offset, AlignUp;
    AlignedAlready(w.low);
    InsideBlock(w.block, w.low);
    EndOfWindow(w.high, w.low + size);
  }

  lemma NewObjectApart(ext: Extents, blocks: set<Address>, lines: set<nat>, w: Window, size: nat)
    requires WindowShape(w) && w.low + size <= w.high && size % GRANULE == 0
    requires AllPlaced(ext, blocks) && WindowClear(ext, lines, w)
    ensures forall b :: b in ext ==> Apart(w.block + w.low, size, b, ext[b])
  {
    BumpAddress(w, size);
    forall b | b in ext
      ensures Apart(w.block + w.low, size, b, ext[b])
    {
      assert Placed(b, ext[b], blocks);
      assert b == BlockOf(b) + Offset(b);
      if BlockOf(b) != w.block { BlocksApart(BlockOf(b), w.block); }
    }
  }

  lemma BlocksApart(b: Address, c: Address)
    requires b % BLOCK_SIZE == 0 && c % BLOCK_SIZE == 0 && b != c
    ensures b + BLOCK_SIZE <= c || c + BLOCK_SIZE <= b
  {}

  lemma PlaceObject(ext: Extents, blocks: set<Address>, lines: set<nat>, w: Window, size: nat)
    requires ObjectsPlaced(ext, blocks) && w.block in blocks
    requires WindowShape(w) && WindowClear(ext, lines, w)
    requires w.low + size <= w.high && size % GRANULE == 0 && 0 < size < LARGE_OBJECT
    ensures var a := w.block + w.low; a !in ext && ObjectsPlaced(ext[a := size], blocks)
  {
    NewObjectApart(ext, blocks, lines, w, size);
    BumpAddress(w, size);
    var a := w.block + w.low;
    assert a in ext ==> Placed(a, ext[a], blocks);
    hide BlockOf, Offset;
    assert Placed(a, size, blocks);
  }

  lemma VacantStill(ext: Extents, a: Address, size: nat, b: Address)
    requires Vacant(ext, b) && BlockOf(a) != b
    ensures Vacant(ext[a := size], b)
  {}

  lemma ScannableStill(ext: Extents, a: Address, size: nat, lines: set<nat>, b: Address)
    requires Scannable(ext, lines, b) && BlockOf(a) != b
    ensures Scannable(ext[a := size], lines, b)
  {}

  lemma CurrentStill(ext: Extents, a: Address, size: nat, blocks: map<Address, BlockState>, current: Option<Window>)
    requires CurrentOk(ext, blocks, current) && (current.Some? ==> current.value.block != BlockOf(a))
    ensures CurrentOk(ext[a := size], blocks, current)
  {}

  /** An object in a block outside the lists, whose window is `kind`'s, disturbs nothing else. */
  lemma ReservedStill(ext: Extents, sp: Space, kind: Kind, a: Address, size: nat)
    requires Reserved(ext, sp) && sp.Get(kind).current.None?
    requires BlockOf(a) !in sp.ba.free && BlockOf(a) !in sp.normal.pool && BlockOf(a) !in sp.evac.pool
    requires forall k: Kind :: k != kind && sp.Get(k).current.Some? ==> sp.Get(k).current.value.block != BlockOf(a)
    ensures Reserved(ext[a := size], sp)
  {
    hide Vacant, Scannable, CurrentOk, BlockOf;
    forall b | b in sp.ba.free || b in sp.evac.pool ensures Vacant(ext[a := size], b) {
      VacantStill(ext, a, size, b);
    }
    forall b | b in sp.normal.pool ensures Scannable(ext[a := size], LinesOf(sp.blocks, b), b) {
      ScannableStill(ext, a, size, LinesOf(sp.blocks, b), b);
    }
    CurrentStill(ext, a, size, sp.blocks, sp.Get(Normal).current);
    CurrentStill(ext, a, size, sp.blocks, sp.Get(Overflow).current);
    CurrentStill(ext, a, size, sp.blocks, sp.Get(Evac).current);
  }

  lemma ReservedParts(ext: Extents, sp: Space, kind: Kind, current: Option<Window>)
    requires Reserved(ext, sp) && CurrentOk(ext, sp.blocks, current)
    ensures Reserved(ext, sp.Put(kind, sp.Get(kind).(current := current)))
  {
    hide FreeVacant, HeadroomVacant, PoolScannable, CurrentOk;
  }

  lemma BumpedWindowClear(ext: Extents, lines: set<nat>, w: Window, size: nat)
    requires WindowShape(w) && WindowClear(ext, lines, w) && w.low + size <= w.high && size % GRANULE == 0
    ensures var w' := w.(low := w.low + size);
            WindowShape(w') && WindowClear(ext[w.block + w.low := size], lines, w')
  {
    hide LineMarked;
    BumpAddress(w, size);
  }

  /** Bump allocation into a window with room: the object is new, inside the window's block, apart
      from every other object, and nothing reserved is disturbed. */
  lemma BumpKeepsLayout(ext: Extents, sp: Space, kind: Kind, size: nat)
    requires LaidOut(ext, sp) && sp.Get(kind).current.Some?
    requires sp.Get(kind).current.value.low + size <= sp.Get(kind).current.value.high
    requires size % GRANULE == 0 && 0 < size < LARGE_OBJECT
    ensures var (sp', a) := Bump(sp, kind, size);
            && a !in ext && LaidOut(ext[a := size], sp') && Ledger(sp') == Ledger(sp)
            && BlockOf(a) == sp.Get(kind).current.value.block
  {
    hide Carved, LinesInBlock, AllPlaced, AllApart, FreeVacant, HeadroomVacant, PoolScannable, WindowClear,
         WindowShape, Ledger, Holds, BlockOf, AlignUp;
    var al := sp.Get(kind);
    var w := al.current.value;
    var a, lines := w.block + w.low, LinesOf(sp.blocks, w.block);
    assert WindowShape(w) && WindowClear(ext, lines, w);
    BumpAddress(w, size);
    CurrentAlone(sp, kind);
    PlaceObject(ext, sp.blocks.Keys, lines, w, size);
    BumpedWindowClear(ext, lines, w, size);
    BumpReserved(ext, sp, kind, a, size, w.(low := w.low + size));
    BumpLedger(sp, kind, w.(low := w.low + size));
  }

  lemma BumpLedger(sp: Space, kind: Kind, w': Window)
    requires sp.Get(kind).current.Some? && w'.block == sp.Get(kind).current.value.block
    ensures Ledger(sp.Put(kind, sp.Get(kind).(current := Some(w')))) == Ledger(sp)
  {
    LedgerOfReplaced(sp, kind, sp.Get(kind).(current := Some(w')));
  }

  lemma BumpReserved(ext: Extents, sp: Space, kind: Kind, a: Address, size: nat, w': Window)
    requires Reserved(ext, sp) && sp.Get(kind).current.Some?
    requires BlockOf(a) !in sp.ba.free && BlockOf(a) !in sp.normal.pool && BlockOf(a) !in sp.evac.pool
    requires forall k: Kind :: k != kind && sp.Get(k).current.Some? ==> sp.Get(k).current.value.block != BlockOf(a)
    requires CurrentOk(ext[a := size], sp.blocks, Some(w'))
    ensures Reserved(ext[a := size], sp.Put(kind, sp.Get(kind).(current := Some(w'))))
  {
    hide Reserved, CurrentOk, BlockOf;
    var idle := sp.Put(kind, sp.Get(kind).(current := None));
    assert CurrentOk(ext, sp.blocks, None) by { EmptyCurrent(ext, sp.blocks); }
    ReservedParts(ext, sp, kind, None);
    assert forall k: Kind :: k != kind ==> idle.Get(k) == sp.Get(k);
    ReservedStill(ext, idle, kind, a, size);
    ReservedParts(ext[a := size], idle, kind, Some(w'));
  }

  lemma EmptyCurrent(ext: Extents, blocks: map<Address, BlockState>)
    ensures CurrentOk(ext, blocks, None)
  {}

  /** Refilling keeps the layout and leaves either a window with room or none. */
  lemma RefillKeepsLayout(ext: Extents, sp: Space, kind: Kind, size: nat, held: multiset<Address>)
    requires LaidOut(ext, sp) && size < LARGE_OBJECT
    ensures var ready := Refill(sp, kind, size);
            && LaidOut(ext, ready)
            && (Conserved(sp, held) ==> Conserved(ready, held))
            && (ready.Get(kind).current.Some? ==>
                  ready.Get(kind).current.value.low + size <= ready.Get(kind).current.value.high)
  {
    hide LaidOut, UseCurrent, UsePool, UseNewBlock, Ledger;
    UsedBlocksSame(sp, kind, size);
    UseCurrentKeepsLayout(ext, sp, kind, size);
    var one := UseCurrent(sp, kind, size);
    UseCurrentHasRoom(sp, kind, size);
    var two := if one.Get(kind).current.None? && kind.Normal? && size < LINE_SIZE then UsePool(one, size) else one;
    if one.Get(kind).current.None? && kind.Normal? && size < LINE_SIZE {
      UsePoolKeepsLayout(ext, one, size);
      UsePoolHasRoom(one, size);
    }
    if two.Get(kind).current.None? {
      UseNewBlockKeepsLayout(ext, two, kind, held);
      UseNewBlockHasRoom(two, kind, size);
    }
  }

  lemma UseNewBlockHasRoom(sp: Space, kind: Kind, size: nat)
    requires sp.Get(kind).current.None? && size < LARGE_OBJECT
    ensures var current := UseNewBlock(sp, kind).Get(kind).current;
            current.Some? ==> current.value.low + size <= current.value.high
  {}

  lemma UsedBlocksSame(sp: Space, kind: Kind, size: nat)
    ensures UseCurrent(sp, kind, size).blocks == sp.blocks
  {}

  lemma UseCurrentHasRoom(sp: Space, kind: Kind, size: nat)
    ensures var current := UseCurrent(sp, kind, size).Get(kind).current;
            current.Some? ==> current.value.low + size <= current.value.high
  {}

  lemma {:induction false} UsePoolHasRoom(sp: Space, size: nat)
    requires sp.normal.current.None?
    ensures var current := UsePool(sp, size).normal.current;
            current.Some? ==> current.value.low + size <= current.value.high
    ensures UsePool(sp, size).blocks == sp.blocks
    decreases |sp.normal.pool|
  {
    var al := sp.normal;
    if |al.pool| > 0 {
      var b, rest := al.pool[|al.pool| - 1], al.pool[..|al.pool| - 1];
      UsePoolHasRoom(sp.(normal := al.(pool := rest, unavailable := al.unavailable + [b])), size);
    }
  }

  /** The main fact about allocation: the new object is fresh and laid out with all the others,
      and every block stays in exactly one place. */
  lemma AllocateKeepsLayout(ext: Extents, sp: Space, kind: Kind, size: nat, held: multiset<Address>)
    requires LaidOut(ext, sp) && size % GRANULE == 0 && 0 < size < LARGE_OBJECT
    ensures var (sp', got) := Allocate(sp, kind, size);
            && (Conserved(sp, held) ==> Conserved(sp', held))
            && match got
               case None => LaidOut(ext, sp')
               case Some(a) => a !in ext && LaidOut(ext[a := size], sp')
  {
    hide LaidOut, Refill, Ledger;
    RefillKeepsLayout(ext, sp, kind, size, held);
    var ready := Refill(sp, kind, size);
    if ready.Get(kind).current.Some? { BumpKeepsLayout(ext, ready, kind, size); }
  }

  // Evacuation only touches the evacuation allocator and the `isAllocated` flag of its blocks.

  /** The bytes the evacuation allocator can still hand out, counting whole blocks. */
  function EvacSpace(sp: Space): nat {
    |sp.evac.pool| * BLOCK_SIZE +
    match sp.evac.current
    case None => 0
    case Some(w) => if w.low < BLOCK_SIZE then BLOCK_SIZE - w.low else 0
  }

  ghost predicate SameMarks(blocks: map<Address, BlockState>, blocks': map<Address, BlockState>) {
    && blocks'.Keys == blocks.Keys
    && forall b :: b in blocks ==> blocks'[b].lines == blocks[b].lines && blocks'[b].candidate == blocks[b].candidate
  }

  ghost predicate EvacFrame(sp: Space, sp': Space) {
    && SameMarks(sp.blocks, sp'.blocks)
    && sp'.ba == sp.ba && sp'.normal == sp.normal && sp'.overflow == sp.overflow
    && sp'.evac.pool <= sp.evac.pool
  }

  /** The block that evacuation copies into is no evacuation candidate. */
  predicate EvacTargetOk(sp: Space) {
    sp.evac.current.Some? ==>
      sp.evac.current.value.block in sp.blocks && !sp.blocks[sp.evac.current.value.block].candidate
  }

  lemma EvacRefill(ext: Extents, sp: Space, size: nat)
    requires LaidOut(ext, sp) && EvacTargetOk(sp) && size < LARGE_OBJECT
    ensures var ready := Refill(sp, Evac, size);
            && EvacFrame(sp, ready) && EvacTargetOk(ready) && EvacSpace(ready) <= EvacSpace(sp)
            && (ready.evac.current.None? ==> ready.evac.pool == [])
  {
    hide Owned, ObjectsPlaced, FreeVacant, PoolScannable, WindowClear, Vacant;
    var one := UseCurrent(sp, Evac, size);
    assert EvacFrame(sp, one) && EvacTargetOk(one) && EvacSpace(one) <= EvacSpace(sp);
  }

  /** A successful evacuation allocation uses up space and lands in a block that is no candidate. */
  lemma EvacAllocate(ext: Extents, sp: Space, size: nat)
    requires LaidOut(ext, sp) && EvacTargetOk(sp) && size % GRANULE == 0 && 0 < size < LARGE_OBJECT
    ensures var (sp', got) := Allocate(sp, Evac, size);
            && EvacFrame(sp, sp') && EvacTargetOk(sp') && EvacSpace(sp') <= EvacSpace(sp)
            && (got.Some? ==>
                  && EvacSpace(sp') < EvacSpace(sp)
                  && BlockOf(got.value) in sp.blocks && !sp.blocks[BlockOf(got.value)].candidate)
  {
    hide Owned, ObjectsPlaced, FreeVacant, PoolScannable, HeadroomVacant, WindowClear, Vacant, BlockOf, Refill;
    EvacRefill(ext, sp, size);
    RefillKeepsLayout(ext, sp, Evac, size, multiset{});
    var ready := Refill(sp, Evac, size);
    if ready.evac.current.Some? {
      BumpAddress(ready.evac.current.value, size);
    }
  }

  /** Once one evacuation finds no room, the next one finds none either, whatever its size, and leaves
      the space as it is. */
  lemma EvacExhausted(ext: Extents, sp: Space, size: nat, later: nat)
    requires LaidOut(ext, sp) && EvacTargetOk(sp) && size < LARGE_OBJECT
    requires Allocate(sp, Evac, size).1.None?
    ensures var sp' := Allocate(sp, Evac, size).0;
            Allocate(sp', Evac, later) == (sp', None)
  {
    hide LaidOut, EvacFrame;
    EvacRefill(ext, sp, size);
  }

  // When a small object finds no room.

  /** Nothing is left for an object of `size` bytes: not in the current block, not in any
      recyclable block, not in the free list, not in the region. */
  predicate Exhausted(sp: Space, size: nat) {
    && (sp.normal.current.Some? ==>
          var w := sp.normal.current.value;
          w.low + size > w.high && Scan(LinesOf(sp.blocks, w.block), w.high).None?)
    && (forall b :: b in sp.normal.pool ==> Scan(LinesOf(sp.blocks, b), BLOCK_HEADER_SIZE - 1).None?)
    && sp.ba.free == [] && sp.ba.cursor + BLOCK_SIZE > sp.ba.bound
  }

  /** Any hole fits a small object, so scanning stops at the first one. */
  lemma SmallFits(lines: set<nat>, w: Window, size: nat)
    requires size % GRANULE == 0 && size < LINE_SIZE
    ensures ScanWindow(lines, w, size).None? <==> w.low + size > w.high && Scan(lines, w.high).None?
  {
    if Scan(lines, w.high).Some? {
      var h := Scan(lines, w.high).value;
      assert ScanWindow(lines, Window(w.block, h.low, h.high), size).Some?;
    }
  }

  lemma {:induction false} SmallPool(sp: Space, size: nat)
    requires size % GRANULE == 0 && size < LINE_SIZE && sp.normal.current.None?
    ensures UsePool(sp, size).normal.current.None? <==>
            forall b :: b in sp.normal.pool ==> Scan(LinesOf(sp.blocks, b), BLOCK_HEADER_SIZE - 1).None?
    ensures UsePool(sp, size).ba == sp.ba && UsePool(sp, size).blocks == sp.blocks
    decreases |sp.normal.pool|
  {
    var al := sp.normal;
    if |al.pool| > 0 {
      var b, rest := al.pool[|al.pool| - 1], al.pool[..|al.pool| - 1];
      assert al.pool == rest + [b];
      if Scan(LinesOf(sp.blocks, b), BLOCK_HEADER_SIZE - 1).Some? {
        var h := Scan(LinesOf(sp.blocks, b), BLOCK_HEADER_SIZE - 1).value;
        SmallFits(LinesOf(sp.blocks, b), Window(b, h.low, h.high), size);
      } else {
        SmallPool(sp.(normal := al.(pool := rest, unavailable := al.unavailable + [b])), size);
      }
    }
  }

  /** Small-object allocation returns null exactly when everything is exhausted: no hole and no
      block is ever passed over. */
  lemma SmallAllocationFailsOnlyWhenExhausted(sp: Space, size: nat)
    requires size % GRANULE == 0 && size < LINE_SIZE
    ensures Allocate(sp, Normal, size).1.None? <==> Exhausted(sp, size)
  {
    if sp.normal.current.Some? {
      var w := sp.normal.current.value;
      SmallFits(LinesOf(sp.blocks, w.block), w, size);
    }
    var one := UseCurrent(sp, Normal, size);
    hide ScanWindow, Scan, UsePool;
    if one.normal.current.None? {
      SmallPool(one, size);
    }
  }

  // When an object of any size finds no room.

  /** The window and the holes after it have room exactly when the rest of the window has, or the lines
      after it hold a long enough run of unmarked ones: no hole is passed over. */
  lemma {:induction false} ScanWindowFitsExactlyWhen(lines: set<nat>, w: Window, size: nat)
    ensures ScanWindow(lines, w, size).Some? <==>
            w.low + size <= w.high || RunFits(lines, w.high / LINE_SIZE + 1, size)
    decreases BLOCK_SIZE - w.high
  {
    hide RunFits, Scan;
    RunInFirstHole(lines, w.high, size);
    if w.low + size > w.high && Scan(lines, w.high).Some? {
      var h := Scan(lines, w.high).value;
      ScanWindowFitsExactlyWhen(lines, Window(w.block, h.low, h.high), size);
    }
  }

  /** Nothing is left for a medium object of `size` bytes: not in the current overflow block, not in
      the free list, not in the region. */
  ghost predicate OverflowExhausted(sp: Space, size: nat) {
    && (sp.overflow.current.Some? ==>
          var w := sp.overflow.current.value;
          w.low + size > w.high && !RunFits(LinesOf(sp.blocks, w.block), w.high / LINE_SIZE + 1, size))
    && sp.ba.free == [] && sp.ba.cursor + BLOCK_SIZE > sp.ba.bound
  }

  /** Medium-object allocation returns null exactly when everything it may use is exhausted. */
  lemma MediumAllocationFailsOnlyWhenExhausted(sp: Space, size: nat)
    ensures Allocate(sp, Overflow, size).1.None? <==> OverflowExhausted(sp, size)
  {
    hide ScanWindow, AlignUp, RunFits;
    if sp.overflow.current.Some? {
      var w := sp.overflow.current.value;
      ScanWindowFitsExactlyWhen(LinesOf(sp.blocks, w.block), w, size);
    }
  }

  /** Bump allocation wastes nothing: while the window has room, the next object starts where the last
      one ended. */
  lemma NextObjectFollows(sp: Space, kind: Kind, size: nat, next: nat)
    requires size % GRANULE == 0 && Allocate(sp, kind, size).1.Some?
    ensures var (sp', a) := Allocate(sp, kind, size);
            && sp'.Get(kind).current.Some?
            && var w := sp'.Get(kind).current.value;
            w.low + next <= w.high ==> Allocate(sp', kind, next).1 == Some(a.value + size)
  {
    hide Refill;
    var ready := Refill(sp, kind, size);
    var sp' := Allocate(sp, kind, size).0;
    var w := sp'.Get(kind).current.value;
    AlignedAlready(w.low);
    hide AlignUp;
    if w.low + next <= w.high { RefillKeepsWindow(sp', kind, next); }
  }

  lemma RefillKeepsWindow(sp: Space, kind: Kind, size: nat)
    requires sp.Get(kind).current.Some?
    requires var w := sp.Get(kind).current.value; w.low + size <= w.high
    ensures Refill(sp, kind, size) == sp
  {}
}
