/** The immix space in its imperative form (src/allocation.rs, src/block_allocator.rs): three
    allocators that take and put their current block and push and pop block lists. Every method is
    proved equal to its specification in module `Allocation`. */
module ImmixSpace {
  import opened Constants
  import opened Lines
  import opened Space
  import opened Allocation
  import opened Collection

  class ImmixSpace {
    const start: Address
    const bound: Address
    var cursor: Address
    var free: seq<Address>
    var blocks: Headers
    var normal: Allocator
    var overflow: Allocator
    var evac: Allocator

    ghost function Value(): Space
      reads this
    {
      Space(blocks, BlockAllocator(start, bound, cursor, free), normal, overflow, evac)
    }

    constructor (start: Address, bound: Address)
      ensures Value() == Space(map[], BlockAllocator(start, bound, FirstBlock(start), []),
                               Allocator([], [], None), Allocator([], [], None), Allocator([], [], None))
    {
      this.start, this.bound := start, bound;
      cursor, free, blocks := FirstBlock(start), [], map[];
      normal, overflow, evac := Allocator([], [], None), Allocator([], [], None), Allocator([], [], None);
    }

    method TakeCurrent(kind: Kind) returns (current: Option<Window>)
      modifies this
      ensures current == old(Value()).Get(kind).current
      ensures Value() == old(Value()).Put(kind, old(Value()).Get(kind).(current := None))
    {
      match kind {
        case Normal => current := normal.current; normal := normal.(current := None);
        case Overflow => current := overflow.current; overflow := overflow.(current := None);
        case Evac => current := evac.current; evac := evac.(current := None);
      }
    }

    method PutCurrent(kind: Kind, w: Window)
      modifies this
      ensures Value() == old(Value()).Put(kind, old(Value()).Get(kind).(current := Some(w)))
    {
      match kind {
        case Normal => normal := normal.(current := Some(w));
        case Overflow => overflow := overflow.(current := Some(w));
        case Evac => evac := evac.(current := Some(w));
      }
    }

    method HandleFullBlock(kind: Kind, b: Address)
      modifies this
      ensures Value() == old(Value()).Put(kind,
                old(Value()).Get(kind).(unavailable := old(Value()).Get(kind).unavailable + [b]))
    {
      match kind {
        case Normal => normal := normal.(unavailable := normal.unavailable + [b]);
        case Overflow => overflow := overflow.(unavailable := overflow.unavailable + [b]);
        case Evac => evac := evac.(unavailable := evac.unavailable + [b]);
      }
    }

    /** `build_block`: carves the next block, if the region still has one. Fresh memory reads as a
        clear header. */
    method BuildBlock() returns (b: Option<Address>)
      modifies this
      ensures if old(cursor) + BLOCK_SIZE > bound then b == None && Value() == old(Value())
              else b == Some(old(cursor)) && Value() == old(Value()).(
                     ba := old(Value()).ba.(cursor := old(cursor) + BLOCK_SIZE),
                     blocks := old(blocks)[old(cursor) := CLEAR_BLOCK])
    {
      var next := cursor + BLOCK_SIZE;
      if next > bound { return None; }
      b := Some(cursor);
      blocks := blocks[cursor := CLEAR_BLOCK];
      cursor := next;
    }

    method GetBlock() returns (b: Option<Address>)
      modifies this
      ensures (Value(), b) == Allocation.GetBlock(old(Value()))
    {
      if free == [] {
        b := BuildBlock();
      } else {
        b := Some(free[|free| - 1]);
        free := free[..|free| - 1];
        blocks := blocks[b.value := CLEAR_BLOCK];
      }
    }

    /** `scan_for_hole`: the block is put aside when none of its holes has room. */
    method ScanForHole(kind: Kind, size: nat, w: Window) returns (found: Option<Window>)
      modifies this
      ensures found == ScanWindow(LinesOf(old(blocks), w.block), w, size)
      ensures Value() == if found.Some? then old(Value()) else
                var al := old(Value()).Get(kind);
                old(Value()).Put(kind, al.(unavailable := al.unavailable + [w.block]))
      decreases BLOCK_SIZE - w.high
    {
      if w.low + size <= w.high { return Some(w); }
      var hole := Scan(LinesOf(blocks, w.block), w.high);
      match hole {
        case None =>
          HandleFullBlock(kind, w.block);
          found := None;
        case Some(h) =>
          found := ScanForHole(kind, size, Window(w.block, h.low, h.high));
      }
    }

    /** `handle_no_hole` of the normal allocator: a window in a recyclable block, taken out of its
        list; the code then puts it back as the current one. */
    method HandleNoHole(size: nat) returns (found: Option<Window>)
      requires normal.current == None
      modifies this
      ensures found == UsePool(old(Value()), size).normal.current
      ensures Value() == UsePool(old(Value()), size).Put(Normal, UsePool(old(Value()), size).normal.(current := None))
      decreases |normal.pool|
    {
      if |normal.pool| == 0 { return None; }
      var b := normal.pool[|normal.pool| - 1];
      normal := normal.(pool := normal.pool[..|normal.pool| - 1]);
      var hole := Scan(LinesOf(blocks, b), BLOCK_HEADER_SIZE - 1);
      match hole {
        case None =>
          HandleFullBlock(Normal, b);
          found := HandleNoHole(size);
        case Some(h) =>
          found := ScanForHole(Normal, size, Window(b, h.low, h.high));
          if found == None { found := HandleNoHole(size); }
      }
    }

    /** `get_new_block`: from the region, or from the headroom for evacuation. */
    method GetNewBlock(kind: Kind) returns (found: Option<Window>)
      requires Value().Get(kind).current == None
      modifies this
      ensures found == UseNewBlock(old(Value()), kind).Get(kind).current
      ensures var after := UseNewBlock(old(Value()), kind);
              Value() == after.Put(kind, after.Get(kind).(current := None))
    {
      if kind.Evac? {
        if |evac.pool| == 0 { return None; }
        var b := evac.pool[|evac.pool| - 1];
        evac := evac.(pool := evac.pool[..|evac.pool| - 1]);
        var header := if b in blocks then blocks[b] else CLEAR_BLOCK;
        blocks := blocks[b := header.(isAllocated := true)];
        found := Some(FreshWindow(b));
      } else {
        var got := GetBlock();
        if got == None { return None; }
        blocks := blocks[got.value := CLEAR_BLOCK.(isAllocated := true)];
        found := Some(FreshWindow(got.value));
      }
    }

    /** `Allocator::allocate`. */
    method Allocate(kind: Kind, size: nat) returns (a: Option<Address>)
      modifies this
      ensures (Value(), a) == Allocation.Allocate(old(Value()), kind, size)
    {
      hide UsePool, UseNewBlock, ScanWindow, AlignUp;
      ghost var sp := Value();
      var current := TakeCurrent(kind);
      var found: Option<Window> := None;
      if current.Some? { found := ScanForHole(kind, size, current.value); }
      ghost var one := UseCurrent(sp, kind, size);
      assert found == one.Get(kind).current && Value() == one.Put(kind, one.Get(kind).(current := None));
      if found == None && kind.Normal? && size < LINE_SIZE { found := HandleNoHole(size); }
      if found == None { found := GetNewBlock(kind); }
      ghost var ready := Refill(sp, kind, size);
      assert found == ready.Get(kind).current && Value() == ready.Put(kind, ready.Get(kind).(current := None));
      if found == None { return None; }
      var w := found.value;
      var low := AlignUp(w.low);
      PutCurrent(kind, w.(low := low + size));
      a := Some(w.block + low);
    }

    /** `get_all_blocks`. */
    method GetAllBlocks() returns (list: seq<Address>)
      modifies this
      ensures list == Gathered(old(Value())) && Value() == Drained(old(Value()))
    {
      list := normal.unavailable + normal.pool + CurrentList(normal.current)
              + (overflow.unavailable + CurrentList(overflow.current))
              + (evac.unavailable + CurrentList(evac.current));
      normal := Allocator([], [], None);
      overflow := overflow.(unavailable := [], current := None);
      evac := evac.(unavailable := [], current := None);
    }

    /** `return_blocks`: the blocks join the free list in order. */
    method ReturnBlocks(list: seq<Address>)
      modifies this
      ensures Value() == old(Value()).(ba := old(Value()).ba.(free := old(free) + list))
    {
      for k := 0 to |list|
        invariant Value() == old(Value()).(ba := old(Value()).ba.(free := old(free) + list[..k]))
      {
        free := free + [list[k]];
        assert old(free) + list[..k + 1] == old(free) + list[..k] + [list[k]];
      }
      assert list[..|list|] == list;
    }
  }
}
