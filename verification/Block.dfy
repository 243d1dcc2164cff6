/** A block of the immix space (src/block.rs). The header lives in line 0; the line map records
    which lines hold objects marked by the last collection. */
module Block {
  import opened Constants
  import opened Lines
  import LineMap

  class ImmixBlock {
    const begin: int
    const lineMap: LineMap.LineMap
    var isAllocated: bool
    var holeCount: nat
    var evacuationCandidate: bool

    ghost predicate Valid() { lineMap.Valid() && begin % BLOCK_SIZE == 0 }

    /** The marked lines. */
    ghost function Marked(): set<nat>
      reads lineMap.words
    {
      lineMap.Lines()
    }

    constructor (begin: int)
      requires begin % BLOCK_SIZE == 0
      ensures Valid() && this.begin == begin && Marked() == {} && fresh(lineMap) && fresh(lineMap.words)
      ensures !isAllocated && holeCount == 0 && !evacuationCandidate
    {
      this.begin := begin;
      lineMap := new LineMap.LineMap();
      isAllocated, holeCount, evacuationCandidate := false, 0, false;
    }

    /** `get_block_ptr`: the block that holds `address`. */
    static function BlockPointer(address: int): (b: int)
      ensures b % BLOCK_SIZE == 0 && b <= address < b + BLOCK_SIZE
    {
      address - address % BLOCK_SIZE
    }

    method LineIsMarked(line: nat) returns (marked: bool)
      requires Valid() && line < LINES_PER_BLOCK
      ensures marked <==> line in Marked()
    {
      marked := lineMap.Test(begin + line * LINE_SIZE, begin);
    }

    /** Scans for the next hole past byte offset `lastHigh` of the block. */
    method ScanBlock(lastHigh: nat) returns (hole: Option<Hole>)
      requires Valid()
      ensures hole == Scan(Marked(), lastHigh)
      decreases BLOCK_SIZE - lastHigh
    {
      hide Scan, AlignUp;
      ghost var lines := Marked();
      var index := FindLine(lines, lastHigh / LINE_SIZE + 1, false);
      var lowIndex := if index < LINES_PER_BLOCK then index + 1 else LINES_PER_BLOCK - 1;
      var highIndex := FindLine(lines, lowIndex, true);
      ScanRound(lines, lastHigh, index, lowIndex, highIndex);
      if lowIndex == highIndex && highIndex != LINES_PER_BLOCK - 1 {
        hole := ScanBlock(highIndex * LINE_SIZE - 1);
      } else if lowIndex < LINES_PER_BLOCK - 1 {
        LineIsAligned(lowIndex);
        hole := Some(Hole(AlignUp(lowIndex * LINE_SIZE), highIndex * LINE_SIZE - 1));
      } else {
        hole := None;
      }
    }

    /** The two search loops of `scan_block`: the first line from `from` on whose mark is
        `wanted`, or 256 (or `from`, when that is larger already). */
    method FindLine(ghost lines: set<nat>, from: nat, wanted: bool) returns (index: nat)
      requires Valid() && lines == Marked()
      ensures from <= index && (from <= LINES_PER_BLOCK ==> index <= LINES_PER_BLOCK)
      ensures forall l :: from <= l < index && l < LINES_PER_BLOCK ==> (l in lines) != wanted
      ensures index < LINES_PER_BLOCK ==> (index in lines) == wanted
    {
      index := from;
      while index < LINES_PER_BLOCK
        invariant from <= index && (from <= LINES_PER_BLOCK ==> index <= LINES_PER_BLOCK)
        invariant forall l :: from <= l < index && l < LINES_PER_BLOCK ==> (l in lines) != wanted
      {
        var marked := LineIsMarked(index);
        if marked == wanted { break; }
        index := index + 1;
      }
    }

    method CountHoles() returns (holes: nat)
      requires Valid()
      modifies this`holeCount
      ensures holes == holeCount == HoleWeight(Marked(), 0)
    {
      ghost var lines := Marked();
      holes := 0;
      var inHole := false;
      for i := 0 to LINES_PER_BLOCK
        invariant inHole ==> i > 0
        invariant HoleWeight(lines, 0) == holes + Rest(lines, i, inHole)
      {
        var marked := LineIsMarked(i);
        RestStep(lines, i, inHole);
        if !inHole && !marked {
          holes := holes + 1;
          inHole := true;
        } else {
          inHole := false;
        }
      }
      holeCount := holes;
    }

    method IsEmpty() returns (empty: bool)
      requires Valid()
      ensures empty <==> Marked() == {}
    {
      for i := 0 to LINES_PER_BLOCK
        invariant forall l :: 0 <= l < i ==> l !in Marked()
      {
        var marked := LineIsMarked(i);
        if marked { return false; }
      }
      assert forall l :: l in Marked() ==> l < LINES_PER_BLOCK;
      empty := true;
    }

    /** Marks or clears the lines of an object of `size` bytes at `address`. An object that ends
        16 bytes below the end of its block never leads past line 255. */
    method ModifyLine(address: int, size: nat, mark: bool)
      requires Valid() && BlockPointer(address) == begin
      requires address + size < begin + BLOCK_SIZE
      modifies lineMap.words
      ensures var span := MarkSpan(address - begin, size);
              Marked() == if mark then old(Marked()) + span else old(Marked()) - span
    {
      var first := address % BLOCK_SIZE / LINE_SIZE;
      for line := first to first + size / LINE_SIZE + 1
        invariant forall l: nat :: l in Marked() <==>
                    if l < line && InMarkSpan(address - begin, size, l) then mark else l in old(Marked())
      {
        ModifyOneLine(line, mark);
      }
    }

    /** The body of the loop in `ModifyLine`. */
    method ModifyOneLine(line: nat, mark: bool)
      requires Valid() && line < LINES_PER_BLOCK
      modifies lineMap.words
      ensures Marked() == if mark then old(Marked()) + {line} else old(Marked()) - {line}
    {
      if mark {
        var _ := lineMap.Set(begin + line * LINE_SIZE, begin);
      } else {
        var _ := lineMap.Clear(begin + line * LINE_SIZE, begin);
      }
    }

    /** The hole count of the last `CountHoles`, and the number of marked lines. */
    method CountHolesAndMarkedLines() returns (holes: nat, count: nat)
      requires Valid()
      ensures holes == holeCount && count == |Marked()|
    {
      holes, count := holeCount, 0;
      ghost var seen: set<nat> := {};
      for line := 0 to LINES_PER_BLOCK
        invariant seen == set l | l in Marked() && l < line
        invariant count == |seen|
      {
        var marked := LineIsMarked(line);
        if marked {
          seen := seen + {line};
          count := count + 1;
        }
      }
      assert seen == Marked();
    }

    /** The hole count of the last `CountHoles`, and the number of unmarked lines. */
    method CountHolesAndAvailableLines() returns (holes: nat, count: nat)
      requires Valid()
      ensures holes == holeCount && count == LINES_PER_BLOCK - |Marked()|
    {
      holes, count := holeCount, 0;
      ghost var seen: set<nat> := {};
      for line := 0 to LINES_PER_BLOCK
        invariant seen == set l | l in Marked() && l < line
        invariant count == line - |seen|
      {
        var marked := LineIsMarked(line);
        if marked {
          seen := seen + {line};
        } else {
          count := count + 1;
        }
      }
      assert seen == Marked();
    }

    method Reset()
      requires Valid()
      modifies this, lineMap.words
      ensures Marked() == {} && !isAllocated && holeCount == 0 && !evacuationCandidate
    {
      lineMap.ClearAll();
      isAllocated, holeCount, evacuationCandidate := false, 0, false;
    }
  }
}
