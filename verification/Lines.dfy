/** Holes, line marks and hole counts of one block, as plain facts about its set of marked lines
    (src/block.rs). The imperative scanning code is proved against these in module `Block`. */
module Lines {
  import opened Constants

  /** Usable byte offsets of a hole inside its block: the first and the last one. */
  datatype Hole = Hole(low: nat, high: nat)

  /** A hole starts at line `i + 1`: the line before it is unmarked too, and is skipped. */
  predicate HoleAt(lines: set<nat>, i: nat) {
    i !in lines && i + 1 !in lines && i + 1 < LINES_PER_BLOCK - 1
  }

  /** The least `i >= from` with `HoleAt`. */
  function FirstHole(lines: set<nat>, from: nat): (r: Option<nat>)
    ensures r.Some? ==> from <= r.value && HoleAt(lines, r.value)
    decreases LINES_PER_BLOCK - from
  {
    if from + 1 >= LINES_PER_BLOCK - 1 then None
    else if HoleAt(lines, from) then Some(from)
    else FirstHole(lines, from + 1)
  }

  /** The first marked line from `p` on, or the end of the block. */
  function HoleEnd(lines: set<nat>, p: nat): (q: nat)
    requires p <= LINES_PER_BLOCK
    ensures p <= q <= LINES_PER_BLOCK
    ensures q < LINES_PER_BLOCK ==> q in lines
    decreases LINES_PER_BLOCK - p
  {
    if p == LINES_PER_BLOCK || p in lines then p else HoleEnd(lines, p + 1)
  }

  lemma {:induction false} HoleEndIsFirst(lines: set<nat>, p: nat)
    requires p <= LINES_PER_BLOCK
    ensures forall l :: p <= l < HoleEnd(lines, p) ==> l !in lines
    decreases LINES_PER_BLOCK - p
  {
    if p < LINES_PER_BLOCK && p !in lines { HoleEndIsFirst(lines, p + 1); }
  }

  /** What scanning past byte offset `last` finds. */
  function Scan(lines: set<nat>, last: nat): (r: Option<Hole>)
    ensures r.Some? ==> HoleShape(r.value) && last < r.value.low
  {
    match FirstHole(lines, last / LINE_SIZE + 1)
    case None => None
    case Some(i) => Some(Hole((i + 1) * LINE_SIZE, HoleEnd(lines, i + 1) * LINE_SIZE - 1))
  }

  /** Scanning returns the first hole: its first line is the least candidate past the start. */
  lemma {:induction false} FirstHoleIsLeast(lines: set<nat>, from: nat, i: nat)
    requires from <= i && HoleAt(lines, i)
    ensures FirstHole(lines, from).Some? && FirstHole(lines, from).value <= i
    decreases i - from
  {
    if !HoleAt(lines, from) { FirstHoleIsLeast(lines, from + 1, i); }
  }

  lemma {:induction false} FirstHoleSkips(lines: set<nat>, from: nat, next: nat)
    requires from <= next
    requires forall i: nat :: from <= i < next ==> !HoleAt(lines, i)
    ensures FirstHole(lines, from) == FirstHole(lines, next)
    decreases next - from
  {
    if from < next { FirstHoleSkips(lines, from + 1, next); }
  }

  /** How one round of `scan_block` continues once the first unmarked line `f` past the start is
      known: nothing left, a hole of one line to skip, or the hole found. */
  lemma ScanByFirstFree(lines: set<nat>, last: nat, f: nat)
    requires last / LINE_SIZE < f
    requires forall l :: last / LINE_SIZE < l < f && l < LINES_PER_BLOCK ==> l in lines
    requires f < LINES_PER_BLOCK ==> f !in lines
    ensures f + 1 >= LINES_PER_BLOCK - 1 ==> Scan(lines, last) == None
    ensures f + 1 < LINES_PER_BLOCK - 1 && f + 1 in lines ==>
              Scan(lines, last) == Scan(lines, (f + 1) * LINE_SIZE - 1)
    ensures f + 1 < LINES_PER_BLOCK - 1 && f + 1 !in lines ==>
              Scan(lines, last) == Some(Hole((f + 1) * LINE_SIZE, HoleEnd(lines, f + 1) * LINE_SIZE - 1))
  {
    FirstHoleSkips(lines, last / LINE_SIZE + 1, f);
    assert ((f + 1) * LINE_SIZE - 1) / LINE_SIZE + 1 == f + 1;
  }

  lemma {:induction false} HoleEndIs(lines: set<nat>, p: nat, q: nat)
    requires p <= q <= LINES_PER_BLOCK
    requires forall l :: p <= l < q ==> l !in lines
    requires q < LINES_PER_BLOCK ==> q in lines
    ensures HoleEnd(lines, p) == q
    decreases q - p
  {
    if p < q { HoleEndIs(lines, p + 1, q); }
  }

  /** The three outcomes of one round of `scan_block`, as the code tells them apart. */
  lemma ScanRound(lines: set<nat>, last: nat, f: nat, low: nat, high: nat)
    requires last / LINE_SIZE < f
    requires forall l :: last / LINE_SIZE < l < f && l < LINES_PER_BLOCK ==> l in lines
    requires f < LINES_PER_BLOCK ==> f !in lines
    requires low == if f < LINES_PER_BLOCK then f + 1 else LINES_PER_BLOCK - 1
    requires low <= high <= LINES_PER_BLOCK
    requires forall l :: low <= l < high ==> l !in lines
    requires high < LINES_PER_BLOCK ==> high in lines
    ensures low == high && high != LINES_PER_BLOCK - 1 ==>
              last < high * LINE_SIZE - 1 < BLOCK_SIZE && Scan(lines, last) == Scan(lines, high * LINE_SIZE - 1)
    ensures low < high && low < LINES_PER_BLOCK - 1 ==>
              Scan(lines, last) == Some(Hole(low * LINE_SIZE, high * LINE_SIZE - 1))
    ensures low >= LINES_PER_BLOCK - 1 ==> Scan(lines, last) == None
  {
    ScanByFirstFree(lines, last, f);
    if low < high { HoleEndIs(lines, low, high); }
  }

  /** Every hole is a positive number of whole lines, above the header line. */
  predicate HoleShape(h: Hole) {
    && h.low % LINE_SIZE == 0 && 2 * LINE_SIZE <= h.low
    && (h.high + 1) % LINE_SIZE == 0 && h.low + LINE_SIZE <= h.high + 1 <= BLOCK_SIZE
  }

  /** The lines from `i` up to `end` are unmarked, so that the lines after `i` make a hole. */
  predicate FreeRun(lines: set<nat>, i: nat, end: nat) {
    i + 1 < LINES_PER_BLOCK - 1 && end <= LINES_PER_BLOCK && forall l :: i <= l < end ==> l !in lines
  }

  /** From line `from` on there are unmarked lines in a row, of which those after the first hold more
      than `size` bytes. */
  ghost predicate RunFits(lines: set<nat>, from: nat, size: nat) {
    exists i: nat, end: nat :: from <= i && FreeRun(lines, i, end) && size < (end - (i + 1)) * LINE_SIZE
  }

  /** A run of unmarked lines lies in the first hole or after it. */
  lemma RunLiesIn(lines: set<nat>, last: nat, i: nat, end: nat)
    requires last / LINE_SIZE + 1 <= i && i + 1 < end && FreeRun(lines, i, end)
    ensures match Scan(lines, last)
            case None => false
            case Some(h) =>
              h.high / LINE_SIZE + 1 <= i || (h.low <= (i + 1) * LINE_SIZE && end * LINE_SIZE <= h.high + 1)
  {
    var from := last / LINE_SIZE + 1;
    assert HoleAt(lines, i);
    FirstHoleIsLeast(lines, from, i);
    var first := FirstHole(lines, from).value;
    var stop := HoleEnd(lines, first + 1);
    EndOfLine(stop);
    if i < stop { assert end <= stop; }
  }

  lemma EndOfLine(line: nat)
    requires line > 0
    ensures (line * LINE_SIZE - 1) / LINE_SIZE + 1 == line
  {}

  /** A hole is a run of unmarked lines after an unmarked line. */
  lemma HoleIsRun(lines: set<nat>, last: nat) returns (i: nat, end: nat)
    requires Scan(lines, last).Some?
    ensures last / LINE_SIZE + 1 <= i && FreeRun(lines, i, end)
    ensures var h := Scan(lines, last).value;
            h.low == (i + 1) * LINE_SIZE && h.high == end * LINE_SIZE - 1 && i + 1 <= h.high / LINE_SIZE + 1
  {
    i := FirstHole(lines, last / LINE_SIZE + 1).value;
    end := HoleEnd(lines, i + 1);
    HoleEndIsFirst(lines, i + 1);
    EndOfLine(end);
  }

  /** A long enough run is the first hole, or comes after it. */
  lemma RunInFirstHole(lines: set<nat>, last: nat, size: nat)
    ensures RunFits(lines, last / LINE_SIZE + 1, size) <==>
            match Scan(lines, last)
            case None => false
            case Some(h) => h.low + size <= h.high || RunFits(lines, h.high / LINE_SIZE + 1, size)
  {
    hide Scan, FreeRun;
    if i: nat, end: nat :| last / LINE_SIZE + 1 <= i && FreeRun(lines, i, end) && size < (end - (i + 1)) * LINE_SIZE {
      RunLiesIn(lines, last, i, end);
    }
    if Scan(lines, last).Some? {
      var i, end := HoleIsRun(lines, last);
    }
  }

  /** The lines that `modify_line` visits: the object's first line and `size / 128` more. */
  predicate InMarkSpan(offset: nat, size: nat, l: nat) {
    offset / LINE_SIZE <= l <= offset / LINE_SIZE + size / LINE_SIZE
  }

  function MarkSpan(offset: nat, size: nat): set<nat> {
    set l: nat | l <= offset / LINE_SIZE + size / LINE_SIZE && InMarkSpan(offset, size, l)
  }

  ghost predicate LineMarked(lines: set<nat>, offset: nat, size: nat) {
    forall l: nat :: InMarkSpan(offset, size, l) ==> l in lines
  }

  /** Marking misses the last line an object touches exactly when the object's start and its
      size, both taken past a line boundary, add up to more than a line. */
  lemma LastLineMissed(offset: nat, size: nat)
    requires size > 0
    ensures !InMarkSpan(offset, size, (offset + size - 1) / LINE_SIZE)
            <==> offset % LINE_SIZE + size % LINE_SIZE > LINE_SIZE
  {}

  /** No byte of a line-marked object lies in a hole that scanning returns, although the object's
      last line may be unmarked: the skipped line before the hole makes up for it. */
  lemma HoleIsClear(lines: set<nat>, last: nat, offset: nat, size: nat)
    requires Scan(lines, last).Some? && LineMarked(lines, offset, size)
    ensures var h := Scan(lines, last).value; offset + size <= h.low || h.high < offset
  {
    var h := Scan(lines, last).value;
    var i := FirstHole(lines, last / LINE_SIZE + 1).value;
    var first, end := offset / LINE_SIZE, offset / LINE_SIZE + size / LINE_SIZE;
    HoleEndIsFirst(lines, i + 1);
    assert InMarkSpan(offset, size, first);
    if first <= i {
      assert !InMarkSpan(offset, size, i);
    }
  }

  /** Half of each maximal unmarked run from line `i` on, rounded up, summed over the runs. */
  function HoleWeight(lines: set<nat>, i: nat): nat
    requires i <= LINES_PER_BLOCK
    decreases LINES_PER_BLOCK - i
  {
    if i == LINES_PER_BLOCK then 0
    else if i in lines then HoleWeight(lines, i + 1)
    else
      var end := HoleEnd(lines, i);
      (end - i + 1) / 2 + HoleWeight(lines, end)
  }

  /** Counting every other line of a run adds up to the same weight. */
  lemma EveryOtherLine(lines: set<nat>, i: nat)
    requires i < LINES_PER_BLOCK && i !in lines
    ensures HoleWeight(lines, i) == 1 + HoleWeight(lines,
              if i + 1 < LINES_PER_BLOCK && i + 1 !in lines then i + 2 else i + 1)
  {
    if i + 1 < LINES_PER_BLOCK && i + 1 !in lines {
      var end := HoleEnd(lines, i);
      assert end == HoleEnd(lines, i + 1) == HoleEnd(lines, i + 2);
      if end > i + 2 {
        assert HoleWeight(lines, i + 2) == (end - (i + 2) + 1) / 2 + HoleWeight(lines, end);
      }
      assert HoleWeight(lines, i) == (end - i + 1) / 2 + HoleWeight(lines, end);
    } else {
      assert HoleEnd(lines, i) == i + 1;
    }
  }

  /** The weight still to be counted at line `i`, inside or outside a counted hole. */
  function Rest(lines: set<nat>, i: nat, inHole: bool): nat
    requires i <= LINES_PER_BLOCK
  {
    HoleWeight(lines, if inHole && i < LINES_PER_BLOCK && i !in lines then i + 1 else i)
  }

  lemma RestStep(lines: set<nat>, i: nat, inHole: bool)
    requires i < LINES_PER_BLOCK
    ensures Rest(lines, i, inHole) == if !inHole && i !in lines then 1 + Rest(lines, i + 1, true)
                                      else Rest(lines, i + 1, false)
  {
    if !inHole && i !in lines { EveryOtherLine(lines, i); }
  }

  /** The weight is at most half of the lines, and zero only if every line is marked. */
  lemma {:induction false} HoleWeightBounds(lines: set<nat>, i: nat)
    requires i <= LINES_PER_BLOCK
    ensures HoleWeight(lines, i) <= (LINES_PER_BLOCK - i + 1) / 2
    ensures HoleWeight(lines, i) == 0 <==> forall l :: i <= l < LINES_PER_BLOCK ==> l in lines
    decreases LINES_PER_BLOCK - i
  {
    if i < LINES_PER_BLOCK {
      if i in lines {
        HoleWeightBounds(lines, i + 1);
      } else {
        var end := HoleEnd(lines, i);
        HoleWeightBounds(lines, if end < LINES_PER_BLOCK then end + 1 else end);
      }
    }
  }
}
