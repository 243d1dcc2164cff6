/** The hole histograms and the evacuation threshold (src/collector.rs:149-170, 241-248, 271-295). */
module Histogram {
  import opened Constants

  /** What one block adds to a histogram: its number of holes and a number of lines. */
  datatype Entry = Entry(holes: nat, lines: nat)

  type Histogram = map<nat, nat>

  function At(h: Histogram, holes: nat): nat { if holes in h then h[holes] else 0 }

  /** One update of the histogram: add to the bucket, or create it. */
  function Add(h: Histogram, e: Entry): Histogram { h[e.holes := At(h, e.holes) + e.lines] }

  function Build(entries: seq<Entry>): Histogram {
    if entries == [] then map[] else Add(Build(entries[..|entries| - 1]), entries[|entries| - 1])
  }

  /** The lines of the blocks with at most `t` holes, summed block by block. */
  function LinesUpTo(entries: seq<Entry>, t: int): nat {
    if entries == [] then 0 else
    var e := entries[|entries| - 1];
    LinesUpTo(entries[..|entries| - 1], t) + if e.holes <= t then e.lines else 0
  }

  /** The buckets 0 to `t`, summed bucket by bucket. */
  function BucketsUpTo(h: Histogram, t: int): nat
    decreases t + 1
  {
    if t < 0 then 0 else BucketsUpTo(h, t - 1) + At(h, t)
  }

  lemma {:induction false} AddToBuckets(h: Histogram, e: Entry, t: int)
    ensures BucketsUpTo(Add(h, e), t) == BucketsUpTo(h, t) + if e.holes <= t then e.lines else 0
    decreases t + 1
  {
    if t >= 0 { AddToBuckets(h, e, t - 1); }
  }

  /** Summing the buckets of a histogram is summing over the blocks directly. */
  lemma {:induction false} BucketsAreLines(entries: seq<Entry>, t: int)
    ensures BucketsUpTo(Build(entries), t) == LinesUpTo(entries, t)
  {
    if entries == [] {
      EmptyBuckets(t);
    } else {
      BucketsAreLines(entries[..|entries| - 1], t);
      AddToBuckets(Build(entries[..|entries| - 1]), entries[|entries| - 1], t);
    }
  }

  lemma {:induction false} EmptyBuckets(t: int)
    ensures BucketsUpTo(map[], t) == 0
    decreases t + 1
  {
    if t >= 0 { EmptyBuckets(t - 1); }
  }

  /** The lines left in the headroom after the holes of the blocks with at most `t` holes are used. */
  function LinesLeft(headroom: nat, free: seq<Entry>, t: int): nat {
    var all := headroom * (LINES_PER_BLOCK - 1);
    if LinesUpTo(free, t) <= all then all - LinesUpTo(free, t) else 0
  }

  /** At threshold `t` the headroom no longer exceeds what evacuation would have to copy. */
  predicate Enough(headroom: nat, free: seq<Entry>, marked: seq<Entry>, t: int) {
    LinesLeft(headroom, free, t) <= LinesUpTo(marked, t)
  }

  /** The least threshold from `t` on that is enough, or 256. */
  function LeastEnough(headroom: nat, free: seq<Entry>, marked: seq<Entry>, t: nat): (r: nat)
    requires t <= LINES_PER_BLOCK
    ensures t <= r <= LINES_PER_BLOCK
    ensures r < LINES_PER_BLOCK ==> Enough(headroom, free, marked, r)
    ensures forall s :: t <= s < r ==> !Enough(headroom, free, marked, s)
    decreases LINES_PER_BLOCK - t
  {
    if t == LINES_PER_BLOCK || Enough(headroom, free, marked, t) then t
    else LeastEnough(headroom, free, marked, t + 1)
  }

  /** The first loop of `establish_hole_threshhold`. */
  method BuildHistogram(entries: seq<Entry>) returns (histogram: Histogram)
    ensures histogram == Build(entries)
  {
    histogram := map[];
    for k := 0 to |entries|
      invariant histogram == Build(entries[..k])
    {
      var e := entries[k];
      assert entries[..k + 1][..k] == entries[..k];
      if e.holes in histogram {
        histogram := histogram[e.holes := histogram[e.holes] + e.lines];
      } else {
        histogram := histogram[e.holes := e.lines];
      }
    }
    assert entries[..|entries|] == entries;
  }

  /** `establish_hole_threshhold`: the running sums over the two histograms find the least
      threshold that is enough. */
  method EstablishHoleThreshold(headroom: nat, free: seq<Entry>, markHistogram: Histogram, ghost marked: seq<Entry>)
    returns (threshold: nat)
    requires markHistogram == Build(marked)
    ensures threshold == LeastEnough(headroom, free, marked, 0)
  {
    var available := BuildHistogram(free);
    hide Build, LinesUpTo;
    var required, left := 0, headroom * (LINES_PER_BLOCK - 1);
    SumsBelowZero(free, marked);
    for t := 0 to LINES_PER_BLOCK
      invariant required == LinesUpTo(marked, t - 1) && left == LinesLeft(headroom, free, t - 1)
      invariant LeastEnough(headroom, free, marked, 0) == LeastEnough(headroom, free, marked, t)
    {
      SumsStep(free, t);
      SumsStep(marked, t);
      required := required + At(markHistogram, t);
      left := if At(available, t) <= left then left - At(available, t) else 0;
      if left <= required { return t; }
    }
    threshold := LINES_PER_BLOCK;
  }

  lemma SumsBelowZero(free: seq<Entry>, marked: seq<Entry>)
    ensures LinesUpTo(free, -1) == 0 && LinesUpTo(marked, -1) == 0
  {
    BucketsAreLines(free, -1);
    BucketsAreLines(marked, -1);
  }

  lemma SumsStep(entries: seq<Entry>, t: nat)
    ensures LinesUpTo(entries, t) == LinesUpTo(entries, t - 1) + At(Build(entries), t)
  {
    BucketsAreLines(entries, t);
    BucketsAreLines(entries, t - 1);
  }

  /** Without headroom the threshold is 0, so an ordinary collection does not evacuate. */
  lemma NoHeadroomNoEvacuation(free: seq<Entry>, marked: seq<Entry>)
    ensures LeastEnough(0, free, marked, 0) == 0
  {}
}
