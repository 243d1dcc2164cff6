/** Sequences of machine words read as sets of bit numbers.

    Both bitmaps of the collector (src/space_bitmap.rs and src/util/bitmap_const.rs) keep one
    bit per unit of heap in an array of `usize` words. A word is its 64 bits, lowest first, and
    the bitwise operators act bit by bit. Bit number `k` of an array is bit `k % 64` of word
    `k / 64`. The lemmas here turn word and mask operations into set operations. */
module BitWords {

  const WORD_BITS := 64

  type Word = w: seq<bool> | |w| == WORD_BITS witness seq(WORD_BITS, i => false)

  function Zero(): Word { seq(WORD_BITS, i => false) }

  /** The word `1 << i`. */
  function Mask(i: nat): Word
    requires i < WORD_BITS
  {
    seq(WORD_BITS, j => j == i)
  }

  function And(v: Word, w: Word): Word {
    seq(WORD_BITS, i requires 0 <= i < WORD_BITS => v[i] && w[i])
  }

  function Or(v: Word, w: Word): Word {
    seq(WORD_BITS, i requires 0 <= i < WORD_BITS => v[i] || w[i])
  }

  function Xor(v: Word, w: Word): Word {
    seq(WORD_BITS, i requires 0 <= i < WORD_BITS => v[i] != w[i])
  }

  function Not(w: Word): Word {
    seq(WORD_BITS, i requires 0 <= i < WORD_BITS => !w[i])
  }

  /** `x & !n` for a power of two `n`: one bit of `x` is cleared. */
  function RoundDown(x: nat, n: nat): nat
    requires n > 0
  {
    if x / n % 2 == 1 then x - n else x
  }

  /** `round_up` as the code has it (src/util.rs:317-323). */
  function RoundUp(x: nat, n: nat): nat
    requires n > 0
  {
    RoundDown(x + n - 1, n)
  }

  /** `trailing_zeros`, searched from bit `from`: the lowest set bit, or 64. */
  function TrailingZeros(w: Word, from: nat := 0): (i: nat)
    requires from <= WORD_BITS
    ensures from <= i <= WORD_BITS
    ensures i < WORD_BITS ==> w[i]
    ensures forall j :: from <= j < i ==> !w[j]
    decreases WORD_BITS - from
  {
    if from == WORD_BITS || w[from] then from else TrailingZeros(w, from + 1)
  }

  /** The bit numbers that are set in `ws`. */
  ghost function BitsOf(ws: seq<Word>): set<nat> {
    set k: nat | k < WORD_BITS * |ws| && ws[k / WORD_BITS][k % WORD_BITS]
  }

  predicate Within(lo: nat, k: nat, hi: nat) { lo <= k < hi }

  /** The bit numbers `lo` up to but not including `hi`. */
  ghost function Between(lo: nat, hi: nat): set<nat> {
    set k: nat | k < hi && Within(lo, k, hi)
  }

  lemma EmptyRange(lo: nat)
    ensures Between(lo, lo) == {}
  {}

  lemma GrowUp(lo: nat, hi: nat)
    requires lo <= hi
    ensures Between(lo, hi + 1) == Between(lo, hi) + {hi}
  {}

  lemma GrowDown(lo: nat, hi: nat)
    requires lo < hi
    ensures Between(lo, hi) == {lo} + Between(lo + 1, hi)
  {}

  lemma TestMask(w: Word, i: nat)
    requires i < WORD_BITS
    ensures And(w, Mask(i)) != Zero() <==> w[i]
  {
    assert And(w, Mask(i))[i] == w[i];
    if !w[i] {
      assert And(w, Mask(i)) == Zero();
    }
  }

  /** A word is zero exactly when no bit is set. */
  lemma ZeroWord(w: Word)
    ensures w == Zero() <==> TrailingZeros(w) == WORD_BITS
  {
    if TrailingZeros(w) == WORD_BITS {
      assert w == Zero();
    }
  }

  lemma OrBit(ws: seq<Word>, k: nat)
    requires k < WORD_BITS * |ws|
    ensures BitsOf(ws[k / WORD_BITS := Or(ws[k / WORD_BITS], Mask(k % WORD_BITS))]) == BitsOf(ws) + {k}
  {}

  lemma ClearBit(ws: seq<Word>, k: nat)
    requires k < WORD_BITS * |ws|
    ensures BitsOf(ws[k / WORD_BITS := And(ws[k / WORD_BITS], Not(Mask(k % WORD_BITS)))]) == BitsOf(ws) - {k}
  {}

  lemma ZeroOneWord(ws: seq<Word>, i: nat)
    requires i < |ws|
    ensures BitsOf(ws[i := Zero()]) == BitsOf(ws) - Between(WORD_BITS * i, WORD_BITS * (i + 1))
  {}

  lemma JoinRanges(s: set<nat>, a: nat, b: nat, c: nat, d: nat)
    requires a <= b <= c <= d
    ensures s - Between(a, b) - Between(c, d) - Between(b, c) == s - Between(a, d)
  {}

  /** The bits of `w` from bit `n` up. */
  function From(w: Word, n: nat): Word {
    seq(WORD_BITS, i requires 0 <= i < WORD_BITS => n <= i && w[i])
  }

  /** One round of the visiting loop: the lowest set bit is found and flipped off. */
  lemma FlipLowest(w: Word, n: nat)
    requires n <= WORD_BITS && From(w, n) != Zero()
    ensures var b := TrailingZeros(From(w, n));
            && n <= b < WORD_BITS && w[b] && (forall j :: n <= j < b ==> !w[j])
            && Xor(From(w, n), Mask(b)) == From(w, b + 1)
  {
    var f := From(w, n);
    ZeroWord(f);
    var b := TrailingZeros(f);
    assert f[b];
    assert forall j :: n <= j < b ==> !f[j] && f[j] == w[j];
    assert Xor(f, Mask(b)) == From(w, b + 1);
  }
}
