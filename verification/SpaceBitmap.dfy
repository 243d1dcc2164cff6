/** The object bitmap of the immix space, `SpaceBitmap<16>` (src/space_bitmap.rs): one bit per 16
    bytes of the mapped region, used to recognise object addresses met by conservative scanning. */
module SpaceBitmap {
  import opened BitWords

  const ALIGNMENT := 16
  const BYTES_PER_WORD := ALIGNMENT * WORD_BITS
  const PAGE_SIZE := 4096

  /** `offset_to_index`: the word that holds the bit of an offset. */
  function WordIndex(offset: nat): nat { offset / ALIGNMENT / WORD_BITS }

  /** The number of words that `compute_bitmap_size` asks for. */
  function BitmapWords(capacity: nat): nat {
    RoundUp(capacity, BYTES_PER_WORD) / BYTES_PER_WORD
  }

  /** `round_up` drops a word when the region needs an odd number of them: the map covers the
      region exactly when that number is even, which page-sized capacities guarantee. */
  lemma BitmapCovers(capacity: nat)
    ensures capacity <= BitmapWords(capacity) * BYTES_PER_WORD
            <==> (capacity + BYTES_PER_WORD - 1) / BYTES_PER_WORD % 2 == 0
    ensures capacity % PAGE_SIZE == 0 ==> BitmapWords(capacity) * BYTES_PER_WORD == capacity
  {
    var n := (capacity + BYTES_PER_WORD - 1) / BYTES_PER_WORD;
    if n % 2 == 1 {
      assert BitmapWords(capacity) == (capacity - 1) / BYTES_PER_WORD;
    } else {
      assert BitmapWords(capacity) == n;
    }
    if capacity % PAGE_SIZE == 0 {
      var pages := capacity / PAGE_SIZE;
      assert n == 4 * pages;
    }
  }

  /** `is_in_space` admits the address one past the region (src/block_allocator.rs:209); its bit
      lies in the word after the last one, and every address below it lies in the map. */
  lemma BoundIsPastTheMap(capacity: nat, offset: nat)
    requires capacity % PAGE_SIZE == 0 && offset <= capacity
    ensures WordIndex(offset) < BitmapWords(capacity) <==> offset < capacity
  {
    BitmapCovers(capacity);
    hide BitmapWords;
    assert offset / ALIGNMENT / WORD_BITS == offset / BYTES_PER_WORD;
  }

  class SpaceBitmap {
    const heapBegin: int
    const heapLimit: int
    const words: array<Word>

    ghost predicate Valid() {
      heapBegin <= heapLimit <= heapBegin + ALIGNMENT * WORD_BITS * words.Length
    }

    /** The units whose bit is set; unit `k` starts at `heapBegin + 16 * k`. */
    ghost function Units(): set<nat>
      reads words
    {
      BitsOf(words[..])
    }

    /** The unit that holds `address`. */
    function Unit(address: int): (k: nat)
      requires heapBegin <= address
      ensures heapBegin + k * ALIGNMENT <= address < heapBegin + (k + 1) * ALIGNMENT
    {
      (address - heapBegin) / ALIGNMENT
    }

    predicate InHeap(address: int) { heapBegin <= address < heapLimit }

    /** The capacity is a multiple of the page size, so the map covers the whole region. */
    constructor (heapBegin: int, capacity: nat)
      requires capacity % PAGE_SIZE == 0
      ensures Valid() && Units() == {} && Addresses() == {} && fresh(words)
      ensures words.Length * BYTES_PER_WORD == capacity
      ensures this.heapBegin == heapBegin && heapLimit == heapBegin + capacity
    {
      this.heapBegin, this.heapLimit := heapBegin, heapBegin + capacity;
      words := new Word[BitmapWords(capacity)](i => Zero());
      new;
      BitmapCovers(capacity);
    }

    method Test(address: int) returns (marked: bool)
      requires Valid() && InHeap(address)
      ensures marked <==> Unit(address) in Units()
    {
      var offset := address - heapBegin;
      var index, bit := offset / ALIGNMENT / WORD_BITS, offset / ALIGNMENT % WORD_BITS;
      marked := And(words[index], Mask(bit)) != Zero();
      TestMask(words[index], bit);
    }

    /** Sets or clears one bit and returns its old value. */
    method Modify(setBit: bool, address: int) returns (was: bool)
      requires Valid() && InHeap(address)
      modifies words
      ensures was <==> Unit(address) in old(Units())
      ensures Units() == if setBit then old(Units()) + {Unit(address)} else old(Units()) - {Unit(address)}
    {
      var offset := address - heapBegin;
      var index, mask := offset / ALIGNMENT / WORD_BITS, Mask(offset / ALIGNMENT % WORD_BITS);
      var oldWord := words[index];
      TestMask(oldWord, offset / ALIGNMENT % WORD_BITS);
      OrBit(words[..], Unit(address));
      ClearBit(words[..], Unit(address));
      ghost var before := words[..];
      if setBit {
        if And(oldWord, mask) == Zero() {
          words[index] := Or(oldWord, mask);
          assert words[..] == before[index := Or(oldWord, mask)];
        }
      } else {
        words[index] := And(oldWord, Not(mask));
        assert words[..] == before[index := And(oldWord, Not(mask))];
      }
      was := And(oldWord, mask) != Zero();
    }

    /** `write_bytes` over whole words. */
    method ZeroWords(start: nat, end: nat)
      requires start <= end <= words.Length
      modifies words
      ensures Units() == old(Units()) - Between(WORD_BITS * start, WORD_BITS * end)
    {
      for i := start to end
        invariant Units() == old(Units()) - Between(WORD_BITS * start, WORD_BITS * i)
      {
        ghost var before := words[..];
        words[i] := Zero();
        assert words[..] == before[i := Zero()];
        ZeroOneWord(before, i);
      }
    }

    /** The first loop of `ClearRange`: single bits up to a word boundary. */
    method ClearHead(first: nat, limit: nat) returns (beginOffset: nat)
      requires Valid() && first <= limit && heapBegin + limit <= heapLimit
      requires first % ALIGNMENT == 0 && limit % ALIGNMENT == 0
      modifies words
      ensures first <= beginOffset <= limit && beginOffset % ALIGNMENT == 0
      ensures beginOffset == limit || beginOffset / ALIGNMENT % WORD_BITS == 0
      ensures Units() == old(Units()) - Between(first / ALIGNMENT, beginOffset / ALIGNMENT)
    {
      hide Units, Between;
      EmptyRange(first / ALIGNMENT);
      beginOffset := first;
      while beginOffset < limit && beginOffset / ALIGNMENT % WORD_BITS != 0
        invariant first <= beginOffset <= limit && beginOffset % ALIGNMENT == 0
        invariant Units() == old(Units()) - Between(first / ALIGNMENT, beginOffset / ALIGNMENT)
      {
        var _ := Modify(false, heapBegin + beginOffset);
        GrowUp(first / ALIGNMENT, beginOffset / ALIGNMENT);
        beginOffset := beginOffset + ALIGNMENT;
      }
    }

    /** The second loop of `ClearRange`: single bits down to a word boundary. */
    method ClearTail(first: nat, limit: nat) returns (endOffset: nat)
      requires Valid() && first <= limit && heapBegin + limit <= heapLimit
      requires first % ALIGNMENT == 0 && limit % ALIGNMENT == 0
      modifies words
      ensures first <= endOffset <= limit && endOffset % ALIGNMENT == 0
      ensures endOffset == first || endOffset / ALIGNMENT % WORD_BITS == 0
      ensures Units() == old(Units()) - Between(endOffset / ALIGNMENT, limit / ALIGNMENT)
    {
      hide Units, Between;
      EmptyRange(limit / ALIGNMENT);
      endOffset := limit;
      while first < endOffset && endOffset / ALIGNMENT % WORD_BITS != 0
        invariant first <= endOffset <= limit && endOffset % ALIGNMENT == 0
        invariant Units() == old(Units()) - Between(endOffset / ALIGNMENT, limit / ALIGNMENT)
      {
        endOffset := endOffset - ALIGNMENT;
        var _ := Modify(false, heapBegin + endOffset);
        GrowDown(endOffset / ALIGNMENT, limit / ALIGNMENT);
      }
    }

    /** Clears exactly the units of [begin, end): single bits up to a word boundary at either
        end, whole words between them. */
    method ClearRange(begin: int, end: int)
      requires Valid() && heapBegin <= begin <= end <= heapLimit
      requires (begin - heapBegin) % ALIGNMENT == 0 && (end - heapBegin) % ALIGNMENT == 0
      modifies words
      ensures Units() == old(Units()) - Between(Unit(begin), Unit(end))
    {
      var beginOffset := ClearHead(begin - heapBegin, end - heapBegin);
      var endOffset := ClearTail(beginOffset, end - heapBegin);
      ZeroWords(beginOffset / ALIGNMENT / WORD_BITS, endOffset / ALIGNMENT / WORD_BITS);
      JoinRanges(old(Units()), Unit(begin), beginOffset / ALIGNMENT, endOffset / ALIGNMENT, Unit(end));
    }

    /** The addresses of the set units below unit `n`, in increasing order. */
    ghost function Listed(n: nat): seq<int>
      reads words
    {
      if n == 0 then [] else
      Listed(n - 1) + if n - 1 in Units() then [heapBegin + (n - 1) * ALIGNMENT] else []
    }

    lemma {:induction false} ListedSkips(n: nat, m: nat)
      requires n <= m
      requires forall k :: n <= k < m ==> k !in Units()
      ensures Listed(m) == Listed(n)
    {
      if n < m { ListedSkips(n, m - 1); }
    }

    lemma {:induction false} ListedBelow(n: nat)
      ensures forall i :: 0 <= i < |Listed(n)| ==> heapBegin <= Listed(n)[i] < heapBegin + n * ALIGNMENT
    {
      if n > 0 { ListedBelow(n - 1); }
    }

    /** `Listed` is strictly increasing. */
    lemma {:induction false} ListedIncreases(n: nat, i: nat, j: nat)
      requires i < j < |Listed(n)|
      ensures Listed(n)[i] < Listed(n)[j]
    {
      if j < |Listed(n - 1)| {
        ListedIncreases(n - 1, i, j);
      } else {
        ListedBelow(n - 1);
      }
    }

    /** `Listed` holds exactly the start addresses of the set units below `n`. */
    lemma {:induction false} ListedExactly(n: nat, k: nat)
      ensures heapBegin + k * ALIGNMENT in Listed(n) <==> k < n && k in Units()
    {
      if n > 0 { ListedExactly(n - 1, k); }
    }

    /** Visits the set units of the region in increasing address order, each once. */
    method Walk() returns (visited: seq<int>)
      requires Valid() && heapBegin < heapLimit
      ensures visited == Listed((Unit(heapLimit - 1) / WORD_BITS + 1) * WORD_BITS)
    {
      visited := [];
      var end := (heapLimit - heapBegin - 1) / ALIGNMENT / WORD_BITS;
      for i := 0 to end + 1
        invariant visited == Listed(WORD_BITS * i)
      {
        visited := WalkWord(i, visited);
      }
    }

    /** The inner loop of `Walk`: one word, lowest set bit first. */
    method WalkWord(i: nat, before: seq<int>) returns (visited: seq<int>)
      requires i < words.Length && before == Listed(WORD_BITS * i)
      ensures visited == Listed(WORD_BITS * (i + 1))
    {
      hide Listed, Xor, Mask;
      visited := before;
      var w := words[i];
      var base := i * ALIGNMENT * WORD_BITS + heapBegin;
      ghost var next := 0;
      assert w == From(words[i], 0);
      while w != Zero()
        invariant 0 <= next <= WORD_BITS && w == From(words[i], next)
        invariant visited == Listed(WORD_BITS * i + next)
        decreases WORD_BITS - next
      {
        FlipLowest(words[i], next);
        var shift := TrailingZeros(w);
        ListedStep(i, next, shift);
        visited := visited + [base + shift * ALIGNMENT];
        w := Xor(w, Mask(shift));
        next := shift + 1;
      }
      ListedTail(i, next);
    }

    lemma BitNumbers(i: nat)
      requires i < words.Length
      ensures forall k :: WORD_BITS * i <= k < WORD_BITS * (i + 1) ==>
                (k in Units() <==> words[i][k - WORD_BITS * i])
    {}

    lemma ListedStep(i: nat, next: nat, shift: nat)
      requires i < words.Length && next <= shift < WORD_BITS && words[i][shift]
      requires forall j :: next <= j < shift ==> !words[i][j]
      ensures Listed(WORD_BITS * i + shift + 1)
              == Listed(WORD_BITS * i + next) + [i * ALIGNMENT * WORD_BITS + heapBegin + shift * ALIGNMENT]
    {
      BitNumbers(i);
      ListedSkips(WORD_BITS * i + next, WORD_BITS * i + shift);
    }

    lemma ListedTail(i: nat, next: nat)
      requires i < words.Length && next <= WORD_BITS && From(words[i], next) == Zero()
      ensures Listed(WORD_BITS * (i + 1)) == Listed(WORD_BITS * i + next)
    {
      assert forall b :: next <= b < WORD_BITS ==> words[i][b] == From(words[i], next)[b];
      BitNumbers(i);
      ListedSkips(WORD_BITS * i + next, WORD_BITS * i + WORD_BITS);
    }

    // The same map as a set of addresses.

    /** The addresses whose bit is set. */
    ghost function Addresses(): set<int>
      reads words
    {
      set k | k in Units() :: heapBegin + k * ALIGNMENT
    }

    predicate Aligned(address: int) { (address - heapBegin) % ALIGNMENT == 0 }

    lemma InAddresses(address: int)
      requires heapBegin <= address && Aligned(address)
      ensures address in Addresses() <==> Unit(address) in Units()
    {
      if Unit(address) in Units() {
        assert address == heapBegin + Unit(address) * ALIGNMENT;
      }
    }

    /** `set_gc_object`. */
    method SetObject(address: int)
      requires Valid() && InHeap(address) && Aligned(address)
      modifies words
      ensures Addresses() == old(Addresses()) + {address}
    {
      ghost var before, units := Addresses(), Units();
      var _ := Modify(true, address);
      forall a ensures a in Addresses() <==> a in before || a == address {
        if a in before {
          var k :| k in units && a == heapBegin + k * ALIGNMENT;
          assert k in Units();
        }
        if a == address { assert Unit(address) in Units() && address == heapBegin + Unit(address) * ALIGNMENT; }
      }
    }

    /** Clears the addresses of one block. */
    method ClearObjects(begin: int, end: int)
      requires Valid() && heapBegin <= begin <= end <= heapLimit && Aligned(begin) && Aligned(end)
      modifies words
      ensures Addresses() == set a | a in old(Addresses()) && !(begin <= a < end)
    {
      ghost var before, units := Addresses(), Units();
      ClearRange(begin, end);
      forall a ensures a in Addresses() <==> a in before && !(begin <= a < end) {
        if a in before && !(begin <= a < end) {
          var k :| k in units && a == heapBegin + k * ALIGNMENT;
          assert k in Units();
        }
      }
    }
  }
}
