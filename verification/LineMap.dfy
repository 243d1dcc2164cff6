/** The line map of a block (src/util/bitmap_const.rs instantiated by src/block.rs:5): one bit per
    128-byte line of a 32 KiB block. */
module LineMap {
  import opened BitWords
  import opened Constants

  const BYTES_PER_WORD := LINE_SIZE * WORD_BITS

  class LineMap {
    const words: array<Word>

    ghost predicate Valid() { words.Length == LINES_PER_BLOCK / WORD_BITS }

    /** The marked lines. */
    ghost function Lines(): set<nat>
      reads words
    {
      BitsOf(words[..])
    }

    constructor ()
      ensures Valid() && Lines() == {} && fresh(words)
    {
      words := new Word[RoundUp(BLOCK_SIZE, BYTES_PER_WORD) / BYTES_PER_WORD](i => Zero());
    }

    method ClearAll()
      requires Valid()
      modifies words
      ensures Lines() == {}
    {
      for i := 0 to words.Length
        invariant forall j :: 0 <= j < i ==> words[j] == Zero()
      {
        words[i] := Zero();
      }
    }

    method Test(address: int, begin: int) returns (marked: bool)
      requires Valid() && begin <= address < begin + BLOCK_SIZE
      ensures marked <==> (address - begin) / LINE_SIZE in Lines()
    {
      var offset := address - begin;
      var index, bit := offset / LINE_SIZE / WORD_BITS, offset / LINE_SIZE % WORD_BITS;
      marked := And(words[index], Mask(bit)) != Zero();
      TestMask(words[index], bit);
    }

    /** Marks a line and tells whether it was unmarked. */
    method Set(address: int, begin: int) returns (changed: bool)
      requires Valid() && begin <= address < begin + BLOCK_SIZE
      modifies words
      ensures Lines() == old(Lines()) + {(address - begin) / LINE_SIZE}
      ensures changed <==> (address - begin) / LINE_SIZE !in old(Lines())
    {
      var offset := address - begin;
      var index, bit := offset / LINE_SIZE / WORD_BITS, offset / LINE_SIZE % WORD_BITS;
      ghost var before := words[..];
      TestMask(words[index], bit);
      OrBit(before, offset / LINE_SIZE);
      changed := And(words[index], Mask(bit)) == Zero();
      if changed {
        words[index] := Or(words[index], Mask(bit));
        assert words[..] == before[index := Or(before[index], Mask(bit))];
      }
    }

    /** Unmarks a line and tells whether it was marked. */
    method Clear(address: int, begin: int) returns (changed: bool)
      requires Valid() && begin <= address < begin + BLOCK_SIZE
      modifies words
      ensures Lines() == old(Lines()) - {(address - begin) / LINE_SIZE}
      ensures changed <==> (address - begin) / LINE_SIZE in old(Lines())
    {
      var offset := address - begin;
      var index, bit := offset / LINE_SIZE / WORD_BITS, offset / LINE_SIZE % WORD_BITS;
      ghost var before := words[..];
      TestMask(words[index], bit);
      ClearBit(before, offset / LINE_SIZE);
      changed := And(words[index], Mask(bit)) != Zero();
      if changed {
        words[index] := And(words[index], Not(Mask(bit)));
        assert words[..] == before[index := And(before[index], Not(Mask(bit)))];
      }
    }
  }
}
