/** The object header word (src/object.rs): a pointer whose three low bits are tags, kept in a
    `TaggedPointer` (src/util.rs). Bit 0 is the mark, bit 1 says forwarded, bit 2 says pinned. */
module Header {

  /** What a header word says. The pointer is the type information of an ordinary object and
      the address of the copy of a forwarded one. */
  datatype Header<P> = Header(pointer: P, mark: bool, forwarded: bool, pinned: bool) {

    /** `set_forwarded` overwrites the whole word, the mark and the pin included. */
    function Forward(target: P): Header<P> { Header(target, false, true, false) }
  }

  /** `RawGc::new`: no tag set. */
  function Fresh<P>(pointer: P): Header<P> { Header(pointer, false, false, false) }

  const UNTAG_MASK: bv64 := 0xFFFF_FFFF_FFFF_FFF8

  function Tag(on: bool, bit: bv64): bv64 { if on then bit else 0 }

  /** The header word for the contents `h`; pointers are 8-aligned. */
  function Encode(h: Header<bv64>): bv64 {
    h.pointer | Tag(h.mark, 1) | Tag(h.forwarded, 2) | Tag(h.pinned, 4)
  }

  predicate Aligned(pointer: bv64) { pointer & !UNTAG_MASK == 0 }

  // The word operations of `TaggedPointer`, for the word `1 << bit`.

  predicate BitIsSet(raw: bv64, bit: bv64) { raw & bit == bit }

  function WithBit(raw: bv64, bit: bv64): bv64 { raw | bit }

  function WithoutBit(raw: bv64, bit: bv64): bv64 { raw & !bit }

  function SetBitTo(raw: bv64, on: bool, bit: bv64): bv64 { (raw & !bit) | Tag(on, bit) }

  function Decode(raw: bv64): Header<bv64> {
    Header(raw & UNTAG_MASK, BitIsSet(raw, 1), BitIsSet(raw, 2), BitIsSet(raw, 4))
  }

  /** The tags never disturb the pointer, nor each other. */
  lemma DecodeEncode(h: Header<bv64>)
    requires Aligned(h.pointer)
    ensures Decode(Encode(h)) == h
  {}

  lemma EncodeDecode(raw: bv64)
    ensures Encode(Decode(raw)) == raw && Aligned(Decode(raw).pointer)
  {}

  lemma MarkDecodes(raw: bv64, mark: bool)
    ensures Decode(SetBitTo(raw, mark, 1)) == Decode(raw).(mark := mark)
  {}

  lemma PinDecodes(raw: bv64)
    ensures Decode(WithBit(raw, 4)) == Decode(raw).(pinned := true)
  {}

  lemma UnpinDecodes(raw: bv64)
    ensures Decode(WithoutBit(raw, 4)) == Decode(raw).(pinned := false)
  {}

  class RawGc {
    var raw: bv64

    ghost function Contents(): Header<bv64>
      reads this
    {
      Decode(raw)
    }

    constructor (pointer: bv64)
      requires Aligned(pointer)
      ensures Contents() == Fresh(pointer)
    {
      raw := pointer;
    }

    /** Sets the mark bit to `mark` and tells whether it already had that value. */
    method Mark(mark: bool) returns (already: bool)
      modifies this
      ensures Contents() == old(Contents()).(mark := mark)
      ensures already <==> old(Contents()).mark == mark
    {
      var prev := BitIsSet(raw, 1);
      MarkDecodes(raw, mark);
      raw := SetBitTo(raw, mark, 1);
      already := prev == mark;
    }

    method GetMark() returns (mark: bool)
      ensures mark == Contents().mark
    {
      mark := BitIsSet(raw, 1);
    }

    method Pin()
      modifies this
      ensures Contents() == old(Contents()).(pinned := true)
    {
      PinDecodes(raw);
      raw := WithBit(raw, 4);
    }

    method Unpin()
      modifies this
      ensures Contents() == old(Contents()).(pinned := false)
    {
      UnpinDecodes(raw);
      raw := WithoutBit(raw, 4);
    }

    method IsPinned() returns (pinned: bool)
      ensures pinned == Contents().pinned
    {
      pinned := BitIsSet(raw, 4);
    }

    method IsForwarded() returns (forwarded: bool)
      ensures forwarded == Contents().forwarded
    {
      forwarded := BitIsSet(raw, 2);
    }

    method SetForwarded(target: bv64)
      requires Aligned(target)
      modifies this
      ensures Contents() == old(Contents()).Forward(target)
    {
      raw := target;
      raw := WithBit(raw, 2);
    }

    /** `vtable()`: the pointer without its tags. */
    method Pointer() returns (pointer: bv64)
      ensures pointer == Contents().pointer && Aligned(pointer)
    {
      pointer := raw & UNTAG_MASK;
    }
  }
}
