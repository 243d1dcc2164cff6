/** The sizes of src/constants.rs, and the alignment helper of src/object.rs. */
module Constants {
  const BLOCK_SIZE := 32 * 1024
  const LINE_SIZE := 128
  const LINES_PER_BLOCK := BLOCK_SIZE / LINE_SIZE
  const MEDIUM_OBJECT := LINE_SIZE
  const LARGE_OBJECT := 8 * 1024
  const EVAC_HEADROOM := 5

  /** Offsets of object starts are multiples of this. */
  const GRANULE := 16

  /** `size_of::<ImmixBlock>()`: a 32-byte line map, two flags and a counter, 8-aligned. */
  const BLOCK_HEADER_SIZE := 48

  datatype Option<+T> = None | Some(value: T)

  /** `align_usize(value, 16)`. */
  function AlignUp(value: nat): (r: nat)
    ensures value <= r < value + GRANULE && r % GRANULE == 0
  {
    (value + GRANULE - 1) / GRANULE * GRANULE
  }

  lemma AlignedAlready(value: nat)
    requires value % GRANULE == 0
    ensures AlignUp(value) == value
  {
    var m := value / GRANULE;
    assert (m * GRANULE + GRANULE - 1) / GRANULE == m;
  }

  /** Line boundaries are aligned already. */
  lemma LineIsAligned(line: nat)
    ensures AlignUp(line * LINE_SIZE) == line * LINE_SIZE
  {
    var m := 8 * line;
    assert (m * GRANULE + GRANULE - 1) / GRANULE == m;
  }

  /** `immix_alloc_safe` requests `heap_size()` bytes, while the first RTTI macro reports
      `heap_size() + 8` as the object's size (src/lib.rs:579, src/object.rs:46). After alignment the
      two agree exactly for these value sizes; for the others the object outgrows its memory. */
  lemma RequestedSizeIsReportedSize(heapSize: nat)
    ensures AlignUp(heapSize) == AlignUp(heapSize + 8) <==> 1 <= heapSize % GRANULE <= 8
  {}
}
