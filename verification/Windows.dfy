/** The mapped file cut into windows of 500 MiB, the unit of prefetch and eviction. */
module Windows {
  import opened Bytes

  const WINDOW_BYTES: nat := 500 * 1024 * 1024

  /** `usize` arithmetic wraps in a release build. */
  const USIZE_MODULUS: nat := 0x1_0000_0000_0000_0000

  /** A byte range of the mapping. */
  datatype Range = Range(offset: nat, length: nat)
  {
    predicate Within(total: nat) { length > 0 && offset + length <= total }

    predicate Covers(b: nat) { offset <= b < offset + length }
  }

  function NumLayers(total: nat): nat { (total + WINDOW_BYTES - 1) / WINDOW_BYTES }

  /** The range `evict_layer` and `prefetch_layer` pass to the kernel, if they pass one. */
  function WindowAt(total: nat, idx: nat): Option<Range> {
    var offset := idx * WINDOW_BYTES % USIZE_MODULUS;
    if offset >= total then None
    else Some(Range(offset, if total - offset < WINDOW_BYTES then total - offset else WINDOW_BYTES))
  }

  /** Whatever the index, wrapped or not, the range lies inside the mapping. */
  lemma WindowInside(total: nat, idx: nat)
    ensures WindowAt(total, idx).Some? ==> WindowAt(total, idx).value.Within(total)
  {
  }

  /** The range is the one the index names exactly for indices below the number of windows. */
  lemma WindowExactly(total: nat, idx: nat)
    requires total <= USIZE_MODULUS
    ensures WindowAt(total, idx).Some? && WindowAt(total, idx).value.offset == idx * WINDOW_BYTES
            <==> idx < NumLayers(total)
  {
    if idx < NumLayers(total) {
      assert idx * WINDOW_BYTES < total;
    }
  }

  /** Beyond them the product can wrap: index 2^42 acts on window 0. */
  lemma WrappedIndex(total: nat)
    requires total > 0
    ensures WindowAt(total, 0x400_0000_0000) == WindowAt(total, 0) != None
  {
  }

  /** The windows partition the file: byte `b` is in window `b / WINDOW_BYTES` and in no other. */
  lemma WindowsPartition(total: nat, b: nat, idx: nat)
    requires b < total <= USIZE_MODULUS && idx < NumLayers(total)
    ensures WindowAt(total, idx).Some? && WindowAt(total, idx).value.Covers(b) <==> idx == b / WINDOW_BYTES
    ensures b / WINDOW_BYTES < NumLayers(total)
  {
    WindowExactly(total, idx);
  }
}
