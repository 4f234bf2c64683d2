/** Where each layer's key and value rows live in the one buffer behind the KV cache. */
module CacheLayout {

  datatype Kind = K | V

  /** `rowLen` is `n_head_kv * head_dim`, the number of f32 elements in a row. */
  datatype Shape = Shape(nLayers: nat, rowLen: nat, nCtx: nat)

  const F32_BYTES: nat := 4
  const SLACK_BYTES: nat := 1024

  function BytesPer(s: Shape): nat { s.rowLen * s.nCtx * F32_BYTES }

  function TotalBytes(s: Shape): nat { BytesPer(s) * s.nLayers * 2 + SLACK_BYTES }

  function RowStride(s: Shape): nat { s.rowLen * F32_BYTES }

  /** Keys come first, layer by layer, then values. */
  function RegionStart(s: Shape, kind: Kind, layer: nat): nat {
    match kind
    case K => layer * BytesPer(s)
    case V => s.nLayers * BytesPer(s) + layer * BytesPer(s)
  }

  /** Byte address of a row: both writers add `position * stride` to the region's start. */
  function RowStart(s: Shape, kind: Kind, layer: nat, pos: nat): nat {
    RegionStart(s, kind, layer) + pos * RowStride(s)
  }

  predicate InShape(s: Shape, layer: nat, pos: nat) { layer < s.nLayers && pos < s.nCtx }

  function Region(s: Shape, kind: Kind, layer: nat): nat {
    match kind case K => layer case V => s.nLayers + layer
  }

  /** Number of a row when all rows are counted in address order. */
  function Slot(s: Shape, kind: Kind, layer: nat, pos: nat): nat {
    Region(s, kind, layer) * s.nCtx + pos
  }

  lemma BlocksApart(i: nat, j: nat, size: nat)
    requires i < j
    ensures (i + 1) * size == i * size + size <= j * size
  {
    assert (j - i - 1) * size >= 0;
    assert (j - i - 1) * size == j * size - i * size - size;
  }

  lemma SlotInjective(s: Shape, k: Kind, l: nat, p: nat, k': Kind, l': nat, p': nat)
    requires InShape(s, l, p) && InShape(s, l', p')
    requires Slot(s, k, l, p) == Slot(s, k', l', p')
    ensures (k, l, p) == (k', l', p')
  {
    var r, r' := Region(s, k, l), Region(s, k', l');
    if r < r' { BlocksApart(r, r', s.nCtx); } else if r' < r { BlocksApart(r', r, s.nCtx); }
  }

  /** An address is the slot number times the stride. */
  lemma RowStartBySlot(s: Shape, kind: Kind, layer: nat, pos: nat)
    ensures RowStart(s, kind, layer, pos) == Slot(s, kind, layer, pos) * RowStride(s)
    ensures RegionStart(s, kind, layer) == Region(s, kind, layer) * BytesPer(s)
  {
    var r, n, st := Region(s, kind, layer), s.nCtx, RowStride(s);
    assert BytesPer(s) == n * st;
    assert RegionStart(s, kind, layer) == r * BytesPer(s);
    assert r * (n * st) == (r * n) * st;
    assert (r * n + pos) * st == (r * n) * st + pos * st;
  }

  /** The 2 * nLayers regions lie inside the allocation, one after another. */
  lemma RegionsFit(s: Shape, kind: Kind, layer: nat)
    requires layer < s.nLayers
    ensures RegionStart(s, kind, layer) + BytesPer(s) <= TotalBytes(s) - SLACK_BYTES
  {
    RowStartBySlot(s, kind, layer, 0);
    BlocksApart(Region(s, kind, layer), 2 * s.nLayers, BytesPer(s));
    assert 2 * s.nLayers * BytesPer(s) == BytesPer(s) * s.nLayers * 2;
  }

  lemma RegionsDisjoint(s: Shape, k: Kind, l: nat, k': Kind, l': nat)
    requires l < s.nLayers && l' < s.nLayers && (k, l) != (k', l')
    ensures RegionStart(s, k, l) + BytesPer(s) <= RegionStart(s, k', l')
            || RegionStart(s, k', l') + BytesPer(s) <= RegionStart(s, k, l)
  {
    RowStartBySlot(s, k, l, 0);
    RowStartBySlot(s, k', l', 0);
    var r, r' := Region(s, k, l), Region(s, k', l');
    if r < r' { BlocksApart(r, r', BytesPer(s)); } else { BlocksApart(r', r, BytesPer(s)); }
  }

  /** A row stays inside its own region. */
  lemma RowInRegion(s: Shape, kind: Kind, layer: nat, pos: nat)
    requires InShape(s, layer, pos)
    ensures RegionStart(s, kind, layer) <= RowStart(s, kind, layer, pos)
    ensures RowStart(s, kind, layer, pos) + RowStride(s) <= RegionStart(s, kind, layer) + BytesPer(s)
  {
    BlocksApart(pos, s.nCtx, RowStride(s));
    assert BytesPer(s) == s.nCtx * RowStride(s);
  }

  /** Different (kind, layer, position) triples own byte ranges that do not meet. */
  lemma RowsDisjoint(s: Shape, k: Kind, l: nat, p: nat, k': Kind, l': nat, p': nat)
    requires InShape(s, l, p) && InShape(s, l', p') && (k, l, p) != (k', l', p')
    ensures RowStart(s, k, l, p) + RowStride(s) <= RowStart(s, k', l', p')
            || RowStart(s, k', l', p') + RowStride(s) <= RowStart(s, k, l, p)
  {
    RowStartBySlot(s, k, l, p);
    RowStartBySlot(s, k', l', p');
    var i, j := Slot(s, k, l, p), Slot(s, k', l', p');
    if i == j {
      SlotInjective(s, k, l, p, k', l', p');
    } else if i < j {
      BlocksApart(i, j, RowStride(s));
    } else {
      BlocksApart(j, i, RowStride(s));
    }
  }
}
