/** The KV cache: one flat buffer of f32 elements and the number of rows in use. */
module KvCache {
  import opened CacheLayout

  type Row = seq<real>

  /** `head` rows of every layer, by layer and position. */
  datatype Cache = Cache(head: nat, k: seq<seq<Row>>, v: seq<seq<Row>>)
  {
    predicate Fits(shape: Shape) {
      && head <= shape.nCtx
      && |k| == |v| == shape.nLayers
      && forall l: nat :: l < shape.nLayers ==> |k[l]| == |v[l]| == head
    }

    /** The first `n` rows of every layer. */
    function Upto(n: nat): Cache
      requires |k| == |v| && forall l: nat :: l < |k| ==> n <= |k[l]| && n <= |v[l]|
    {
      Cache(n, seq(|k|, l requires 0 <= l < |k| => k[l][..n]), seq(|v|, l requires 0 <= l < |v| => v[l][..n]))
    }
  }

  /** `layers` with `rows` written from position `start` of one layer. */
  function Written(layers: seq<seq<Row>>, layer: nat, start: nat, rows: seq<Row>): seq<seq<Row>>
    requires layer < |layers| && start + |rows| <= |layers[layer]|
  {
    layers[layer := layers[layer][..start] + rows + layers[layer][start + |rows|..]]
  }

  /** `layers` with `rows[l]` written from position `start` of each of the first `|rows|` layers. */
  function LayersWritten(layers: seq<seq<Row>>, start: nat, rows: seq<seq<Row>>): (r: seq<seq<Row>>)
    requires |rows| <= |layers|
    requires forall l: nat :: l < |rows| ==> start + |rows[l]| <= |layers[l]|
    ensures |r| == |layers|
  {
    seq(|layers|, l requires 0 <= l < |layers| =>
      if l < |rows| then layers[l][..start] + rows[l] + layers[l][start + |rows[l]|..] else layers[l])
  }

  lemma NextLayerWritten(layers: seq<seq<Row>>, start: nat, rows: seq<seq<Row>>, next: seq<Row>)
    requires |rows| < |layers|
    requires forall l: nat :: l < |rows| ==> start + |rows[l]| <= |layers[l]|
    requires start + |next| <= |layers[|rows|]|
    ensures Written(LayersWritten(layers, start, rows), |rows|, start, next)
         == LayersWritten(layers, start, rows + [next])
  {
  }

  // ---------------------------------------------------- rows in the flat buffer

  /** First element of a row. */
  function ElementOf(s: Shape, kind: Kind, layer: nat, pos: nat): nat {
    Slot(s, kind, layer, pos) * s.rowLen
  }

  lemma ElementInBounds(s: Shape, kind: Kind, layer: nat, pos: nat, length: nat)
    requires InShape(s, layer, pos) && length * F32_BYTES == TotalBytes(s)
    ensures ElementOf(s, kind, layer, pos) * F32_BYTES == RowStart(s, kind, layer, pos)
    ensures ElementOf(s, kind, layer, pos) + s.rowLen <= length
  {
    RowStartBySlot(s, kind, layer, pos);
    RowInRegion(s, kind, layer, pos);
    RegionsFit(s, kind, layer);
    assert Slot(s, kind, layer, pos) * (s.rowLen * F32_BYTES) == Slot(s, kind, layer, pos) * s.rowLen * F32_BYTES;
  }

  lemma ElementsDisjoint(s: Shape, k: Kind, l: nat, p: nat, k': Kind, l': nat, p': nat)
    requires InShape(s, l, p) && InShape(s, l', p') && (k, l, p) != (k', l', p')
    ensures ElementOf(s, k, l, p) + s.rowLen <= ElementOf(s, k', l', p')
            || ElementOf(s, k', l', p') + s.rowLen <= ElementOf(s, k, l, p)
  {
    var i, j := Slot(s, k, l, p), Slot(s, k', l', p');
    if i == j {
      SlotInjective(s, k, l, p, k', l', p');
    } else if i < j {
      BlocksApart(i, j, s.rowLen);
    } else {
      BlocksApart(j, i, s.rowLen);
    }
  }

  /** `all` has every row the shape has room for. */
  predicate Full(s: Shape, all: Cache) { all.Fits(s) && all.head == s.nCtx }

  function RowOf(s: Shape, all: Cache, kind: Kind, layer: nat, pos: nat): Row
    requires Full(s, all) && InShape(s, layer, pos)
  {
    match kind case K => all.k[layer][pos] case V => all.v[layer][pos]
  }

  function WithRows(s: Shape, all: Cache, kind: Kind, layer: nat, start: nat, rows: seq<Row>): (c: Cache)
    requires Full(s, all) && layer < s.nLayers && start + |rows| <= s.nCtx
    ensures Full(s, c)
  {
    match kind
    case K => all.(k := Written(all.k, layer, start, rows))
    case V => all.(v := Written(all.v, layer, start, rows))
  }

  /** The buffer's elements for a row are that row. */
  predicate Stored(s: Shape, buf: seq<real>, all: Cache, kind: Kind, layer: nat, pos: nat)
    requires Full(s, all) && InShape(s, layer, pos)
  {
    var e := ElementOf(s, kind, layer, pos);
    e + s.rowLen <= |buf| && buf[e..e + s.rowLen] == RowOf(s, all, kind, layer, pos)
  }

  ghost predicate Backs(s: Shape, buf: seq<real>, all: Cache) {
    && |buf| * F32_BYTES == TotalBytes(s)
    && Full(s, all)
    && forall kind, layer: nat, pos: nat :: InShape(s, layer, pos) ==> Stored(s, buf, all, kind, layer, pos)
  }

  /** Overwriting one row's elements changes that row and no other. */
  lemma BacksAfterWrite(s: Shape, buf: seq<real>, all: Cache, kind: Kind, layer: nat, pos: nat, row: Row)
    requires Backs(s, buf, all) && InShape(s, layer, pos) && |row| == s.rowLen
    requires ElementOf(s, kind, layer, pos) + s.rowLen <= |buf|
    ensures var e := ElementOf(s, kind, layer, pos);
            Backs(s, buf[..e] + row + buf[e + s.rowLen..], WithRows(s, all, kind, layer, pos, [row]))
  {
    var e := ElementOf(s, kind, layer, pos);
    var buf', all' := buf[..e] + row + buf[e + s.rowLen..], WithRows(s, all, kind, layer, pos, [row]);
    forall k, l: nat, p: nat | InShape(s, l, p) ensures Stored(s, buf', all', k, l, p) {
      if (k, l, p) != (kind, layer, pos) {
        assert Stored(s, buf, all, k, l, p);
        ElementsDisjoint(s, k, l, p, kind, layer, pos);
        var f := ElementOf(s, k, l, p);
        assert buf'[f..f + s.rowLen] == buf[f..f + s.rowLen];
        WithRowsElsewhere(s, all, kind, layer, pos, row, k, l, p);
      }
    }
  }

  lemma WithRowsElsewhere(
    s: Shape, all: Cache, kind: Kind, layer: nat, pos: nat, row: Row, k: Kind, l: nat, p: nat)
    requires Full(s, all) && InShape(s, layer, pos) && InShape(s, l, p) && (k, l, p) != (kind, layer, pos)
    ensures RowOf(s, WithRows(s, all, kind, layer, pos, [row]), k, l, p) == RowOf(s, all, k, l, p)
  {
  }

  lemma WithNoRows(s: Shape, all: Cache, kind: Kind, layer: nat, start: nat)
    requires Full(s, all) && layer < s.nLayers && start <= s.nCtx
    ensures WithRows(s, all, kind, layer, start, []) == all
  {
    var layers := match kind case K => all.k case V => all.v;
    assert layers[layer][..start] + [] + layers[layer][start..] == layers[layer];
  }

  lemma WithNextRow(s: Shape, all: Cache, kind: Kind, layer: nat, start: nat, rows: seq<Row>, j: nat)
    requires Full(s, all) && layer < s.nLayers && start + |rows| <= s.nCtx && j < |rows|
    ensures WithRows(s, WithRows(s, all, kind, layer, start, rows[..j]), kind, layer, start + j, [rows[j]])
         == WithRows(s, all, kind, layer, start, rows[..j + 1])
  {
    var layers := match kind case K => all.k case V => all.v;
    var a := Written(Written(layers, layer, start, rows[..j]), layer, start + j, [rows[j]]);
    var b := Written(layers, layer, start, rows[..j + 1]);
    assert a[layer] == b[layer];
  }

  // ------------------------------------------------------------------ the cache

  class KVCache {
    const shape: Shape
    const data: array<real>
    var head: nat

    /** Every row of every layer, whether in use or not; the buffer holds exactly these. */
    ghost var all: Cache

    ghost predicate Valid()
      reads this, data
    {
      head <= shape.nCtx && Backs(shape, data[..], all)
    }

    /** What the cache holds. */
    ghost function Contents(): (c: Cache)
      reads this, data
      requires Valid()
      ensures c.Fits(shape)
    {
      all.Upto(head)
    }

    constructor (shape: Shape)
      ensures Valid() && fresh(data) && this.shape == shape && head == 0
      ensures forall kind, l: nat, p: nat :: InShape(shape, l, p) ==>
                RowOf(shape, all, kind, l, p) == seq(shape.rowLen, _ => 0.0)
    {
      this.shape := shape;
      head := 0;
      data := new real[TotalBytes(shape) / F32_BYTES](_ => 0.0);
      var layers := seq(shape.nLayers, _ => seq(shape.nCtx, _ => seq(shape.rowLen, _ => 0.0)));
      all := Cache(shape.nCtx, layers, layers);
      new;
      assert TotalBytes(shape) == (shape.rowLen * shape.nCtx * shape.nLayers * 2 + 256) * F32_BYTES;
      forall kind, layer: nat, pos: nat | InShape(shape, layer, pos)
        ensures Stored(shape, data[..], all, kind, layer, pos)
      {
        ElementInBounds(shape, kind, layer, pos, data.Length);
      }
    }

    /** `reset_kv`: rows stay where they are. */
    method Clear()
      requires Valid()
      modifies `head
      ensures Valid() && head == 0
    {
      head := 0;
    }

    method SetRow(kind: Kind, layer: nat, pos: nat, row: Row)
      requires Valid() && InShape(shape, layer, pos) && |row| == shape.rowLen
      modifies `all, data
      ensures Valid()
      ensures all == WithRows(shape, old(all), kind, layer, pos, [row])
    {
      var from := ElementOf(shape, kind, layer, pos);
      ElementInBounds(shape, kind, layer, pos, data.Length);
      BacksAfterWrite(shape, data[..], all, kind, layer, pos, row);
      for i := 0 to |row|
        invariant all == old(all)
        invariant data[..] == old(data[..from]) + row[..i] + old(data[from + i..])
      {
        data[from + i] := row[i];
      }
      all := WithRows(shape, all, kind, layer, pos, [row]);
      assert row[..|row|] == row;
    }

    /** Writes consecutive rows of one layer, as copying into a two-dimensional view does. */
    method SetRows(kind: Kind, layer: nat, start: nat, rows: seq<Row>)
      requires Valid() && layer < shape.nLayers && start + |rows| <= shape.nCtx
      requires forall j: nat :: j < |rows| ==> |rows[j]| == shape.rowLen
      modifies `all, data
      ensures Valid()
      ensures all == WithRows(shape, old(all), kind, layer, start, rows)
    {
      WithNoRows(shape, all, kind, layer, start);
      for j := 0 to |rows|
        invariant Valid()
        invariant all == WithRows(shape, old(all), kind, layer, start, rows[..j])
      {
        WithNextRow(shape, old(all), kind, layer, start, rows, j);
        SetRow(kind, layer, start + j, rows[j]);
      }
      assert rows[..|rows|] == rows;
    }

    method GetRows(kind: Kind, layer: nat, n: nat) returns (rows: seq<Row>)
      requires Valid() && layer < shape.nLayers && n <= shape.nCtx
      ensures rows == match kind case K => all.k[layer][..n] case V => all.v[layer][..n]
    {
      rows := [];
      for p := 0 to n
        invariant rows == match kind case K => all.k[layer][..p] case V => all.v[layer][..p]
      {
        assert Stored(shape, data[..], all, kind, layer, p);
        var from := ElementOf(shape, kind, layer, p);
        rows := rows + [data[from..from + shape.rowLen]];
      }
    }
  }
}
