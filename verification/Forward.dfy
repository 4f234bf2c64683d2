/**
 * Prefill and decode over the KV cache. Tensor arithmetic is a parameter (`Net`); what is modelled is
 * which rows are read, which are visible to attention, and which are written.
 */
module Forward {
  import opened CacheLayout
  import opened KvCache

  type Hidden = seq<real>
  type Logits = seq<real>

  /** The per-layer computations of the model, as functions of what they read. */
  datatype Net = Net(
    embed: int -> Hidden,
    keyRow: (nat, Hidden, nat) -> Row,                              // layer, hidden, position
    valueRow: (nat, Hidden) -> Row,                                 // layer, hidden
    attend: (nat, Hidden, nat, seq<Row>, seq<Row>) -> Hidden,       // ..., visible keys, visible values
    project: Hidden -> Logits)
  {
    ghost predicate Fits(shape: Shape) {
      && (forall l, h, p :: |keyRow(l, h, p)| == shape.rowLen)
      && (forall l, h :: |valueRow(l, h)| == shape.rowLen)
    }
  }

  datatype Outcome = Ok(logits: Logits) | ForwardError

  /** `token_id as i32` */
  function AsI32(token: nat): int {
    var r := token % 0x1_0000_0000;
    if r < 0x8000_0000 then r else r - 0x1_0000_0000
  }

  /** Adds `n` rows to every layer. */
  function Appended(c: Cache, n: nat, ks: seq<seq<Row>>, vs: seq<seq<Row>>): Cache
    requires |c.k| == |c.v| == |ks| == |vs|
  {
    Cache(
      c.head + n,
      seq(|c.k|, l requires 0 <= l < |c.k| => c.k[l] + ks[l]),
      seq(|c.v|, l requires 0 <= l < |c.v| => c.v[l] + vs[l]))
  }

  // ------------------------------------------------------------ decode, as a function

  /** Hidden state of the one new token when it enters layer `l`; `seen` is what attention sees. */
  function DecodeHidden(net: Net, seen: Cache, token: nat, pos: nat, l: nat): Hidden
    requires l <= |seen.k| == |seen.v|
  {
    if l == 0 then net.embed(AsI32(token))
    else net.attend(l - 1, DecodeHidden(net, seen, token, pos, l - 1), pos, seen.k[l - 1], seen.v[l - 1])
  }

  /** The key rows the token produces in the first `n` layers. */
  function DecodeKeys(net: Net, seen: Cache, token: nat, pos: nat, n: nat): (keys: seq<Row>)
    requires n <= |seen.k| == |seen.v|
    ensures |keys| == n
  {
    if n == 0 then []
    else DecodeKeys(net, seen, token, pos, n - 1)
         + [net.keyRow(n - 1, DecodeHidden(net, seen, token, pos, n - 1), pos)]
  }

  function DecodeValues(net: Net, seen: Cache, token: nat, pos: nat, n: nat): (values: seq<Row>)
    requires n <= |seen.k| == |seen.v|
    ensures |values| == n
  {
    if n == 0 then []
    else DecodeValues(net, seen, token, pos, n - 1)
         + [net.valueRow(n - 1, DecodeHidden(net, seen, token, pos, n - 1))]
  }

  /** One row per layer, as a batch of one. */
  function Singles(rows: seq<Row>): (batch: seq<seq<Row>>)
    ensures |batch| == |rows|
    ensures forall l: nat :: l < |rows| ==> batch[l] == [rows[l]]
  {
    seq(|rows|, l requires 0 <= l < |rows| => [rows[l]])
  }

  function DecodeLogits(net: Net, seen: Cache, token: nat, pos: nat): Logits
    requires |seen.k| == |seen.v|
  {
    net.project(DecodeHidden(net, seen, token, pos, |seen.k|))
  }

  /** The cache after decoding one token at position `c.head`. */
  function DecodedCache(net: Net, seen: Cache, c: Cache, token: nat): Cache
    requires |seen.k| == |seen.v| == |c.k| == |c.v|
  {
    Appended(c, 1,
      Singles(DecodeKeys(net, seen, token, c.head, |c.k|)), Singles(DecodeValues(net, seen, token, c.head, |c.k|)))
  }

  // ----------------------------------------------------------- prefill, as a function

  function KeyRows(net: Net, l: nat, hs: seq<Hidden>, pos: nat): seq<Row> {
    seq(|hs|, j requires 0 <= j < |hs| => net.keyRow(l, hs[j], pos + j))
  }

  function ValueRows(net: Net, l: nat, hs: seq<Hidden>): seq<Row> {
    seq(|hs|, j requires 0 <= j < |hs| => net.valueRow(l, hs[j]))
  }

  function Embedded(net: Net, tokens: seq<nat>): seq<Hidden> {
    seq(|tokens|, j requires 0 <= j < |tokens| => net.embed(AsI32(tokens[j])))
  }

  /** With no mask every query of the batch attends to all the rows given. */
  function AttendAll(net: Net, l: nat, hs: seq<Hidden>, pos: nat, ks: seq<Row>, vs: seq<Row>): seq<Hidden> {
    seq(|hs|, j requires 0 <= j < |hs| => net.attend(l, hs[j], pos + j, ks, vs))
  }

  /** Hidden states of the whole batch when it enters layer `l`. */
  function PrefillHidden(net: Net, c: Cache, tokens: seq<nat>, pos: nat, l: nat): (hs: seq<Hidden>)
    requires l <= |c.k| == |c.v|
    ensures |hs| == |tokens|
  {
    if l == 0 then Embedded(net, tokens)
    else
      var hs := PrefillHidden(net, c, tokens, pos, l - 1);
      AttendAll(net, l - 1, hs, pos,
        c.k[l - 1] + KeyRows(net, l - 1, hs, pos), c.v[l - 1] + ValueRows(net, l - 1, hs))
  }

  /** The batch's key rows in the first `n` layers. */
  function PrefillKeys(net: Net, c: Cache, tokens: seq<nat>, pos: nat, n: nat): (ks: seq<seq<Row>>)
    requires n <= |c.k| == |c.v|
    ensures |ks| == n
    ensures forall l: nat :: l < n ==> |ks[l]| == |tokens|
  {
    if n == 0 then []
    else PrefillKeys(net, c, tokens, pos, n - 1)
         + [KeyRows(net, n - 1, PrefillHidden(net, c, tokens, pos, n - 1), pos)]
  }

  function PrefillValues(net: Net, c: Cache, tokens: seq<nat>, pos: nat, n: nat): (vs: seq<seq<Row>>)
    requires n <= |c.k| == |c.v|
    ensures |vs| == n
    ensures forall l: nat :: l < n ==> |vs[l]| == |tokens|
  {
    if n == 0 then []
    else PrefillValues(net, c, tokens, pos, n - 1)
         + [ValueRows(net, n - 1, PrefillHidden(net, c, tokens, pos, n - 1))]
  }

  function PrefillLogits(net: Net, c: Cache, tokens: seq<nat>, pos: nat): Logits
    requires |c.k| == |c.v| && tokens != []
  {
    net.project(PrefillHidden(net, c, tokens, pos, |c.k|)[|tokens| - 1])
  }

  function PrefilledCache(net: Net, c: Cache, tokens: seq<nat>, pos: nat): Cache
    requires |c.k| == |c.v|
  {
    Appended(c, |tokens|, PrefillKeys(net, c, tokens, pos, |c.k|), PrefillValues(net, c, tokens, pos, |c.k|))
  }

  // ------------------------------------------------------------ the attention mask

  const MASKED: real := -10000.0

  predicate AllMasked(mask: seq<real>) { forall i: nat :: i < |mask| ==> mask[i] == MASKED }

  function Unmasked(mask: seq<real>, rows: seq<Row>): seq<Row>
    requires |mask| == |rows|
  {
    if mask == [] then []
    else (if mask[0] == MASKED then [] else [rows[0]]) + Unmasked(mask[1..], rows[1..])
  }

  /**
   * The rows softmax gives weight to. A uniform mask shifts every score alike and so hides nothing;
   * otherwise masked rows are taken to be excluded.
   */
  function SeenThrough(mask: seq<real>, rows: seq<Row>): seq<Row>
    requires |mask| == |rows|
  {
    if AllMasked(mask) then rows else Unmasked(mask, rows)
  }

  /** What `execute_decode` puts in the mask: the first `head` positions open, the rest masked. */
  ghost predicate PrefixMask(mask: seq<real>, head: nat) {
    head <= |mask| && forall i: nat :: i < |mask| ==> mask[i] == if i < head then 0.0 else MASKED
  }

  lemma {:induction false} PrefixMaskSelects(mask: seq<real>, rows: seq<Row>, head: nat)
    requires |mask| == |rows| && PrefixMask(mask, head)
    ensures Unmasked(mask, rows) == rows[..head]
  {
    if mask != [] {
      var less := if head == 0 then 0 else head - 1;
      PrefixMaskSelects(mask[1..], rows[1..], less);
      if head > 0 {
        assert rows[..head] == [rows[0]] + rows[1..][..less];
      }
    }
  }

  /** An open prefix hides everything above it, but an empty prefix hides nothing. */
  lemma SeenThroughPrefix(mask: seq<real>, rows: seq<Row>, head: nat)
    requires |mask| == |rows| && PrefixMask(mask, head)
    ensures SeenThrough(mask, rows) == if head >= 1 then rows[..head] else rows
  {
    PrefixMaskSelects(mask, rows, head);
    if head >= 1 {
      assert mask[0] == 0.0;
    }
  }

  /** The whole cache after rows were written from `start` on in the first layers. */
  function Overwritten(all: Cache, start: nat, ks: seq<seq<Row>>, vs: seq<seq<Row>>): Cache
    requires |ks| == |vs| <= |all.k| == |all.v|
    requires forall l: nat :: l < |ks| ==> start + |ks[l]| <= |all.k[l]| && start + |vs[l]| <= |all.v[l]|
  {
    all.(k := LayersWritten(all.k, start, ks), v := LayersWritten(all.v, start, vs))
  }

  lemma OverwrittenNext(all: Cache, start: nat, ks: seq<seq<Row>>, vs: seq<seq<Row>>, k: seq<Row>, v: seq<Row>)
    requires |ks| == |vs| < |all.k| == |all.v|
    requires forall l: nat :: l < |ks| ==> start + |ks[l]| <= |all.k[l]| && start + |vs[l]| <= |all.v[l]|
    requires start + |k| <= |all.k[|ks|]| && start + |v| <= |all.v[|vs|]|
    ensures var now := Overwritten(all, start, ks, vs);
            && now.k[|ks|] == all.k[|ks|] && now.v[|vs|] == all.v[|vs|]
            && now.(k := Written(now.k, |ks|, start, k), v := Written(now.v, |vs|, start, v))
               == Overwritten(all, start, ks + [k], vs + [v])
  {
    NextLayerWritten(all.k, start, ks, k);
    NextLayerWritten(all.v, start, vs, v);
  }

  lemma OverwrittenNone(all: Cache, start: nat)
    requires |all.k| == |all.v|
    ensures Overwritten(all, start, [], []) == all
  {
    assert LayersWritten(all.k, start, []) == all.k && LayersWritten(all.v, start, []) == all.v;
  }

  /** Writing right after the rows in use is appending: nothing before or in other layers moves. */
  lemma OverwrittenIsAppended(s: Shape, all: Cache, head: nat, n: nat, ks: seq<seq<Row>>, vs: seq<seq<Row>>)
    requires Full(s, all) && head + n <= s.nCtx && |ks| == |vs| == s.nLayers
    requires forall l: nat :: l < s.nLayers ==> |ks[l]| == |vs[l]| == n
    ensures Full(s, Overwritten(all, head, ks, vs))
    ensures Overwritten(all, head, ks, vs).Upto(head + n) == Appended(all.Upto(head), n, ks, vs)
  {
    var a, b := Overwritten(all, head, ks, vs).Upto(head + n), Appended(all.Upto(head), n, ks, vs);
    forall l: nat | l < s.nLayers ensures a.k[l] == b.k[l] && a.v[l] == b.v[l] {
    }
  }

  function DecodedAll(net: Net, seen: Cache, all: Cache, token: nat, pos: nat): Cache
    requires |seen.k| == |seen.v| == |all.k| == |all.v|
    requires forall l: nat :: l < |all.k| ==> pos < |all.k[l]| && pos < |all.v[l]|
  {
    Overwritten(all, pos,
      Singles(DecodeKeys(net, seen, token, pos, |all.k|)), Singles(DecodeValues(net, seen, token, pos, |all.k|)))
  }

  function PrefilledAll(net: Net, c: Cache, all: Cache, tokens: seq<nat>, pos: nat): Cache
    requires |c.k| == |c.v| == |all.k| == |all.v|
    requires forall l: nat :: l < |all.k| ==> c.head + |tokens| <= |all.k[l]| && c.head + |tokens| <= |all.v[l]|
  {
    Overwritten(all, c.head,
      PrefillKeys(net, c, tokens, pos, |c.k|), PrefillValues(net, c, tokens, pos, |c.k|))
  }

  // ------------------------------------------------------------------- the graph

  class LlamaGraph {
    const net: Net
    const kv: KVCache

    ghost predicate Valid()
      reads kv, kv.data
    {
      kv.Valid() && net.Fits(kv.shape)
    }

    constructor (net: Net, shape: Shape)
      requires net.Fits(shape)
      ensures Valid() && fresh(kv) && fresh(kv.data)
      ensures this.net == net && kv.shape == shape && kv.head == 0
    {
      this.net := net;
      kv := new KVCache(shape);
    }

    /** What decode's attention sees. */
    ghost function Seen(): (c: Cache)
      reads kv, kv.data
      requires Valid()
      ensures |c.k| == |c.v| == kv.shape.nLayers
    {
      if kv.head >= 1 then kv.Contents() else kv.all
    }

    /** One layer's rows as attention sees them. */
    method ReadThrough(mask: seq<real>, kind: Kind, layer: nat) returns (rows: seq<Row>)
      requires Valid() && layer < kv.shape.nLayers
      requires |mask| == kv.shape.nCtx && PrefixMask(mask, kv.head)
      ensures rows == match kind case K => Seen().k[layer] case V => Seen().v[layer]
    {
      var full := kv.GetRows(kind, layer, kv.shape.nCtx);
      SeenThroughPrefix(mask, full, kv.head);
      rows := SeenThrough(mask, full);
    }

    /** Running the persistent graph: it reads the whole cache through the mask and writes nothing. */
    method ComputeDecode(token: nat, mask: seq<real>) returns (hidden: Hidden, keys: seq<Row>, values: seq<Row>)
      requires Valid() && |mask| == kv.shape.nCtx && PrefixMask(mask, kv.head)
      ensures hidden == DecodeHidden(net, Seen(), token, kv.head, kv.shape.nLayers)
      ensures keys == DecodeKeys(net, Seen(), token, kv.head, kv.shape.nLayers)
      ensures values == DecodeValues(net, Seen(), token, kv.head, kv.shape.nLayers)
      ensures forall l: nat :: l < kv.shape.nLayers ==> |keys[l]| == |values[l]| == kv.shape.rowLen
    {
      var pos := kv.head;
      ghost var seen := Seen();
      hidden := net.embed(AsI32(token));
      keys, values := [], [];
      for layer := 0 to kv.shape.nLayers
        invariant hidden == DecodeHidden(net, seen, token, pos, layer)
        invariant keys == DecodeKeys(net, seen, token, pos, layer)
        invariant values == DecodeValues(net, seen, token, pos, layer)
        invariant forall l: nat :: l < layer ==> |keys[l]| == |values[l]| == kv.shape.rowLen
      {
        keys := keys + [net.keyRow(layer, hidden, pos)];
        values := values + [net.valueRow(layer, hidden)];
        var kSeen := ReadThrough(mask, K, layer);
        var vSeen := ReadThrough(mask, V, layer);
        hidden := net.attend(layer, hidden, pos, kSeen, vSeen);
      }
    }

    /** Writes the new token's rows into every layer at position `pos`. */
    method WriteBack(pos: nat, keys: seq<Row>, values: seq<Row>)
      requires Valid() && pos < kv.shape.nCtx && |keys| == |values| == kv.shape.nLayers
      requires forall l: nat :: l < kv.shape.nLayers ==> |keys[l]| == |values[l]| == kv.shape.rowLen
      modifies kv`all, kv.data
      ensures Valid()
      ensures kv.all == Overwritten(old(kv.all), pos, Singles(keys), Singles(values))
    {
      ghost var before, ks, vs := kv.all, Singles(keys), Singles(values);
      OverwrittenNone(before, pos);
      for layer := 0 to kv.shape.nLayers
        invariant Valid() && kv.all == Overwritten(before, pos, ks[..layer], vs[..layer])
      {
        OverwrittenNext(before, pos, ks[..layer], vs[..layer], ks[layer], vs[layer]);
        assert ks[..layer + 1] == ks[..layer] + [ks[layer]] && vs[..layer + 1] == vs[..layer] + [vs[layer]];
        kv.SetRow(K, layer, pos, keys[layer]);
        kv.SetRow(V, layer, pos, values[layer]);
      }
      assert ks[..kv.shape.nLayers] == ks && vs[..kv.shape.nLayers] == vs;
    }

    /** Everything a decode step does but move the head. */
    method DecodeRows(token: nat) returns (hidden: Hidden)
      requires Valid() && kv.head < kv.shape.nCtx
      modifies kv`all, kv.data
      ensures Valid()
      ensures hidden == DecodeHidden(net, old(Seen()), token, kv.head, kv.shape.nLayers)
      ensures kv.all == DecodedAll(net, old(Seen()), old(kv.all), token, kv.head)
    {
      var mask := BuildMask(kv.shape.nCtx, kv.head);
      var keys, values;
      hidden, keys, values := ComputeDecode(token, mask);
      WriteBack(kv.head, keys, values);
    }

    method ExecuteDecode(token: nat) returns (r: Outcome)
      requires Valid()
      modifies kv, kv.data
      ensures Valid()
      ensures old(kv.head) >= kv.shape.nCtx ==>
                r == ForwardError && kv.Contents() == old(kv.Contents()) && kv.all == old(kv.all)
      ensures old(kv.head) < kv.shape.nCtx ==>
                && r == Ok(DecodeLogits(net, old(Seen()), token, old(kv.head)))
                && kv.Contents() == DecodedCache(net, old(Seen()), old(kv.Contents()), token)
                && kv.all == DecodedAll(net, old(Seen()), old(kv.all), token, old(kv.head))
    {
      var pos := kv.head;
      if pos >= kv.shape.nCtx {
        return ForwardError;
      }
      ghost var before, seen := kv.all, Seen();
      var hidden := DecodeRows(token);
      OverwrittenIsAppended(kv.shape, before, pos, 1,
        Singles(DecodeKeys(net, seen, token, pos, kv.shape.nLayers)),
        Singles(DecodeValues(net, seen, token, pos, kv.shape.nLayers)));
      kv.head := if pos + 1 < kv.shape.nCtx then pos + 1 else kv.shape.nCtx;
      return Ok(net.project(hidden));
    }

    method BuildMask(nCtx: nat, head: nat) returns (m: seq<real>)
      requires head <= nCtx
      ensures |m| == nCtx && PrefixMask(m, head)
    {
      var mask := new real[nCtx](_ => MASKED);
      for i := 0 to head
        invariant forall j: nat :: j < nCtx ==> mask[j] == if j < i then 0.0 else MASKED
      {
        mask[i] := 0.0;
      }
      return mask[..];
    }

    /** One layer of a prefill: write the batch's rows, then attend over everything up to the new end. */
    method PrefillLayer(layer: nat, hidden: seq<Hidden>, pos: nat)
      returns (next: seq<Hidden>, kRows: seq<Row>, vRows: seq<Row>)
      requires Valid() && layer < kv.shape.nLayers && kv.head + |hidden| <= kv.shape.nCtx
      modifies kv`all, kv.data
      ensures Valid()
      ensures kRows == KeyRows(net, layer, hidden, pos) && vRows == ValueRows(net, layer, hidden)
      ensures kv.all == old(kv.all).(k := Written(old(kv.all).k, layer, kv.head, kRows),
                                     v := Written(old(kv.all).v, layer, kv.head, vRows))
      ensures next == AttendAll(net, layer, hidden, pos,
                        old(kv.all).k[layer][..kv.head] + kRows, old(kv.all).v[layer][..kv.head] + vRows)
    {
      var kvLen := kv.head + |hidden|;
      kRows, vRows := KeyRows(net, layer, hidden, pos), ValueRows(net, layer, hidden);
      assert forall j: nat :: j < |hidden| ==> |kRows[j]| == |vRows[j]| == kv.shape.rowLen;
      kv.SetRows(K, layer, kv.head, kRows);
      kv.SetRows(V, layer, kv.head, vRows);
      var kRead := kv.GetRows(K, layer, kvLen);
      var vRead := kv.GetRows(V, layer, kvLen);
      assert kRead == old(kv.all).k[layer][..kv.head] + kRows;
      assert vRead == old(kv.all).v[layer][..kv.head] + vRows;
      next := AttendAll(net, layer, hidden, pos, kRead, vRead);
    }

    /** The layer loop of `forward`. */
    method RunLayers(tokens: seq<nat>, pos: nat) returns (hidden: seq<Hidden>)
      requires Valid() && kv.head + |tokens| <= kv.shape.nCtx
      modifies kv`all, kv.data
      ensures Valid()
      ensures hidden == PrefillHidden(net, old(kv.Contents()), tokens, pos, kv.shape.nLayers)
      ensures kv.all == PrefilledAll(net, old(kv.Contents()), old(kv.all), tokens, pos)
    {
      ghost var all, before := kv.all, kv.Contents();
      OverwrittenNone(all, kv.head);
      hidden := Embedded(net, tokens);
      for layer := 0 to kv.shape.nLayers
        invariant Valid()
        invariant hidden == PrefillHidden(net, before, tokens, pos, layer)
        invariant kv.all == Overwritten(all, kv.head,
                              PrefillKeys(net, before, tokens, pos, layer),
                              PrefillValues(net, before, tokens, pos, layer))
      {
        hidden := NextLayer(tokens, pos, layer, hidden, before, all);
      }
    }

    /** A layer's rows land above what the cache held, leaving the layers still to come as they were. */
    method NextLayer(tokens: seq<nat>, pos: nat, layer: nat, hidden: seq<Hidden>, ghost before: Cache, ghost all: Cache)
      returns (next: seq<Hidden>)
      requires Valid() && layer < kv.shape.nLayers && kv.head + |tokens| <= kv.shape.nCtx
      requires Full(kv.shape, all) && before == all.Upto(kv.head)
      requires hidden == PrefillHidden(net, before, tokens, pos, layer)
      requires kv.all == Overwritten(all, kv.head,
                           PrefillKeys(net, before, tokens, pos, layer), PrefillValues(net, before, tokens, pos, layer))
      modifies kv`all, kv.data
      ensures Valid()
      ensures next == PrefillHidden(net, before, tokens, pos, layer + 1)
      ensures kv.all == Overwritten(all, kv.head,
                          PrefillKeys(net, before, tokens, pos, layer + 1),
                          PrefillValues(net, before, tokens, pos, layer + 1))
    {
      ghost var ks := PrefillKeys(net, before, tokens, pos, layer);
      ghost var vs := PrefillValues(net, before, tokens, pos, layer);
      OverwrittenNext(all, kv.head, ks, vs, KeyRows(net, layer, hidden, pos), ValueRows(net, layer, hidden));
      var kRows, vRows;
      next, kRows, vRows := PrefillLayer(layer, hidden, pos);
    }

    /** `forward` */
    method RunBatch(tokens: seq<nat>, pos: nat) returns (r: Outcome)
      requires Valid() && tokens != []
      modifies kv, kv.data
      ensures Valid()
      ensures old(kv.head) + |tokens| > kv.shape.nCtx ==>
                r == ForwardError && kv.Contents() == old(kv.Contents()) && kv.all == old(kv.all)
      ensures old(kv.head) + |tokens| <= kv.shape.nCtx ==>
                && r == Ok(PrefillLogits(net, old(kv.Contents()), tokens, pos))
                && kv.Contents() == PrefilledCache(net, old(kv.Contents()), tokens, pos)
                && kv.all == PrefilledAll(net, old(kv.Contents()), old(kv.all), tokens, pos)
    {
      var kvLen := kv.head + |tokens|;
      if kvLen > kv.shape.nCtx {
        return ForwardError;
      }
      ghost var all, before := kv.all, kv.Contents();
      var hidden := RunLayers(tokens, pos);
      OverwrittenIsAppended(kv.shape, all, before.head, |tokens|,
        PrefillKeys(net, before, tokens, pos, kv.shape.nLayers),
        PrefillValues(net, before, tokens, pos, kv.shape.nLayers));
      kv.head := if kvLen < kv.shape.nCtx then kvLen else kv.shape.nCtx;
      return Ok(net.project(hidden[|tokens| - 1]));
    }

    method ResetKv()
      requires Valid()
      modifies kv`head
      ensures Valid() && kv.head == 0
    {
      kv.Clear();
    }

    /** Positions of a prefill always start at 0, wherever the rows go. */
    method Prefill(tokens: seq<nat>) returns (r: Outcome)
      requires Valid()
      modifies kv, kv.data
      ensures Valid()
      ensures tokens == [] || old(kv.head) + |tokens| > kv.shape.nCtx ==>
                r == ForwardError && kv.Contents() == old(kv.Contents()) && kv.all == old(kv.all)
      ensures tokens != [] && old(kv.head) + |tokens| <= kv.shape.nCtx ==>
                && r == Ok(PrefillLogits(net, old(kv.Contents()), tokens, 0))
                && kv.Contents() == PrefilledCache(net, old(kv.Contents()), tokens, 0)
                && kv.all == PrefilledAll(net, old(kv.Contents()), old(kv.all), tokens, 0)
    {
      if tokens == [] {
        return ForwardError;
      }
      r := RunBatch(tokens, 0);
    }
  }
}
