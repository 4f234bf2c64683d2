/** What the rows in use are: the log of tokens appended since the last reset, and all it determines. */
module TokenLog {
  import opened CacheLayout
  import opened KvCache
  import opened Forward
  import opened CacheRuns

  /** A token, the position it was given, and how many of the cache's first rows its attention saw. */
  datatype Entry = Entry(token: nat, pos: nat, visible: nat)

  /** A prefill numbers its tokens from 0, and each of them sees every row up to the batch's end. */
  function Batch(tokens: seq<nat>, end: nat): (log: seq<Entry>)
    ensures |log| == |tokens|
  {
    seq(|tokens|, j requires 0 <= j < |tokens| => Entry(tokens[j], j, end))
  }

  /** A decode sees the rows before its own. */
  function LogAfter(s: Shape, log: seq<Entry>, op: Op): seq<Entry> {
    match op
    case Reset => []
    case Feed(tokens) => if |log| + |tokens| > s.nCtx then log else log + Batch(tokens, |log| + |tokens|)
    case Next(token) => if |log| >= s.nCtx then log else log + [Entry(token, |log|, |log|)]
  }

  function LogOf(s: Shape, log: seq<Entry>, ops: seq<Op>): seq<Entry>
    decreases |ops|
  {
    if ops == [] then log else LogOf(s, LogAfter(s, log, ops[0]), ops[1..])
  }

  // ------------------------------------------------------- rows explained by a log

  /** One row per log entry and layer, in the cache and among the hidden states `h[layer][p]`. */
  predicate Shaped(c: Cache, log: seq<Entry>, h: seq<seq<Hidden>>) {
    && |log| == c.head && |h| == |c.k| == |c.v|
    && (forall l: nat :: l < |h| ==> |h[l]| == |c.k[l]| == |c.v[l]| == c.head)
    && (forall p: nat :: p < |log| ==> log[p].visible <= c.head)
  }

  /** The state with which entry `p` enters layer `l`: its embedding, or attention over what it saw. */
  function StateOf(net: Net, c: Cache, log: seq<Entry>, h: seq<seq<Hidden>>, l: nat, p: nat): Hidden
    requires Shaped(c, log, h) && l < |h| && p < |log|
  {
    var e := log[p];
    if l == 0 then net.embed(AsI32(e.token))
    else net.attend(l - 1, h[l - 1][p], e.pos, c.k[l - 1][..e.visible], c.v[l - 1][..e.visible])
  }

  predicate RowExplained(net: Net, c: Cache, log: seq<Entry>, h: seq<seq<Hidden>>, l: nat, p: nat)
    requires Shaped(c, log, h) && l < |h| && p < |log|
  {
    && h[l][p] == StateOf(net, c, log, h, l, p)
    && c.k[l][p] == net.keyRow(l, h[l][p], log[p].pos)
    && c.v[l][p] == net.valueRow(l, h[l][p])
  }

  ghost predicate Explains(net: Net, c: Cache, log: seq<Entry>, h: seq<seq<Hidden>>) {
    && Shaped(c, log, h)
    && forall l: nat, p: nat :: l < |h| && p < |log| ==> RowExplained(net, c, log, h, l, p)
  }

  /** Row `p` of every layer is what the model makes of log entry `p` and of the rows that entry saw. */
  ghost predicate Accounted(net: Net, c: Cache, log: seq<Entry>) {
    exists h :: Explains(net, c, log, h)
  }

  lemma EmptyAccounted(net: Net, s: Shape)
    ensures Accounted(net, Empty(s), [])
  {
    assert Explains(net, Empty(s), [], seq(s.nLayers, _ => []));
  }

  /** A log leaves no freedom: caches of as many layers with the same log are the same cache. */
  lemma LogDeterminesCache(net: Net, a: Cache, b: Cache, log: seq<Entry>)
    requires Accounted(net, a, log) && Accounted(net, b, log) && |a.k| == |b.k|
    ensures a == b
  {
    var ha :| Explains(net, a, log, ha);
    var hb :| Explains(net, b, log, hb);
    LogDeterminesAll(net, a, b, log, ha, hb);
  }

  lemma LogDeterminesAll(net: Net, a: Cache, b: Cache, log: seq<Entry>, ha: seq<seq<Hidden>>, hb: seq<seq<Hidden>>)
    requires Explains(net, a, log, ha) && Explains(net, b, log, hb) && |a.k| == |b.k|
    ensures a == b && ha == hb
  {
    SameLayers(net, a, b, log, ha, hb, |a.k|);
    assert a.k == b.k && a.v == b.v;
  }

  lemma {:induction false} SameLayers(
    net: Net, a: Cache, b: Cache, log: seq<Entry>, ha: seq<seq<Hidden>>, hb: seq<seq<Hidden>>, n: nat)
    requires Explains(net, a, log, ha) && Explains(net, b, log, hb) && n <= |a.k| == |b.k|
    ensures forall l: nat :: l < n ==> ha[l] == hb[l] && a.k[l] == b.k[l] && a.v[l] == b.v[l]
  {
    if n > 0 {
      SameLayers(net, a, b, log, ha, hb, n - 1);
      var top := n - 1;
      forall p: nat | p < |log|
        ensures ha[top][p] == hb[top][p] && a.k[top][p] == b.k[top][p] && a.v[top][p] == b.v[top][p]
      {
        assert RowExplained(net, a, log, ha, top, p) && RowExplained(net, b, log, hb, top, p);
      }
    }
  }

  /** No entry sees rows past the log's end. */
  predicate Sighted(log: seq<Entry>) { forall p: nat :: p < |log| ==> log[p].visible <= |log| }

  /** And every such log has a cache. */
  lemma CacheOfLog(net: Net, s: Shape, log: seq<Entry>) returns (c: Cache, h: seq<seq<Hidden>>)
    requires |log| <= s.nCtx && Sighted(log)
    ensures c.Fits(s) && Explains(net, c, log, h)
  {
    c, h := LayersOfLog(net, log, s.nLayers);
  }

  lemma {:induction false} LayersOfLog(net: Net, log: seq<Entry>, n: nat) returns (c: Cache, h: seq<seq<Hidden>>)
    requires Sighted(log)
    ensures |c.k| == n && c.head == |log| && Explains(net, c, log, h)
  {
    if n == 0 {
      c, h := Cache(|log|, [], []), [];
    } else {
      var below, hs := LayersOfLog(net, log, n - 1);
      c, h := LayerOnTop(net, log, below, hs);
    }
  }

  lemma LayerOnTop(net: Net, log: seq<Entry>, below: Cache, hs: seq<seq<Hidden>>)
    returns (c: Cache, h: seq<seq<Hidden>>)
    requires Explains(net, below, log, hs)
    ensures |c.k| == |below.k| + 1 && c.head == |log| && Explains(net, c, log, h)
  {
    var top := |hs|;
    var states: seq<Hidden> := seq(|log|, p requires 0 <= p < |log| => StateAbove(net, below, log, hs, p));
    var ks: seq<Row> := seq(|log|, p requires 0 <= p < |log| => net.keyRow(top, states[p], log[p].pos));
    var vs: seq<Row> := seq(|log|, p requires 0 <= p < |log| => net.valueRow(top, states[p]));
    c, h := Cache(|log|, below.k + [ks], below.v + [vs]), hs + [states];
    forall l: nat, p: nat | l < |h| && p < |log| ensures RowExplained(net, c, log, h, l, p) {
      if l < top {
        assert RowExplained(net, below, log, hs, l, p);
      }
    }
  }

  /** The state with which entry `p` enters the layer above those of `c`. */
  function StateAbove(net: Net, c: Cache, log: seq<Entry>, h: seq<seq<Hidden>>, p: nat): Hidden
    requires Shaped(c, log, h) && p < |log|
  {
    var e, l := log[p], |h|;
    if l == 0 then net.embed(AsI32(e.token))
    else net.attend(l - 1, h[l - 1][p], e.pos, c.k[l - 1][..e.visible], c.v[l - 1][..e.visible])
  }

  // ---------------------------------------------------------------- growing the log

  predicate Extends(c: Cache, h: seq<seq<Hidden>>, c': Cache, h': seq<seq<Hidden>>)
    requires |h| == |c.k| == |c.v| && |h'| == |c'.k| == |c'.v|
  {
    |h| == |h'| && forall l: nat :: l < |h| ==> c.k[l] <= c'.k[l] && c.v[l] <= c'.v[l] && h[l] <= h'[l]
  }

  /** Rows added at the end leave the earlier ones explained, because none of them saw the new rows. */
  lemma StillExplained(
    net: Net, c: Cache, log: seq<Entry>, h: seq<seq<Hidden>>, c': Cache, log': seq<Entry>, h': seq<seq<Hidden>>,
    l: nat, p: nat)
    requires Explains(net, c, log, h) && Shaped(c', log', h') && Extends(c, h, c', h') && log <= log'
    requires l < |h| && p < |log|
    ensures RowExplained(net, c', log', h', l, p)
  {
    assert RowExplained(net, c, log, h, l, p);
    if l > 0 {
      var n := log[p].visible;
      assert c'.k[l - 1][..n] == c.k[l - 1][..n] && c'.v[l - 1][..n] == c.v[l - 1][..n];
    }
  }

  lemma Grown(
    net: Net, c: Cache, log: seq<Entry>, h: seq<seq<Hidden>>, c': Cache, log': seq<Entry>, h': seq<seq<Hidden>>)
    requires Explains(net, c, log, h) && Shaped(c', log', h') && Extends(c, h, c', h') && log <= log'
    requires forall l: nat, p: nat :: l < |h| && |log| <= p < |log'| ==> RowExplained(net, c', log', h', l, p)
    ensures Explains(net, c', log', h')
  {
    forall l: nat, p: nat | l < |h'| && p < |log'| ensures RowExplained(net, c', log', h', l, p) {
      if p < |log| {
        StillExplained(net, c, log, h, c', log', h', l, p);
      }
    }
  }

  lemma {:induction false} DecodeKeysAt(net: Net, seen: Cache, token: nat, pos: nat, n: nat, l: nat)
    requires l < n <= |seen.k| == |seen.v|
    ensures DecodeKeys(net, seen, token, pos, n)[l] == net.keyRow(l, DecodeHidden(net, seen, token, pos, l), pos)
    ensures DecodeValues(net, seen, token, pos, n)[l] == net.valueRow(l, DecodeHidden(net, seen, token, pos, l))
  {
    if l < n - 1 {
      DecodeKeysAt(net, seen, token, pos, n - 1, l);
    }
  }

  lemma {:induction false} PrefillKeysAt(net: Net, c: Cache, tokens: seq<nat>, pos: nat, n: nat, l: nat)
    requires l < n <= |c.k| == |c.v|
    ensures PrefillKeys(net, c, tokens, pos, n)[l] == KeyRows(net, l, PrefillHidden(net, c, tokens, pos, l), pos)
    ensures PrefillValues(net, c, tokens, pos, n)[l] == ValueRows(net, l, PrefillHidden(net, c, tokens, pos, l))
  {
    if l < n - 1 {
      PrefillKeysAt(net, c, tokens, pos, n - 1, l);
    }
  }

  /** Layer `l` of the cache and of the hidden states after a prefill, in terms of those before. */
  predicate FedLayer(net: Net, c: Cache, h: seq<seq<Hidden>>, tokens: seq<nat>, c': Cache, h': seq<seq<Hidden>>, l: nat)
    requires l < |h| == |h'| == |c.k| == |c.v| == |c'.k| == |c'.v|
  {
    var hs := PrefillHidden(net, c, tokens, 0, l);
    && c'.k[l] == c.k[l] + KeyRows(net, l, hs, 0)
    && c'.v[l] == c.v[l] + ValueRows(net, l, hs)
    && h'[l] == h[l] + hs
  }

  /** A row of one layer, taken past the old rows. */
  lemma FedAt(net: Net, l: nat, ks: seq<Row>, vs: seq<Row>, h: seq<Hidden>, hs: seq<Hidden>, j: nat)
    requires |ks| == |vs| == |h| && j < |hs|
    ensures (h + hs)[|h| + j] == hs[j]
    ensures (ks + KeyRows(net, l, hs, 0))[|h| + j] == net.keyRow(l, hs[j], j)
    ensures (vs + ValueRows(net, l, hs))[|h| + j] == net.valueRow(l, hs[j])
  {
    assert (ks + KeyRows(net, l, hs, 0))[|h| + j] == KeyRows(net, l, hs, 0)[j];
    assert (vs + ValueRows(net, l, hs))[|h| + j] == ValueRows(net, l, hs)[j];
  }

  lemma FedRow(
    net: Net, c: Cache, log: seq<Entry>, h: seq<seq<Hidden>>, tokens: seq<nat>,
    c': Cache, log': seq<Entry>, h': seq<seq<Hidden>>, l: nat, j: nat)
    requires Shaped(c, log, h) && Shaped(c', log', h') && l < |h| == |h'| && j < |tokens|
    requires forall i: nat :: i < |h| ==> FedLayer(net, c, h, tokens, c', h', i)
    requires c'.head == c.head + |tokens| && log'[c.head + j] == Entry(tokens[j], j, c'.head)
    ensures RowExplained(net, c', log', h', l, c.head + j)
  {
    assert FedLayer(net, c, h, tokens, c', h', l);
    FedAt(net, l, c.k[l], c.v[l], h[l], PrefillHidden(net, c, tokens, 0, l), j);
    if l > 0 {
      assert FedLayer(net, c, h, tokens, c', h', l - 1);
      FedAt(net, l - 1, c.k[l - 1], c.v[l - 1], h[l - 1], PrefillHidden(net, c, tokens, 0, l - 1), j);
      assert c'.k[l - 1][..c'.head] == c'.k[l - 1] && c'.v[l - 1][..c'.head] == c'.v[l - 1];
    }
  }

  lemma FedGrown(
    net: Net, c: Cache, log: seq<Entry>, h: seq<seq<Hidden>>, tokens: seq<nat>, c': Cache, h': seq<seq<Hidden>>)
    requires Explains(net, c, log, h) && |h'| == |h| == |c'.k| == |c'.v| && c'.head == c.head + |tokens|
    requires forall l: nat :: l < |h| ==> FedLayer(net, c, h, tokens, c', h', l)
    ensures Explains(net, c', log + Batch(tokens, |log| + |tokens|), h')
  {
    var log' := log + Batch(tokens, |log| + |tokens|);
    forall l: nat | l < |h|
      ensures |h'[l]| == |c'.k[l]| == |c'.v[l]| == c'.head && c.k[l] <= c'.k[l] && c.v[l] <= c'.v[l] && h[l] <= h'[l]
    {
      assert FedLayer(net, c, h, tokens, c', h', l);
    }
    forall l: nat, p: nat | l < |h| && |log| <= p < |log'| ensures RowExplained(net, c', log', h', l, p) {
      BatchAt(log, tokens, p - |log|);
      FedRow(net, c, log, h, tokens, c', log', h', l, p - |log|);
    }
    Grown(net, c, log, h, c', log', h');
  }

  lemma BatchAt(log: seq<Entry>, tokens: seq<nat>, j: nat)
    requires j < |tokens|
    ensures (log + Batch(tokens, |log| + |tokens|))[|log| + j] == Entry(tokens[j], j, |log| + |tokens|)
  {
    assert (log + Batch(tokens, |log| + |tokens|))[|log| + j] == Batch(tokens, |log| + |tokens|)[j];
  }

  lemma FeedExplained(net: Net, c: Cache, log: seq<Entry>, h: seq<seq<Hidden>>, tokens: seq<nat>)
    returns (h': seq<seq<Hidden>>)
    requires Explains(net, c, log, h)
    ensures var c' := PrefilledCache(net, c, tokens, 0);
            && Explains(net, c', log + Batch(tokens, |log| + |tokens|), h') && |h'| == |h| == |c'.k| == |c'.v|
            && forall l: nat :: l < |h| ==> FedLayer(net, c, h, tokens, c', h', l)
  {
    var c' := PrefilledCache(net, c, tokens, 0);
    h' := seq(|h|, l requires 0 <= l < |h| => h[l] + PrefillHidden(net, c, tokens, 0, l));
    forall l: nat | l < |h| ensures FedLayer(net, c, h, tokens, c', h', l) {
      PrefillKeysAt(net, c, tokens, 0, |c.k|, l);
    }
    FedGrown(net, c, log, h, tokens, c', h');
  }

  lemma FeedAccounted(net: Net, c: Cache, log: seq<Entry>, tokens: seq<nat>)
    requires Accounted(net, c, log)
    ensures |c.k| == |c.v|
    ensures Accounted(net, PrefilledCache(net, c, tokens, 0), log + Batch(tokens, |log| + |tokens|))
  {
    var h :| Explains(net, c, log, h);
    var h' := FeedExplained(net, c, log, h, tokens);
  }

  /** The same for a decode. */
  predicate NextLayer(net: Net, c: Cache, h: seq<seq<Hidden>>, token: nat, c': Cache, h': seq<seq<Hidden>>, l: nat)
    requires l < |h| == |h'| == |c.k| == |c.v| == |c'.k| == |c'.v|
  {
    var state := DecodeHidden(net, c, token, c.head, l);
    && c'.k[l] == c.k[l] + [net.keyRow(l, state, c.head)]
    && c'.v[l] == c.v[l] + [net.valueRow(l, state)]
    && h'[l] == h[l] + [state]
  }

  lemma NextRow(
    net: Net, c: Cache, log: seq<Entry>, h: seq<seq<Hidden>>, token: nat,
    c': Cache, log': seq<Entry>, h': seq<seq<Hidden>>, l: nat)
    requires Shaped(c, log, h) && Shaped(c', log', h') && l < |h| == |h'|
    requires forall i: nat :: i < |h| ==> NextLayer(net, c, h, token, c', h', i)
    requires c'.head == c.head + 1 && log'[c.head] == Entry(token, c.head, c.head)
    ensures RowExplained(net, c', log', h', l, c.head)
  {
    assert NextLayer(net, c, h, token, c', h', l);
    if l > 0 {
      assert NextLayer(net, c, h, token, c', h', l - 1);
      assert c'.k[l - 1][..c.head] == c.k[l - 1] && c'.v[l - 1][..c.head] == c.v[l - 1];
    }
  }

  lemma NextGrown(
    net: Net, c: Cache, log: seq<Entry>, h: seq<seq<Hidden>>, token: nat, c': Cache, h': seq<seq<Hidden>>)
    requires Explains(net, c, log, h) && |h'| == |h| == |c'.k| == |c'.v| && c'.head == c.head + 1
    requires forall l: nat :: l < |h| ==> NextLayer(net, c, h, token, c', h', l)
    ensures Explains(net, c', log + [Entry(token, |log|, |log|)], h')
  {
    var log' := log + [Entry(token, |log|, |log|)];
    forall l: nat | l < |h|
      ensures |h'[l]| == |c'.k[l]| == |c'.v[l]| == c'.head && c.k[l] <= c'.k[l] && c.v[l] <= c'.v[l] && h[l] <= h'[l]
    {
      assert NextLayer(net, c, h, token, c', h', l);
    }
    forall l: nat, p: nat | l < |h| && |log| <= p < |log'| ensures RowExplained(net, c', log', h', l, p) {
      NextRow(net, c, log, h, token, c', log', h', l);
    }
    Grown(net, c, log, h, c', log', h');
  }

  lemma NextExplained(net: Net, c: Cache, log: seq<Entry>, h: seq<seq<Hidden>>, token: nat)
    returns (h': seq<seq<Hidden>>)
    requires Explains(net, c, log, h)
    ensures var c' := DecodedCache(net, c, c, token);
            && Explains(net, c', log + [Entry(token, |log|, |log|)], h') && |h'| == |h| == |c'.k| == |c'.v|
            && forall l: nat :: l < |h| ==> NextLayer(net, c, h, token, c', h', l)
  {
    var c' := DecodedCache(net, c, c, token);
    h' := seq(|h|, l requires 0 <= l < |h| => h[l] + [DecodeHidden(net, c, token, c.head, l)]);
    forall l: nat | l < |h| ensures NextLayer(net, c, h, token, c', h', l) {
      DecodeKeysAt(net, c, token, c.head, |c.k|, l);
    }
    NextGrown(net, c, log, h, token, c', h');
  }

  lemma NextAccounted(net: Net, c: Cache, log: seq<Entry>, token: nat)
    requires Accounted(net, c, log)
    ensures |c.k| == |c.v|
    ensures Accounted(net, DecodedCache(net, c, c, token), log + [Entry(token, |log|, |log|)])
  {
    var h :| Explains(net, c, log, h);
    var h' := NextExplained(net, c, log, h, token);
  }

  // ------------------------------------------------------------------- whole runs

  lemma StepAccounted(net: Net, s: Shape, c: Cache, log: seq<Entry>, op: Op)
    requires c.Fits(s) && Accounted(net, c, log)
    ensures Accounted(net, Ideal(net, s, c, op).0, LogAfter(s, log, op))
    ensures |log| == c.head
  {
    match op {
      case Reset => EmptyAccounted(net, s);
      case Feed(tokens) =>
        FeedAccounted(net, c, log, tokens);
        if tokens == [] {
          assert log + Batch([], |log|) == log;
        }
      case Next(token) => NextAccounted(net, c, log, token);
    }
  }

  /** In every run the rows in use are exactly those of the tokens appended since the last reset, in order. */
  lemma {:induction false} RunAccounted(net: Net, s: Shape, c: Cache, log: seq<Entry>, ops: seq<Op>)
    requires c.Fits(s) && Accounted(net, c, log)
    ensures Accounted(net, LogicalRun(net, s, c, ops).0, LogOf(s, log, ops))
    ensures |LogOf(s, log, ops)| == LogicalRun(net, s, c, ops).0.head <= s.nCtx
    decreases |ops|
  {
    StepAccounted(net, s, c, log, Reset);
    if ops != [] {
      StepAccounted(net, s, c, log, ops[0]);
      RunAccounted(net, s, Ideal(net, s, c, ops[0]).0, LogAfter(s, log, ops[0]), ops[1..]);
    }
  }

  /** The same for the buffer itself, from any stale starting point that has just been reset. */
  lemma BufferAccounted(net: Net, s: Shape, m: Memory, ops: seq<Op>)
    requires m.Valid(s) && m.head == 0 && Guarded(s, 0, ops)
    ensures Accounted(net, PhysicalRun(net, s, m, ops).0.Contents(s), LogOf(s, [], ops))
    ensures |LogOf(s, [], ops)| == PhysicalRun(net, s, m, ops).0.head <= s.nCtx
  {
    RunRefines(net, s, m, ops);
    assert m.Contents(s) == Empty(s);
    EmptyAccounted(net, s);
    RunAccounted(net, s, Empty(s), [], ops);
  }

  /** Hence only the log matters: reset buffers driven to the same log, however, hold the same rows. */
  lemma SameLogSameRows(net: Net, s: Shape, a: Memory, b: Memory, opsA: seq<Op>, opsB: seq<Op>)
    requires a.Valid(s) && b.Valid(s) && a.head == b.head == 0
    requires Guarded(s, 0, opsA) && Guarded(s, 0, opsB) && LogOf(s, [], opsA) == LogOf(s, [], opsB)
    ensures PhysicalRun(net, s, a, opsA).0.Contents(s) == PhysicalRun(net, s, b, opsB).0.Contents(s)
  {
    BufferAccounted(net, s, a, opsA);
    BufferAccounted(net, s, b, opsB);
    LogDeterminesCache(net, PhysicalRun(net, s, a, opsA).0.Contents(s), PhysicalRun(net, s, b, opsB).0.Contents(s),
      LogOf(s, [], opsA));
  }

  // ---------------------------------------------------------------------- positions

  predicate InPlace(log: seq<Entry>) { forall p: nat :: p < |log| ==> log[p].pos == p }

  /** A prefill numbers its rows correctly exactly when it starts an empty cache. */
  lemma FeedInPlaceExactly(s: Shape, log: seq<Entry>, tokens: seq<nat>)
    requires tokens != [] && |log| + |tokens| <= s.nCtx
    ensures InPlace(LogAfter(s, log, Feed(tokens))) <==> log == []
  {
    var after := LogAfter(s, log, Feed(tokens));
    assert after[|log|] == Batch(tokens, |after|)[0];
    if log == [] {
      assert after == Batch(tokens, |after|);
    }
  }

  /** The same tokens seeing the same rows, numbered by row. */
  function Renumbered(log: seq<Entry>): (r: seq<Entry>)
    ensures |r| == |log|
  {
    seq(|log|, p requires 0 <= p < |log| => log[p].(pos := p))
  }

  /** A row that repeats a hidden state's first element. */
  function Filled(s: Shape, h: Hidden): (row: Row)
    ensures |row| == s.rowLen
  {
    seq(s.rowLen, _ => if h == [] then 0.0 else h[0])
  }

  /** A model whose key rows repeat their position. */
  function PositionNet(s: Shape): (net: Net)
    ensures net.Fits(s)
  {
    Net(_ => [], (_, _, p) => Filled(s, [p as real]), (_, h) => Filled(s, h), (_, h, _, _, _) => h, h => h)
  }

  /** With this model the rows of a log do not tell how its entries are numbered. */
  ghost predicate NumberingHidden(net: Net, s: Shape, log: seq<Entry>) {
    forall a: Cache, b: Cache ::
      a.Fits(s) && b.Fits(s) && Accounted(net, a, log) && Accounted(net, b, Renumbered(log)) ==> a == b
  }

  /** The numbering shows in the rows, for some model, exactly when some entry is out of place. */
  lemma PositionsMatterExactly(s: Shape, log: seq<Entry>)
    requires |log| <= s.nCtx && Sighted(log)
    ensures (forall net: Net :: net.Fits(s) ==> NumberingHidden(net, s, log))
            <==> InPlace(log) || s.nLayers == 0 || s.rowLen == 0
  {
    if InPlace(log) || s.nLayers == 0 || s.rowLen == 0 {
      forall net: Net | net.Fits(s) ensures NumberingHidden(net, s, log) {
        forall a: Cache, b: Cache |
          a.Fits(s) && b.Fits(s) && Accounted(net, a, log) && Accounted(net, b, Renumbered(log))
          ensures a == b
        {
          SameNumbered(net, s, log, a, b);
        }
      }
    } else {
      NumberingShows(s, log);
      assert PositionNet(s).Fits(s);
    }
  }

  lemma SameNumbered(net: Net, s: Shape, log: seq<Entry>, a: Cache, b: Cache)
    requires net.Fits(s) && a.Fits(s) && b.Fits(s) && Accounted(net, a, log) && Accounted(net, b, Renumbered(log))
    requires InPlace(log) || s.nLayers == 0 || s.rowLen == 0
    ensures a == b
  {
    if InPlace(log) {
      assert Renumbered(log) == log;
      LogDeterminesCache(net, a, b, log);
    } else {
      EmptyRows(net, s, a, log);
      EmptyRows(net, s, b, Renumbered(log));
      forall l: nat | l < s.nLayers ensures a.k[l] == b.k[l] && a.v[l] == b.v[l] {
        assert |a.k[l]| == |b.k[l]| && |a.v[l]| == |b.v[l]|;
      }
      assert a.k == b.k && a.v == b.v;
    }
  }

  lemma NumberingShows(s: Shape, log: seq<Entry>)
    requires |log| <= s.nCtx && Sighted(log) && !InPlace(log) && s.nLayers >= 1 && s.rowLen >= 1
    ensures !NumberingHidden(PositionNet(s), s, log)
  {
    var p: nat :| p < |log| && log[p].pos != p;
    var net, renumbered := PositionNet(s), Renumbered(log);
    var a, ha := CacheOfLog(net, s, log);
    var b, hb := CacheOfLog(net, s, renumbered);
    assert RowExplained(net, a, log, ha, 0, p) && RowExplained(net, b, renumbered, hb, 0, p);
    assert a.k[0][p][0] == log[p].pos as real && b.k[0][p][0] == p as real;
    assert Accounted(net, a, log) && Accounted(net, b, renumbered) && a != b;
  }

  lemma EmptyRows(net: Net, s: Shape, c: Cache, log: seq<Entry>)
    requires net.Fits(s) && c.Fits(s) && Accounted(net, c, log) && (s.nLayers == 0 || s.rowLen == 0)
    ensures c.head == |log|
    ensures forall l: nat, p: nat :: l < s.nLayers && p < c.head ==> c.k[l][p] == [] && c.v[l][p] == []
  {
    var h :| Explains(net, c, log, h);
    forall l: nat, p: nat | l < s.nLayers && p < c.head ensures c.k[l][p] == [] && c.v[l][p] == [] {
      assert RowExplained(net, c, log, h, l, p);
    }
  }
}
