/**
 * A prefill lets a token see its own row and its whole batch; a decode shows it only the rows before.
 * When that makes a difference, to the rows written and to the logits returned.
 */
module PrefillVsDecode {
  import opened Bytes
  import opened CacheLayout
  import opened KvCache
  import opened Forward
  import opened CacheRuns
  import opened TokenLog

  // ------------------------------------------------ one prefill, or a prefill and a decode

  /** All the tokens in one prefill. */
  function Once(net: Net, s: Shape, c: Cache, tokens: seq<nat>, last: nat): (Cache, seq<Option<Outcome>>)
    requires c.Fits(s)
  {
    LogicalRun(net, s, c, [Feed(tokens + [last])])
  }

  /** All but the last in a prefill, the last in a decode. */
  function Twice(net: Net, s: Shape, c: Cache, tokens: seq<nat>, last: nat): (Cache, seq<Option<Outcome>>)
    requires c.Fits(s)
  {
    LogicalRun(net, s, c, [Feed(tokens), Next(last)])
  }

  /** There is a prefill to split, and room for all of it. */
  predicate Fit(s: Shape, c: Cache, tokens: seq<nat>) { c.Fits(s) && tokens != [] && c.head + |tokens| < s.nCtx }

  lemma RunOne(net: Net, s: Shape, c: Cache, op: Op)
    requires c.Fits(s)
    ensures LogicalRun(net, s, c, [op]) == (Ideal(net, s, c, op).0, [Ideal(net, s, c, op).1])
  {
    var after := Ideal(net, s, c, op);
    assert [op][1..] == [];
    assert LogicalRun(net, s, after.0, []) == (after.0, []);
    assert [after.1] + [] == [after.1];
  }

  lemma OnceDone(net: Net, s: Shape, c: Cache, tokens: seq<nat>, last: nat)
    requires Fit(s, c, tokens)
    ensures Once(net, s, c, tokens, last) ==
            (PrefilledCache(net, c, tokens + [last], 0), [Some(Ok(PrefillLogits(net, c, tokens + [last], 0)))])
  {
    RunOne(net, s, c, Feed(tokens + [last]));
  }

  lemma TwiceDone(net: Net, s: Shape, c: Cache, tokens: seq<nat>, last: nat)
    requires Fit(s, c, tokens)
    ensures var fed := PrefilledCache(net, c, tokens, 0);
            Twice(net, s, c, tokens, last) ==
            (DecodedCache(net, fed, fed, last),
             [Some(Ok(PrefillLogits(net, c, tokens, 0))), Some(Ok(DecodeLogits(net, fed, last, c.head + |tokens|)))])
  {
    var first := Ideal(net, s, c, Feed(tokens));
    var second := Ideal(net, s, first.0, Next(last));
    RunOne(net, s, first.0, Next(last));
    assert [Feed(tokens), Next(last)][1..] == [Next(last)];
    assert [first.1] + [second.1] == [first.1, second.1];
  }

  lemma PrefilledLayer(net: Net, c: Cache, tokens: seq<nat>, l: nat)
    requires l < |c.k| == |c.v|
    ensures var c', hs := PrefilledCache(net, c, tokens, 0), PrefillHidden(net, c, tokens, 0, l);
            c'.k[l] == c.k[l] + KeyRows(net, l, hs, 0) && c'.v[l] == c.v[l] + ValueRows(net, l, hs)
  {
    PrefillKeysAt(net, c, tokens, 0, |c.k|, l);
  }

  lemma DecodedLayer(net: Net, c: Cache, token: nat, l: nat)
    requires l < |c.k| == |c.v|
    ensures var c', h := DecodedCache(net, c, c, token), DecodeHidden(net, c, token, c.head, l);
            c'.k[l] == c.k[l] + [net.keyRow(l, h, c.head)] && c'.v[l] == c.v[l] + [net.valueRow(l, h)]
  {
    DecodeKeysAt(net, c, token, c.head, |c.k|, l);
  }

  /** Layer `l` after the one prefill. */
  lemma OnceLayer(net: Net, s: Shape, c: Cache, tokens: seq<nat>, last: nat, l: nat)
    requires Fit(s, c, tokens) && l < s.nLayers
    ensures var once, hs := Once(net, s, c, tokens, last).0, PrefillHidden(net, c, tokens + [last], 0, l);
            && |once.k| == |once.v| == s.nLayers
            && once.k[l] == c.k[l] + KeyRows(net, l, hs, 0) && once.v[l] == c.v[l] + ValueRows(net, l, hs)
  {
    OnceDone(net, s, c, tokens, last);
    PrefilledLayer(net, c, tokens + [last], l);
  }

  /** Layer `l` after the prefill and the decode, which takes the next row's index as its position. */
  lemma TwiceLayer(net: Net, s: Shape, c: Cache, tokens: seq<nat>, last: nat, l: nat)
    requires Fit(s, c, tokens) && l < s.nLayers
    ensures var n := c.head + |tokens|;
            var twice, hs := Twice(net, s, c, tokens, last).0, PrefillHidden(net, c, tokens, 0, l);
            var h := DecodeHidden(net, PrefilledCache(net, c, tokens, 0), last, n, l);
            && |twice.k| == |twice.v| == s.nLayers
            && twice.k[l] == c.k[l] + KeyRows(net, l, hs, 0) + [net.keyRow(l, h, n)]
            && twice.v[l] == c.v[l] + ValueRows(net, l, hs) + [net.valueRow(l, h)]
  {
    TwiceDone(net, s, c, tokens, last);
    PrefilledLayer(net, c, tokens, l);
    DecodedLayer(net, PrefilledCache(net, c, tokens, 0), last, l);
  }

  /** From an empty cache the first layer's rows come from embeddings and equal positions alone. */
  lemma FirstLayerSame(net: Net, s: Shape, c: Cache, tokens: seq<nat>, last: nat)
    requires Fit(s, c, tokens) && s.nLayers >= 1 && c.head == 0
    ensures var once, twice := Once(net, s, c, tokens, last).0, Twice(net, s, c, tokens, last).0;
            && |once.k| == |once.v| == |twice.k| == |twice.v| == s.nLayers
            && once.k[0] == twice.k[0] && once.v[0] == twice.v[0]
  {
    OnceLayer(net, s, c, tokens, last, 0);
    TwiceLayer(net, s, c, tokens, last, 0);
    BatchAndOne(net, tokens, last);
    assert c.k[0] == [] && c.v[0] == [];
  }

  lemma BatchAndOne(net: Net, tokens: seq<nat>, last: nat)
    ensures var all, some, h := Embedded(net, tokens + [last]), Embedded(net, tokens), net.embed(AsI32(last));
            && KeyRows(net, 0, all, 0) == KeyRows(net, 0, some, 0) + [net.keyRow(0, h, |tokens|)]
            && ValueRows(net, 0, all) == ValueRows(net, 0, some) + [net.valueRow(0, h)]
  {
    assert Embedded(net, tokens + [last]) == Embedded(net, tokens) + [net.embed(AsI32(last))];
  }

  function Blank(n: nat): (rows: seq<Row>) { seq(n, _ => []) }

  /** Rows without elements cannot differ. */
  lemma EmptyRowsSame(net: Net, s: Shape, c: Cache, tokens: seq<nat>, last: nat, l: nat)
    requires Fit(s, c, tokens) && net.Fits(s) && s.rowLen == 0 && l < s.nLayers
    ensures var once, twice := Once(net, s, c, tokens, last).0, Twice(net, s, c, tokens, last).0;
            && |once.k| == |once.v| == |twice.k| == |twice.v| == s.nLayers
            && once.k[l] == twice.k[l] && once.v[l] == twice.v[l]
  {
    OnceLayer(net, s, c, tokens, last, l);
    TwiceLayer(net, s, c, tokens, last, l);
    var all, some := PrefillHidden(net, c, tokens + [last], 0, l), PrefillHidden(net, c, tokens, 0, l);
    var h := DecodeHidden(net, PrefilledCache(net, c, tokens, 0), last, c.head + |tokens|, l);
    EmptyBatches(net, s, l, c.k[l], c.v[l], all, some, h, c.head + |tokens|);
  }

  lemma EmptyBatches(
    net: Net, s: Shape, l: nat, ks: seq<Row>, vs: seq<Row>, all: seq<Hidden>, some: seq<Hidden>, h: Hidden, pos: nat)
    requires net.Fits(s) && s.rowLen == 0 && |all| == |some| + 1
    ensures ks + KeyRows(net, l, all, 0) == ks + KeyRows(net, l, some, 0) + [net.keyRow(l, h, pos)]
    ensures vs + ValueRows(net, l, all) == vs + ValueRows(net, l, some) + [net.valueRow(l, h)]
  {
    assert KeyRows(net, l, all, 0) == Blank(|all|) && KeyRows(net, l, some, 0) == Blank(|some|);
    assert ValueRows(net, l, all) == Blank(|all|) && ValueRows(net, l, some) == Blank(|some|);
    assert net.keyRow(l, h, pos) == [] && net.valueRow(l, h) == [];
    assert Blank(|all|) == Blank(|some|) + [[]];
    assert ks + (Blank(|some|) + [[]]) == ks + Blank(|some|) + [[]];
    assert vs + (Blank(|some|) + [[]]) == vs + Blank(|some|) + [[]];
  }

  /** Splitting is harmless to rows without layers, without elements, or in one layer of an empty cache. */
  predicate Harmless(s: Shape, c: Cache) {
    s.nLayers == 0 || s.rowLen == 0 || (s.nLayers == 1 && c.head == 0)
  }

  lemma SameRows(net: Net, s: Shape, c: Cache, tokens: seq<nat>, last: nat)
    requires Fit(s, c, tokens) && net.Fits(s) && Harmless(s, c)
    ensures Once(net, s, c, tokens, last).0 == Twice(net, s, c, tokens, last).0
  {
    var once, twice := Once(net, s, c, tokens, last).0, Twice(net, s, c, tokens, last).0;
    OnceDone(net, s, c, tokens, last);
    TwiceDone(net, s, c, tokens, last);
    forall l: nat | l < s.nLayers ensures once.k[l] == twice.k[l] && once.v[l] == twice.v[l] {
      if s.rowLen == 0 {
        EmptyRowsSame(net, s, c, tokens, last, l);
      } else {
        FirstLayerSame(net, s, c, tokens, last);
      }
    }
    assert once.k == twice.k && once.v == twice.v;
  }

  /** A model whose attention counts the rows it sees. */
  function CountingNet(s: Shape): (net: Net)
    ensures net.Fits(s)
  {
    Net(_ => [], (_, h, _) => Filled(s, h), (_, h) => Filled(s, h), (_, _, _, ks, _) => [|ks| as real], h => h)
  }

  /** In every layer past the first the last token has counted one row more by prefill than by decode. */
  lemma CountsDiffer(s: Shape, c: Cache, tokens: seq<nat>, last: nat, l: nat)
    requires Fit(s, c, tokens) && 0 < l <= s.nLayers
    ensures var net, n := CountingNet(s), c.head + |tokens|;
            && PrefillHidden(net, c, tokens + [last], 0, l)[|tokens|] == [(n + 1) as real]
            && DecodeHidden(net, PrefilledCache(net, c, tokens, 0), last, n, l) == [n as real]
  {
    PrefilledLayer(CountingNet(s), c, tokens, l - 1);
  }

  lemma CountedRowsDiffer(s: Shape, c: Cache, tokens: seq<nat>, last: nat)
    requires Fit(s, c, tokens) && s.nLayers >= 2 && s.rowLen >= 1
    ensures Once(CountingNet(s), s, c, tokens, last).0 != Twice(CountingNet(s), s, c, tokens, last).0
  {
    var net, n := CountingNet(s), c.head + |tokens|;
    OnceLayer(net, s, c, tokens, last, 1);
    TwiceLayer(net, s, c, tokens, last, 1);
    CountsDiffer(s, c, tokens, last, 1);
    assert Once(net, s, c, tokens, last).0.k[1][n][0] == (n + 1) as real;
    assert Twice(net, s, c, tokens, last).0.k[1][n][0] == n as real;
  }

  /** With rows in use the prefill numbers the last token from 0 and the decode from the rows before it. */
  lemma PositionedRowsDiffer(s: Shape, c: Cache, tokens: seq<nat>, last: nat)
    requires Fit(s, c, tokens) && s.nLayers >= 1 && s.rowLen >= 1 && c.head > 0
    ensures Once(PositionNet(s), s, c, tokens, last).0 != Twice(PositionNet(s), s, c, tokens, last).0
  {
    var net, n := PositionNet(s), c.head + |tokens|;
    OnceLayer(net, s, c, tokens, last, 0);
    TwiceLayer(net, s, c, tokens, last, 0);
    assert Once(net, s, c, tokens, last).0.k[0][n][0] == |tokens| as real;
    assert Twice(net, s, c, tokens, last).0.k[0][n][0] == n as real;
  }

  /** Splitting the last token off a prefill changes no row, whatever the model, exactly when it is harmless. */
  lemma RowsAgreeExactly(s: Shape, c: Cache, tokens: seq<nat>, last: nat)
    requires Fit(s, c, tokens)
    ensures (forall net: Net :: net.Fits(s) ==> Once(net, s, c, tokens, last).0 == Twice(net, s, c, tokens, last).0)
            <==> s.nLayers == 0 || s.rowLen == 0 || (s.nLayers == 1 && c.head == 0)
  {
    if Harmless(s, c) {
      forall net: Net | net.Fits(s) ensures Once(net, s, c, tokens, last).0 == Twice(net, s, c, tokens, last).0 {
        SameRows(net, s, c, tokens, last);
      }
    } else if s.nLayers >= 2 {
      CountedRowsDiffer(s, c, tokens, last);
      assert CountingNet(s).Fits(s);
    } else {
      PositionedRowsDiffer(s, c, tokens, last);
      assert PositionNet(s).Fits(s);
    }
  }

  /** The last result of a run. */
  function LastResult(run: (Cache, seq<Option<Outcome>>)): Option<Outcome> {
    if run.1 == [] then None else run.1[|run.1| - 1]
  }

  /** It changes no logits, whatever the model, exactly without any layer. */
  lemma LogitsAgreeExactly(s: Shape, c: Cache, tokens: seq<nat>, last: nat)
    requires Fit(s, c, tokens)
    ensures (forall net: Net :: net.Fits(s) ==>
               LastResult(Once(net, s, c, tokens, last)) == LastResult(Twice(net, s, c, tokens, last)))
            <==> s.nLayers == 0
  {
    OnceDone(CountingNet(s), s, c, tokens, last);
    TwiceDone(CountingNet(s), s, c, tokens, last);
    if s.nLayers == 0 {
      forall net: Net | net.Fits(s)
        ensures LastResult(Once(net, s, c, tokens, last)) == LastResult(Twice(net, s, c, tokens, last))
      {
        OnceDone(net, s, c, tokens, last);
        TwiceDone(net, s, c, tokens, last);
      }
    } else {
      CountsDiffer(s, c, tokens, last, s.nLayers);
      assert CountingNet(s).Fits(s);
    }
  }

  // ----------------------------------------------------------- seeing the rows just appended

  /** Two models that differ in nothing but the rows they append. */
  ghost predicate DifferInRows(a: Net, b: Net) {
    a.embed == b.embed && a.attend == b.attend && a.project == b.project
  }

  /** A prefill that appends rows with something in them. */
  predicate AppendsBatch(s: Shape, c: Cache, op: Op) {
    op.Feed? && op.tokens != [] && c.head + |op.tokens| <= s.nCtx && s.nLayers >= 1 && s.rowLen >= 1
  }

  lemma {:induction false} DecodeBlind(a: Net, b: Net, seen: Cache, token: nat, pos: nat, l: nat)
    requires DifferInRows(a, b) && l <= |seen.k| == |seen.v|
    ensures DecodeHidden(a, seen, token, pos, l) == DecodeHidden(b, seen, token, pos, l)
  {
    if l > 0 {
      DecodeBlind(a, b, seen, token, pos, l - 1);
    }
  }

  lemma {:induction false} EmptyRowsBlind(a: Net, b: Net, s: Shape, c: Cache, tokens: seq<nat>, l: nat)
    requires DifferInRows(a, b) && a.Fits(s) && b.Fits(s) && s.rowLen == 0 && l <= |c.k| == |c.v|
    ensures PrefillHidden(a, c, tokens, 0, l) == PrefillHidden(b, c, tokens, 0, l)
  {
    if l > 0 {
      EmptyRowsBlind(a, b, s, c, tokens, l - 1);
      var hs := PrefillHidden(a, c, tokens, 0, l - 1);
      assert KeyRows(a, l - 1, hs, 0) == KeyRows(b, l - 1, hs, 0);
      assert ValueRows(a, l - 1, hs) == ValueRows(b, l - 1, hs);
    }
  }

  lemma SameResult(a: Net, b: Net, s: Shape, c: Cache, op: Op)
    requires c.Fits(s) && a.Fits(s) && b.Fits(s) && DifferInRows(a, b) && !AppendsBatch(s, c, op)
    ensures Ideal(a, s, c, op).1 == Ideal(b, s, c, op).1
  {
    match op {
      case Reset =>
      case Feed(tokens) =>
        if tokens != [] && c.head + |tokens| <= s.nCtx && s.nLayers >= 1 {
          EmptyRowsBlind(a, b, s, c, tokens, s.nLayers);
        }
      case Next(token) => DecodeBlind(a, b, c, token, c.head, s.nLayers);
    }
  }

  ghost predicate PassesNewest(net: Net) {
    && (forall l, h, p, ks, vs: seq<Row> :: vs != [] ==> net.attend(l, h, p, ks, vs) == vs[|vs| - 1])
    && (forall h :: net.project(h) == h)
  }

  /** A model whose attention passes on the newest value row it sees; every row it appends repeats `x`. */
  function NewestRowNet(s: Shape, x: real): (net: Net)
    ensures net.Fits(s) && PassesNewest(net)
  {
    Net(_ => [], (_, _, _) => Filled(s, [x]), (_, _) => Filled(s, [x]),
        (_, h, _, _, vs) => if vs == [] then h else vs[|vs| - 1], h => h)
  }

  /** The same model with other rows. */
  function WithValues(net: Net, s: Shape, x: real): (r: Net)
    requires net.Fits(s)
    ensures r.Fits(s) && DifferInRows(net, r) && (PassesNewest(net) ==> PassesNewest(r))
  {
    net.(valueRow := (_, _) => Filled(s, [x]))
  }

  /**
   * The result of an operation depends on the rows it appends itself exactly when it is a prefill that
   * appends some: a decode never sees its own row.
   */
  lemma OwnRowsMatterExactly(s: Shape, c: Cache, op: Op)
    requires c.Fits(s)
    ensures (forall a: Net, b: Net :: a.Fits(s) && b.Fits(s) && DifferInRows(a, b) ==>
               Ideal(a, s, c, op).1 == Ideal(b, s, c, op).1)
            <==> !AppendsBatch(s, c, op)
  {
    if AppendsBatch(s, c, op) {
      var a := NewestRowNet(s, 0.0);
      var b := WithValues(a, s, 1.0);
      NewestRowSeen(a, s, c, op.tokens);
      NewestRowSeen(b, s, c, op.tokens);
      assert Filled(s, [0.0])[0] != Filled(s, [1.0])[0];
      assert Ideal(a, s, c, op).1 != Ideal(b, s, c, op).1;
    } else {
      forall a: Net, b: Net | a.Fits(s) && b.Fits(s) && DifferInRows(a, b)
        ensures Ideal(a, s, c, op).1 == Ideal(b, s, c, op).1
      {
        SameResult(a, b, s, c, op);
      }
    }
  }

  lemma NewestRowSeen(net: Net, s: Shape, c: Cache, tokens: seq<nat>)
    requires c.Fits(s) && tokens != [] && s.nLayers >= 1 && PassesNewest(net)
    ensures PrefillLogits(net, c, tokens, 0) ==
            net.valueRow(s.nLayers - 1, PrefillHidden(net, c, tokens, 0, s.nLayers - 1)[|tokens| - 1])
  {
    var top := s.nLayers - 1;
    var hs := PrefillHidden(net, c, tokens, 0, top);
    LayerAbove(net, c, tokens, top, s.nLayers);
    NewestOfBatch(net, top, hs, c.k[top] + KeyRows(net, top, hs, 0), c.v[top]);
  }

  lemma LayerAbove(net: Net, c: Cache, tokens: seq<nat>, l: nat, next: nat)
    requires next == l + 1 <= |c.k| == |c.v|
    ensures var hs := PrefillHidden(net, c, tokens, 0, l);
            PrefillHidden(net, c, tokens, 0, next) ==
            AttendAll(net, l, hs, 0, c.k[l] + KeyRows(net, l, hs, 0), c.v[l] + ValueRows(net, l, hs))
  {
  }

  lemma NewestOfBatch(net: Net, l: nat, hs: seq<Hidden>, ks: seq<Row>, before: seq<Row>)
    requires PassesNewest(net) && hs != []
    ensures net.project(AttendAll(net, l, hs, 0, ks, before + ValueRows(net, l, hs))[|hs| - 1])
         == net.valueRow(l, hs[|hs| - 1])
  {
    var vs := before + ValueRows(net, l, hs);
    assert vs[|vs| - 1] == ValueRows(net, l, hs)[|hs| - 1];
  }
}
