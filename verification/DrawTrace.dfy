/** Where each token of a turn comes from: its logits, its recent tokens and its random word. */
module DrawTrace {
  import opened Bytes
  import opened CacheLayout
  import opened KvCache
  import opened Forward
  import opened CacheRuns
  import opened Generation
  import opened Xorshift
  import Encoding

  // ------------------------------------------------------------------- a turn's draws

  /**
   * Draw `k` is made from the `k`-th result of the turn, the last 64 of the `k` tokens fed by then, and the
   * random word the draw before left; and if another token was fed, it is the one drawn.
   */
  predicate IsDraw(e: Engine, outs: seq<Option<Outcome>>, fed: seq<nat>, seed: Word, draws: seq<Draw>, k: nat)
    requires k <= |fed| && |draws| == |outs| == |fed| + 1
  {
    && outs[k].Some? && outs[k].value.Ok?
    && (k > 0 ==> draws[k - 1].Drawn?)
    && draws[k] == e.sampler(outs[k].value.logits, fed[(if k <= 64 then 0 else k - 64)..k],
                             if k == 0 then seed else draws[k - 1].rng)
    && (k < |fed| ==> draws[k].Drawn? && draws[k].token == fed[k])
  }

  predicate DrawnFrom(e: Engine, outs: seq<Option<Outcome>>, fed: seq<nat>, seed: Word, draws: seq<Draw>) {
    && |draws| == |outs| == |fed| + 1
    && forall k: nat :: k <= |fed| ==> IsDraw(e, outs, fed, seed, draws, k)
  }

  /** The text of one token, if it has any. */
  function Piece(printer: Printer, token: nat): seq<byte> {
    match printer(token) case Some(s) => s case None => []
  }

  function Pieces(printer: Printer, fed: seq<nat>): seq<seq<byte>> {
    seq(|fed|, i requires 0 <= i < |fed| => Piece(printer, fed[i]))
  }

  predicate EndToken(id: nat) { id == 128_001 || id == 128_009 }

  /** The last draw: a failure, or a token that no longer could be fed. */
  predicate Ends(e: Engine, t: Turn, last: Draw) {
    && (last.DrawFailed? <==> t.result == Failed(LogitFailure))
    && (last.Drawn? ==> EndToken(last.token) || |t.fed| >= e.maxNew || t.cache.head >= e.shape.nCtx)
    && (forall k: nat :: k < |t.fed| ==> !EndToken(t.fed[k]))
    && (t.result.Generated? ==> t.result.text == Flatten(Pieces(e.printer, t.fed)))
  }

  // ----------------------------------------------------------------- the loop's draws

  predicate IsLoopDraw(
    e: Engine, outs: seq<Option<Outcome>>, before: seq<nat>, more: seq<nat>, draws: seq<Draw>, k: nat)
    requires k < |more| == |outs| && |draws| == |more| + 1
  {
    && outs[k].Some? && outs[k].value.Ok?
    && draws[k].Drawn? && more[k] == draws[k].token
    && draws[k + 1] == e.sampler(outs[k].value.logits, Recent(before + more[..k + 1]), draws[k].rng)
  }

  predicate LoopDrawn(e: Engine, outs: seq<Option<Outcome>>, before: seq<nat>, more: seq<nat>, draws: seq<Draw>) {
    && |more| == |outs| && |draws| == |more| + 1
    && forall k: nat :: k < |more| ==> IsLoopDraw(e, outs, before, more, draws, k)
  }

  lemma LoopDrawnCons(
    e: Engine, out: Option<Outcome>, outs: seq<Option<Outcome>>, before: seq<nat>, next: nat, more: seq<nat>,
    first: Draw, draws: seq<Draw>)
    requires LoopDrawn(e, outs, before + [next], more, draws)
    requires out.Some? && out.value.Ok? && first.Drawn? && next == first.token
    requires draws[0] == e.sampler(out.value.logits, Recent(before + [next]), first.rng)
    ensures LoopDrawn(e, [out] + outs, before, [next] + more, [first] + draws)
  {
    var outs', more', draws' := [out] + outs, [next] + more, [first] + draws;
    forall k: nat | k < |more'| ensures IsLoopDraw(e, outs', before, more', draws', k) {
      if k == 0 {
        assert more'[..1] == [next];
      } else {
        assert IsLoopDraw(e, outs, before + [next], more, draws, k - 1);
        assert before + more'[..k + 1] == before + [next] + more[..k];
      }
    }
  }

  lemma RunOfNextsOuts(net: Net, s: Shape, c: Cache, next: nat, rest: seq<nat>)
    requires c.Fits(s)
    ensures LogicalRun(net, s, c, Nexts([next] + rest)).1
         == [Ideal(net, s, c, Next(next)).1] + LogicalRun(net, s, Ideal(net, s, c, Next(next)).0, Nexts(rest)).1
  {
    var ops := Nexts([next] + rest);
    assert ops[0] == Next(next) && ops[1..] == Nexts(rest);
  }

  /** A loop entered with cache `c` and tokens `before` went on to feed `more`, by these draws. */
  predicate Traced(e: Engine, c: Cache, before: seq<nat>, end: LoopEnd, more: seq<nat>, draws: seq<Draw>)
    requires c.Fits(e.shape)
  {
    && end.fed == before + more
    && LoopDrawn(e, LogicalRun(e.net, e.shape, c, Nexts(more)).1, before, more, draws)
    && (end.drawOk <==> draws[|more|].Drawn?) && (end.drawOk ==> draws[|more|].token == end.next)
  }

  lemma TracedNothing(e: Engine, c: Cache, before: seq<nat>, end: LoopEnd, last: Draw)
    requires c.Fits(e.shape) && end.fed == before
    requires (end.drawOk <==> last.Drawn?) && (end.drawOk ==> last.token == end.next)
    ensures Traced(e, c, before, end, [], [last])
  {
    assert before + [] == before;
    assert Nexts([]) == [];
  }

  lemma TracedOneMore(
    e: Engine, c: Cache, next: nat, rng: Word, before: seq<nat>, end: LoopEnd, rest: seq<nat>, after: seq<Draw>)
    requires c.Fits(e.shape) && c.head < e.shape.nCtx
    requires Traced(e, Ideal(e.net, e.shape, c, Next(next)).0, before + [next], end, rest, after)
    requires after[0] == e.sampler(DecodeLogits(e.net, c, next, c.head), Recent(before + [next]), rng)
    ensures Traced(e, c, before, end, [next] + rest, [Drawn(next, rng)] + after)
  {
    var step := Ideal(e.net, e.shape, c, Next(next));
    RunOfNextsOuts(e.net, e.shape, c, next, rest);
    LoopDrawnCons(e, step.1, LogicalRun(e.net, e.shape, step.0, Nexts(rest)).1, before, next, rest,
      Drawn(next, rng), after);
    assert before + [next] + rest == before + ([next] + rest);
  }

  lemma {:induction false} LoopDraws(e: Engine, c: Cache, next: nat, rng: Word, before: seq<nat>)
    returns (more: seq<nat>, draws: seq<Draw>)
    requires c.Fits(e.shape)
    ensures Traced(e, c, before, Loop(e, c, next, rng, before), more, draws) && draws[0] == Drawn(next, rng)
    decreases e.maxNew - |before|
  {
    var end := Loop(e, c, next, rng, before);
    if Encoding.IsEos(next) || |before| >= e.maxNew || c.head >= e.shape.nCtx {
      more, draws := [], [Drawn(next, rng)];
      TracedNothing(e, c, before, end, Drawn(next, rng));
    } else {
      var c' := Ideal(e.net, e.shape, c, Next(next)).0;
      var draw := e.sampler(DecodeLogits(e.net, c, next, c.head), Recent(before + [next]), rng);
      var rest: seq<nat>, after: seq<Draw>;
      if draw.DrawFailed? {
        rest, after := [], [draw];
        TracedNothing(e, c', before + [next], end, draw);
      } else {
        rest, after := LoopDraws(e, c', draw.token, draw.rng, before + [next]);
      }
      more, draws := [next] + rest, [Drawn(next, rng)] + after;
      TracedOneMore(e, c, next, rng, before, end, rest, after);
    }
  }

  // ------------------------------------------------------------------------- the turn

  lemma RecentIs(fed: seq<nat>, k: nat)
    requires k <= |fed|
    ensures Recent(fed[..k]) == fed[(if k <= 64 then 0 else k - 64)..k]
  {
  }

  lemma DrawnFromLoop(
    e: Engine, out: Option<Outcome>, outs: seq<Option<Outcome>>, fed: seq<nat>, seed: Word, draws: seq<Draw>)
    requires LoopDrawn(e, outs, [], fed, draws)
    requires out.Some? && out.value.Ok? && draws[0] == e.sampler(out.value.logits, [], seed)
    ensures DrawnFrom(e, [out] + outs, fed, seed, draws)
  {
    forall k: nat | k <= |fed| ensures IsDraw(e, [out] + outs, fed, seed, draws, k) {
      RecentIs(fed, k);
      if k > 0 {
        assert IsLoopDraw(e, outs, [], fed, draws, k - 1);
        assert [] + fed[..k] == fed[..k];
      }
      if k < |fed| {
        assert IsLoopDraw(e, outs, [], fed, draws, k);
      }
    }
  }

  lemma TurnOuts(net: Net, s: Shape, c: Cache, ids: seq<nat>, fed: seq<nat>)
    requires c.Fits(s)
    ensures LogicalRun(net, s, c, TurnOps(ids, fed)).1
         == [Ideal(net, s, c, Feed(ids)).1] + LogicalRun(net, s, Ideal(net, s, c, Feed(ids)).0, Nexts(fed)).1
  {
    assert TurnOps(ids, fed)[1..] == Nexts(fed);
  }

  lemma {:induction false} TextIsPieces(printer: Printer, fed: seq<nat>)
    ensures TextOf(printer, fed) == Flatten(Pieces(printer, fed))
  {
    if fed != [] {
      var n := |fed| - 1;
      TextIsPieces(printer, fed[..n]);
      var last := Piece(printer, fed[n]);
      assert Pieces(printer, fed) == Pieces(printer, fed[..n]) + [last];
      FlattenAppend(Pieces(printer, fed[..n]), [last]);
      assert Flatten([last]) == last + Flatten([]) == last;
    }
  }

  /** Every turn that reaches its prefill feeds exactly the tokens of such draws, one draw more than tokens fed. */
  lemma TurnDraws(e: Engine, c: Cache, ids: seq<nat>, seed: Word) returns (draws: seq<Draw>)
    requires c.Fits(e.shape) && ids != [] && c.head + |ids| <= e.shape.nCtx
    ensures var t := RunTurn(e, c, ids, seed);
            && DrawnFrom(e, LogicalRun(e.net, e.shape, c, TurnOps(ids, t.fed)).1, t.fed, seed, draws)
            && Ends(e, t, draws[|t.fed|])
  {
    var prefill := Ideal(e.net, e.shape, c, Feed(ids));
    var first := e.sampler(PrefillLogits(e.net, c, ids, 0), [], seed);
    var t := RunTurn(e, c, ids, seed);
    if first.DrawFailed? {
      draws := [first];
      assert Nexts([]) == [];
    } else {
      var fed;
      fed, draws := LoopDraws(e, prefill.0, first.token, first.rng, []);
      assert t.fed == [] + fed == fed;
      LoopStops(e, prefill.0, first.token, first.rng, []);
    }
    TurnOuts(e.net, e.shape, c, ids, t.fed);
    DrawnFromLoop(e, prefill.1, LogicalRun(e.net, e.shape, prefill.0, Nexts(t.fed)).1, t.fed, seed, draws);
    TurnAccounting(e, c, ids, seed);
    TextIsPieces(e.printer, t.fed);
  }
}
