/**
 * The generation loop: prefill a turn, then decode token by token. The sampler, the per-token text and
 * the seed are parameters; what is modelled is when the loop stops and what it does to the cache.
 */
module Generation {
  import opened Bytes
  import opened CacheLayout
  import opened KvCache
  import opened Forward
  import opened CacheRuns
  import opened Xorshift
  import Encoding

  datatype Draw = Drawn(token: nat, rng: Word) | DrawFailed

  /** `sample_token` with its configuration fixed: logits, recent tokens, random state. */
  type Sampler = (Logits, seq<nat>, Word) -> Draw

  /** `decode_one` of the tokenizer in use. */
  type Printer = nat -> Option<seq<byte>>

  datatype Engine = Engine(net: Net, shape: Shape, sampler: Sampler, printer: Printer, maxNew: nat)

  datatype GenerateError =
    | EmptyPrompt
    | ContextLengthExceeded(limit: nat)
    | ContextFull(used: nat, limit: nat)
    | LogitFailure

  datatype GenerateResult =
    | Generated(promptTokens: nat, generatedTokens: nat, text: seq<byte>)
    | Failed(error: GenerateError)

  const RECENT_WINDOW: nat := 64

  /** The last 64 fed tokens, fewer at the start. */
  function Recent(fed: seq<nat>): seq<nat> {
    if |fed| <= RECENT_WINDOW then fed else fed[|fed| - RECENT_WINDOW..]
  }

  function TextOf(printer: Printer, fed: seq<nat>): seq<byte> {
    if fed == [] then []
    else TextOf(printer, fed[..|fed| - 1])
         + match printer(fed[|fed| - 1]) case Some(s) => s case None => []
  }

  // -------------------------------------------------------- the loop, as a function

  /** `next` is the token sampled last and not fed. */
  datatype LoopEnd = LoopEnd(cache: Cache, fed: seq<nat>, next: nat, drawOk: bool)

  function Loop(e: Engine, c: Cache, next: nat, rng: Word, fed: seq<nat>): LoopEnd
    requires c.Fits(e.shape)
    decreases e.maxNew - |fed|
  {
    if Encoding.IsEos(next) || |fed| >= e.maxNew || c.head >= e.shape.nCtx then LoopEnd(c, fed, next, true)
    else
      var c' := Ideal(e.net, e.shape, c, Next(next)).0;
      match e.sampler(DecodeLogits(e.net, c, next, c.head), Recent(fed + [next]), rng)
      case DrawFailed => LoopEnd(c', fed + [next], next, false)
      case Drawn(token, rng') => Loop(e, c', token, rng', fed + [next])
  }

  /** Cache, fed tokens and result of one turn. */
  datatype Turn = Turn(cache: Cache, fed: seq<nat>, result: GenerateResult)

  function RunTurn(e: Engine, c: Cache, ids: seq<nat>, seed: Word): Turn
    requires c.Fits(e.shape)
  {
    if ids == [] then Turn(c, [], Failed(EmptyPrompt))
    else if c.head + |ids| > e.shape.nCtx then Turn(c, [], Failed(ContextFull(c.head + |ids|, e.shape.nCtx)))
    else
      var c' := Ideal(e.net, e.shape, c, Feed(ids)).0;
      match e.sampler(PrefillLogits(e.net, c, ids, 0), [], seed)
      case DrawFailed => Turn(c', [], Failed(LogitFailure))
      case Drawn(token, rng) =>
        var end := Loop(e, c', token, rng, []);
        Turn(end.cache, end.fed,
          if end.drawOk then Generated(|ids|, |end.fed|, TextOf(e.printer, end.fed)) else Failed(LogitFailure))
  }

  // ------------------------------------------------------------ the loop, as run

  /** One decode below capacity: the cache's own capacity error cannot occur. */
  method DecodeNext(e: Engine, g: LlamaGraph, token: nat) returns (logits: Logits)
    requires g.Valid() && g.net == e.net && g.kv.shape == e.shape
    requires 1 <= g.kv.head < e.shape.nCtx
    modifies g.kv, g.kv.data
    ensures g.Valid() && g.kv.head == old(g.kv.head) + 1
    ensures logits == DecodeLogits(e.net, old(g.kv.Contents()), token, old(g.kv.head))
    ensures g.kv.Contents() == Ideal(e.net, e.shape, old(g.kv.Contents()), Next(token)).0
  {
    var outcome := g.ExecuteDecode(token);
    assert outcome.Ok?;
    assert g.kv.Contents().head == old(g.kv.head) + 1;
    return outcome.logits;
  }

  lemma RecentPush(fed: seq<nat>, next: nat)
    ensures Recent(fed + [next]) ==
            var r := Recent(fed) + [next]; if |r| > RECENT_WINDOW then r[1..] else r
  {
  }

  lemma TextPush(printer: Printer, fed: seq<nat>, next: nat)
    ensures TextOf(printer, fed + [next]) ==
            TextOf(printer, fed) + match printer(next) case Some(s) => s case None => []
  {
    assert (fed + [next])[..|fed|] == fed;
  }

  /** The decode loop. */
  method DecodeLoop(e: Engine, g: LlamaGraph, first: nat, seed: Word)
    returns (ok: bool, generated: nat, text: seq<byte>, ghost fed: seq<nat>, ghost last: nat)
    requires g.Valid() && g.net == e.net && g.kv.shape == e.shape && g.kv.head >= 1
    modifies g.kv, g.kv.data
    ensures g.Valid()
    ensures LoopEnd(g.kv.Contents(), fed, last, ok) == Loop(e, old(g.kv.Contents()), first, seed, [])
    ensures generated == |fed| && text == TextOf(e.printer, fed)
  {
    var next, rng, recent := first, seed, [];
    generated, text, fed, last := 0, [], [], first;
    ghost var end := Loop(e, g.kv.Contents(), next, rng, []);
    while true
      invariant g.Valid() && g.kv.head >= 1
      invariant end == Loop(e, g.kv.Contents(), next, rng, fed)
      invariant recent == Recent(fed) && generated == |fed| && text == TextOf(e.printer, fed)
      decreases e.maxNew - generated
    {
      last := next;
      if Encoding.IsEos(next) { return true, generated, text, fed, last; }
      if generated >= e.maxNew { return true, generated, text, fed, last; }
      if g.kv.head >= e.shape.nCtx { return true, generated, text, fed, last; }

      RecentPush(fed, next);
      TextPush(e.printer, fed, next);
      var piece := e.printer(next);
      if piece.Some? {
        text := text + piece.value;
      }
      recent := recent + [next];
      if |recent| > RECENT_WINDOW {
        recent := recent[1..];
      }
      var logits := DecodeNext(e, g, next);
      generated := generated + 1;
      fed := fed + [next];
      var draw := e.sampler(logits, recent, rng);
      if draw.DrawFailed? {
        return false, generated, text, fed, last;
      }
      next, rng := draw.token, draw.rng;
    }
  }

  /** `run_generation_inner` */
  method RunGeneration(e: Engine, g: LlamaGraph, turnIds: seq<nat>, seed: Word)
    returns (r: GenerateResult, ghost fed: seq<nat>)
    requires g.Valid() && g.net == e.net && g.kv.shape == e.shape
    modifies g.kv, g.kv.data
    ensures g.Valid()
    ensures Turn(g.kv.Contents(), fed, r) == RunTurn(e, old(g.kv.Contents()), turnIds, seed)
  {
    fed := [];
    if turnIds == [] {
      return Failed(EmptyPrompt), fed;
    }
    var nCtx, used := g.kv.shape.nCtx, g.kv.head;
    if used + |turnIds| > nCtx {
      return Failed(ContextFull(used + |turnIds|, nCtx)), fed;
    }
    var outcome := g.Prefill(turnIds);
    assert outcome.Ok?;
    assert g.kv.Contents().head == used + |turnIds|;
    var draw := e.sampler(outcome.logits, [], seed);
    if draw.DrawFailed? {
      return Failed(LogitFailure), fed;
    }
    var ok, generated, text;
    ghost var last;
    ok, generated, text, fed, last := DecodeLoop(e, g, draw.token, draw.rng);
    if !ok {
      return Failed(LogitFailure), fed;
    }
    return Generated(|turnIds|, generated, text), fed;
  }

  // -------------------------------------------------------------------- accounting

  function Nexts(tokens: seq<nat>): (ops: seq<Op>)
    ensures |ops| == |tokens|
  {
    seq(|tokens|, i requires 0 <= i < |tokens| => Next(tokens[i]))
  }

  predicate NoEos(tokens: seq<nat>) {
    forall i: nat :: i < |tokens| ==> !Encoding.IsEos(tokens[i])
  }

  /**
   * A loop entered with cache `c` and tokens `fed` has fed `more`, none of them EOS or EOT, one cache row
   * each, within the token limit and the context.
   */
  predicate Accounts(e: Engine, c: Cache, fed: seq<nat>, end: LoopEnd, more: seq<nat>)
    requires c.Fits(e.shape)
  {
    && end.fed == fed + more && NoEos(more)
    && end.cache == LogicalRun(e.net, e.shape, c, Nexts(more)).0
    && end.cache.head == c.head + |more| <= e.shape.nCtx
    && (|fed| <= e.maxNew ==> |end.fed| <= e.maxNew)
  }

  lemma {:induction false} LoopAccounting(e: Engine, c: Cache, next: nat, rng: Word, fed: seq<nat>)
    returns (more: seq<nat>)
    requires c.Fits(e.shape)
    ensures Accounts(e, c, fed, Loop(e, c, next, rng, fed), more)
    decreases e.maxNew - |fed|
  {
    if Encoding.IsEos(next) || |fed| >= e.maxNew || c.head >= e.shape.nCtx {
      more := [];
      assert fed + [] == fed;
    } else {
      var c', fed' := Ideal(e.net, e.shape, c, Next(next)).0, fed + [next];
      var rest: seq<nat> := [];
      match e.sampler(DecodeLogits(e.net, c, next, c.head), Recent(fed'), rng) {
        case DrawFailed =>
          assert fed' + [] == fed';
        case Drawn(token, rng') =>
          rest := LoopAccounting(e, c', token, rng', fed');
      }
      AccountsOneMore(e, c, next, fed, Loop(e, c, next, rng, fed), rest);
      more := [next] + rest;
    }
  }

  lemma AccountsOneMore(e: Engine, c: Cache, next: nat, fed: seq<nat>, end: LoopEnd, rest: seq<nat>)
    requires c.Fits(e.shape) && c.head < e.shape.nCtx && |fed| < e.maxNew && !Encoding.IsEos(next)
    requires Accounts(e, Ideal(e.net, e.shape, c, Next(next)).0, fed + [next], end, rest)
    ensures Accounts(e, c, fed, end, [next] + rest)
  {
    assert fed + [next] + rest == fed + ([next] + rest);
    RunOfNexts(e.net, e.shape, c, next, rest);
  }

  /** When drawing never fails the loop stops short of both limits only at an end token. */
  lemma {:induction false} LoopStops(e: Engine, c: Cache, next: nat, rng: Word, fed: seq<nat>)
    requires c.Fits(e.shape)
    ensures var end := Loop(e, c, next, rng, fed);
            end.drawOk ==> Encoding.IsEos(end.next) || |end.fed| >= e.maxNew || end.cache.head >= e.shape.nCtx
    decreases e.maxNew - |fed|
  {
    if !(Encoding.IsEos(next) || |fed| >= e.maxNew || c.head >= e.shape.nCtx) {
      match e.sampler(DecodeLogits(e.net, c, next, c.head), Recent(fed + [next]), rng) {
        case DrawFailed =>
        case Drawn(token, rng') =>
          LoopStops(e, Ideal(e.net, e.shape, c, Next(next)).0, token, rng', fed + [next]);
      }
    }
  }

  lemma RunOfNexts(net: Net, s: Shape, c: Cache, next: nat, rest: seq<nat>)
    requires c.Fits(s)
    ensures LogicalRun(net, s, c, Nexts([next] + rest)).0
         == LogicalRun(net, s, Ideal(net, s, c, Next(next)).0, Nexts(rest)).0
  {
    var ops := Nexts([next] + rest);
    assert ops[0] == Next(next) && ops[1..] == Nexts(rest);
  }

  function Min(a: nat, b: nat): nat { if a < b then a else b }

  /** Room left for generated tokens after a prompt. */
  function Room(e: Engine, c: Cache, ids: seq<nat>): nat
    requires c.head + |ids| <= e.shape.nCtx
  {
    Min(e.maxNew, e.shape.nCtx - c.head - |ids|)
  }

  /** What a turn does to the cache is one prefill and one decode per fed token. */
  function TurnOps(ids: seq<nat>, fed: seq<nat>): seq<Op> { [Feed(ids)] + Nexts(fed) }

  /** The turn got as far as its prefill. */
  predicate Started(r: GenerateResult) { r.Generated? || r.error == LogitFailure }

  /** Accounting of one turn, in all its outcomes. */
  lemma TurnAccounting(e: Engine, c: Cache, ids: seq<nat>, seed: Word)
    requires c.Fits(e.shape)
    ensures var t := RunTurn(e, c, ids, seed);
            && NoEos(t.fed)
            && (Started(t.result) <==> ids != [] && c.head + |ids| <= e.shape.nCtx)
            && (Started(t.result) ==>
                  && t.cache.head == c.head + |ids| + |t.fed| <= e.shape.nCtx
                  && t.cache == LogicalRun(e.net, e.shape, c, TurnOps(ids, t.fed)).0
                  && |t.fed| <= Room(e, c, ids))
            && (t.result.Generated? ==> t.result.promptTokens == |ids| && t.result.generatedTokens == |t.fed|)
            && (!Started(t.result) ==>
                  && t.cache == c && t.fed == []
                  && t.result.error == if ids == [] then EmptyPrompt else ContextFull(c.head + |ids|, e.shape.nCtx))
  {
    if ids != [] && c.head + |ids| <= e.shape.nCtx {
      var c' := Ideal(e.net, e.shape, c, Feed(ids)).0;
      assert TurnOps(ids, [])[1..] == Nexts([]);
      match e.sampler(PrefillLogits(e.net, c, ids, 0), [], seed) {
        case DrawFailed =>
        case Drawn(token, rng) =>
          var more := LoopAccounting(e, c', token, rng, []);
          assert [] + more == more;
          assert TurnOps(ids, more)[1..] == Nexts(more);
      }
    }
  }

  /** No draw from logits of the engine's own model fails. */
  ghost predicate Reliable(e: Engine) {
    forall h, recent, rng :: e.sampler(e.net.project(h), recent, rng).Drawn?
  }

  ghost predicate NeverEnds(sampler: Sampler) {
    forall logits, recent, rng :: sampler(logits, recent, rng).Drawn? ==>
      !Encoding.IsEos(sampler(logits, recent, rng).token)
  }

  lemma {:induction false} LoopReliable(e: Engine, c: Cache, next: nat, rng: Word, fed: seq<nat>)
    requires c.Fits(e.shape) && Reliable(e)
    ensures Loop(e, c, next, rng, fed).drawOk
    ensures NeverEnds(e.sampler) && !Encoding.IsEos(next) ==> !Encoding.IsEos(Loop(e, c, next, rng, fed).next)
    decreases e.maxNew - |fed|
  {
    if !(Encoding.IsEos(next) || |fed| >= e.maxNew || c.head >= e.shape.nCtx) {
      var draw := e.sampler(DecodeLogits(e.net, c, next, c.head), Recent(fed + [next]), rng);
      LoopReliable(e, Ideal(e.net, e.shape, c, Next(next)).0, draw.token, draw.rng, fed + [next]);
    }
  }

  /** A sampler that never fails leaves two failures, told apart by the prompt's length alone. */
  lemma ReliableTurn(e: Engine, c: Cache, ids: seq<nat>, seed: Word)
    requires c.Fits(e.shape) && Reliable(e)
    ensures RunTurn(e, c, ids, seed).result.Generated? <==> ids != [] && c.head + |ids| <= e.shape.nCtx
    ensures NeverEnds(e.sampler) && RunTurn(e, c, ids, seed).result.Generated? ==>
              |RunTurn(e, c, ids, seed).fed| == Room(e, c, ids)
  {
    if ids != [] && c.head + |ids| <= e.shape.nCtx {
      var draw := e.sampler(PrefillLogits(e.net, c, ids, 0), [], seed);
      var c' := Ideal(e.net, e.shape, c, Feed(ids)).0;
      LoopReliable(e, c', draw.token, draw.rng, []);
      LoopStops(e, c', draw.token, draw.rng, []);
      var more := LoopAccounting(e, c', draw.token, draw.rng, []);
    }
  }
}
