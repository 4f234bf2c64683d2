/** The chat with the sampler it really has: when draws fail, and what that does to the session. */
module ConfiguredChat {
  import opened Bytes
  import opened CacheLayout
  import opened Forward
  import opened CacheRuns
  import opened Xorshift
  import S = Sampler
  import opened Generation
  import opened ChatSession
  import opened DrawTrace

  // ------------------------------------------------------------------ one draw

  /** `sample_token` returns an error exactly for these. */
  predicate DrawsFail(cfg: S.SamplingConfig, vocab: nat) {
    S.Validate(cfg).Some? || vocab == 0
  }

  /** What `sample_token` may return; ties leave it some choice. */
  ghost predicate Permitted(
    exp: S.Exp, cfg: S.SamplingConfig, logits: Logits, recent: seq<nat>, rng: Word, d: Draw)
    requires cfg.repeatPenalty != 0.0
  {
    if DrawsFail(cfg, |logits|) then d == DrawFailed
    else
      && d.Drawn? && d.rng == Xorshift64(rng)
      && S.MayDraw(exp, S.Adjusted(logits, recent, cfg), cfg, d.rng, d.token)
  }

  /** The sampler method makes a permitted draw, or ends the program. */
  method DrawOnce(exp: S.Exp, cfg: S.SamplingConfig, logits: Logits, recent: seq<nat>, rng: Word)
    returns (d: Run<Draw>)
    requires S.IsExp(exp) && cfg.repeatPenalty != 0.0
    ensures d.Panic? <==> !DrawsFail(cfg, |logits|) && cfg.topK == Some(0)
    ensures d.Done? ==> Permitted(exp, cfg, logits, recent, rng, d.value)
  {
    var scores := new real[|logits|](i requires 0 <= i < |logits| => logits[i]);
    assert scores[..] == logits;
    var r, rng' := S.SampleToken(exp, scores, cfg, recent, rng);
    match r {
      case Sampled(id) => d := Done(Drawn(id, rng'));
      case Rejected(_) => d := Done(DrawFailed);
      case SamplePanic => d := Panic;
    }
  }

  /** A sampler that only makes permitted draws. */
  ghost predicate Follows(sampler: Generation.Sampler, exp: S.Exp, cfg: S.SamplingConfig)
    requires cfg.repeatPenalty != 0.0
  {
    forall logits, recent, rng :: Permitted(exp, cfg, logits, recent, rng, sampler(logits, recent, rng))
  }

  ghost function SomeDraw(exp: S.Exp, cfg: S.SamplingConfig, logits: Logits, recent: seq<nat>, rng: Word): Draw
    requires cfg.repeatPenalty != 0.0
  {
    if exists d :: Permitted(exp, cfg, logits, recent, rng, d)
    then var d :| Permitted(exp, cfg, logits, recent, rng, d); d
    else DrawFailed
  }

  /** Such samplers exist for every configuration whose draws do not end the program. */
  lemma FollowerExists(exp: S.Exp, cfg: S.SamplingConfig)
    requires S.IsExp(exp) && cfg.repeatPenalty != 0.0 && cfg.topK != Some(0)
    ensures exists sampler :: Follows(sampler, exp, cfg)
  {
    var sampler := (logits: Logits, recent: seq<nat>, rng: Word) => SomeDraw(exp, cfg, logits, recent, rng);
    forall logits, recent, rng: Word ensures Permitted(exp, cfg, logits, recent, rng, sampler(logits, recent, rng)) {
      var d := DrawExists(exp, cfg, logits, recent, rng);
    }
    assert Follows(sampler, exp, cfg);
  }

  lemma DrawExists(exp: S.Exp, cfg: S.SamplingConfig, logits: Logits, recent: seq<nat>, rng: Word) returns (d: Draw)
    requires S.IsExp(exp) && cfg.repeatPenalty != 0.0 && cfg.topK != Some(0)
    ensures Permitted(exp, cfg, logits, recent, rng, d)
  {
    if DrawsFail(cfg, |logits|) {
      d := DrawFailed;
    } else {
      var rng' := Xorshift64(rng);
      var id := S.MayDrawExists(exp, S.Adjusted(logits, recent, cfg), cfg, rng');
      d := Drawn(id, rng');
    }
  }

  // ---------------------------------------------------------------- the whole chat

  /** An engine with this sampling configuration and a vocabulary of this size. */
  ghost predicate Configured(e: Engine, exp: S.Exp, cfg: S.SamplingConfig, vocab: nat) {
    && cfg.repeatPenalty != 0.0
    && Follows(e.sampler, exp, cfg)
    && forall h :: |e.net.project(h)| == vocab
  }

  lemma DrawFailsExactly(
    e: Engine, exp: S.Exp, cfg: S.SamplingConfig, vocab: nat, h: Hidden, recent: seq<nat>, rng: Word)
    requires Configured(e, exp, cfg, vocab)
    ensures e.sampler(e.net.project(h), recent, rng).DrawFailed? <==> DrawsFail(cfg, vocab)
  {
    assert Permitted(exp, cfg, e.net.project(h), recent, rng, e.sampler(e.net.project(h), recent, rng));
  }

  lemma WorkingDrawsReliable(e: Engine, exp: S.Exp, cfg: S.SamplingConfig, vocab: nat)
    requires Configured(e, exp, cfg, vocab) && !DrawsFail(cfg, vocab)
    ensures Reliable(e)
  {
    forall h, recent, rng ensures e.sampler(e.net.project(h), recent, rng).Drawn? {
      DrawFailsExactly(e, exp, cfg, vocab, h, recent, rng);
    }
  }

  /** Draw `k` of a turn leaves the random state `k + 1` steps after the seed, as long as draws succeed. */
  lemma {:induction false} DrawWords(
    e: Engine, exp: S.Exp, cfg: S.SamplingConfig, outs: seq<Option<Outcome>>, fed: seq<nat>, seed: Word,
    draws: seq<Draw>, k: nat)
    requires cfg.repeatPenalty != 0.0 && Follows(e.sampler, exp, cfg)
    requires DrawnFrom(e, outs, fed, seed, draws) && k <= |fed|
    ensures draws[k].Drawn? ==> draws[k].rng == After(seed, k + 1)
  {
    var rng := DrawOf(e, exp, cfg, outs, fed, seed, draws, k);
    if k > 0 {
      DrawWords(e, exp, cfg, outs, fed, seed, draws, k - 1);
    }
    if draws[k].Drawn? {
      Stepped(seed, k, rng, draws[k].rng);
    }
  }

  lemma Stepped(seed: Word, k: nat, before: Word, word: Word)
    requires before == (if k == 0 then seed else After(seed, k)) && word == Xorshift64(before)
    ensures word == After(seed, k + 1)
  {
    assert k == 0 ==> After(seed, 0) == seed;
  }

  lemma DrawOf(
    e: Engine, exp: S.Exp, cfg: S.SamplingConfig, outs: seq<Option<Outcome>>, fed: seq<nat>, seed: Word,
    draws: seq<Draw>, k: nat)
    returns (rng: Word)
    requires cfg.repeatPenalty != 0.0 && Follows(e.sampler, exp, cfg)
    requires DrawnFrom(e, outs, fed, seed, draws) && k <= |fed|
    ensures k > 0 ==> draws[k - 1].Drawn?
    ensures rng == if k == 0 then seed else draws[k - 1].rng
    ensures draws[k].Drawn? ==> draws[k].rng == Xorshift64(rng)
  {
    assert IsDraw(e, outs, fed, seed, draws, k);
    rng := if k == 0 then seed else draws[k - 1].rng;
    DrawAdvances(e.sampler, exp, cfg, outs[k].value.logits, fed[(if k <= 64 then 0 else k - 64)..k], rng);
  }

  lemma DrawAdvances(
    sampler: Generation.Sampler, exp: S.Exp, cfg: S.SamplingConfig, logits: Logits, recent: seq<nat>, rng: Word)
    requires cfg.repeatPenalty != 0.0 && Follows(sampler, exp, cfg)
    ensures sampler(logits, recent, rng).Drawn? ==> sampler(logits, recent, rng).rng == Xorshift64(rng)
  {
    assert Permitted(exp, cfg, logits, recent, rng, sampler(logits, recent, rng));
  }

  /** Whether a message has reached its prefill since the last reset, when no turn ever completes. */
  predicate Prompted(enc: Encoder, s: Shape, lines: seq<string>, before: bool)
    decreases |lines|
  {
    if lines == [] || Parse(lines[0]) == Quit then before
    else Prompted(enc, s, lines[1..], PromptedAfter(enc, s, lines[0], before))
  }

  predicate PromptedAfter(enc: Encoder, s: Shape, line: string, before: bool) {
    match Parse(line)
    case Restart => false
    case Say(message) => before || |TurnTokens(enc, message, 0)| <= s.nCtx
    case _ => before
  }

  lemma FirstTurnFails(e: Engine, exp: S.Exp, cfg: S.SamplingConfig, vocab: nat, ids: seq<nat>, seed: Word)
    requires Configured(e, exp, cfg, vocab) && DrawsFail(cfg, vocab) && ids != []
    ensures var t := RunTurn(e, Empty(e.shape), ids, seed);
            && t.result.Failed? && (t.result == Failed(LogitFailure) <==> |ids| <= e.shape.nCtx)
            && (|ids| > e.shape.nCtx ==> t.cache == Empty(e.shape))
  {
    var c := Empty(e.shape);
    if |ids| <= e.shape.nCtx {
      DrawFailsExactly(e, exp, cfg, vocab, PrefillHidden(e.net, c, ids, 0, e.shape.nLayers)[|ids| - 1], [], seed);
    }
  }

  /** When every draw fails, a chat that is still as new is spoiled by the first prompt that fits. */
  lemma FirstPromptSpoils(
    e: Engine, enc: Encoder, exp: S.Exp, cfg: S.SamplingConfig, vocab: nat, line: string, seed: Word)
    requires Configured(e, exp, cfg, vocab) && DrawsFail(cfg, vocab)
    ensures SpoiledAfter(e, enc, Fresh(e.shape), line, seed, false) <==> PromptedAfter(enc, e.shape, line, false)
    ensures !PromptedAfter(enc, e.shape, line, false) ==>
              ChatStep(e, enc, Fresh(e.shape), line, seed) == Fresh(e.shape)
  {
    if Parse(line).Say? {
      TrimIsIdempotent(line);
      TemplateEnds(enc, Parse(line).message, 0);
      FirstTurnFails(e, exp, cfg, vocab, TurnTokens(enc, Parse(line).message, 0), seed);
    }
  }

  lemma {:induction false} SpoiledIsPrompted(
    e: Engine, enc: Encoder, exp: S.Exp, cfg: S.SamplingConfig, vocab: nat,
    chat: Chat, lines: seq<string>, seeds: seq<Word>, before: bool)
    requires Configured(e, exp, cfg, vocab) && DrawsFail(cfg, vocab)
    requires chat.cache.Fits(e.shape) && |lines| == |seeds| && (!before ==> chat == Fresh(e.shape))
    ensures Spoiled(e, enc, chat, lines, seeds, before) <==> Prompted(enc, e.shape, lines, before)
    decreases |lines|
  {
    if lines != [] && Parse(lines[0]) != Quit {
      if !before {
        FirstPromptSpoils(e, enc, exp, cfg, vocab, lines[0], seeds[0]);
      }
      SpoiledIsPrompted(e, enc, exp, cfg, vocab, ChatStep(e, enc, chat, lines[0], seeds[0]), lines[1..], seeds[1..],
        PromptedAfter(enc, e.shape, lines[0], before));
    }
  }

  /**
   * The session law, read off the configuration and the input alone: over any input from a fresh start
   * the cache is the conversation exactly when the configuration is valid and the vocabulary nonempty, or
   * else no message since the last reset was short enough to be prefilled.
   */
  lemma FaithfulByConfiguration(
    e: Engine, enc: Encoder, exp: S.Exp, cfg: S.SamplingConfig, vocab: nat, lines: seq<string>, seeds: seq<Word>)
    requires Configured(e, exp, cfg, vocab) && |lines| == |seeds|
    ensures Faithful(e, enc, ChatRun(e, enc, Fresh(e.shape), lines, seeds))
            <==> !DrawsFail(cfg, vocab) || !Prompted(enc, e.shape, lines, false)
  {
    var spoiled := Spoiled(e, enc, Fresh(e.shape), lines, seeds, false);
    assert Faithful(e, enc, ChatRun(e, enc, Fresh(e.shape), lines, seeds)) <==> !spoiled by {
      FaithfulExactly(e, enc, lines, seeds);
    }
    if DrawsFail(cfg, vocab) {
      assert spoiled <==> Prompted(enc, e.shape, lines, false) by {
        SpoiledIsPrompted(e, enc, exp, cfg, vocab, Fresh(e.shape), lines, seeds, false);
      }
    } else {
      assert !spoiled by {
        WorkingDrawsReliable(e, exp, cfg, vocab);
        ReliableNeverSpoils(e, enc, Fresh(e.shape), lines, seeds);
      }
    }
  }

  /** A single shot leaves rows behind exactly when its prompt is prefilled and draws fail. */
  lemma SingleShotLeavesRowsExactly(
    e: Engine, o: Options, enc: Encoder, exp: S.Exp, cfg: S.SamplingConfig, vocab: nat, prompt: string, seed: Word)
    requires Configured(e, exp, cfg, vocab)
    ensures LeavesRows(e, o, enc, prompt, seed) <==>
            var ids := PromptIds(o, enc, prompt);
            Trim(prompt) != [] && ids != [] && |ids| < o.contextLen && |ids| <= e.shape.nCtx && DrawsFail(cfg, vocab)
  {
    var c, ids := Empty(e.shape), PromptIds(o, enc, prompt);
    TurnAccounting(e, c, ids, seed);
    if DrawsFail(cfg, vocab) {
      if ids != [] && |ids| <= e.shape.nCtx {
        DrawFailsExactly(e, exp, cfg, vocab,
          PrefillHidden(e.net, c, ids, 0, e.shape.nLayers)[|ids| - 1], [], seed);
      }
    } else {
      WorkingDrawsReliable(e, exp, cfg, vocab);
      ReliableTurn(e, c, ids, seed);
    }
  }

  /** The default configuration with the temperature set to 0. */
  const ZERO_TEMPERATURE: S.SamplingConfig := S.SamplingConfig(0.0, 0.9, Some(40), 1.1)

  /** At temperature 0 the first message fails after its prefill and leaves rows that no turn counts. */
  lemma FailedDrawDesynchronises(e: Engine, enc: Encoder, exp: S.Exp, vocab: nat, line: string, seed: Word)
    requires Configured(e, exp, ZERO_TEMPERATURE, vocab)
    requires Parse(line).Say? && |TurnTokens(enc, Parse(line).message, 0)| <= e.shape.nCtx
    ensures var next := ChatStep(e, enc, Fresh(e.shape), line, seed);
            next.turns == 0 && next.cache.head == |TurnTokens(enc, Parse(line).message, 0)| > 0
  {
    var ids := TurnTokens(enc, Parse(line).message, 0);
    TrimIsIdempotent(line);
    TemplateEnds(enc, Parse(line).message, 0);
    DrawFailsExactly(e, exp, ZERO_TEMPERATURE, vocab,
      PrefillHidden(e.net, Empty(e.shape), ids, 0, e.shape.nLayers)[|ids| - 1], [], seed);
  }
}
