/** Single-shot generation, the chat templates, and the multi-turn chat session. */
module ChatSession {
  import opened Bytes
  import opened CacheLayout
  import opened KvCache
  import opened Forward
  import opened CacheRuns
  import opened TokenLog
  import opened Generation
  import opened Xorshift
  import Encoding

  /** The tokenizer's `encode(text, add_bos)`. */
  type Encoder = (string, bool) -> seq<nat>

  // --------------------------------------------------------------------- text

  /** Unicode White_Space, which `trim` removes. */
  predicate IsSpace(c: char) {
    var u := c as int;
    0x9 <= u <= 0xD || u == 0x20 || u == 0x85 || u == 0xA0 || u == 0x1680 || 0x2000 <= u <= 0x200A
    || u == 0x2028 || u == 0x2029 || u == 0x202F || u == 0x205F || u == 0x3000
  }

  function TrimStart(s: string): string {
    if s != [] && IsSpace(s[0]) then TrimStart(s[1..]) else s
  }

  function TrimEnd(s: string): string {
    if s != [] && IsSpace(s[|s| - 1]) then TrimEnd(s[..|s| - 1]) else s
  }

  function Trim(s: string): string { TrimEnd(TrimStart(s)) }

  // ---------------------------------------------------------------- templates

  const T_BOS: nat := 128_000
  const T_START_HEADER: nat := 128_006
  const T_END_HEADER: nat := 128_007
  const T_EOT: nat := 128_009
  const T_NEWLINES: nat := 271

  function Header(enc: Encoder, role: string): seq<nat> {
    [T_START_HEADER] + enc(role, false) + [T_END_HEADER]
  }

  /** What only the first turn carries: BOS and the system prompt. */
  function Preamble(enc: Encoder): seq<nat> {
    [T_BOS] + Header(enc, "system") + enc("\n\nYou are a helpful AI assistant.", false) + [T_EOT]
  }

  /** What every turn carries: the user message and an open assistant header. */
  function Followup(enc: Encoder, message: string): seq<nat> {
    Header(enc, "user") + enc("\n\n" + message, false) + [T_EOT] + Header(enc, "assistant") + [T_NEWLINES]
  }

  function TurnTokens(enc: Encoder, message: string, turn: nat): seq<nat> {
    if turn == 0 then Preamble(enc) + Followup(enc, message) else Followup(enc, message)
  }

  /** `build_chat_tokens`: the first turn is the preamble in front of an ordinary follow-up. */
  method BuildChatTokens(enc: Encoder, message: string) returns (ids: seq<nat>)
    ensures ids == Preamble(enc) + Followup(enc, message)
  {
    ids := [];
    ids := ids + [T_BOS];
    ids := ids + [T_START_HEADER];
    ids := ids + enc("system", false);
    ids := ids + [T_END_HEADER];
    ids := ids + enc("\n\nYou are a helpful AI assistant.", false);
    ids := ids + [T_EOT];
    assert ids == Preamble(enc);
    ids := ids + [T_START_HEADER];
    ids := ids + enc("user", false);
    ids := ids + [T_END_HEADER];
    ids := ids + enc("\n\n" + message, false);
    ids := ids + [T_EOT];
    ids := ids + [T_START_HEADER];
    ids := ids + enc("assistant", false);
    ids := ids + [T_END_HEADER];
    ids := ids + [T_NEWLINES];
  }

  /** `build_followup_chat_tokens` */
  method BuildFollowupChatTokens(enc: Encoder, message: string) returns (ids: seq<nat>)
    ensures ids == Followup(enc, message)
  {
    ids := [];
    ids := ids + [T_START_HEADER];
    ids := ids + enc("user", false);
    ids := ids + [T_END_HEADER];
    ids := ids + enc("\n\n" + message, false);
    ids := ids + [T_EOT];
    ids := ids + [T_START_HEADER];
    ids := ids + enc("assistant", false);
    ids := ids + [T_END_HEADER];
    ids := ids + [T_NEWLINES];
  }

  // --------------------------------------------------------------- single shot

  datatype Options = Options(chatTemplate: bool, addBos: bool, contextLen: nat)

  function PromptIds(o: Options, enc: Encoder, prompt: string): seq<nat> {
    if o.chatTemplate then TurnTokens(enc, prompt, 0) else enc(prompt, o.addBos)
  }

  /** The result of `generate`. It has no cache argument: earlier use of the cache cannot matter. */
  function SingleShot(e: Engine, o: Options, enc: Encoder, prompt: string, seed: Word): GenerateResult {
    var ids := PromptIds(o, enc, prompt);
    if Trim(prompt) == [] || ids == [] then Failed(EmptyPrompt)
    else if |ids| >= o.contextLen then Failed(ContextLengthExceeded(o.contextLen))
    else RunTurn(e, Empty(e.shape), ids, seed).result
  }

  /** A draw fails after the prefill, which returns without the second reset. */
  predicate LeavesRows(e: Engine, o: Options, enc: Encoder, prompt: string, seed: Word) {
    var ids := PromptIds(o, enc, prompt);
    && Trim(prompt) != [] && ids != [] && |ids| < o.contextLen
    && RunTurn(e, Empty(e.shape), ids, seed).result == Failed(LogitFailure)
  }

  /** The cache after a single shot: untouched by a blank prompt, else empty but for a failed draw's rows. */
  function SingleShotCache(e: Engine, o: Options, enc: Encoder, c: Cache, prompt: string, seed: Word): Cache {
    if Trim(prompt) == [] then c
    else if LeavesRows(e, o, enc, prompt, seed) then RunTurn(e, Empty(e.shape), PromptIds(o, enc, prompt), seed).cache
    else Empty(e.shape)
  }

  lemma SingleShotEnds(e: Engine, o: Options, enc: Encoder, c: Cache, prompt: string, seed: Word)
    requires Trim(prompt) != [] && PromptIds(o, enc, prompt) != [] && |PromptIds(o, enc, prompt)| < o.contextLen
    ensures var t := RunTurn(e, Empty(e.shape), PromptIds(o, enc, prompt), seed);
            SingleShotCache(e, o, enc, c, prompt, seed) == if t.result.Failed? then t.cache else Empty(e.shape)
  {
    TurnAccounting(e, Empty(e.shape), PromptIds(o, enc, prompt), seed);
  }

  method Generate(e: Engine, o: Options, enc: Encoder, g: LlamaGraph, prompt: string, seed: Word)
    returns (r: GenerateResult)
    requires g.Valid() && g.net == e.net && g.kv.shape == e.shape
    modifies g.kv, g.kv.data
    ensures g.Valid()
    ensures r == SingleShot(e, o, enc, prompt, seed)
    ensures g.kv.Contents() == SingleShotCache(e, o, enc, old(g.kv.Contents()), prompt, seed)
  {
    if Trim(prompt) == [] {
      return Failed(EmptyPrompt);
    }
    g.ResetKv();
    assert g.kv.Contents() == Empty(e.shape);
    var promptIds: seq<nat>;
    if o.chatTemplate {
      promptIds := BuildChatTokens(enc, prompt);
    } else {
      promptIds := enc(prompt, o.addBos);
    }
    if promptIds == [] {
      return Failed(EmptyPrompt);
    }
    if |promptIds| >= o.contextLen {
      return Failed(ContextLengthExceeded(o.contextLen));
    }
    ghost var fed;
    r, fed := RunGeneration(e, g, promptIds, seed);
    SingleShotEnds(e, o, enc, old(g.kv.Contents()), prompt, seed);
    if r.Failed? {
      return;
    }
    g.ResetKv();
    assert g.kv.Contents() == Empty(e.shape);
  }

  // ----------------------------------------------------------- the log of a turn

  function FedEntries(from: nat, fed: seq<nat>): (log: seq<Entry>)
    ensures |log| == |fed|
  {
    seq(|fed|, i requires 0 <= i < |fed| => Entry(fed[i], from + i, from + i))
  }

  lemma {:induction false} LogOfNexts(s: Shape, log: seq<Entry>, fed: seq<nat>)
    requires |log| + |fed| <= s.nCtx
    ensures LogOf(s, log, Nexts(fed)) == log + FedEntries(|log|, fed)
    decreases |fed|
  {
    if fed == [] {
      assert log + FedEntries(|log|, fed) == log;
    } else {
      var log', rest := log + [Entry(fed[0], |log|, |log|)], fed[1..];
      assert Nexts(fed)[0] == Next(fed[0]) && Nexts(fed)[1..] == Nexts(rest);
      LogOfNexts(s, log', rest);
      assert log' + FedEntries(|log'|, rest) == log + FedEntries(|log|, fed);
    }
  }

  /** The entries a turn adds: the template numbered from 0, the answer numbered by cache row. */
  function TurnLog(start: nat, ids: seq<nat>, fed: seq<nat>): (log: seq<Entry>)
    ensures |log| == |ids| + |fed|
  {
    Batch(ids, start + |ids|) + FedEntries(start + |ids|, fed)
  }

  lemma LogOfTurn(s: Shape, log: seq<Entry>, ids: seq<nat>, fed: seq<nat>)
    requires |log| + |ids| + |fed| <= s.nCtx
    ensures LogOf(s, log, TurnOps(ids, fed)) == log + TurnLog(|log|, ids, fed)
  {
    var prompted := LogAfter(s, log, Feed(ids));
    assert prompted == log + Batch(ids, |log| + |ids|);
    assert LogOf(s, log, TurnOps(ids, fed)) == LogOf(s, prompted, Nexts(fed)) by {
      LogCons(s, log, Feed(ids), Nexts(fed));
    }
    assert LogOf(s, prompted, Nexts(fed)) == prompted + FedEntries(|prompted|, fed) by {
      LogOfNexts(s, prompted, fed);
    }
    TurnLogAppended(log, ids, fed, prompted);
  }

  lemma LogCons(s: Shape, log: seq<Entry>, op: Op, ops: seq<Op>)
    ensures LogOf(s, log, [op] + ops) == LogOf(s, LogAfter(s, log, op), ops)
  {
    assert ([op] + ops)[1..] == ops;
  }

  lemma TurnLogAppended(log: seq<Entry>, ids: seq<nat>, fed: seq<nat>, prompted: seq<Entry>)
    requires prompted == log + Batch(ids, |log| + |ids|)
    ensures prompted + FedEntries(|prompted|, fed) == log + TurnLog(|log|, ids, fed)
  {
    var answer := FedEntries(|prompted|, fed);
    assert prompted + answer == log + (Batch(ids, |log| + |ids|) + answer);
  }

  /** In a single shot every cache row carries its own index as position. */
  lemma SingleShotInPlace(e: Engine, ids: seq<nat>, seed: Word)
    requires RunTurn(e, Empty(e.shape), ids, seed).result.Generated?
    ensures var t := RunTurn(e, Empty(e.shape), ids, seed);
            && InPlace(TurnLog(0, ids, t.fed))
            && Accounted(e.net, t.cache, TurnLog(0, ids, t.fed))
  {
    var t := RunTurn(e, Empty(e.shape), ids, seed);
    TurnAccounting(e, Empty(e.shape), ids, seed);
    LogOfTurn(e.shape, [], ids, t.fed);
    EmptyAccounted(e.net, e.shape);
    RunAccounted(e.net, e.shape, Empty(e.shape), [], TurnOps(ids, t.fed));
    assert [] + TurnLog(0, ids, t.fed) == TurnLog(0, ids, t.fed);
  }

  // ------------------------------------------------------------------- the chat

  datatype Command = Ignore | Restart | Quit | Say(message: string)

  function Parse(line: string): Command {
    var trimmed := Trim(line);
    if trimmed == [] then Ignore
    else if trimmed == "/reset" then Restart
    else if trimmed == "/quit" || trimmed == "/exit" then Quit
    else Say(trimmed)
  }

  /** A completed turn. */
  datatype Exchange = Exchange(message: string, fed: seq<nat>)

  /** Turn count, cache, and the turns completed since the last reset. */
  datatype Chat = Chat(turns: nat, cache: Cache, transcript: seq<Exchange>)

  function Fresh(s: Shape): Chat { Chat(0, Empty(s), []) }

  /** `generate_turn` */
  function TurnOf(e: Engine, enc: Encoder, c: Cache, message: string, turn: nat, seed: Word): Turn
    requires c.Fits(e.shape)
  {
    if Trim(message) == [] then Turn(c, [], Failed(EmptyPrompt))
    else RunTurn(e, c, TurnTokens(enc, message, turn), seed)
  }

  function ChatStep(e: Engine, enc: Encoder, chat: Chat, line: string, seed: Word): (next: Chat)
    requires chat.cache.Fits(e.shape)
    ensures next.cache.Fits(e.shape)
  {
    match Parse(line)
    case Ignore => chat
    case Quit => chat
    case Restart => Fresh(e.shape)
    case Say(message) =>
      var t := TurnOf(e, enc, chat.cache, message, chat.turns, seed);
      TurnFits(e, chat.cache, TurnTokens(enc, message, chat.turns), seed);
      if t.result.Generated?
      then Chat(chat.turns + 1, t.cache, chat.transcript + [Exchange(message, t.fed)])
      else chat.(cache := t.cache)
  }

  lemma TurnFits(e: Engine, c: Cache, ids: seq<nat>, seed: Word)
    requires c.Fits(e.shape)
    ensures RunTurn(e, c, ids, seed).cache.Fits(e.shape)
  {
    if ids != [] && c.head + |ids| <= e.shape.nCtx {
      match e.sampler(PrefillLogits(e.net, c, ids, 0), [], seed) {
        case DrawFailed =>
        case Drawn(token, rng) =>
          var more := LoopAccounting(e, Ideal(e.net, e.shape, c, Feed(ids)).0, token, rng, []);
      }
    }
  }

  /** The chat after reading `lines`, one random seed each, up to the first `/quit` or `/exit`. */
  function ChatRun(e: Engine, enc: Encoder, chat: Chat, lines: seq<string>, seeds: seq<Word>): (end: Chat)
    requires chat.cache.Fits(e.shape) && |lines| == |seeds|
    ensures end.cache.Fits(e.shape)
    decreases |lines|
  {
    if lines == [] || Parse(lines[0]) == Quit then chat
    else ChatRun(e, enc, ChatStep(e, enc, chat, lines[0], seeds[0]), lines[1..], seeds[1..])
  }

  class Session {
    var turnCount: nat
    const contextLen: nat

    constructor (contextLen: nat)
      ensures turnCount == 0 && this.contextLen == contextLen
    {
      turnCount := 0;
      this.contextLen := contextLen;
    }

    method RecordTurn()
      modifies this
      ensures turnCount == old(turnCount) + 1
    {
      turnCount := turnCount + 1;
    }
  }

  method GenerateTurn(e: Engine, enc: Encoder, g: LlamaGraph, message: string, turn: nat, seed: Word)
    returns (r: GenerateResult, ghost fed: seq<nat>)
    requires g.Valid() && g.net == e.net && g.kv.shape == e.shape
    modifies g.kv, g.kv.data
    ensures g.Valid()
    ensures Turn(g.kv.Contents(), fed, r) == TurnOf(e, enc, old(g.kv.Contents()), message, turn, seed)
  {
    if Trim(message) == [] {
      return Failed(EmptyPrompt), [];
    }
    var ids: seq<nat>;
    if turn == 0 {
      ids := BuildChatTokens(enc, message);
    } else {
      ids := BuildFollowupChatTokens(enc, message);
    }
    r, fed := RunGeneration(e, g, ids, seed);
  }

  /** One line of `run_chat` that does not end it. */
  method ReadLine(
    e: Engine, enc: Encoder, g: LlamaGraph, session: Session, line: string, seed: Word, ghost transcript: seq<Exchange>)
    returns (session': Session, ghost transcript': seq<Exchange>)
    requires g.Valid() && g.net == e.net && g.kv.shape == e.shape
    modifies g.kv, g.kv.data, session
    ensures g.Valid() && (session' == session || fresh(session'))
    ensures Chat(session'.turnCount, g.kv.Contents(), transcript') ==
            ChatStep(e, enc, Chat(old(session.turnCount), old(g.kv.Contents()), transcript), line, seed)
  {
    session', transcript' := session, transcript;
    match Parse(line) {
      case Ignore =>
      case Quit =>
      case Restart =>
        g.ResetKv();
        assert g.kv.Contents() == Empty(e.shape);
        session' := new Session(session.contextLen);
        transcript' := [];
      case Say(message) =>
        ghost var fed: seq<nat>;
        var r;
        r, fed := GenerateTurn(e, enc, g, message, session.turnCount, seed);
        if r.Generated? {
          session.RecordTurn();
          transcript' := transcript + [Exchange(message, fed)];
        }
    }
  }

  /** `run_chat` over a given input. */
  method RunChat(e: Engine, enc: Encoder, g: LlamaGraph, contextLen: nat, lines: seq<string>, seeds: seq<Word>)
    returns (session: Session, ghost transcript: seq<Exchange>)
    requires g.Valid() && g.net == e.net && g.kv.shape == e.shape && |lines| == |seeds|
    modifies g.kv, g.kv.data
    ensures g.Valid()
    ensures Chat(session.turnCount, g.kv.Contents(), transcript) ==
            ChatRun(e, enc, Chat(0, old(g.kv.Contents()), []), lines, seeds)
  {
    session := new Session(contextLen);
    transcript := [];
    ghost var end := ChatRun(e, enc, Chat(0, g.kv.Contents(), []), lines, seeds);
    assert lines[0..] == lines && seeds[0..] == seeds;
    for i := 0 to |lines|
      invariant g.Valid() && fresh(session)
      invariant end == ChatRun(e, enc, Chat(session.turnCount, g.kv.Contents(), transcript), lines[i..], seeds[i..])
    {
      assert lines[i..][1..] == lines[i + 1..] && seeds[i..][1..] == seeds[i + 1..];
      if Parse(lines[i]) == Quit {
        return;
      }
      session, transcript := ReadLine(e, enc, g, session, lines[i], seeds[i], transcript);
    }
  }

  // ------------------------------------------------------------ the session's log

  /** The cache operations of a conversation, and the log entries they leave. */
  function TranscriptOps(enc: Encoder, transcript: seq<Exchange>): seq<Op> {
    if transcript == [] then []
    else
      var n := |transcript| - 1;
      TranscriptOps(enc, transcript[..n])
      + TurnOps(TurnTokens(enc, transcript[n].message, n), transcript[n].fed)
  }

  function TranscriptLog(enc: Encoder, transcript: seq<Exchange>): seq<Entry> {
    if transcript == [] then []
    else
      var n := |transcript| - 1;
      var before := TranscriptLog(enc, transcript[..n]);
      before + TurnLog(|before|, TurnTokens(enc, transcript[n].message, n), transcript[n].fed)
  }

  lemma {:induction false} RunAppend(net: Net, s: Shape, c: Cache, a: seq<Op>, b: seq<Op>)
    requires c.Fits(s)
    ensures LogicalRun(net, s, c, a + b).0 == LogicalRun(net, s, LogicalRun(net, s, c, a).0, b).0
    decreases |a|
  {
    if a == [] {
      assert a + b == b;
    } else {
      assert (a + b)[1..] == a[1..] + b;
      RunAppend(net, s, Ideal(net, s, c, a[0]).0, a[1..], b);
    }
  }

  lemma {:induction false} LogAppend(s: Shape, log: seq<Entry>, a: seq<Op>, b: seq<Op>)
    ensures LogOf(s, log, a + b) == LogOf(s, LogOf(s, log, a), b)
    decreases |a|
  {
    if a == [] {
      assert a + b == b;
    } else {
      assert (a + b)[1..] == a[1..] + b;
      LogAppend(s, LogAfter(s, log, a[0]), a[1..], b);
    }
  }

  /** The cache holds exactly the conversation: its turns, in order, and nothing else. */
  predicate Faithful(e: Engine, enc: Encoder, chat: Chat)
    requires chat.cache.Fits(e.shape)
  {
    && chat.turns == |chat.transcript|
    && chat.cache == LogicalRun(e.net, e.shape, Empty(e.shape), TranscriptOps(enc, chat.transcript)).0
    && LogOf(e.shape, [], TranscriptOps(enc, chat.transcript)) == TranscriptLog(enc, chat.transcript)
    && |TranscriptLog(enc, chat.transcript)| == chat.cache.head
    && (forall i: nat :: i < |chat.transcript| ==> NoEos(chat.transcript[i].fed))
  }

  lemma TurnKeepsFaithful(e: Engine, enc: Encoder, chat: Chat, message: string, seed: Word)
    requires chat.cache.Fits(e.shape) && Faithful(e, enc, chat)
    requires RunTurn(e, chat.cache, TurnTokens(enc, message, chat.turns), seed).result.Generated?
    ensures var t := RunTurn(e, chat.cache, TurnTokens(enc, message, chat.turns), seed);
            var next := Chat(chat.turns + 1, t.cache, chat.transcript + [Exchange(message, t.fed)]);
            t.cache.Fits(e.shape) && Faithful(e, enc, next)
  {
    var ids := TurnTokens(enc, message, chat.turns);
    var t := RunTurn(e, chat.cache, ids, seed);
    var transcript := chat.transcript + [Exchange(message, t.fed)];
    TurnFits(e, chat.cache, ids, seed);
    TurnAccounting(e, chat.cache, ids, seed);
    assert transcript[..|chat.transcript|] == chat.transcript;
    var before, turn := TranscriptOps(enc, chat.transcript), TurnOps(ids, t.fed);
    assert TranscriptOps(enc, transcript) == before + turn;
    RunAppend(e.net, e.shape, Empty(e.shape), before, turn);
    LogAppend(e.shape, [], before, turn);
    LogOfTurn(e.shape, TranscriptLog(enc, chat.transcript), ids, t.fed);
  }

  // ------------------------------------------------- exactly when the law holds

  /** The cache holds more rows than the conversation accounts for. */
  predicate Overfull(enc: Encoder, chat: Chat) {
    chat.turns == |chat.transcript| && |TranscriptLog(enc, chat.transcript)| < chat.cache.head
  }

  /** Where a chat stands, by whether a draw has failed since the last reset. */
  predicate Stands(e: Engine, enc: Encoder, chat: Chat, spoiled: bool)
    requires chat.cache.Fits(e.shape)
  {
    if spoiled then Overfull(enc, chat) else Faithful(e, enc, chat)
  }

  predicate DrawFails(e: Engine, enc: Encoder, chat: Chat, line: string, seed: Word)
    requires chat.cache.Fits(e.shape)
  {
    && Parse(line).Say?
    && TurnOf(e, enc, chat.cache, Parse(line).message, chat.turns, seed).result == Failed(LogitFailure)
  }

  predicate SpoiledAfter(e: Engine, enc: Encoder, chat: Chat, line: string, seed: Word, before: bool)
    requires chat.cache.Fits(e.shape)
  {
    !Parse(line).Restart? && (before || DrawFails(e, enc, chat, line, seed))
  }

  /** Some draw fails after the last reset of the run. */
  predicate Spoiled(e: Engine, enc: Encoder, chat: Chat, lines: seq<string>, seeds: seq<Word>, before: bool)
    requires chat.cache.Fits(e.shape) && |lines| == |seeds|
    decreases |lines|
  {
    if lines == [] || Parse(lines[0]) == Quit then before
    else Spoiled(e, enc, ChatStep(e, enc, chat, lines[0], seeds[0]), lines[1..], seeds[1..],
                 SpoiledAfter(e, enc, chat, lines[0], seeds[0], before))
  }

  lemma LogGrows(enc: Encoder, transcript: seq<Exchange>, x: Exchange)
    ensures |TranscriptLog(enc, transcript + [x])|
         == |TranscriptLog(enc, transcript)| + |TurnTokens(enc, x.message, |transcript|)| + |x.fed|
  {
    assert (transcript + [x])[..|transcript|] == transcript;
  }

  /** One turn, from wherever the chat stands. */
  lemma TurnKeepsStanding(e: Engine, enc: Encoder, chat: Chat, message: string, seed: Word, spoiled: bool)
    requires chat.cache.Fits(e.shape) && Stands(e, enc, chat, spoiled)
    ensures var t := RunTurn(e, chat.cache, TurnTokens(enc, message, chat.turns), seed);
            && t.cache.Fits(e.shape)
            && (t.result.Generated? ==>
                  Stands(e, enc, Chat(chat.turns + 1, t.cache, chat.transcript + [Exchange(message, t.fed)]), spoiled))
            && (t.result.Failed? ==>
                  Stands(e, enc, chat.(cache := t.cache), spoiled || t.result.error == LogitFailure))
            && (t.result.Failed? && t.result.error != LogitFailure ==>
                  t.result.error.ContextFull? && t.cache == chat.cache)
  {
    var ids := TurnTokens(enc, message, chat.turns);
    var t := RunTurn(e, chat.cache, ids, seed);
    TemplateEnds(enc, message, chat.turns);
    TurnFits(e, chat.cache, ids, seed);
    TurnAccounting(e, chat.cache, ids, seed);
    if t.result.Generated? {
      if spoiled {
        LogGrows(enc, chat.transcript, Exchange(message, t.fed));
      } else {
        TurnKeepsFaithful(e, enc, chat, message, seed);
      }
    }
  }

  /**
   * A step keeps the session faithful unless a draw fails; any other failure is a full context and
   * changes nothing. What a failed draw spoils, only a reset repairs.
   */
  lemma StepKeepsStanding(e: Engine, enc: Encoder, chat: Chat, line: string, seed: Word, spoiled: bool)
    requires chat.cache.Fits(e.shape) && Stands(e, enc, chat, spoiled)
    ensures Stands(e, enc, ChatStep(e, enc, chat, line, seed), SpoiledAfter(e, enc, chat, line, seed, spoiled))
    ensures Parse(line).Say? && !DrawFails(e, enc, chat, line, seed) ==>
              var t := TurnOf(e, enc, chat.cache, Parse(line).message, chat.turns, seed);
              t.result.Failed? ==> t.result.error.ContextFull? && ChatStep(e, enc, chat, line, seed) == chat
  {
    match Parse(line) {
      case Ignore =>
      case Quit =>
      case Restart =>
        assert Faithful(e, enc, Fresh(e.shape));
      case Say(message) =>
        TrimIsIdempotent(line);
        TurnKeepsStanding(e, enc, chat, message, seed, spoiled);
    }
  }

  lemma {:induction false} TrimStartStops(s: string)
    ensures TrimStart(s) == [] || !IsSpace(TrimStart(s)[0])
  {
    if s != [] && IsSpace(s[0]) {
      TrimStartStops(s[1..]);
    }
  }

  lemma {:induction false} TrimEndStops(s: string)
    ensures TrimEnd(s) <= s
    ensures TrimEnd(s) == [] || !IsSpace(TrimEnd(s)[|TrimEnd(s)| - 1])
  {
    if s != [] && IsSpace(s[|s| - 1]) {
      TrimEndStops(s[..|s| - 1]);
    }
  }

  lemma TrimIsIdempotent(s: string)
    ensures Trim(Trim(s)) == Trim(s)
  {
    TrimStartStops(s);
    TrimEndStops(TrimStart(s));
  }

  lemma {:induction false} RunKeepsStanding(
    e: Engine, enc: Encoder, chat: Chat, lines: seq<string>, seeds: seq<Word>, spoiled: bool)
    requires chat.cache.Fits(e.shape) && |lines| == |seeds| && Stands(e, enc, chat, spoiled)
    ensures Stands(e, enc, ChatRun(e, enc, chat, lines, seeds), Spoiled(e, enc, chat, lines, seeds, spoiled))
    decreases |lines|
  {
    if lines != [] && Parse(lines[0]) != Quit {
      StepKeepsStanding(e, enc, chat, lines[0], seeds[0], spoiled);
      RunKeepsStanding(e, enc, ChatStep(e, enc, chat, lines[0], seeds[0]), lines[1..], seeds[1..],
        SpoiledAfter(e, enc, chat, lines[0], seeds[0], spoiled));
    }
  }

  /**
   * The session law: over any input from a fresh start the cache is the conversation exactly when no
   * draw has failed since the last reset.
   */
  lemma FaithfulExactly(e: Engine, enc: Encoder, lines: seq<string>, seeds: seq<Word>)
    requires |lines| == |seeds|
    ensures Faithful(e, enc, ChatRun(e, enc, Fresh(e.shape), lines, seeds))
            <==> !Spoiled(e, enc, Fresh(e.shape), lines, seeds, false)
  {
    assert Faithful(e, enc, Fresh(e.shape));
    RunKeepsStanding(e, enc, Fresh(e.shape), lines, seeds, false);
  }

  /** A sampler that never fails never spoils a chat. */
  lemma {:induction false} ReliableNeverSpoils(
    e: Engine, enc: Encoder, chat: Chat, lines: seq<string>, seeds: seq<Word>)
    requires chat.cache.Fits(e.shape) && |lines| == |seeds| && Reliable(e)
    ensures !Spoiled(e, enc, chat, lines, seeds, false)
    decreases |lines|
  {
    if lines != [] && Parse(lines[0]) != Quit {
      if Parse(lines[0]).Say? {
        var ids := TurnTokens(enc, Parse(lines[0]).message, chat.turns);
        ReliableTurn(e, chat.cache, ids, seeds[0]);
        TurnAccounting(e, chat.cache, ids, seeds[0]);
      }
      ReliableNeverSpoils(e, enc, ChatStep(e, enc, chat, lines[0], seeds[0]), lines[1..], seeds[1..]);
    }
  }

  lemma {:induction false} LogEmptyExactly(enc: Encoder, transcript: seq<Exchange>)
    ensures TranscriptLog(enc, transcript) == [] <==> transcript == []
  {
  }

  /** Rows and turn count agree: no turns exactly when no rows; and every row is accounted for. */
  ghost predicate Balanced(e: Engine, enc: Encoder, chat: Chat) {
    && (chat.turns == 0 <==> chat.cache.head == 0)
    && Accounted(e.net, chat.cache, TranscriptLog(enc, chat.transcript))
  }

  lemma FaithfulAccounts(e: Engine, enc: Encoder, chat: Chat)
    requires chat.cache.Fits(e.shape) && Faithful(e, enc, chat)
    ensures Balanced(e, enc, chat)
  {
    var s := e.shape;
    LogEmptyExactly(enc, chat.transcript);
    EmptyAccounted(e.net, s);
    RunAccounted(e.net, s, Empty(s), [], TranscriptOps(enc, chat.transcript));
  }

  lemma ChatAccounting(e: Engine, enc: Encoder, lines: seq<string>, seeds: seq<Word>)
    requires |lines| == |seeds| && !Spoiled(e, enc, Fresh(e.shape), lines, seeds, false)
    ensures Balanced(e, enc, ChatRun(e, enc, Fresh(e.shape), lines, seeds))
  {
    var end := ChatRun(e, enc, Fresh(e.shape), lines, seeds);
    assert Faithful(e, enc, end) by {
      FaithfulExactly(e, enc, lines, seeds);
    }
    FaithfulAccounts(e, enc, end);
  }

  // ----------------------------------------------------------- what the log says

  function TokensOf(log: seq<Entry>): (tokens: seq<nat>)
    ensures |tokens| == |log|
  {
    seq(|log|, i requires 0 <= i < |log| => log[i].token)
  }

  function Exchanges(enc: Encoder, transcript: seq<Exchange>): seq<seq<nat>> {
    seq(|transcript|, i requires 0 <= i < |transcript| =>
      Followup(enc, transcript[i].message) + transcript[i].fed)
  }

  lemma FlattenOne(part: seq<nat>)
    ensures Flatten([part]) == part
  {
    assert Flatten([part]) == part + Flatten([]);
  }

  lemma FirstTurnTokens(preamble: seq<nat>, follow: seq<nat>, fed: seq<nat>)
    ensures TokensOf([] + TurnLog(0, preamble + follow, fed)) == preamble + Flatten([follow + fed])
  {
    FlattenOne(follow + fed);
  }

  lemma LaterTurnTokens(preamble: seq<nat>, log: seq<Entry>, turns: seq<seq<nat>>, follow: seq<nat>, fed: seq<nat>)
    requires TokensOf(log) == preamble + Flatten(turns)
    ensures TokensOf(log + TurnLog(|log|, follow, fed)) == preamble + Flatten(turns + [follow + fed])
  {
    FlattenAppend(turns, [follow + fed]);
    FlattenOne(follow + fed);
    assert TokensOf(log + TurnLog(|log|, follow, fed)) == TokensOf(log) + (follow + fed);
    assert preamble + (Flatten(turns) + (follow + fed)) == preamble + Flatten(turns) + (follow + fed);
  }

  lemma ExchangesStep(enc: Encoder, transcript: seq<Exchange>)
    requires transcript != []
    ensures var n := |transcript| - 1;
            Exchanges(enc, transcript) ==
            Exchanges(enc, transcript[..n]) + [Followup(enc, transcript[n].message) + transcript[n].fed]
  {
  }

  /** Token for token: one preamble, then each message in its follow-up form with its answer. */
  lemma {:induction false} LogTokens(enc: Encoder, transcript: seq<Exchange>)
    requires transcript != []
    ensures TokensOf(TranscriptLog(enc, transcript)) == Preamble(enc) + Flatten(Exchanges(enc, transcript))
  {
    var n := |transcript| - 1;
    var last, before := transcript[n], transcript[..n];
    ExchangesStep(enc, transcript);
    if n > 0 {
      LogTokens(enc, before);
      LaterTurnTokens(
        Preamble(enc), TranscriptLog(enc, before), Exchanges(enc, before), Followup(enc, last.message), last.fed);
    } else {
      assert [] + [Followup(enc, last.message) + last.fed] == [Followup(enc, last.message) + last.fed];
      FirstTurnTokens(Preamble(enc), Followup(enc, last.message), last.fed);
    }
  }

  /** The last row of a turn holds its last fed token, or else the template's last token. */
  lemma LastOfTurn(before: seq<Entry>, ids: seq<nat>, fed: seq<nat>)
    requires ids != [] && !Encoding.IsEos(ids[|ids| - 1]) && NoEos(fed)
    ensures var log := before + TurnLog(|before|, ids, fed);
            log != [] && !Encoding.IsEos(log[|log| - 1].token)
  {
    var log := before + TurnLog(|before|, ids, fed);
    if fed == [] {
      assert log[|log| - 1] == Batch(ids, |before| + |ids|)[|ids| - 1];
    } else {
      assert log[|log| - 1] == FedEntries(|before| + |ids|, fed)[|fed| - 1];
    }
  }

  lemma TemplateEnds(enc: Encoder, message: string, turn: nat)
    ensures var ids := TurnTokens(enc, message, turn); ids != [] && ids[|ids| - 1] == T_NEWLINES
  {
  }

  /**
   * The end-of-turn token a model answers with is sampled but never fed, so the row before a follow-up
   * never holds it.
   */
  lemma PreviousEotNeverCached(e: Engine, enc: Encoder, chat: Chat)
    requires chat.cache.Fits(e.shape) && Faithful(e, enc, chat) && chat.transcript != []
    ensures var log := TranscriptLog(enc, chat.transcript);
            log != [] && !Encoding.IsEos(log[|log| - 1].token)
  {
    var n := |chat.transcript| - 1;
    var last := chat.transcript[n];
    TemplateEnds(enc, last.message, n);
    assert NoEos(last.fed);
    LastOfTurn(TranscriptLog(enc, chat.transcript[..n]), TurnTokens(enc, last.message, n), last.fed);
  }

  lemma TurnInPlaceExactly(before: seq<Entry>, ids: seq<nat>, fed: seq<nat>)
    requires ids != []
    ensures InPlace(before + TurnLog(|before|, ids, fed)) <==> before == []
  {
    var log := before + TurnLog(|before|, ids, fed);
    assert log[|before|] == Batch(ids, |before| + |ids|)[0];
    if before == [] {
      forall p: nat | p < |log| ensures log[p].pos == p {
        assert log[p] == if p < |ids| then Batch(ids, |ids|)[p] else FedEntries(|ids|, fed)[p - |ids|];
      }
    }
  }

  /** A conversation's log is that of its earlier turns and then the last turn's. */
  lemma LastTurn(enc: Encoder, transcript: seq<Exchange>)
    returns (before: seq<Entry>, ids: seq<nat>, fed: seq<nat>)
    requires transcript != []
    ensures TranscriptLog(enc, transcript) == before + TurnLog(|before|, ids, fed)
    ensures ids != [] && (before == [] <==> |transcript| == 1)
  {
    var n := |transcript| - 1;
    before := TranscriptLog(enc, transcript[..n]);
    ids, fed := TurnTokens(enc, transcript[n].message, n), transcript[n].fed;
    LogEmptyExactly(enc, transcript[..n]);
    TemplateEnds(enc, transcript[n].message, n);
  }

  /** Follow-up prompts are numbered from 0 again: rows carry their own index only in a one-turn chat. */
  lemma InPlaceExactly(enc: Encoder, transcript: seq<Exchange>)
    ensures InPlace(TranscriptLog(enc, transcript)) <==> |transcript| <= 1
  {
    if transcript != [] {
      var before, ids, fed := LastTurn(enc, transcript);
      TurnInPlaceExactly(before, ids, fed);
    }
  }

  lemma {:induction false} TranscriptSighted(enc: Encoder, transcript: seq<Exchange>)
    ensures Sighted(TranscriptLog(enc, transcript))
  {
    if transcript != [] {
      var n := |transcript| - 1;
      TranscriptSighted(enc, transcript[..n]);
      TurnSighted(TranscriptLog(enc, transcript[..n]), TurnTokens(enc, transcript[n].message, n), transcript[n].fed);
    }
  }

  lemma TurnSighted(before: seq<Entry>, ids: seq<nat>, fed: seq<nat>)
    requires Sighted(before)
    ensures Sighted(before + TurnLog(|before|, ids, fed))
  {
    var log, start := before + TurnLog(|before|, ids, fed), |before| + |ids|;
    forall p: nat | p < |log| ensures log[p].visible <= |log| {
      if |before| <= p < start {
        assert log[p] == Batch(ids, start)[p - |before|];
      } else if start <= p {
        assert log[p] == FedEntries(start, fed)[p - start];
      }
    }
  }

  /** In a chat whose rows have elements, some model's rows show the numbering exactly from the second turn on. */
  lemma RowsInPlaceExactly(enc: Encoder, s: Shape, transcript: seq<Exchange>)
    requires |TranscriptLog(enc, transcript)| <= s.nCtx
    ensures (forall net: Net :: net.Fits(s) ==> NumberingHidden(net, s, TranscriptLog(enc, transcript)))
            <==> |transcript| <= 1 || s.nLayers == 0 || s.rowLen == 0
  {
    InPlaceExactly(enc, transcript);
    TranscriptSighted(enc, transcript);
    PositionsMatterExactly(s, TranscriptLog(enc, transcript));
  }

  // ----------------------------------------------------- what a single shot leaves behind

  /** So after a prompt with text rows are left exactly when a draw failed. */
  lemma RowsLeftExactly(e: Engine, o: Options, enc: Encoder, c: Cache, prompt: string, seed: Word)
    requires Trim(prompt) != []
    ensures SingleShotCache(e, o, enc, c, prompt, seed).head > 0 <==> LeavesRows(e, o, enc, prompt, seed)
  {
    TurnAccounting(e, Empty(e.shape), PromptIds(o, enc, prompt), seed);
  }
}
