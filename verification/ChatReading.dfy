/** What a reader of the token stream finds in a template, and what the chat makes of a typed line. */
module ChatReading {
  import opened Bytes
  import opened CacheLayout
  import opened KvCache
  import opened CacheRuns
  import opened Generation
  import opened ChatSession
  import opened Xorshift

  // ------------------------------------------------------------------- sections

  /** A role, its content, and whether the content was closed. */
  datatype Section = Section(role: seq<nat>, content: seq<nat>, closed: bool)

  /** Where `mark` first stands; the length when it does not. */
  function Find(ids: seq<nat>, mark: nat): (n: nat)
    ensures n <= |ids|
    ensures n < |ids| ==> ids[n] == mark
    ensures forall i: nat :: i < n ==> ids[i] != mark
  {
    if ids == [] || ids[0] == mark then 0 else 1 + Find(ids[1..], mark)
  }

  lemma FindAt(a: seq<nat>, mark: nat, b: seq<nat>)
    ensures Find(a + [mark] + b, mark) <= |a|
    ensures Find(a + [mark] + b, mark) == |a| <==> mark !in a
  {
    var s, n := a + [mark] + b, Find(a + [mark] + b, mark);
    assert s[|a|] == mark;
    if n < |a| {
      assert s[n] == a[n];
    } else {
      forall i: nat | i < |a| ensures a[i] != mark {
        assert s[i] == a[i];
      }
    }
  }

  /** Start of header, role, end of header, content, end of turn; the last content may be left open. */
  function Sections(ids: seq<nat>): Option<seq<Section>>
    decreases |ids|, 0
  {
    if ids == [] then Some([])
    else if ids[0] != 128_006 || 128_007 !in ids[1..] then None
    else
      var r := Find(ids[1..], 128_007);
      AfterHeader(ids[1..][..r], ids[1..][r + 1..])
  }

  function AfterHeader(role: seq<nat>, body: seq<nat>): Option<seq<Section>>
    decreases |body|, 1
  {
    if 128_009 !in body then Some([Section(role, body, false)])
    else
      var n := Find(body, 128_009);
      match Sections(body[n + 1..])
      case None => None
      case Some(rest) => Some([Section(role, body[..n], true)] + rest)
  }

  function Closed(role: seq<nat>, content: seq<nat>): seq<nat> {
    [128_006] + role + [128_007] + content + [128_009]
  }

  function Open(role: seq<nat>, content: seq<nat>): seq<nat> {
    [128_006] + role + [128_007] + content
  }

  lemma FirstRole(role: seq<nat>, body: seq<nat>)
    ensures var s := AfterHeader(role, body); s.Some? ==> s.value != [] && s.value[0].role == role
  {
  }

  /** A header is read as far as the first mark that ends it. */
  lemma HeaderRead(role: seq<nat>, tail: seq<nat>)
    ensures var ids := [128_006] + role + [128_007] + tail;
            && (128_007 !in role ==> Sections(ids) == AfterHeader(role, tail))
            && (128_007 in role && Sections(ids).Some? ==>
                  Sections(ids).value != [] && |Sections(ids).value[0].role| < |role|)
  {
    var ids := [128_006] + role + [128_007] + tail;
    var r := Find(ids[1..], 128_007);
    assert ids[1..] == role + [128_007] + tail;
    FindAt(role, 128_007, tail);
    assert ids[1..][|role|] == 128_007;
    assert 128_007 in ids[1..];
    FirstRole(ids[1..][..r], ids[1..][r + 1..]);
    if r == |role| {
      assert ids[1..][..r] == role && ids[1..][r + 1..] == tail;
    }
  }

  /** So is a content. */
  lemma ContentRead(role: seq<nat>, content: seq<nat>, rest: seq<nat>, more: seq<Section>)
    ensures AfterHeader(role, content + [128_009] + rest) == Some([Section(role, content, true)] + more)
            <==> 128_009 !in content && Sections(rest) == Some(more)
  {
    var body := content + [128_009] + rest;
    var n := Find(body, 128_009);
    FindAt(content, 128_009, rest);
    assert body[|content|] == 128_009;
    var want := [Section(role, content, true)] + more;
    assert want[0].content == content && want[1..] == more;
    if n == |content| {
      assert body[..n] == content && body[n + 1..] == rest;
      if Sections(rest).Some? {
        var got := [Section(role, content, true)] + Sections(rest).value;
        assert got[1..] == Sections(rest).value;
      }
    } else if Sections(body[n + 1..]).Some? {
      var got := [Section(role, body[..n], true)] + Sections(body[n + 1..]).value;
      assert |got[0].content| == n;
    }
  }

  /** A closed section reads back exactly when its role and content hold no mark that ends them. */
  lemma ClosedExactly(role: seq<nat>, content: seq<nat>, rest: seq<nat>, more: seq<Section>)
    ensures Sections(Closed(role, content) + rest) == Some([Section(role, content, true)] + more)
            <==> 128_007 !in role && 128_009 !in content && Sections(rest) == Some(more)
  {
    var tail := content + [128_009] + rest;
    assert Closed(role, content) + rest == [128_006] + role + [128_007] + tail;
    HeaderRead(role, tail);
    ContentRead(role, content, rest, more);
    assert ([Section(role, content, true)] + more)[0].role == role;
  }

  lemma OpenContent(role: seq<nat>, content: seq<nat>)
    ensures AfterHeader(role, content) == Some([Section(role, content, false)]) <==> 128_009 !in content
  {
    if 128_009 in content {
      var n := Find(content, 128_009);
      if Sections(content[n + 1..]).Some? {
        var got := [Section(role, content[..n], true)] + Sections(content[n + 1..]).value;
        assert got[0].closed;
      }
    }
  }

  /** So does an open one at the end. */
  lemma OpenExactly(role: seq<nat>, content: seq<nat>)
    ensures Sections(Open(role, content)) == Some([Section(role, content, false)])
            <==> 128_007 !in role && 128_009 !in content
  {
    HeaderRead(role, content);
    OpenContent(role, content);
  }

  // ------------------------------------------------------------------- templates

  function UserSection(enc: Encoder, message: string): Section {
    Section(enc("user", false), enc("\n\n" + message, false), true)
  }

  /** The assistant's turn is left open after two line ends. */
  function AssistantSection(enc: Encoder): Section { Section(enc("assistant", false), [271], false) }

  function SystemSection(enc: Encoder): Section {
    Section(enc("system", false), enc("\n\nYou are a helpful AI assistant.", false), true)
  }

  /** Encodings that the marks of a follow-up would not be mistaken in. */
  predicate Unmarked(enc: Encoder, message: string) {
    && 128_007 !in enc("user", false) && 128_009 !in enc("\n\n" + message, false)
    && 128_007 !in enc("assistant", false)
  }

  predicate SystemUnmarked(enc: Encoder) {
    128_007 !in enc("system", false) && 128_009 !in enc("\n\nYou are a helpful AI assistant.", false)
  }

  /** A follow-up reads back as the user's message and an open answer, exactly when no encoding holds a mark. */
  lemma FollowupReadsExactly(enc: Encoder, message: string)
    ensures Sections(TurnTokens(enc, message, 1)) == Some([UserSection(enc, message), AssistantSection(enc)])
            <==> Unmarked(enc, message)
  {
    FollowupShape(enc, message);
    var open := Open(enc("assistant", false), [271]);
    ClosedExactly(enc("user", false), enc("\n\n" + message, false), open, [AssistantSection(enc)]);
    OpenExactly(enc("assistant", false), [271]);
    assert [UserSection(enc, message)] + [AssistantSection(enc)]
           == [UserSection(enc, message), AssistantSection(enc)];
  }

  lemma FollowupShape(enc: Encoder, message: string)
    ensures TurnTokens(enc, message, 1)
         == Closed(enc("user", false), enc("\n\n" + message, false)) + Open(enc("assistant", false), [271])
  {
  }

  /** A first turn is BOS, and reads back as system prompt, message and open answer. */
  lemma FirstTurnReadsExactly(enc: Encoder, message: string)
    ensures var ids := TurnTokens(enc, message, 0);
            && ids != [] && ids[0] == 128_000
            && (Sections(ids[1..]) ==
                  Some([SystemSection(enc), UserSection(enc, message), AssistantSection(enc)])
                <==> SystemUnmarked(enc) && Unmarked(enc, message))
  {
    var ids := TurnTokens(enc, message, 0);
    FirstTurnShape(enc, message);
    FollowupReadsExactly(enc, message);
    ClosedExactly(enc("system", false), enc("\n\nYou are a helpful AI assistant.", false),
      TurnTokens(enc, message, 1), [UserSection(enc, message), AssistantSection(enc)]);
    assert [SystemSection(enc)] + [UserSection(enc, message), AssistantSection(enc)]
           == [SystemSection(enc), UserSection(enc, message), AssistantSection(enc)];
  }

  lemma PreambleShape(enc: Encoder)
    ensures Preamble(enc) ==
            [128_000] + Closed(enc("system", false), enc("\n\nYou are a helpful AI assistant.", false))
  {
  }

  lemma FirstTurnShape(enc: Encoder, message: string)
    ensures var ids := TurnTokens(enc, message, 0);
            && ids != [] && ids[0] == 128_000
            && ids[1..] == Closed(enc("system", false), enc("\n\nYou are a helpful AI assistant.", false))
                           + TurnTokens(enc, message, 1)
  {
    PreambleShape(enc);
    BosInFront(Closed(enc("system", false), enc("\n\nYou are a helpful AI assistant.", false)),
      TurnTokens(enc, message, 1));
  }

  lemma BosInFront(a: seq<nat>, b: seq<nat>)
    ensures ([128_000] + a + b)[1..] == a + b
  {
  }

  /** A single shot with the template reads like a first turn; without it, the prompt is sent bare. */
  lemma SingleShotReads(o: Options, enc: Encoder, prompt: string)
    ensures o.chatTemplate && SystemUnmarked(enc) && Unmarked(enc, prompt) ==>
      var ids := PromptIds(o, enc, prompt);
      && ids != [] && ids[0] == 128_000
      && Sections(ids[1..]) == Some([SystemSection(enc), UserSection(enc, prompt), AssistantSection(enc)])
    ensures !o.chatTemplate ==>
      PromptIds(o, enc, prompt) == if o.addBos then enc(prompt, true) else enc(prompt, false)
  {
    FirstTurnReadsExactly(enc, prompt);
  }

  // ------------------------------------------------------------------------ lines

  predicate AllSpace(s: string) { forall i: nat :: i < |s| ==> IsSpace(s[i]) }

  /** No white space at either end. */
  predicate Bare(s: string) { s == [] || (!IsSpace(s[0]) && !IsSpace(s[|s| - 1])) }

  lemma {:induction false} TrimStartSplits(s: string) returns (a: string)
    ensures s == a + TrimStart(s) && AllSpace(a)
    ensures TrimStart(s) == [] || !IsSpace(TrimStart(s)[0])
  {
    if s != [] && IsSpace(s[0]) {
      var rest := TrimStartSplits(s[1..]);
      a := [s[0]] + rest;
    } else {
      a := [];
    }
  }

  lemma {:induction false} TrimEndSplits(s: string) returns (b: string)
    ensures s == TrimEnd(s) + b && AllSpace(b)
    ensures TrimEnd(s) == [] || !IsSpace(TrimEnd(s)[|TrimEnd(s)| - 1])
  {
    if s != [] && IsSpace(s[|s| - 1]) {
      var rest := TrimEndSplits(s[..|s| - 1]);
      b := rest + [s[|s| - 1]];
    } else {
      b := [];
    }
  }

  lemma {:induction false} TrimStartOf(a: string, t: string)
    requires AllSpace(a) && (t == [] || !IsSpace(t[0]))
    ensures TrimStart(a + t) == t
  {
    if a == [] {
      assert a + t == t;
    } else {
      assert (a + t)[1..] == a[1..] + t;
      TrimStartOf(a[1..], t);
    }
  }

  lemma {:induction false} TrimEndOf(t: string, b: string)
    requires AllSpace(b) && (t == [] || !IsSpace(t[|t| - 1]))
    ensures TrimEnd(t + b) == t
  {
    if b == [] {
      assert t + b == t;
    } else {
      assert (t + b)[..|t + b| - 1] == t + b[..|b| - 1];
      TrimEndOf(t, b[..|b| - 1]);
    }
  }

  lemma TrimOf(a: string, t: string, b: string)
    requires AllSpace(a) && AllSpace(b) && Bare(t)
    ensures Trim(a + t + b) == t
  {
    if t == [] {
      TrimStartOf(a + b, []);
      assert a + t + b == a + b + [];
    } else {
      TrimStartOf(a, t + b);
      TrimEndOf(t, b);
      assert a + t + b == a + (t + b);
    }
  }

  /** Trimming removes all the white space at both ends, and nothing else. */
  lemma TrimExactly(s: string, t: string)
    ensures t == Trim(s) <==> exists a, b :: s == a + t + b && AllSpace(a) && AllSpace(b) && Bare(t)
  {
    var a := TrimStartSplits(s);
    var b := TrimEndSplits(TrimStart(s));
    assert s == a + Trim(s) + b;
    assert Trim(s) == [] || Trim(s)[0] == TrimStart(s)[0];
    forall x, y | s == x + t + y && AllSpace(x) && AllSpace(y) && Bare(t) ensures t == Trim(s) {
      TrimOf(x, t, y);
    }
  }

  /** What a typed line means, whatever white space is around it. */
  lemma CommandsRead(a: string, t: string, b: string)
    requires AllSpace(a) && AllSpace(b) && Bare(t)
    ensures Parse(a + t + b) ==
            if t == "" then Ignore
            else if t == "/reset" then Restart
            else if t == "/quit" then Quit
            else if t == "/exit" then Quit
            else Say(t)
  {
    TrimOf(a, t, b);
  }

  /** "/reset" on a line of its own empties the cache and the count; a blank line does nothing. */
  lemma LineEffects(e: Engine, enc: Encoder, chat: Chat, a: string, b: string, seed: Word)
    requires chat.cache.Fits(e.shape) && AllSpace(a) && AllSpace(b)
    ensures var reset := ChatStep(e, enc, chat, a + "/reset" + b, seed);
            reset.turns == 0 && reset.cache.head == 0 && reset.transcript == []
    ensures ChatStep(e, enc, chat, a + "" + b, seed) == chat
    ensures ChatRun(e, enc, chat, [a + "/quit" + b], [seed]) == ChatRun(e, enc, chat, [a + "/exit" + b], [seed]) == chat
  {
    CommandsRead(a, "/reset", b);
    CommandsRead(a, "", b);
    CommandsRead(a, "/quit", b);
    CommandsRead(a, "/exit", b);
  }

  // --------------------------------------------------------------------- refusals

  /** A prompt is blank when it is white space throughout. */
  lemma BlankExactly(s: string)
    ensures Trim(s) == [] <==> AllSpace(s)
  {
    var a := TrimStartSplits(s);
    var b := TrimEndSplits(TrimStart(s));
    assert s == a + Trim(s) + b;
    OnlySpace(a, Trim(s), b);
    if AllSpace(s) {
      TrimOf(s, [], []);
      assert s + [] + [] == s;
    }
  }

  lemma OnlySpace(a: string, t: string, b: string)
    requires AllSpace(a) && AllSpace(b)
    ensures t == [] ==> AllSpace(a + t + b)
  {
  }

  /** The one failure each input of a single shot has, in the order the checks are made; else the turn starts. */
  lemma SingleShotRefused(e: Engine, o: Options, enc: Encoder, prompt: string, seed: Word)
    ensures var r, ids := SingleShot(e, o, enc, prompt, seed), PromptIds(o, enc, prompt);
            && (r == Failed(EmptyPrompt) <==> AllSpace(prompt) || ids == [])
            && (r == Failed(ContextLengthExceeded(o.contextLen)) <==>
                  !AllSpace(prompt) && ids != [] && |ids| >= o.contextLen)
            && (r == Failed(ContextFull(|ids|, e.shape.nCtx)) <==>
                  !AllSpace(prompt) && e.shape.nCtx < |ids| < o.contextLen)
            && (Started(r) <==> !AllSpace(prompt) && 0 < |ids| < o.contextLen && |ids| <= e.shape.nCtx)
  {
    BlankExactly(prompt);
    TurnAccounting(e, Empty(e.shape), PromptIds(o, enc, prompt), seed);
  }

  /** A chat turn knows only the room left in the cache, and a refused one leaves it alone. */
  lemma TurnRefused(e: Engine, enc: Encoder, c: Cache, message: string, turn: nat, seed: Word)
    requires c.Fits(e.shape)
    ensures var t, ids := TurnOf(e, enc, c, message, turn, seed), TurnTokens(enc, message, turn);
            && (t.result == Failed(EmptyPrompt) <==> AllSpace(message))
            && (t.result == Failed(ContextFull(c.head + |ids|, e.shape.nCtx)) <==>
                  !AllSpace(message) && c.head + |ids| > e.shape.nCtx)
            && (Started(t.result) <==> !AllSpace(message) && c.head + |ids| <= e.shape.nCtx)
            && (!Started(t.result) ==> t.cache == c && t.fed == [])
  {
    BlankExactly(message);
    assert TurnTokens(enc, message, turn) != [];
    TurnAccounting(e, c, TurnTokens(enc, message, turn), seed);
  }
}
