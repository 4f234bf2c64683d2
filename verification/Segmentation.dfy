/** `initial_tokenise`: greedy longest-match segmentation with byte fallback. */
module Segmentation {
  import opened Bytes
  import opened ByteUnicode
  import opened Tables

  /** Longest key, in bytes, that a match can use. */
  const WINDOW: nat := 64

  /** A cursor's fallback: the id pushed when nothing in the vocabulary starts there. */
  type Fallback = nat -> Run<nat>

  /** The `n` bytes at `i` are a vocabulary text. */
  predicate Known(ids: map<seq<byte>, nat>, u: seq<byte>, i: nat, n: nat)
    requires i + n <= |u|
  {
    u[i..i + n] in ids
  }

  /** The longest match at `i` of at most `len` bytes; 0 when there is none. */
  function LongestMatch(ids: map<seq<byte>, nat>, u: seq<byte>, i: nat, len: nat): (n: nat)
    requires i + len <= |u|
    ensures n <= len
    ensures n > 0 ==> Known(ids, u, i, n)
    ensures forall m: nat :: n < m <= len ==> !Known(ids, u, i, m)
  {
    if len == 0 then 0
    else if Known(ids, u, i, len) then len
    else LongestMatch(ids, u, i, len - 1)
  }

  function WindowAt(u: seq<byte>, i: nat): nat
    requires i <= |u|
  {
    if |u| - i < WINDOW then |u| - i else WINDOW
  }

  function MatchAt(ids: map<seq<byte>, nat>, u: seq<byte>, i: nat): nat
    requires i <= |u|
  {
    LongestMatch(ids, u, i, WindowAt(u, i))
  }

  /** Where the cursor goes from `i`. */
  function Advance(ids: map<seq<byte>, nat>, u: seq<byte>, i: nat): (next: nat)
    requires i < |u|
    ensures next > i
  {
    var n := MatchAt(ids, u, i);
    if n > 0 then i + n else i + Gpt2CharLen(u[i])
  }

  /** What is pushed at cursor `i`. */
  function Emit(ids: map<seq<byte>, nat>, u: seq<byte>, fb: Fallback, i: nat): Run<nat>
    requires i < |u|
  {
    var n := MatchAt(ids, u, i);
    if n > 0 then Done(ids[u[i..i + n]]) else fb(i)
  }

  function Prepend(out: seq<nat>, rest: Run<seq<nat>>): Run<seq<nat>> {
    match rest
    case Done(ids) => Done(out + ids)
    case Panic => Panic
  }

  /** The ids pushed from cursor `i` on. */
  function Segment(ids: map<seq<byte>, nat>, u: seq<byte>, fb: Fallback, i: nat): Run<seq<nat>>
    decreases |u| - i
  {
    if i >= |u| then Done([])
    else match Emit(ids, u, fb, i)
      case Done(id) => Prepend([id], Segment(ids, u, fb, Advance(ids, u, i)))
      case Panic => Panic
  }

  /** The positions the cursor visits from `i` on. */
  function Cursors(ids: map<seq<byte>, nat>, u: seq<byte>, i: nat): seq<nat>
    decreases |u| - i
  {
    if i >= |u| then [] else [i] + Cursors(ids, u, Advance(ids, u, i))
  }

  /** The visited positions at which nothing matches. */
  function Misses(ids: map<seq<byte>, nat>, u: seq<byte>, i: nat): set<nat>
    decreases |u| - i
  {
    if i >= |u| then {}
    else (if MatchAt(ids, u, i) == 0 then {i} else {}) + Misses(ids, u, Advance(ids, u, i))
  }

  predicate FallbackFree(ids: map<seq<byte>, nat>, u: seq<byte>) { Misses(ids, u, 0) == {} }

  // ------------------------------------------------------------ the fallback

  /** The table entry the code reads: indexed by the input *position* of the cursor. */
  ghost function PositionFallback(t: Tokenizer, text: seq<byte>): Fallback
    requires |t.byteToToken| == 256
  {
    i => var k := OriginOf(text, i); if k < 256 then Done(t.byteToToken[k]) else Panic
  }

  /** The table entry the source's comment promises: indexed by the input *byte* there. */
  ghost function ByteFallback(t: Tokenizer, text: seq<byte>): Fallback
    requires |t.byteToToken| == 256
  {
    i => var k := OriginOf(text, i); if k < |text| then Done(t.byteToToken[text[k]]) else Done(0)
  }

  /** What `initial_tokenise` computes. */
  ghost function Tokenised(t: Tokenizer, text: seq<byte>): Run<seq<nat>>
    requires |t.byteToToken| == 256
  {
    Segment(t.tokenToId, Expand(text), PositionFallback(t, text), 0)
  }

  /** What it is documented to compute. */
  ghost function Intended(t: Tokenizer, text: seq<byte>): Run<seq<nat>>
    requires |t.byteToToken| == 256
  {
    Segment(t.tokenToId, Expand(text), ByteFallback(t, text), 0)
  }

  /** The inner loop: try every length in the window, longest first. */
  method FindMatch(t: Tokenizer, bytes: seq<byte>, i: nat) returns (len: nat)
    requires i < |bytes|
    ensures len == MatchAt(t.tokenToId, bytes, i)
  {
    len := if |bytes| - i < WINDOW then |bytes| - i else WINDOW;
    while len >= 1
      invariant len <= WindowAt(bytes, i)
      invariant MatchAt(t.tokenToId, bytes, i) == LongestMatch(t.tokenToId, bytes, i, len)
    {
      if bytes[i..i + len] in t.tokenToId {
        return;
      }
      len := len - 1;
    }
  }

  /** One round of the outer loop: the id to push, and where the cursor goes. */
  method TokeniseAt(t: Tokenizer, text: seq<byte>, bytes: seq<byte>, i: nat) returns (id: Run<nat>, next: nat)
    requires |t.byteToToken| == 256 && bytes == Expand(text) && i < |bytes|
    ensures id == Emit(t.tokenToId, bytes, PositionFallback(t, text), i)
    ensures next == Advance(t.tokenToId, bytes, i)
  {
    var len := FindMatch(t, bytes, i);
    if len > 0 {
      return Done(t.tokenToId[bytes[i..i + len]]), i + len;
    }
    var at := OrigByteAt(text, bytes, i);
    next := i + Gpt2CharLen(bytes[i]);
    if at >= 256 {
      return Panic, next;
    }
    return Done(t.byteToToken[at]), next;
  }

  method InitialTokenise(t: Tokenizer, text: seq<byte>) returns (r: Run<seq<nat>>)
    requires |t.byteToToken| == 256
    ensures r == Tokenised(t, text)
  {
    var bytes := BytesToGpt2Unicode(text);
    ghost var fb := PositionFallback(t, text);
    ghost var all := Segment(t.tokenToId, bytes, fb, 0);
    var out: seq<nat> := [];
    var i := 0;
    PrependTwice([], [], all);
    while i < |bytes|
      invariant Prepend(out, Segment(t.tokenToId, bytes, fb, i)) == all
      decreases |bytes| - i
    {
      SegmentStep(t.tokenToId, bytes, fb, i, out);
      var id, next := TokeniseAt(t, text, bytes, i);
      if id.Panic? {
        return Panic;
      }
      out := out + [id.value];
      i := next;
    }
    PrependTwice(out, [], Done([]));
    return Done(out);
  }

  lemma SegmentStep(ids: map<seq<byte>, nat>, u: seq<byte>, fb: Fallback, i: nat, out: seq<nat>)
    requires i < |u|
    ensures Prepend(out, Segment(ids, u, fb, i)) ==
            match Emit(ids, u, fb, i)
            case Done(id) => Prepend(out + [id], Segment(ids, u, fb, Advance(ids, u, i)))
            case Panic => Panic
  {
    if Emit(ids, u, fb, i).Done? {
      PrependTwice(out, [Emit(ids, u, fb, i).value], Segment(ids, u, fb, Advance(ids, u, i)));
    }
  }

  lemma PrependTwice(a: seq<nat>, b: seq<nat>, rest: Run<seq<nat>>)
    ensures Prepend(a, Prepend(b, rest)) == Prepend(a + b, rest)
    ensures Prepend([], rest) == rest
    ensures Prepend(a, Done([])) == Done(a)
  {
    if rest.Done? {
      assert a + (b + rest.value) == a + b + rest.value;
      assert [] + rest.value == rest.value;
    }
    assert a + [] == a;
  }

  // ----------------------------------------- when the fallback is the promised one

  /** Two fallbacks, the second total, segment alike exactly when they agree wherever nothing matches. */
  lemma {:induction false} SameSegmentation(
    ids: map<seq<byte>, nat>, u: seq<byte>, fb: Fallback, other: Fallback, i: nat)
    requires forall c :: other(c).Done?
    ensures Segment(ids, u, other, i).Done?
    ensures Segment(ids, u, fb, i) == Segment(ids, u, other, i)
            <==> forall c :: c in Misses(ids, u, i) ==> fb(c) == other(c)
    decreases |u| - i
  {
    if i < |u| {
      var next := Advance(ids, u, i);
      SameSegmentation(ids, u, fb, other, next);
      var mine, theirs := Segment(ids, u, fb, next), Segment(ids, u, other, next);
      var here := Emit(ids, u, other, i).value;
      if Emit(ids, u, fb, i).Done? && mine.Done? {
        assert [here] + theirs.value == [Emit(ids, u, fb, i).value] + mine.value
               <==> here == Emit(ids, u, fb, i).value && theirs.value == mine.value by {
          var a, b := [here] + theirs.value, [Emit(ids, u, fb, i).value] + mine.value;
          assert a[0] == here && a[1..] == theirs.value && b[1..] == mine.value;
        }
      }
      if MatchAt(ids, u, i) == 0 {
        assert i in Misses(ids, u, i);
      } else {
        assert Misses(ids, u, i) == Misses(ids, u, next);
      }
    }
  }

  /**
   * No key that fits the window ends inside a character. Keys that no expansion contains, such as the
   * raw byte of `<0x20>`, are free: of the keys that can match, this asks that they be whole.
   */
  predicate AlignedKeys(ids: map<seq<byte>, nat>) {
    forall key :: key in ids && |key| <= WINDOW ==> !Ragged(key)
  }

  /** One step from a character boundary lands on a later one. */
  lemma AdvanceAligned(ids: map<seq<byte>, nat>, text: seq<byte>, k: nat) returns (next: nat)
    requires AlignedKeys(ids) && k < |text|
    ensures Boundary(text, k) < |Expand(text)|
    ensures k < next <= |text|
    ensures Advance(ids, Expand(text), Boundary(text, k)) == Boundary(text, next)
    ensures MatchAt(ids, Expand(text), Boundary(text, k)) == 0 ==> next == k + 1
  {
    BoundaryStep(text, k);
    if MatchAt(ids, Expand(text), Boundary(text, k)) == 0 {
      next := k + 1;
    } else {
      var key := MatchedKey(ids, Expand(text), Boundary(text, k));
      BoundarySplits(text, k);
      next := KeySpansBytes(ids, text, k, text[k..], key);
    }
  }

  lemma MatchedKey(ids: map<seq<byte>, nat>, u: seq<byte>, i: nat) returns (key: seq<byte>)
    requires i < |u| && MatchAt(ids, u, i) > 0
    ensures key in ids && 0 < |key| <= WINDOW && key <= u[i..]
    ensures Advance(ids, u, i) == i + |key|
  {
    key := u[i..i + MatchAt(ids, u, i)];
  }

  /** An aligned key found at a boundary covers whole input bytes. */
  lemma KeySpansBytes(ids: map<seq<byte>, nat>, text: seq<byte>, k: nat, rest: seq<byte>, key: seq<byte>)
    returns (next: nat)
    requires AlignedKeys(ids) && key in ids && 0 < |key| <= WINDOW
    requires k <= |text| && rest == text[k..] && key <= Expand(rest)
    ensures k < next <= |text|
    ensures Boundary(text, next) == Boundary(text, k) + |key|
  {
    assert Whole(key) by {
      WholeOrRagged(rest, key);
    }
    var chunk := ChunkOf(rest, key);
    next := k + |chunk|;
    BoundaryAfter(text, k, next, chunk, key);
  }

  lemma ChunkOf(rest: seq<byte>, key: seq<byte>) returns (chunk: seq<byte>)
    requires key != [] && Whole(key) && key <= Expand(rest)
    ensures chunk != [] && chunk <= rest && key == Expand(chunk)
  {
    WholePrefix(rest, key);
    chunk := Collapse(key).value;
    CollapseInvertsExpand(key, chunk);
  }

  lemma BoundaryAfter(text: seq<byte>, k: nat, next: nat, chunk: seq<byte>, key: seq<byte>)
    requires k <= |text| && chunk <= text[k..] && next == k + |chunk| && key == Expand(chunk)
    ensures Boundary(text, next) == Boundary(text, k) + |key|
  {
    assert text[..next] == text[..k] + chunk;
    ExpandAppend(text[..k], chunk);
  }

  /**
   * With aligned keys the cursor only ever stands on character boundaries, and never past the end:
   * each visited position starts the character of exactly one input byte.
   */
  lemma {:induction false} CursorsAligned(ids: map<seq<byte>, nat>, text: seq<byte>, k: nat, c: nat)
    requires AlignedKeys(ids) && k <= |text|
    requires c in Cursors(ids, Expand(text), Boundary(text, k))
    ensures OriginOf(text, c) < |text| && c == Boundary(text, OriginOf(text, c))
    decreases |text| - k
  {
    assert text[..|text|] == text;
    if k < |text| {
      var next := AdvanceAligned(ids, text, k);
      if c == Boundary(text, k) {
        OriginOfBoundary(text, k);
      } else {
        CursorsAligned(ids, text, next, c);
      }
    }
  }

  lemma {:induction false} MissesAreCursors(ids: map<seq<byte>, nat>, u: seq<byte>, i: nat, c: nat)
    requires c in Misses(ids, u, i)
    ensures c in Cursors(ids, u, i)
    ensures c < |u| && MatchAt(ids, u, c) == 0
    decreases |u| - i
  {
    if c != i || MatchAt(ids, u, i) != 0 {
      MissesAreCursors(ids, u, Advance(ids, u, i), c);
    }
  }

  /**
   * The code's fallback meets its comment exactly when, at every input position without a match,
   * the position is below 256 and the table holds the same id for the position as for the byte.
   */
  lemma FallbackMeetsComment(t: Tokenizer, text: seq<byte>)
    requires |t.byteToToken| == 256 && AlignedKeys(t.tokenToId)
    ensures Tokenised(t, text) == Intended(t, text)
            <==> forall k: nat :: k < |text| && Boundary(text, k) in Misses(t.tokenToId, Expand(text), 0) ==>
                   k < 256 && t.byteToToken[k] == t.byteToToken[text[k]]
  {
    var u, misses := Expand(text), Misses(t.tokenToId, Expand(text), 0);
    var code, promised := PositionFallback(t, text), ByteFallback(t, text);
    SameSegmentation(t.tokenToId, u, code, promised, 0);
    forall c | c in misses
      ensures OriginOf(text, c) < |text| && c == Boundary(text, OriginOf(text, c))
    {
      MissOnBoundary(t.tokenToId, text, c);
    }
    forall k: nat | k < |text| && Boundary(text, k) in misses
      ensures code(Boundary(text, k)) == promised(Boundary(text, k))
              <==> k < 256 && t.byteToToken[k] == t.byteToToken[text[k]]
    {
      FallbacksAt(t, text, k);
    }
  }

  lemma MissOnBoundary(ids: map<seq<byte>, nat>, text: seq<byte>, c: nat)
    requires AlignedKeys(ids) && c in Misses(ids, Expand(text), 0)
    ensures OriginOf(text, c) < |text| && c == Boundary(text, OriginOf(text, c))
  {
    assert Boundary(text, 0) == 0;
    MissesAreCursors(ids, Expand(text), 0, c);
    CursorsAligned(ids, text, 0, c);
  }

  lemma FallbacksAt(t: Tokenizer, text: seq<byte>, k: nat)
    requires |t.byteToToken| == 256 && k < |text|
    ensures PositionFallback(t, text)(Boundary(text, k)) == ByteFallback(t, text)(Boundary(text, k))
            <==> k < 256 && t.byteToToken[k] == t.byteToToken[text[k]]
  {
    OriginOfBoundary(text, k);
  }

  /**
   * What the promised fallback pushes at a cursor where nothing matches: the entry of the one input byte
   * there, which, unless it is token 0, is the last token for exactly that byte.
   */
  lemma IntendedEmitsByte(t: Tokenizer, text: seq<byte>, c: nat)
    requires t.Valid() && ByteTable(t.vocab, t.byteToToken) && AlignedKeys(t.tokenToId)
    requires forall i: nat :: i < |t.vocab| && t.vocab[i].tokenType == 6 ==> |t.vocab[i].text| == 1
    requires c in Misses(t.tokenToId, Expand(text), 0)
    ensures var k := OriginOf(text, c);
            && k < |text| && c == Boundary(text, k)
            && ByteFallback(t, text)(c) == Done(t.byteToToken[text[k]])
            && LastForByte(t, text[k], t.byteToToken[text[k]])
  {
    var k := OriginOf(text, c);
    assert k < |text| && c == Boundary(text, k) by {
      MissOnBoundary(t.tokenToId, text, c);
    }
    assert LastForByte(t, text[k], t.byteToToken[text[k]]) by {
      FallbackIsExact(t, text[k]);
    }
  }

  /** `id` is token 0, or the last token other than a normal one whose text is `b` alone. */
  predicate LastForByte(t: Tokenizer, b: byte, id: nat) {
    && (id != 0 ==> id < |t.vocab| && t.vocab[id].text == [b])
    && (forall i: nat :: i < |t.vocab| && t.vocab[i].text == [b] && t.vocab[i].tokenType != 1 ==> i <= id)
  }

  /** The scan ends the program exactly when some cursor without a match maps to position 256 or later. */
  lemma {:induction false} PanicsExactly(t: Tokenizer, text: seq<byte>, i: nat)
    requires |t.byteToToken| == 256
    ensures Segment(t.tokenToId, Expand(text), PositionFallback(t, text), i).Panic?
            <==> exists c :: c in Misses(t.tokenToId, Expand(text), i) && OriginOf(text, c) >= 256
    decreases |Expand(text)| - i
  {
    var u := Expand(text);
    if i < |u| {
      var next := Advance(t.tokenToId, u, i);
      PanicsExactly(t, text, next);
      if MatchAt(t.tokenToId, u, i) == 0 {
        assert i in Misses(t.tokenToId, u, i);
      } else {
        assert Misses(t.tokenToId, u, i) == Misses(t.tokenToId, u, next);
      }
    }
  }

  // --------------------------------------------------------- where the promise breaks

  /** What construction makes of the tokens `<0x00>` and `<0x20>`, both of type 6, and no merge rules. */
  function TwoByteTokens(): Tokenizer {
    Tokenizer(
      [VocabEntry([0], 0.0, 6), VocabEntry([32], 0.0, 6)],
      map[[0] := 0, [32] := 1],
      map[],
      seq(256, b => if b == 32 then 1 else 0))
  }

  lemma TwoByteTokensBuilt()
    ensures var t := TwoByteTokens();
            && t.vocab == Entries([HexSpelling(0), HexSpelling(32)], [], [6, 6])
            && t.Valid() && RankTable([], t.tokenToId, t.mergeRank) && ByteTable(t.vocab, t.byteToToken)
            && AlignedKeys(t.tokenToId)
  {
    var t := TwoByteTokens();
    assert t.vocab == Entries([HexSpelling(0), HexSpelling(32)], [], [6, 6]) by {
      ParseHexSpelling(0);
      ParseHexSpelling(32);
    }
    assert ByteTable(t.vocab, t.byteToToken) by {
      TwoByteTable();
    }
    assert AlignedKeys(t.tokenToId) by {
      TwoByteAligned();
    }
  }

  lemma TwoByteTable()
    ensures ByteTable(TwoByteTokens().vocab, TwoByteTokens().byteToToken)
  {
    var t := TwoByteTokens();
    forall b: byte
      ensures if Unclaimed(t.vocab, b) then t.byteToToken[b] == 0 else LastClaim(t.vocab, b, t.byteToToken[b])
    {
      assert Claims(t.vocab, 0, b) <==> b == 0;
      assert Claims(t.vocab, 1, b) <==> b == 32;
    }
  }

  lemma TwoByteAligned()
    ensures AlignedKeys(TwoByteTokens().tokenToId)
  {
    assert !Ragged([0]) && !Ragged([32]);
  }

  /** Without any match in one-byte characters every position is a miss. */
  lemma {:induction false} AllMiss(ids: map<seq<byte>, nat>, u: seq<byte>, i: nat, c: nat)
    requires forall j: nat :: j < |u| ==> MatchAt(ids, u, j) == 0 && Gpt2CharLen(u[j]) == 1
    requires i <= c < |u|
    ensures c in Misses(ids, u, i)
    decreases |u| - i
  {
    if i < c {
      AllMiss(ids, u, i + 1, c);
    }
  }

  /** A single space: the code pushes the entry of position 0, the comment promises that of byte 32. */
  lemma FallbackCounterexample()
    ensures Tokenised(TwoByteTokens(), [32]) == Done([0])
    ensures Intended(TwoByteTokens(), [32]) == Done([1])
  {
    var t, text: seq<byte> := TwoByteTokens(), [32];
    var u: seq<byte> := [0xC4, 0xA0];
    CodePointClosed(32);
    assert Expand(text) == CharOf(32) + Expand([]) == u;
    assert text[..0] == [] && Boundary(text, 0) == 0;
    OriginOfBoundary(text, 0);
    NoKeyAt(u, 0);
    forall fb: Fallback | fb(0).Done?
      ensures Segment(t.tokenToId, u, fb, 0) == Done([fb(0).value])
    {
      assert Advance(t.tokenToId, u, 0) == 2 && Segment(t.tokenToId, u, fb, 2) == Done([]);
      assert Emit(t.tokenToId, u, fb, 0) == fb(0);
      assert [fb(0).value] + [] == [fb(0).value];
    }
    assert PositionFallback(t, text)(0) == Done(0) && ByteFallback(t, text)(0) == Done(1);
  }

  lemma NoKeyAt(u: seq<byte>, i: nat)
    requires i < |u| && u[i] != 0 && u[i] != 32
    ensures MatchAt(TwoByteTokens().tokenToId, u, i) == 0
  {
    var ids := TwoByteTokens().tokenToId;
    forall n: nat | n > 0 && i + n <= |u| ensures !Known(ids, u, i, n) {
      assert u[i..i + n][0] == u[i];
    }
  }

  function Letters(n: nat): seq<byte> { seq(n, _ => 65) }

  lemma {:induction false} LettersExpand(n: nat)
    ensures Expand(Letters(n)) == Letters(n)
  {
    if n > 0 {
      LettersExpand(n - 1);
      assert Letters(n)[1..] == Letters(n - 1);
      assert CharOf(65) == [65];
      assert [65] + Letters(n - 1) == Letters(n);
    }
  }

  /** Text without any match ends the program exactly when it is longer than the table. */
  lemma LongTextPanics(n: nat)
    ensures Tokenised(TwoByteTokens(), Letters(n)).Panic? <==> n > 256
  {
    var t, text := TwoByteTokens(), Letters(n);
    LettersExpand(n);
    PanicsExactly(t, text, 0);
    if n > 256 {
      assert text[..256] == Letters(256);
      LettersExpand(256);
      OriginOfBoundary(text, 256);
      forall j: nat | j < n ensures MatchAt(t.tokenToId, text, j) == 0 && Gpt2CharLen(text[j]) == 1 {
        NoKeyAt(text, j);
      }
      AllMiss(t.tokenToId, text, 0, 256);
    } else {
      TwoByteTokensBuilt();
      assert Boundary(text, 0) == 0;
      forall c | c in Misses(t.tokenToId, text, 0) ensures OriginOf(text, c) < 256 {
        MissesAreCursors(t.tokenToId, text, 0, c);
        CursorsAligned(t.tokenToId, text, 0, c);
      }
    }
  }
}
