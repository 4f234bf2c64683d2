/** `encode`, `decode` and `decode_one`, and the laws that tie them together. */
module Encoding {
  import opened Bytes
  import opened ByteUnicode
  import opened Tables
  import opened Segmentation
  import opened BpeMerge
  import Utf8

  const TOKEN_BOS: nat := 128_000
  const TOKEN_EOS: nat := 128_001
  const TOKEN_EOT: nat := 128_009
  const TOKEN_PAD: nat := 128_004

  predicate IsEos(id: nat) { id == TOKEN_EOS || id == TOKEN_EOT }

  // ------------------------------------------------------------------ encode

  ghost function Encoded(t: Tokenizer, text: seq<byte>, addBos: bool): Run<seq<nat>>
    requires |t.byteToToken| == 256
  {
    match Tokenised(t, text)
    case Panic => Panic
    case Done(working) => Done((if addBos then [TOKEN_BOS] else []) + Merged(t, working))
  }

  method Encode(t: Tokenizer, text: seq<byte>, addBos: bool) returns (r: Run<seq<nat>>)
    requires t.Valid()
    ensures r == Encoded(t, text, addBos)
  {
    var ids: seq<nat> := [];
    if addBos {
      ids := ids + [TOKEN_BOS];
    }
    var working := InitialTokenise(t, text);
    if working.Panic? {
      return Panic;
    }
    var merged := Merge(t, working.value);
    assert ids == if addBos then [TOKEN_BOS] else [];
    return Done(ids + merged);
  }

  // ------------------------------------------------- what segmentation conserves

  /** Without fallback the pushed ids spell exactly the rest of the input. */
  lemma {:induction false} SegmentSpells(t: Tokenizer, u: seq<byte>, fb: Fallback, i: nat)
    requires t.Valid() && i <= |u| && Misses(t.tokenToId, u, i) == {}
    ensures Segment(t.tokenToId, u, fb, i).Done?
    ensures InVocab(t, Segment(t.tokenToId, u, fb, i).value)
    ensures Surface(t, Segment(t.tokenToId, u, fb, i).value) == u[i..]
    decreases |u| - i
  {
    if i < |u| {
      SegmentHit(t, u, fb, i);
      var next := i + MatchAt(t.tokenToId, u, i);
      SegmentSpells(t, u, fb, next);
      OneMoreSpelled(t, u, i, next, t.tokenToId[u[i..next]], Segment(t.tokenToId, u, fb, next).value);
    }
  }

  lemma OneMoreSpelled(t: Tokenizer, u: seq<byte>, i: nat, next: nat, id: nat, rest: seq<nat>)
    requires i <= next <= |u| && id < |t.vocab| && TextAt(t, id) == u[i..next]
    requires InVocab(t, rest) && Surface(t, rest) == u[next..]
    ensures InVocab(t, [id] + rest) && Surface(t, [id] + rest) == u[i..]
  {
    SurfaceAppend(t, [id], rest);
    SurfaceOfOne(t, id);
    assert u[i..] == u[i..next] + u[next..];
  }

  lemma MatchExists(ids: map<seq<byte>, nat>, u: seq<byte>, i: nat)
    requires i < |u| && Misses(ids, u, i) == {}
    ensures MatchAt(ids, u, i) > 0 && Advance(ids, u, i) == i + MatchAt(ids, u, i)
    ensures Misses(ids, u, i + MatchAt(ids, u, i)) == {}
  {
    assert MatchAt(ids, u, i) == 0 ==> i in Misses(ids, u, i);
  }

  /** Surface conservation: without fallback, encoding spells the expansion of the text. */
  lemma EncodedSpells(t: Tokenizer, text: seq<byte>)
    requires t.Valid() && FallbackFree(t.tokenToId, Expand(text))
    ensures Encoded(t, text, false).Done?
    ensures InVocab(t, Encoded(t, text, false).value)
    ensures Surface(t, Encoded(t, text, false).value) == Expand(text)
  {
    SegmentSpells(t, Expand(text), PositionFallback(t, text), 0);
    var working := Tokenised(t, text).value;
    MergedKeepsSurface(t, working);
    assert [] + Merged(t, working) == Merged(t, working);
  }

  /** Two different fallback-free texts never encode to the same ids. */
  lemma EncodedInjective(t: Tokenizer, a: seq<byte>, b: seq<byte>)
    requires t.Valid()
    requires FallbackFree(t.tokenToId, Expand(a)) && FallbackFree(t.tokenToId, Expand(b))
    requires Encoded(t, a, false) == Encoded(t, b, false)
    ensures a == b
  {
    EncodedSpells(t, a);
    EncodedSpells(t, b);
    ExpandInjective(a, b);
  }

  // --------------------------------------------------------- merge redundancy

  predicate KeysFitWindow(ids: map<seq<byte>, nat>) {
    forall key :: key in ids ==> |key| <= WINDOW
  }

  predicate NoPairKnown(t: Tokenizer, ids: seq<nat>) {
    forall j: nat :: j + 1 < |ids| ==> PairText(t, ids, j) !in t.tokenToId
  }

  lemma NoPairKnownCons(t: Tokenizer, first: nat, rest: seq<nat>)
    requires NoPairKnown(t, rest)
    requires rest != [] ==> TextAt(t, first) + TextAt(t, rest[0]) !in t.tokenToId
    ensures NoPairKnown(t, [first] + rest)
  {
    var ids := [first] + rest;
    forall j: nat | j + 1 < |ids| ensures PairText(t, ids, j) !in t.tokenToId {
      if j > 0 {
        assert PairText(t, ids, j) == PairText(t, rest, j - 1);
      }
    }
  }

  /** Longest match leaves no adjacent pair whose concatenation is a vocabulary text. */
  lemma {:induction false} LongestMatchLeavesNoPair(t: Tokenizer, u: seq<byte>, fb: Fallback, i: nat, out: seq<nat>)
    requires t.Valid() && KeysFitWindow(t.tokenToId)
    requires i <= |u| && Misses(t.tokenToId, u, i) == {}
    requires Segment(t.tokenToId, u, fb, i) == Done(out)
    ensures NoPairKnown(t, out)
    decreases |u| - i
  {
    if i < |u| {
      var next, first, rest := SplitFirst(t, u, fb, i, out);
      LongestMatchLeavesNoPair(t, u, fb, next, rest);
      if next < |u| {
        var last, second, _ := SplitFirst(t, u, fb, next, rest);
        MatchIsLongest(t.tokenToId, u, i, next, last);
      }
      NoPairKnownCons(t, first, rest);
    }
  }

  /** The first pushed id, the text it spells, and what is pushed after it. */
  lemma SplitFirst(t: Tokenizer, u: seq<byte>, fb: Fallback, i: nat, out: seq<nat>)
    returns (next: nat, first: nat, rest: seq<nat>)
    requires t.Valid() && i < |u| && Misses(t.tokenToId, u, i) == {}
    requires Segment(t.tokenToId, u, fb, i) == Done(out)
    ensures next == i + MatchAt(t.tokenToId, u, i) && i < next <= |u|
    ensures out == [first] + rest && TextAt(t, first) == u[i..next]
    ensures Segment(t.tokenToId, u, fb, next) == Done(rest) && Misses(t.tokenToId, u, next) == {}
    ensures next == |u| ==> rest == []
  {
    SegmentHit(t, u, fb, i);
    next := i + MatchAt(t.tokenToId, u, i);
    first, rest := t.tokenToId[u[i..next]], Segment(t.tokenToId, u, fb, next).value;
  }

  /** A matched cursor contributes its match's id and moves past it. */
  lemma SegmentHit(t: Tokenizer, u: seq<byte>, fb: Fallback, i: nat)
    requires t.Valid() && i < |u| && Misses(t.tokenToId, u, i) == {}
    ensures var n := MatchAt(t.tokenToId, u, i);
            && n > 0 && Misses(t.tokenToId, u, i + n) == {}
            && Segment(t.tokenToId, u, fb, i) ==
               Prepend([t.tokenToId[u[i..i + n]]], Segment(t.tokenToId, u, fb, i + n))
            && t.tokenToId[u[i..i + n]] < |t.vocab|
            && TextAt(t, t.tokenToId[u[i..i + n]]) == u[i..i + n]
  {
    MatchExists(t.tokenToId, u, i);
    LookupText(t, u[i..i + MatchAt(t.tokenToId, u, i)]);
  }

  /** Whatever follows a longest match cannot extend it to another vocabulary text. */
  lemma MatchIsLongest(ids: map<seq<byte>, nat>, u: seq<byte>, i: nat, next: nat, last: nat)
    requires KeysFitWindow(ids)
    requires i < next < last <= |u| && next == i + MatchAt(ids, u, i)
    ensures u[i..next] + u[next..last] !in ids
  {
    assert u[i..next] + u[next..last] == u[i..last];
    assert last - i <= WindowAt(u, i) ==> !Known(ids, u, i, last - i);
  }

  /** So merging is redundant: encoding is the longest-match segmentation, whatever the merge table. */
  lemma MergeIsRedundant(t: Tokenizer, text: seq<byte>)
    requires t.Valid() && KeysFitWindow(t.tokenToId)
    requires FallbackFree(t.tokenToId, Expand(text))
    ensures Encoded(t, text, false) == Tokenised(t, text)
  {
    var u, fb := Expand(text), PositionFallback(t, text);
    SegmentSpells(t, u, fb, 0);
    var working := Tokenised(t, text).value;
    LongestMatchLeavesNoPair(t, u, fb, 0, working);
    NothingToMerge(t, working);
    assert [] + working == working;
  }

  lemma NothingToMerge(t: Tokenizer, ids: seq<nat>)
    requires NoPairKnown(t, ids)
    ensures Merged(t, ids) == ids
  {
    StableExactly(t, ids);
  }

  lemma MergeTableIsIrrelevant(t: Tokenizer, other: Tokenizer, text: seq<byte>)
    requires t.Valid() && other.Valid() && other == t.(mergeRank := other.mergeRank)
    requires KeysFitWindow(t.tokenToId) && FallbackFree(t.tokenToId, Expand(text))
    ensures Encoded(t, text, false) == Encoded(other, text, false)
  {
    MergeIsRedundant(t, text);
    MergeIsRedundant(other, text);
    SegmentSpells(t, Expand(text), PositionFallback(t, text), 0);
    SameWithoutMisses(t.tokenToId, Expand(text), PositionFallback(t, text), PositionFallback(other, text), 0);
  }

  lemma {:induction false} SameWithoutMisses(ids: map<seq<byte>, nat>, u: seq<byte>, a: Fallback, b: Fallback, i: nat)
    requires i <= |u| && Misses(ids, u, i) == {}
    ensures Segment(ids, u, a, i) == Segment(ids, u, b, i)
    decreases |u| - i
  {
    if i < |u| {
      MatchExists(ids, u, i);
      SameWithoutMisses(ids, u, a, b, i + MatchAt(ids, u, i));
    }
  }

  function Repeat(n: nat): seq<byte> { seq(n, _ => 97) }

  /** Three tokens, one of them a byte longer than any match. */
  predicate RepeatVocab(t: Tokenizer) {
    && |t.vocab| == 3 && t.vocab[0].text == Repeat(64) && t.vocab[1].text == [97] && t.vocab[2].text == Repeat(65)
    && t.tokenToId == map[Repeat(64) := 0, [97] := 1, Repeat(65) := 2]
    && t.mergeRank == map[(0, 1) := 0] && |t.byteToToken| == 256
  }

  /** The window bound is needed: a 65-byte text is out of reach of matching, but not of merging. */
  lemma WindowMatters(t: Tokenizer)
    requires RepeatVocab(t)
    ensures t.Valid() && FallbackFree(t.tokenToId, Expand(Repeat(65)))
    ensures Tokenised(t, Repeat(65)) == Done([0, 1])
    ensures Encoded(t, Repeat(65), false) == Done([2])
  {
    RepeatVocabValid(t);
    RepeatExpands();
    SegmentRepeat(t.tokenToId, PositionFallback(t, Repeat(65)));
    MergeRepeat(t);
    EncodedFrom(t, Repeat(65), [0, 1], [2]);
  }

  lemma RepeatExpands()
    ensures Expand(Repeat(65)) == Repeat(65)
  {
    assert Graphic(Repeat(65));
    ExpandFixedPoints(Repeat(65));
  }

  lemma EncodedFrom(t: Tokenizer, text: seq<byte>, working: seq<nat>, merged: seq<nat>)
    requires |t.byteToToken| == 256 && Tokenised(t, text) == Done(working) && Merged(t, working) == merged
    ensures Encoded(t, text, false) == Done(merged)
  {
    assert [] + merged == merged;
  }

  lemma RepeatVocabValid(t: Tokenizer)
    requires RepeatVocab(t)
    ensures t.Valid()
  {
    assert |Repeat(64)| == 64 && |Repeat(65)| == 65;
  }

  lemma MergeRepeat(t: Tokenizer)
    requires RepeatVocab(t)
    ensures Merged(t, [0, 1]) == [2]
  {
    var working := [0, 1];
    assert Repeat(64) + [97] == Repeat(65);
    assert BestPair(t.mergeRank, working, 1) == Some(0) && PairText(t, working, 0) == Repeat(65);
    assert Replace(working, 0, 2) == [2];
    assert MergeOnce(t, working) == Some([2]) && MergeOnce(t, [2]) == None;
  }

  lemma SegmentRepeat(ids: map<seq<byte>, nat>, fb: Fallback)
    requires ids == map[Repeat(64) := 0, [97] := 1, Repeat(65) := 2]
    ensures Segment(ids, Repeat(65), fb, 0) == Done([0, 1]) && Misses(ids, Repeat(65), 0) == {}
  {
    var u := Repeat(65);
    assert |Repeat(64)| == 64;
    assert u[0..64] == Repeat(64) && u[64..65] == [97];
    assert MatchAt(ids, u, 0) == 64 by { assert Known(ids, u, 0, 64); }
    assert MatchAt(ids, u, 64) == 1 by { assert Known(ids, u, 64, 1); }
    assert Advance(ids, u, 0) == 64 && Advance(ids, u, 64) == 65;
    assert Emit(ids, u, fb, 0) == Done(0) && Emit(ids, u, fb, 64) == Done(1);
    assert Segment(ids, u, fb, 65) == Done([]) && Misses(ids, u, 65) == {};
    assert Segment(ids, u, fb, 64) == Done([1] + []) && Misses(ids, u, 64) == {};
    assert [0] + [1] == [0, 1] && [1] + [] == [1];
  }

  // ------------------------------------------------------------------ decode

  predicate Skipped(t: Tokenizer, id: nat) {
    id == TOKEN_BOS || id == TOKEN_EOS || id == TOKEN_PAD
    || id >= |t.vocab| || t.vocab[id].tokenType == 3
  }

  function DecodedBytes(t: Tokenizer, ids: seq<nat>): seq<byte> {
    if ids == [] then []
    else (if Skipped(t, ids[0]) then [] else t.vocab[ids[0]].text) + DecodedBytes(t, ids[1..])
  }

  /** `String::from_utf8_lossy`: the identity on well-formed bytes, `repair` on the rest. */
  function Lossy(repair: seq<byte> -> seq<byte>, s: seq<byte>): seq<byte> {
    if Utf8.Valid(s) then s else repair(s)
  }

  method Decode(t: Tokenizer, repair: seq<byte> -> seq<byte>, ids: seq<nat>) returns (s: seq<byte>)
    ensures s == Lossy(repair, DecodedBytes(t, ids))
  {
    var bytes: seq<byte> := [];
    for k := 0 to |ids|
      invariant bytes == DecodedBytes(t, ids[..k])
    {
      var id := ids[k];
      DecodedAppend(t, ids[..k], id);
      assert ids[..k + 1] == ids[..k] + [id];
      if id == TOKEN_BOS || id == TOKEN_EOS || id == TOKEN_PAD {
        continue;
      }
      if id < |t.vocab| {
        if t.vocab[id].tokenType == 3 {
          continue;
        }
        bytes := bytes + t.vocab[id].text;
      }
    }
    assert ids[..|ids|] == ids;
    return Lossy(repair, bytes);
  }

  lemma {:induction false} DecodedAppend(t: Tokenizer, ids: seq<nat>, id: nat)
    ensures DecodedBytes(t, ids + [id]) ==
            DecodedBytes(t, ids) + (if Skipped(t, id) then [] else t.vocab[id].text)
  {
    if ids == [] {
      assert [id][1..] == [];
    } else {
      assert (ids + [id])[1..] == ids[1..] + [id];
      DecodedAppend(t, ids[1..], id);
    }
  }

  /**
   * Which ids vanish: BOS, EOS and padding, ids the vocabulary lacks, and control tokens. Every other
   * id, a byte token included, gives its text.
   */
  lemma {:induction false} DecodedExactly(t: Tokenizer, ids: seq<nat>)
    ensures DecodedBytes(t, ids) == Flatten(seq(|ids|, k requires 0 <= k < |ids| =>
      if ids[k] in {128_000, 128_001, 128_004} || ids[k] >= |t.vocab| || t.vocab[ids[k]].tokenType == 3
      then [] else t.vocab[ids[k]].text))
  {
    var texts := seq(|ids|, k requires 0 <= k < |ids| =>
      if ids[k] in {128_000, 128_001, 128_004} || ids[k] >= |t.vocab| || t.vocab[ids[k]].tokenType == 3
      then [] else t.vocab[ids[k]].text);
    if ids != [] {
      var rest := ids[1..];
      DecodedExactly(t, rest);
      assert texts[1..] == seq(|rest|, k requires 0 <= k < |rest| =>
        if rest[k] in {128_000, 128_001, 128_004} || rest[k] >= |t.vocab| || t.vocab[rest[k]].tokenType == 3
        then [] else t.vocab[rest[k]].text);
    }
  }

  /** Ids that `decode` turns into their text. */
  predicate Ordinary(t: Tokenizer, ids: seq<nat>) {
    forall i: nat :: i < |ids| ==> !Skipped(t, ids[i])
  }

  lemma {:induction false} DecodedIsSurface(t: Tokenizer, ids: seq<nat>)
    requires Ordinary(t, ids)
    ensures DecodedBytes(t, ids) == Surface(t, ids)
  {
    if ids != [] {
      assert !Skipped(t, ids[0]);
      forall i: nat | i < |ids[1..]| ensures !Skipped(t, ids[1..][i]) {
        assert ids[1..][i] == ids[i + 1];
      }
      DecodedIsSurface(t, ids[1..]);
    }
  }

  predicate Graphic(text: seq<byte>) {
    forall i: nat :: i < |text| ==> 33 <= text[i] <= 126
  }

  /**
   * `decode(encode(text))` is the GPT-2 expansion of the text, not the text: the two agree exactly
   * on graphic ASCII.
   */
  lemma DecodeOfEncode(
    t: Tokenizer, repair: seq<byte> -> seq<byte>, text: seq<byte>, addBos: bool, ids: seq<nat>)
    requires t.Valid() && FallbackFree(t.tokenToId, Expand(text))
    requires Encoded(t, text, addBos) == Done(ids) && Ordinary(t, if addBos then ids[1..] else ids)
    ensures Lossy(repair, DecodedBytes(t, ids)) == Expand(text)
    ensures Lossy(repair, DecodedBytes(t, ids)) == text <==> Graphic(text)
  {
    EncodedSpells(t, text);
    var plain := Encoded(t, text, false).value;
    BosIsPrefix(t, text);
    PlainDecode(t, repair, text, plain);
    if addBos {
      BosIsSkipped(t, ids);
    }
  }

  lemma PlainDecode(t: Tokenizer, repair: seq<byte> -> seq<byte>, text: seq<byte>, plain: seq<nat>)
    requires Surface(t, plain) == Expand(text) && Ordinary(t, plain)
    ensures Lossy(repair, DecodedBytes(t, plain)) == Expand(text)
    ensures Expand(text) == text <==> Graphic(text)
  {
    DecodedIsSurface(t, plain);
    ExpandIsUtf8(text);
    ExpandFixedPoints(text);
  }

  lemma BosIsSkipped(t: Tokenizer, ids: seq<nat>)
    requires ids != [] && ids[0] == TOKEN_BOS
    ensures DecodedBytes(t, ids) == DecodedBytes(t, ids[1..])
  {
    assert [] + DecodedBytes(t, ids[1..]) == DecodedBytes(t, ids[1..]);
  }

  lemma BosIsPrefix(t: Tokenizer, text: seq<byte>)
    requires |t.byteToToken| == 256 && Encoded(t, text, false).Done?
    ensures Encoded(t, text, true).Done?
    ensures Encoded(t, text, true).value != [] && Encoded(t, text, true).value[0] == TOKEN_BOS
    ensures Encoded(t, text, true).value[1..] == Encoded(t, text, false).value
  {
    var merged := Merged(t, Tokenised(t, text).value);
    assert [] + merged == merged && ([TOKEN_BOS] + merged)[1..] == merged;
  }

  lemma {:induction false} ExpandFixedPoints(text: seq<byte>)
    ensures |Expand(text)| >= |text|
    ensures |Expand(text)| == |text| ==> Graphic(text)
    ensures Expand(text) == text <==> Graphic(text)
  {
    if text != [] {
      var rest := text[1..];
      ExpandFixedPoints(rest);
      assert text == [text[0]] + rest;
      assert forall i: nat :: 0 < i < |text| ==> text[i] == rest[i - 1];
      assert Graphic(text) <==> 33 <= text[0] <= 126 && Graphic(rest);
    }
  }

  // -------------------------------------------------------------- decode_one

  /** `s.replace(c, with)` for a character `c` whose UTF-8 is the two bytes `[lead, tail]`. */
  function ReplaceChar(s: seq<byte>, lead: byte, tail: byte, with: byte): seq<byte> {
    if s == [] then []
    else if |s| >= 2 && s[0] == lead && s[1] == tail then [with] + ReplaceChar(s[2..], lead, tail, with)
    else [s[0]] + ReplaceChar(s[1..], lead, tail, with)
  }

  /** U+0120 (C4 A0) becomes a space, U+010A (C4 8A) a newline. */
  function Restore(s: seq<byte>): seq<byte> {
    ReplaceChar(ReplaceChar(s, 0xC4, 0xA0, 32), 0xC4, 0x8A, 10)
  }

  function DecodeOne(t: Tokenizer, repair: seq<byte> -> seq<byte>, id: nat): Option<seq<byte>> {
    if id == TOKEN_BOS || id == TOKEN_EOS || id == TOKEN_EOT || id == TOKEN_PAD then None
    else if id >= |t.vocab| || t.vocab[id].tokenType == 3 then None
    else Some(Restore(Lossy(repair, t.vocab[id].text)))
  }

  /** What a caller that prints each piece as it comes has printed. */
  function Streamed(t: Tokenizer, repair: seq<byte> -> seq<byte>, ids: seq<nat>): seq<byte> {
    if ids == [] then []
    else (match DecodeOne(t, repair, ids[0]) case Some(s) => s case None => [])
         + Streamed(t, repair, ids[1..])
  }

  /** Ids that `decode_one` prints, with texts made of whole alphabet characters. */
  predicate Printing(t: Tokenizer, ids: seq<nat>) {
    forall i: nat :: i < |ids| ==> Prints(t, ids[i])
  }

  predicate Prints(t: Tokenizer, id: nat) {
    id != TOKEN_EOT && !Skipped(t, id) && Whole(t.vocab[id].text)
  }

  /** How one input byte appears in the stream. */
  function Shown(b: byte): seq<byte> {
    if b == 32 || b == 10 then [b] else CharOf(b)
  }

  function ShownAll(text: seq<byte>): seq<byte> {
    if text == [] then [] else Shown(text[0]) + ShownAll(text[1..])
  }

  lemma {:induction false} ShownAppend(a: seq<byte>, b: seq<byte>)
    ensures ShownAll(a + b) == ShownAll(a) + ShownAll(b)
  {
    if a == [] {
      assert a + b == b;
    } else {
      assert (a + b)[1..] == a[1..] + b;
      ShownAppend(a[1..], b);
    }
  }

  /** A block that replacement can treat on its own: the bytes of one character. */
  predicate Block(s: seq<byte>) {
    && s != [] && !Utf8.Tail(s[0]) && (s[0] == 0xC4 ==> |s| == 2)
    && forall i: nat :: 0 < i < |s| ==> Utf8.Tail(s[i])
  }

  lemma {:induction false} TailsPass(tails: seq<byte>, rest: seq<byte>, tail: byte, with: byte)
    requires forall i: nat :: i < |tails| ==> Utf8.Tail(tails[i])
    ensures ReplaceChar(tails + rest, 0xC4, tail, with) == tails + ReplaceChar(rest, 0xC4, tail, with)
  {
    if tails == [] {
      assert tails + rest == rest;
    } else {
      assert (tails + rest)[1..] == tails[1..] + rest;
      TailsPass(tails[1..], rest, tail, with);
      assert tails == [tails[0]] + tails[1..];
    }
  }

  lemma ReplaceSplits(block: seq<byte>, rest: seq<byte>, tail: byte, with: byte)
    requires Block(block) && Utf8.Tail(tail)
    ensures ReplaceChar(block + rest, 0xC4, tail, with) ==
            (if block == [0xC4, tail] then [with] else block) + ReplaceChar(rest, 0xC4, tail, with)
  {
    var s := block + rest;
    assert s[|block|..] == rest;
    if block != [0xC4, tail] {
      assert s[1..] == block[1..] + rest;
      TailsPass(block[1..], rest, tail, with);
      assert block == [block[0]] + block[1..];
      assert !(|s| >= 2 && s[0] == 0xC4 && s[1] == tail) by {
        if s[0] == 0xC4 {
          assert s[1] == block[1] && block == [0xC4, block[1]];
        }
      }
    }
  }

  // What `decode_one` does to any text, character by character.

  /** `from` becomes `to`. */
  function Swapped(cs: seq<Utf8.Scalar>, from: Utf8.Scalar, to: Utf8.Scalar): seq<Utf8.Scalar> {
    seq(|cs|, i requires 0 <= i < |cs| => if cs[i] == from then to else cs[i])
  }

  lemma CharIsBlock(c: Utf8.Scalar, tail: byte)
    requires 0x80 <= tail < 0xC0
    ensures Block(Utf8.CharBytes(c))
    ensures Utf8.CharBytes(c) == [0xC4, tail] <==> c == 0x80 + tail
  {
    var s := Utf8.CharBytes(c);
    assert c >= 0x800 ==> s[0] >= 0xE0;
  }

  lemma {:induction false} ReplaceSwaps(cs: seq<Utf8.Scalar>, tail: byte, with: Utf8.Scalar)
    requires 0x80 <= tail < 0xC0 && with < 0x80
    ensures ReplaceChar(Utf8.TextBytes(cs), 0xC4, tail, with) == Utf8.TextBytes(Swapped(cs, 0x80 + tail, with))
  {
    if cs != [] {
      var swapped := Swapped(cs, 0x80 + tail, with);
      CharIsBlock(cs[0], tail);
      ReplaceSplits(Utf8.CharBytes(cs[0]), Utf8.TextBytes(cs[1..]), tail, with);
      ReplaceSwaps(cs[1..], tail, with);
      assert swapped[1..] == Swapped(cs[1..], 0x80 + tail, with);
      assert Utf8.CharBytes(with) == [with];
    }
  }

  /** On any well-formed text the two replacements turn U+0120 into a space and U+010A into a newline. */
  lemma RestoreExactly(cs: seq<Utf8.Scalar>)
    ensures Restore(Utf8.TextBytes(cs)) == Utf8.TextBytes(Swapped(Swapped(cs, 0x120, 32), 0x10A, 10))
  {
    ReplaceSwaps(cs, 0xA0, 32);
    ReplaceSwaps(Swapped(cs, 0x120, 32), 0x8A, 10);
  }

  /**
   * `decode_one` prints nothing for the four special ids, ids the vocabulary lacks and control tokens.
   * Any other token with a well-formed text is printed with U+0120 and U+010A replaced; an ASCII byte
   * token, the newline `<0x0A>` included, is printed as its byte.
   */
  lemma PrintedExactly(t: Tokenizer, repair: seq<byte> -> seq<byte>, id: nat)
    ensures DecodeOne(t, repair, id) == None <==>
            id in {128_000, 128_001, 128_004, 128_009} || id >= |t.vocab| || t.vocab[id].tokenType == 3
    ensures DecodeOne(t, repair, id).Some? ==>
            forall cs: seq<Utf8.Scalar> :: t.vocab[id].text == Utf8.TextBytes(cs) ==>
              DecodeOne(t, repair, id).value == Utf8.TextBytes(Swapped(Swapped(cs, 0x120, 32), 0x10A, 10))
    ensures DecodeOne(t, repair, id).Some? && |t.vocab[id].text| == 1 && t.vocab[id].text[0] < 0x80 ==>
            DecodeOne(t, repair, id).value == t.vocab[id].text
  {
    if DecodeOne(t, repair, id).Some? {
      var text := t.vocab[id].text;
      forall cs: seq<Utf8.Scalar> | text == Utf8.TextBytes(cs)
        ensures Restore(Lossy(repair, text)) == Utf8.TextBytes(Swapped(Swapped(cs, 0x120, 32), 0x10A, 10))
      {
        Utf8.TextIsValid(cs);
        RestoreExactly(cs);
      }
      if |text| == 1 && text[0] < 0x80 {
        var c: Utf8.Scalar := text[0];
        assert text == [c] == Utf8.CharBytes(c) + [] == Utf8.TextBytes([c]);
        assert Swapped(Swapped([c], 0x120, 32), 0x10A, 10) == [c];
      }
    }
  }

  function SpaceShown(b: byte): seq<byte> {
    if b == 32 then [32] else CharOf(b)
  }

  function SpacesShown(text: seq<byte>): seq<byte> {
    if text == [] then [] else SpaceShown(text[0]) + SpacesShown(text[1..])
  }

  /** Replacement distributes over the characters of an expansion. */
  lemma {:induction false} RestoreExpansion(text: seq<byte>)
    ensures ReplaceChar(Expand(text), 0xC4, 0xA0, 32) == SpacesShown(text)
    ensures ReplaceChar(SpacesShown(text), 0xC4, 0x8A, 10) == ShownAll(text)
    ensures Restore(Expand(text)) == ShownAll(text)
  {
    if text != [] {
      RestoreExpansion(text[1..]);
      SpecialChars(text[0]);
      ReplaceSplits(CharOf(text[0]), Expand(text[1..]), 0xA0, 32);
      ReplaceSplits(SpaceShown(text[0]), SpacesShown(text[1..]), 0x8A, 10);
    }
  }

  lemma SpecialChars(b: byte)
    ensures CharOf(b) == [0xC4, 0xA0] <==> b == 32
    ensures CharOf(b) == [0xC4, 0x8A] <==> b == 10
  {
    CodePointClosed(b);
  }

  lemma PieceOf(t: Tokenizer, repair: seq<byte> -> seq<byte>, id: nat)
    requires Prints(t, id)
    ensures DecodeOne(t, repair, id) == Some(ShownAll(Collapse(TextAt(t, id)).value))
  {
    var text := t.vocab[id].text;
    var chunk := Collapse(text).value;
    CollapseInvertsExpand(text, chunk);
    ExpandIsUtf8(chunk);
    RestoreExpansion(chunk);
  }

  /** The first id of a spelling prints the chunk of the text that its own text expands. */
  lemma FirstChunk(t: Tokenizer, ids: seq<nat>, text: seq<byte>) returns (chunk: seq<byte>, rest: seq<byte>)
    requires Printing(t, ids) && ids != [] && Surface(t, ids) == Expand(text)
    ensures Collapse(TextAt(t, ids[0])) == Some(chunk)
    ensures text == chunk + rest && Surface(t, ids[1..]) == Expand(rest)
  {
    var key := TextAt(t, ids[0]);
    assert Prints(t, ids[0]);
    WholePrefix(text, key);
    chunk := Collapse(key).value;
    CollapseInvertsExpand(key, chunk);
    rest := text[|chunk|..];
    assert text == chunk + rest;
    ExpandAppend(chunk, rest);
    assert Surface(t, ids[1..]) == Expand(rest) by {
      assert Surface(t, ids)[|key|..] == Surface(t, ids[1..]);
      assert Expand(text)[|key|..] == Expand(rest);
    }
  }

  lemma PrintingRest(t: Tokenizer, ids: seq<nat>)
    requires Printing(t, ids) && ids != []
    ensures Prints(t, ids[0]) && Printing(t, ids[1..])
  {
  }

  /** Streaming ids that spell an expansion shows the text byte by byte. */
  lemma {:induction false} StreamShows(t: Tokenizer, repair: seq<byte> -> seq<byte>, ids: seq<nat>, text: seq<byte>)
    requires Printing(t, ids) && Surface(t, ids) == Expand(text)
    ensures Streamed(t, repair, ids) == ShownAll(text)
    decreases |ids|
  {
    if ids == [] {
      CollapseInvertsExpand([], text);
    } else {
      PrintingRest(t, ids);
      var chunk, rest := FirstChunk(t, ids, text);
      PieceOf(t, repair, ids[0]);
      StreamShows(t, repair, ids[1..], rest);
      ShownAppend(chunk, rest);
    }
  }

  predicate Readable(text: seq<byte>) {
    forall i: nat :: i < |text| ==> 33 <= text[i] <= 126 || text[i] == 32 || text[i] == 10
  }

  lemma {:induction false} ShownFixedPoints(text: seq<byte>)
    ensures |ShownAll(text)| >= |text|
    ensures |ShownAll(text)| == |text| ==> Readable(text)
    ensures ShownAll(text) == text <==> Readable(text)
  {
    if text != [] {
      var rest := text[1..];
      ShownFixedPoints(rest);
      assert text == [text[0]] + rest;
      assert forall i: nat :: 0 < i < |text| ==> text[i] == rest[i - 1];
      assert Readable(text) <==> |Shown(text[0])| == 1 && Readable(rest);
    }
  }

  /**
   * The streaming round trip: printing each encoded id as it comes gives back the text exactly when
   * the text is graphic ASCII, spaces and newlines.
   */
  lemma StreamOfEncode(t: Tokenizer, repair: seq<byte> -> seq<byte>, text: seq<byte>, ids: seq<nat>)
    requires t.Valid() && FallbackFree(t.tokenToId, Expand(text))
    requires Encoded(t, text, false) == Done(ids) && Printing(t, ids)
    ensures Streamed(t, repair, ids) == ShownAll(text)
    ensures Streamed(t, repair, ids) == text <==> Readable(text)
  {
    EncodedSpells(t, text);
    StreamShows(t, repair, ids, text);
    ShownFixedPoints(text);
  }
}
