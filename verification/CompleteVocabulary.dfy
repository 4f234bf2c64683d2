/** Vocabularies with which every text is encoded without fallback, and what then holds for all texts. */
module CompleteVocabulary {
  import opened Bytes
  import opened ByteUnicode
  import opened Tables
  import opened Segmentation
  import opened BpeMerge
  import opened Encoding

  /** Every byte's character is a vocabulary text. */
  predicate Complete(ids: map<seq<byte>, nat>) { forall b: byte :: CharOf(b) in ids }

  predicate FreeText(ids: map<seq<byte>, nat>, text: seq<byte>) { FallbackFree(ids, Expand(text)) }

  lemma PrefixMatches(ids: map<seq<byte>, nat>, u: seq<byte>, i: nat, key: seq<byte>)
    requires i <= |u| && key in ids && 0 < |key| <= WINDOW && key <= u[i..]
    ensures MatchAt(ids, u, i) > 0
  {
    assert u[i..i + |key|] == key;
    assert Known(ids, u, i, |key|);
  }

  lemma CharMatches(ids: map<seq<byte>, nat>, text: seq<byte>, k: nat)
    requires Complete(ids) && k < |text|
    ensures Boundary(text, k) < |Expand(text)| && MatchAt(ids, Expand(text), Boundary(text, k)) > 0
  {
    assert Boundary(text, k) < |Expand(text)| && CharOf(text[k]) <= Expand(text)[Boundary(text, k)..] by {
      BoundaryStep(text, k);
    }
    PrefixMatches(ids, Expand(text), Boundary(text, k), CharOf(text[k]));
  }

  lemma {:induction false} CompleteMissesNothing(ids: map<seq<byte>, nat>, text: seq<byte>, k: nat)
    requires Complete(ids) && AlignedKeys(ids) && k <= |text|
    ensures Misses(ids, Expand(text), Boundary(text, k)) == {}
    decreases |text| - k
  {
    if k == |text| {
      assert text[..k] == text;
    } else {
      CharMatches(ids, text, k);
      var next := AdvanceAligned(ids, text, k);
      CompleteMissesNothing(ids, text, next);
    }
  }

  lemma LeadIsRagged(b: byte)
    ensures forall n: nat :: 0 < n < |CharOf(b)| ==> Ragged(CharOf(b)[0..n])
  {
  }

  /** A lone character is free of fallback only as a key of its own: part of it would be a ragged key. */
  lemma LoneCharFree(ids: map<seq<byte>, nat>, b: byte)
    requires AlignedKeys(ids)
    ensures FallbackFree(ids, Expand([b])) ==> CharOf(b) in ids
  {
    var u := CharOf(b);
    assert Expand([b]) == u + Expand([]) == u;
    if FallbackFree(ids, u) {
      var n := MatchAt(ids, u, 0);
      MatchExists(ids, u, 0);
      LeadIsRagged(b);
      assert u[0..n] in ids && n == |u|;
      assert u[0..n] == u;
    }
  }

  /** When no key ends inside a character, every text is free of fallback exactly if the vocabulary is complete. */
  lemma FallbackFreeExactly(ids: map<seq<byte>, nat>)
    requires AlignedKeys(ids)
    ensures (forall text :: FreeText(ids, text)) <==> Complete(ids)
  {
    if Complete(ids) {
      forall text ensures FreeText(ids, text) {
        CompleteIsFree(ids, text);
      }
    } else {
      var b: byte :| CharOf(b) !in ids;
      var text: seq<byte> := [b];
      assert !FreeText(ids, text) by {
        LoneCharFree(ids, b);
      }
    }
  }

  lemma CompleteIsFree(ids: map<seq<byte>, nat>, text: seq<byte>)
    requires AlignedKeys(ids) && Complete(ids)
    ensures FallbackFree(ids, Expand(text))
  {
    CompleteMissesNothing(ids, text, 0);
    assert Boundary(text, 0) == 0;
  }

  /** Then encoding never ends the program, and no two texts encode alike. */
  lemma CompleteEncodes(t: Tokenizer, a: seq<byte>, b: seq<byte>)
    requires t.Valid() && AlignedKeys(t.tokenToId) && Complete(t.tokenToId)
    ensures Encoded(t, a, false).Done? && Encoded(t, b, false).Done?
    ensures Encoded(t, a, false) == Encoded(t, b, false) <==> a == b
  {
    CompleteIsFree(t.tokenToId, a);
    CompleteIsFree(t.tokenToId, b);
    EncodedSpells(t, a);
    EncodedSpells(t, b);
    if Encoded(t, a, false) == Encoded(t, b, false) {
      EncodedInjective(t, a, b);
    }
  }

  /** An id that looking up some nonempty text gives. */
  predicate FromText(t: Tokenizer, id: nat) {
    && id < |t.vocab| && t.vocab[id].text != []
    && t.vocab[id].text in t.tokenToId && t.tokenToId[t.vocab[id].text] == id
  }

  predicate AllFromTexts(t: Tokenizer, ids: seq<nat>) { forall i: nat :: i < |ids| ==> FromText(t, ids[i]) }

  lemma {:induction false} SegmentFromTexts(t: Tokenizer, u: seq<byte>, fb: Fallback, i: nat, out: seq<nat>)
    requires t.Valid() && i <= |u| && Misses(t.tokenToId, u, i) == {}
    requires Segment(t.tokenToId, u, fb, i) == Done(out)
    ensures AllFromTexts(t, out)
    decreases |u| - i
  {
    if i < |u| {
      SegmentHit(t, u, fb, i);
      var next, first, rest := SplitFirst(t, u, fb, i, out);
      SegmentFromTexts(t, u, fb, next, rest);
      assert first == out[0] == t.tokenToId[u[i..next]];
    }
  }

  lemma {:induction false} MergedFromTexts(t: Tokenizer, ids: seq<nat>)
    requires t.Valid() && AllFromTexts(t, ids)
    ensures AllFromTexts(t, Merged(t, ids))
    decreases |ids|
  {
    if MergeOnce(t, ids).Some? {
      var p := BestPair(t.mergeRank, ids, PairCount(ids)).value;
      var text := PairText(t, ids, p);
      LookupText(t, text);
      assert FromText(t, ids[p]) && FromText(t, t.tokenToId[text]);
      ReplaceFromTexts(t, ids, p, t.tokenToId[text]);
      MergedFromTexts(t, MergeOnce(t, ids).value);
    }
  }

  lemma ReplaceFromTexts(t: Tokenizer, ids: seq<nat>, p: nat, id: nat)
    requires p + 1 < |ids| && AllFromTexts(t, ids) && FromText(t, id)
    ensures AllFromTexts(t, Replace(ids, p, id))
  {
    var out := Replace(ids, p, id);
    assert forall i: nat :: i < |out| ==> out[i] == if i < p then ids[i] else if i == p then id else ids[i + 1];
  }

  /** Every id that encoding can give is printed, and as whole characters. */
  predicate AllPrint(t: Tokenizer) { forall id: nat :: id < |t.vocab| && FromText(t, id) ==> Prints(t, id) }

  /** With a check of the vocabulary alone both round trips hold, or fail, for all texts. */
  lemma EveryTextRoundTrips(t: Tokenizer, repair: seq<byte> -> seq<byte>, text: seq<byte>)
    requires t.Valid() && AlignedKeys(t.tokenToId) && Complete(t.tokenToId) && AllPrint(t)
    ensures Encoded(t, text, false).Done?
    ensures var ids := Encoded(t, text, false).value;
            && (Streamed(t, repair, ids) == text <==> Readable(text))
            && (Lossy(repair, DecodedBytes(t, ids)) == text <==> Graphic(text))
  {
    CompleteIsFree(t.tokenToId, text);
    EncodedSpells(t, text);
    var ids := Encoded(t, text, false).value;
    EncodedPrints(t, text);
    StreamOfEncode(t, repair, text, ids);
    DecodeOfEncode(t, repair, text, false, ids);
  }

  lemma EncodedPrints(t: Tokenizer, text: seq<byte>)
    requires t.Valid() && FallbackFree(t.tokenToId, Expand(text)) && AllPrint(t)
    ensures Encoded(t, text, false).Done?
    ensures Printing(t, Encoded(t, text, false).value) && Ordinary(t, Encoded(t, text, false).value)
  {
    var u, fb := Expand(text), PositionFallback(t, text);
    SegmentSpells(t, u, fb, 0);
    var working := Tokenised(t, text).value;
    SegmentFromTexts(t, u, fb, 0, working);
    MergedFromTexts(t, working);
    var ids := Encoded(t, text, false).value;
    assert ids == [] + Merged(t, working) == Merged(t, working);
    forall i: nat | i < |ids| ensures Prints(t, ids[i]) {
      assert FromText(t, ids[i]);
    }
  }

  // --------------------------------------------------------------- such a vocabulary

  lemma CharInjective(a: byte, b: byte)
    ensures CharOf(a) == CharOf(b) ==> a == b
  {
    if CharOf(a) == CharOf(b) {
      FirstByteExact(CharOf(a), a);
      FirstByteExact(CharOf(a), b);
    }
  }

  /** One normal token for each byte's character. */
  function AlphabetEntries(): (entries: seq<VocabEntry>)
    ensures |entries| == 256
    ensures forall b: byte :: entries[b] == VocabEntry(CharOf(b), 0.0, 1)
  {
    seq(256, b requires 0 <= b < 256 => VocabEntry(CharOf(b), 0.0, 1))
  }

  /** Any tables consistent with that vocabulary meet every condition above. */
  lemma AlphabetWorks(t: Tokenizer)
    requires t.Valid() && t.vocab == AlphabetEntries()
    ensures AlignedKeys(t.tokenToId) && Complete(t.tokenToId) && AllPrint(t)
  {
    forall b: byte ensures Whole(CharOf(b)) && !Ragged(CharOf(b)) && CharOf(b) in t.tokenToId {
      CharWhole(b);
      assert t.vocab[b].text == CharOf(b);
    }
    forall key | key in t.tokenToId ensures !Ragged(key) {
      var b: byte := t.tokenToId[key];
      assert key == CharOf(b);
    }
    forall id: nat | id < |t.vocab| ensures Prints(t, id) {
      var b: byte := id;
      assert t.vocab[b].text == CharOf(b);
    }
  }

  lemma CharWhole(b: byte)
    ensures Whole(CharOf(b)) && !Ragged(CharOf(b))
  {
    assert Expand([b]) == CharOf(b) + Expand([]) == CharOf(b);
    CollapseInvertsExpand(CharOf(b), [b]);
    RaggedExactly(CharOf(b));
  }

  /** And there are such tables. */
  lemma AlphabetExists() returns (t: Tokenizer)
    ensures t.Valid() && t.vocab == AlphabetEntries()
  {
    forall a: byte, b: byte ensures CharOf(a) == CharOf(b) ==> a == b {
      CharInjective(a, b);
    }
    var ids := map b: byte | 0 <= b < 256 :: CharOf(b) := b as nat;
    t := Tokenizer(AlphabetEntries(), ids, map[], seq(256, _ => 0));
    assert IdTable(t.vocab, t.tokenToId);
  }
}
