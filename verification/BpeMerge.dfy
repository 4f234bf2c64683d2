/** `bpe_merge`: repeatedly replace the best-ranked adjacent pair by its concatenation. */
module BpeMerge {
  import opened Bytes
  import opened Tables

  type Ranks = map<(nat, nat), nat>

  /** Rank of the pair starting at `i`; `U32_MAX` counts as unranked, as the code's `<` makes it. */
  function RankAt(ranks: Ranks, ids: seq<nat>, i: nat): nat
    requires i + 1 < |ids|
  {
    if (ids[i], ids[i + 1]) in ranks then ranks[(ids[i], ids[i + 1])] else U32_MAX
  }

  /** The leftmost lowest-ranked pair among the first `n` pairs. */
  ghost predicate Leftmost(ranks: Ranks, ids: seq<nat>, n: nat, p: nat)
    requires n < |ids| || n == 0
  {
    && p < n
    && RankAt(ranks, ids, p) < U32_MAX
    && (forall j: nat :: j < n ==> RankAt(ranks, ids, p) <= RankAt(ranks, ids, j))
    && (forall j: nat :: j < p ==> RankAt(ranks, ids, p) < RankAt(ranks, ids, j))
  }

  /** Position of the pair to merge next, if any. */
  function BestPair(ranks: Ranks, ids: seq<nat>, n: nat): (best: Option<nat>)
    requires n < |ids| || n == 0
    ensures best.Some? ==> Leftmost(ranks, ids, n, best.value)
    ensures best.None? ==> forall j: nat :: j < n ==> RankAt(ranks, ids, j) >= U32_MAX
  {
    if n == 0 then None
    else
      var before := BestPair(ranks, ids, n - 1);
      var bestRank := match before case Some(p) => RankAt(ranks, ids, p) case None => U32_MAX;
      if RankAt(ranks, ids, n - 1) < bestRank then Some(n - 1) else before
  }

  function PairCount(ids: seq<nat>): nat {
    if ids == [] then 0 else |ids| - 1
  }

  /** Text of an id; ids outside the vocabulary have none. */
  function TextAt(t: Tokenizer, id: nat): seq<byte> {
    if id < |t.vocab| then t.vocab[id].text else []
  }

  function PairText(t: Tokenizer, ids: seq<nat>, p: nat): seq<byte>
    requires p + 1 < |ids|
  {
    TextAt(t, ids[p]) + TextAt(t, ids[p + 1])
  }

  /** `ids[p] = id; ids.remove(p + 1)` */
  function Replace(ids: seq<nat>, p: nat, id: nat): (r: seq<nat>)
    requires p + 1 < |ids|
    ensures |r| == |ids| - 1
  {
    ids[..p] + [id] + ids[p + 2..]
  }

  /** One round of the loop; `None` when it stops. */
  function MergeOnce(t: Tokenizer, ids: seq<nat>): (next: Option<seq<nat>>)
    ensures next.Some? ==> |next.value| == |ids| - 1
  {
    match BestPair(t.mergeRank, ids, PairCount(ids))
    case None => None
    case Some(p) =>
      if PairText(t, ids, p) in t.tokenToId
      then Some(Replace(ids, p, t.tokenToId[PairText(t, ids, p)]))
      else None
  }

  /** The whole pass. */
  function Merged(t: Tokenizer, ids: seq<nat>): seq<nat>
    decreases |ids|
  {
    match MergeOnce(t, ids)
    case None => ids
    case Some(next) => Merged(t, next)
  }

  /** The scan for the lowest rank; ties keep the earlier position. */
  method FindBest(t: Tokenizer, ids: seq<nat>) returns (best: Option<nat>)
    requires |ids| >= 2
    ensures best == BestPair(t.mergeRank, ids, PairCount(ids))
  {
    var bestRank := U32_MAX;
    best := None;
    for i := 0 to |ids| - 1
      invariant best == BestPair(t.mergeRank, ids, i)
      invariant bestRank == match best case Some(p) => RankAt(t.mergeRank, ids, p) case None => U32_MAX
    {
      if (ids[i], ids[i + 1]) in t.mergeRank {
        var rank := t.mergeRank[(ids[i], ids[i + 1])];
        if rank < bestRank {
          bestRank, best := rank, Some(i);
        }
      }
    }
  }

  method Merge(t: Tokenizer, initial: seq<nat>) returns (ids: seq<nat>)
    requires t.Valid()
    ensures ids == Merged(t, initial)
  {
    ids := initial;
    while true
      invariant Merged(t, ids) == Merged(t, initial)
      decreases |ids|
    {
      if |ids| < 2 {
        return;
      }
      var best := FindBest(t, ids);
      if best.None? {
        return;
      }
      var p := best.value;
      assert (ids[p], ids[p + 1]) in t.mergeRank;
      var text := t.vocab[ids[p]].text + t.vocab[ids[p + 1]].text;
      if text !in t.tokenToId {
        return;
      }
      ids := Replace(ids, p, t.tokenToId[text]);
    }
  }

  // ------------------------------------------------------------ what it rewrites

  /** The pair at `p` has a rank, no pair has a lower one, and no earlier pair has the same. */
  ghost predicate Lowest(ranks: Ranks, ids: seq<nat>, p: nat) {
    && p + 1 < |ids| && (ids[p], ids[p + 1]) in ranks && ranks[(ids[p], ids[p + 1])] < 0xFFFF_FFFF
    && forall j: nat :: j + 1 < |ids| && (ids[j], ids[j + 1]) in ranks ==>
         var mine, other := ranks[(ids[p], ids[p + 1])], ranks[(ids[j], ids[j + 1])];
         mine < other || (mine == other && p <= j)
  }

  lemma LowestIsLeftmost(ranks: Ranks, ids: seq<nat>, p: nat)
    ensures Lowest(ranks, ids, p) <==> Leftmost(ranks, ids, PairCount(ids), p)
  {
    if Leftmost(ranks, ids, PairCount(ids), p) {
      forall j: nat | j + 1 < |ids| && (ids[j], ids[j + 1]) in ranks
        ensures RankAt(ranks, ids, j) == ranks[(ids[j], ids[j + 1])]
      {
      }
    }
  }

  lemma LowestUnique(ranks: Ranks, ids: seq<nat>, p: nat, q: nat)
    requires Lowest(ranks, ids, p) && Lowest(ranks, ids, q)
    ensures p == q
  {
  }

  /** The text of the pair at `p`. */
  function TextOfPair(t: Tokenizer, ids: seq<nat>, p: nat): seq<byte>
    requires p + 1 < |ids| && ids[p] < |t.vocab| && ids[p + 1] < |t.vocab|
  {
    t.vocab[ids[p]].text + t.vocab[ids[p + 1]].text
  }

  /** `after` is `before` with its lowest-ranked pair replaced by the token for the pair's text. */
  ghost predicate Rewrites(t: Tokenizer, before: seq<nat>, after: seq<nat>, p: nat)
    requires InVocab(t, before)
  {
    && Lowest(t.mergeRank, before, p)
    && TextOfPair(t, before, p) in t.tokenToId
    && after == before[..p] + [t.tokenToId[TextOfPair(t, before, p)]] + before[p + 2..]
  }

  /** No pair is ranked, or the lowest-ranked one has no token for its text. */
  ghost predicate Stuck(t: Tokenizer, ids: seq<nat>)
    requires InVocab(t, ids)
  {
    forall p: nat :: Lowest(t.mergeRank, ids, p) ==> TextOfPair(t, ids, p) !in t.tokenToId
  }

  ghost predicate CanRewrite(t: Tokenizer, before: seq<nat>, after: seq<nat>)
    requires InVocab(t, before)
  {
    exists p: nat :: Rewrites(t, before, after, p)
  }

  /** Step `i` of a trace is a rewriting. */
  ghost predicate StepRewrites(t: Tokenizer, trace: seq<seq<nat>>, i: nat)
    requires i + 1 < |trace|
  {
    InVocab(t, trace[i]) && CanRewrite(t, trace[i], trace[i + 1])
  }

  /** A rewriting from its first sequence to its last. */
  ghost predicate Rewriting(t: Tokenizer, trace: seq<seq<nat>>) {
    && trace != [] && InVocab(t, trace[|trace| - 1])
    && forall i: nat :: i + 1 < |trace| ==> StepRewrites(t, trace, i)
  }

  lemma BestIsLowest(ranks: Ranks, ids: seq<nat>, p: nat)
    ensures BestPair(ranks, ids, PairCount(ids)) == Some(p) <==> Lowest(ranks, ids, p)
  {
    var best := BestPair(ranks, ids, PairCount(ids));
    LowestIsLeftmost(ranks, ids, p);
    if best.Some? {
      LowestIsLeftmost(ranks, ids, best.value);
      if Lowest(ranks, ids, p) {
        LowestUnique(ranks, ids, p, best.value);
      }
    }
  }

  lemma PairTextIs(t: Tokenizer, ids: seq<nat>, p: nat)
    requires p + 1 < |ids| && InVocab(t, ids)
    ensures PairText(t, ids, p) == TextOfPair(t, ids, p)
  {
  }

  lemma OneRewrite(t: Tokenizer, ids: seq<nat>, next: seq<nat>)
    requires InVocab(t, ids)
    ensures MergeOnce(t, ids) == Some(next) <==> CanRewrite(t, ids, next)
  {
    if MergeOnce(t, ids) == Some(next) {
      var p := BestPair(t.mergeRank, ids, PairCount(ids)).value;
      BestIsLowest(t.mergeRank, ids, p);
      PairTextIs(t, ids, p);
      assert Rewrites(t, ids, next, p);
    }
    if CanRewrite(t, ids, next) {
      var p: nat :| Rewrites(t, ids, next, p);
      BestIsLowest(t.mergeRank, ids, p);
      PairTextIs(t, ids, p);
    }
  }

  lemma NoRewrite(t: Tokenizer, ids: seq<nat>)
    requires InVocab(t, ids)
    ensures MergeOnce(t, ids).None? <==> Stuck(t, ids)
  {
    forall p: nat | p + 1 < |ids|
      ensures BestPair(t.mergeRank, ids, PairCount(ids)) == Some(p) <==> Lowest(t.mergeRank, ids, p)
      ensures PairText(t, ids, p) == TextOfPair(t, ids, p)
    {
      BestIsLowest(t.mergeRank, ids, p);
      PairTextIs(t, ids, p);
    }
  }

  /** Merging is such a rewriting, from the given ids to a stuck sequence. */
  lemma {:induction false} MergedRewrites(t: Tokenizer, ids: seq<nat>) returns (trace: seq<seq<nat>>)
    requires t.Valid() && InVocab(t, ids)
    ensures Rewriting(t, trace) && trace[0] == ids && trace[|trace| - 1] == Merged(t, ids)
    ensures Stuck(t, Merged(t, ids))
    decreases |ids|
  {
    if MergeOnce(t, ids).None? {
      NoRewrite(t, ids);
      trace := [ids];
    } else {
      var next := MergeOnce(t, ids).value;
      MergeOnceKeepsSurface(t, ids);
      OneRewrite(t, ids, next);
      var rest := MergedRewrites(t, next);
      trace := [ids] + rest;
      RewritingCons(t, ids, rest);
    }
  }

  lemma RewritingCons(t: Tokenizer, ids: seq<nat>, rest: seq<seq<nat>>)
    requires InVocab(t, ids) && Rewriting(t, rest) && CanRewrite(t, ids, rest[0])
    ensures Rewriting(t, [ids] + rest)
  {
    var trace := [ids] + rest;
    forall i: nat | i + 1 < |trace| ensures StepRewrites(t, trace, i) {
      if i > 0 {
        assert StepRewrites(t, rest, i - 1);
      }
    }
  }

  /** And there is no other: every rewriting to a stuck sequence ends where merging does. */
  lemma {:induction false} RewritingEndsInMerged(t: Tokenizer, trace: seq<seq<nat>>)
    requires t.Valid() && Rewriting(t, trace) && Stuck(t, trace[|trace| - 1])
    ensures trace[|trace| - 1] == Merged(t, trace[0])
    decreases |trace|
  {
    if |trace| > 1 {
      var rest := trace[1..];
      assert StepRewrites(t, trace, 0);
      forall i: nat | i + 1 < |rest| ensures StepRewrites(t, rest, i) {
        assert StepRewrites(t, trace, i + 1);
      }
      RewritingEndsInMerged(t, rest);
      OneRewrite(t, trace[0], trace[1]);
    } else {
      NoRewrite(t, trace[0]);
    }
  }

  // -------------------------------------------------------------- what it keeps

  /** The concatenated texts of a sequence of ids. */
  function Surface(t: Tokenizer, ids: seq<nat>): seq<byte> {
    if ids == [] then [] else TextAt(t, ids[0]) + Surface(t, ids[1..])
  }

  lemma {:induction false} SurfaceAppend(t: Tokenizer, a: seq<nat>, b: seq<nat>)
    ensures Surface(t, a + b) == Surface(t, a) + Surface(t, b)
  {
    if a == [] {
      assert a + b == b;
    } else {
      assert (a + b)[1..] == a[1..] + b;
      SurfaceAppend(t, a[1..], b);
    }
  }

  predicate InVocab(t: Tokenizer, ids: seq<nat>) {
    forall i: nat :: i < |ids| ==> ids[i] < |t.vocab|
  }

  lemma MergeOnceKeepsSurface(t: Tokenizer, ids: seq<nat>)
    requires t.Valid() && MergeOnce(t, ids).Some?
    ensures Surface(t, MergeOnce(t, ids).value) == Surface(t, ids)
    ensures InVocab(t, ids) ==> InVocab(t, MergeOnce(t, ids).value)
  {
    var p := BestPair(t.mergeRank, ids, PairCount(ids)).value;
    LookupText(t, PairText(t, ids, p));
    var id := t.tokenToId[PairText(t, ids, p)];
    ReplaceKeepsSurface(t, ids, p, id);
    if InVocab(t, ids) {
      ReplaceKeepsRange(t, ids, p, id);
    }
  }

  lemma ReplaceKeepsRange(t: Tokenizer, ids: seq<nat>, p: nat, id: nat)
    requires p + 1 < |ids| && id < |t.vocab| && InVocab(t, ids)
    ensures InVocab(t, Replace(ids, p, id))
  {
    var out := Replace(ids, p, id);
    assert forall i: nat :: i < |out| ==> out[i] == if i < p then ids[i] else if i == p then id else ids[i + 1];
  }

  lemma LookupText(t: Tokenizer, key: seq<byte>)
    requires t.Valid() && key in t.tokenToId
    ensures t.tokenToId[key] < |t.vocab| && TextAt(t, t.tokenToId[key]) == key
  {
  }

  lemma ReplaceKeepsSurface(t: Tokenizer, ids: seq<nat>, p: nat, id: nat)
    requires p + 1 < |ids| && TextAt(t, id) == PairText(t, ids, p)
    ensures Surface(t, Replace(ids, p, id)) == Surface(t, ids)
  {
    var left, pair, right := ids[..p], [ids[p], ids[p + 1]], ids[p + 2..];
    assert left + pair + right == ids;
    SurfaceOfPair(t, ids[p], ids[p + 1]);
    SurfaceOfOne(t, id);
    SurfaceSwap(t, left, [id], pair, right);
  }

  lemma SurfaceSwap(t: Tokenizer, left: seq<nat>, a: seq<nat>, b: seq<nat>, right: seq<nat>)
    requires Surface(t, a) == Surface(t, b)
    ensures Surface(t, left + a + right) == Surface(t, left + b + right)
  {
    SurfaceAppend(t, left + a, right);
    SurfaceAppend(t, left, a);
    SurfaceAppend(t, left + b, right);
    SurfaceAppend(t, left, b);
  }

  lemma SurfaceOfOne(t: Tokenizer, id: nat)
    ensures Surface(t, [id]) == TextAt(t, id)
  {
    assert Surface(t, [id]) == TextAt(t, id) + Surface(t, []);
  }

  lemma SurfaceOfPair(t: Tokenizer, left: nat, right: nat)
    ensures Surface(t, [left, right]) == TextAt(t, left) + TextAt(t, right)
  {
    SurfaceOfOne(t, right);
    assert [left, right][1..] == [right];
  }

  /** Merging never changes the text spelled, nor leaves the vocabulary, nor grows the sequence. */
  lemma {:induction false} MergedKeepsSurface(t: Tokenizer, ids: seq<nat>)
    requires t.Valid()
    ensures Surface(t, Merged(t, ids)) == Surface(t, ids)
    ensures InVocab(t, ids) ==> InVocab(t, Merged(t, ids))
    ensures |Merged(t, ids)| <= |ids|
    decreases |ids|
  {
    if MergeOnce(t, ids).Some? {
      MergeOnceKeepsSurface(t, ids);
      MergedKeepsSurface(t, MergeOnce(t, ids).value);
    }
  }

  // ---------------------------------------------------------- where it ends

  /** The pass ends in a sequence it would leave alone, hence is idempotent. */
  lemma {:induction false} MergedIsStable(t: Tokenizer, ids: seq<nat>)
    ensures MergeOnce(t, Merged(t, ids)).None?
    ensures Merged(t, Merged(t, ids)) == Merged(t, ids)
    decreases |ids|
  {
    if MergeOnce(t, ids).Some? {
      MergedIsStable(t, MergeOnce(t, ids).value);
    }
  }

  /** A sequence is left alone exactly when no pair is ranked or the best pair's text is unknown. */
  lemma StableExactly(t: Tokenizer, ids: seq<nat>)
    ensures Merged(t, ids) == ids <==>
            forall p: nat :: Leftmost(t.mergeRank, ids, PairCount(ids), p) ==> PairText(t, ids, p) !in t.tokenToId
  {
    MergedShrinks(t, ids);
  }

  lemma {:induction false} MergedShrinks(t: Tokenizer, ids: seq<nat>)
    ensures |Merged(t, ids)| <= |ids|
    ensures MergeOnce(t, ids).Some? ==> |Merged(t, ids)| < |ids|
    decreases |ids|
  {
    if MergeOnce(t, ids).Some? {
      MergedShrinks(t, MergeOnce(t, ids).value);
    }
  }

  /** Every rule's result is a token, and every rank is below the marker. */
  ghost predicate ClosedMerges(t: Tokenizer) {
    forall pair :: pair in t.mergeRank ==>
      t.mergeRank[pair] < U32_MAX && TextAt(t, pair.0) + TextAt(t, pair.1) in t.tokenToId
  }

  lemma ClosedStops(t: Tokenizer, ids: seq<nat>)
    requires ClosedMerges(t)
    ensures MergeOnce(t, ids).None? <==> BestPair(t.mergeRank, ids, PairCount(ids)).None?
  {
    var best := BestPair(t.mergeRank, ids, PairCount(ids));
    if best.Some? {
      assert (ids[best.value], ids[best.value + 1]) in t.mergeRank;
    }
  }

  /** With a closed merge table nothing mergeable is left over. */
  lemma MergedIsNormal(t: Tokenizer, ids: seq<nat>)
    requires ClosedMerges(t)
    ensures forall i: nat :: i + 1 < |Merged(t, ids)| ==>
              (Merged(t, ids)[i], Merged(t, ids)[i + 1]) !in t.mergeRank
  {
    MergedIsStable(t, ids);
    var out := Merged(t, ids);
    ClosedStops(t, out);
    forall i: nat | i + 1 < |out| ensures (out[i], out[i + 1]) !in t.mergeRank {
      assert RankAt(t.mergeRank, out, i) >= U32_MAX;
    }
  }

  /** A merge rule whose halves are both tokens has its concatenation as a token too. */
  predicate RuleCloses(tokenToId: map<seq<byte>, nat>, rule: seq<byte>) {
    match SplitOnce(rule)
    case Some(parts) => parts.0 in tokenToId && parts.1 in tokenToId ==> parts.0 + parts.1 in tokenToId
    case None => true
  }

  /** For a table built from fewer than 2^32 - 1 rules, closure can be read off the rule strings. */
  lemma ClosedExactly(t: Tokenizer, merges: seq<seq<byte>>)
    requires t.Valid() && RankTable(merges, t.tokenToId, t.mergeRank) && |merges| < U32_MAX
    ensures ClosedMerges(t) <==> forall r: nat :: r < |merges| ==> RuleCloses(t.tokenToId, merges[r])
  {
    forall r: nat | r < |merges| && PairOf(t.tokenToId, merges[r]).Some?
      ensures var pair := PairOf(t.tokenToId, merges[r]).value;
              RuleCloses(t.tokenToId, merges[r]) <==> TextAt(t, pair.0) + TextAt(t, pair.1) in t.tokenToId
    {
      var parts := SplitOnce(merges[r]).value;
      LookupText(t, parts.0);
      LookupText(t, parts.1);
    }
  }

  /** One unknown concatenation at the best rank blocks every other merge. */
  lemma MissingResultBlocks(t: Tokenizer)
    requires |t.vocab| == 4
    requires TextAt(t, 0) == [97] && TextAt(t, 1) == [98] && TextAt(t, 2) == [99] && TextAt(t, 3) == [98, 99]
    requires t.mergeRank == map[(0, 1) := 0, (1, 2) := 1]
    requires t.tokenToId == map[[97] := 0, [98] := 1, [99] := 2, [98, 99] := 3]
    ensures Merged(t, [0, 1, 2]) == [0, 1, 2]
    ensures Merged(t, [1, 2]) == [3]
  {
    var ids := [0, 1, 2];
    assert BestPair(t.mergeRank, ids, 1) == Some(0);
    assert BestPair(t.mergeRank, ids, 2) == Some(0);
    assert PairText(t, ids, 0) == [97, 98];
    var two := [1, 2];
    assert BestPair(t.mergeRank, two, 1) == Some(0);
    assert PairText(t, two, 0) == [98, 99];
    assert Replace(two, 0, 3) == [3];
    assert MergeOnce(t, two) == Some([3]);
    assert MergeOnce(t, [3]) == None;
  }
}
