/** Drawing a token: repeat penalty, temperature, top-k, softmax, nucleus, inverse-CDF draw; over reals. */
module Sampler {
  import opened Bytes
  import opened Xorshift

  datatype SamplingConfig = SamplingConfig(temperature: real, topP: real, topK: Option<nat>, repeatPenalty: real)

  datatype LogitError = InvalidTemperature(t: real) | InvalidTopP(p: real) | EmptyLogits

  datatype SampleResult = Sampled(id: nat) | Rejected(error: LogitError) | SamplePanic

  /** The exponential, of which only positivity and monotonicity matter. */
  type Exp = real -> real

  ghost predicate IsExp(exp: Exp) {
    && (forall x :: exp(x) > 0.0)
    && (forall x, y :: x <= y ==> exp(x) <= exp(y))
  }

  function Validate(cfg: SamplingConfig): (e: Option<LogitError>)
    ensures e.None? <==> cfg.temperature > 0.0 && 0.0 < cfg.topP <= 1.0
    ensures e == Some(InvalidTemperature(cfg.temperature)) <==> cfg.temperature <= 0.0
  {
    if cfg.temperature <= 0.0 then Some(InvalidTemperature(cfg.temperature))
    else if cfg.topP <= 0.0 || cfg.topP > 1.0 then Some(InvalidTopP(cfg.topP))
    else None
  }

  // ------------------------------------------------------------ repeat penalty

  function Penalise(l: real, p: real): real
    requires p != 0.0
  {
    if l > 0.0 then l / p else l * p
  }

  /** One pass over `recent`, oldest first. */
  function PenaliseAll(logits: seq<real>, recent: seq<nat>, p: real): (r: seq<real>)
    requires p != 0.0
    ensures |r| == |logits|
  {
    if recent == [] then logits
    else
      var before, token := PenaliseAll(logits, recent[..|recent| - 1], p), recent[|recent| - 1];
      if token < |logits| then before[token := Penalise(before[token], p)] else before
  }

  predicate NearOne(p: real) { -0.000001 < p - 1.0 < 0.000001 }

  function Penalised(logits: seq<real>, recent: seq<nat>, p: real): (r: seq<real>)
    requires p != 0.0
    ensures |r| == |logits|
  {
    if NearOne(p) then logits else PenaliseAll(logits, recent, p)
  }

  method PenaliseAt(logits: array<real>, idx: nat, penalty: real)
    requires penalty != 0.0 && idx < logits.Length
    modifies logits
    ensures logits[..] == old(logits[..])[idx := Penalise(old(logits[idx]), penalty)]
  {
    var l := logits[idx];
    var scaled := if l > 0.0 then l / penalty else l * penalty;
    assert scaled == Penalise(l, penalty);
    logits[idx] := scaled;
  }

  method ApplyRepeatPenalty(logits: array<real>, recent: seq<nat>, penalty: real)
    requires penalty != 0.0
    modifies logits
    ensures logits[..] == Penalised(old(logits[..]), recent, penalty)
  {
    if NearOne(penalty) {
      return;
    }
    for k := 0 to |recent|
      invariant logits[..] == PenaliseAll(old(logits[..]), recent[..k], penalty)
    {
      PenaliseNext(old(logits[..]), recent, penalty, k);
      var idx := recent[k];
      if idx < logits.Length {
        PenaliseAt(logits, idx, penalty);
      }
    }
    assert recent[..|recent|] == recent;
  }

  lemma PenaliseNext(logits: seq<real>, recent: seq<nat>, p: real, k: nat)
    requires p != 0.0 && k < |recent|
    ensures PenaliseAll(logits, recent[..k + 1], p) ==
            var before := PenaliseAll(logits, recent[..k], p);
            if recent[k] < |logits| then before[recent[k] := Penalise(before[recent[k]], p)] else before
  {
    assert recent[..k + 1][..k] == recent[..k];
  }

  function Pow(p: real, n: nat): real { if n == 0 then 1.0 else Pow(p, n - 1) * p }

  lemma {:induction false} PowPositive(p: real, n: nat)
    requires p > 0.0
    ensures Pow(p, n) > 0.0
  {
    if n > 0 {
      PowPositive(p, n - 1);
    }
  }

  /** What `c` penalties do to a logit. */
  function Scaled(l: real, p: real, c: nat): real
    requires p > 0.0
  {
    PowPositive(p, c);
    if l > 0.0 then l / Pow(p, c) else l * Pow(p, c)
  }

  lemma DivideOnce(l: real, a: real, p: real)
    requires a > 0.0 && p > 0.0
    ensures a * p > 0.0 && l / a / p == l / (a * p)
    ensures l > 0.0 ==> l / a > 0.0
    ensures l <= 0.0 ==> l * a <= 0.0 && l * a * p == l * (a * p)
  {
    var q := l / a / p;
    assert q * p * a == l;
    assert q * (a * p) == l;
  }

  /** Closed form: each logit is scaled by the penalty to the number of times its token is in `recent`. */
  lemma {:induction false} PenaltyClosedForm(logits: seq<real>, recent: seq<nat>, p: real, i: nat)
    requires p > 0.0 && i < |logits|
    ensures PenaliseAll(logits, recent, p)[i] == Scaled(logits[i], p, multiset(recent)[i])
  {
    if recent != [] {
      var n := |recent| - 1;
      assert recent == recent[..n] + [recent[n]];
      PenaltyClosedForm(logits, recent[..n], p, i);
      ScaledNext(logits[i], p, multiset(recent[..n])[i]);
    } else {
      ScaledNever(logits[i], p);
    }
  }

  lemma ScaledNever(l: real, p: real)
    requires p > 0.0
    ensures Scaled(l, p, 0) == l
  {
  }

  lemma ScaledNext(l: real, p: real, c: nat)
    requires p > 0.0
    ensures Scaled(l, p, c + 1) == Penalise(Scaled(l, p, c), p)
  {
    PowPositive(p, c);
    DivideOnce(l, Pow(p, c), p);
  }

  /** Hence the order of the recent tokens is irrelevant. */
  lemma PenaltyOrderIrrelevant(logits: seq<real>, a: seq<nat>, b: seq<nat>, p: real)
    requires p > 0.0 && multiset(a) == multiset(b)
    ensures Penalised(logits, a, p) == Penalised(logits, b, p)
  {
    forall i: nat | i < |logits| ensures PenaliseAll(logits, a, p)[i] == PenaliseAll(logits, b, p)[i] {
      PenaltyClosedForm(logits, a, p, i);
      PenaltyClosedForm(logits, b, p, i);
    }
  }

  // --------------------------------------------------------------- temperature

  function ScaleAll(logits: seq<real>, factor: real): (r: seq<real>)
    ensures |r| == |logits|
  {
    seq(|logits|, i requires 0 <= i < |logits| => logits[i] * factor)
  }

  /** The logits the draw is made from. */
  function Adjusted(logits: seq<real>, recent: seq<nat>, cfg: SamplingConfig): (r: seq<real>)
    requires cfg.repeatPenalty != 0.0 && cfg.temperature > 0.0
    ensures |r| == |logits|
  {
    ScaleAll(Penalised(logits, recent, cfg.repeatPenalty), 1.0 / cfg.temperature)
  }

  /** What penalty and temperature make of a logit whose token occurs `c` times in the recent ones. */
  predicate AdjustedAt(l: real, c: nat, cfg: SamplingConfig, x: real) {
    var y := x * cfg.temperature;
    if -0.000001 < cfg.repeatPenalty - 1.0 < 0.000001 then y == l
    else if l > 0.0 then y * Pow(cfg.repeatPenalty, c) == l
    else y == l * Pow(cfg.repeatPenalty, c)
  }

  lemma InverseTimes(l: real, d: real)
    requires d != 0.0
    ensures l * (1.0 / d) * d == l && l / d * d == l
  {
  }

  lemma AdjustedExactly(logits: seq<real>, recent: seq<nat>, cfg: SamplingConfig, i: nat)
    requires cfg.repeatPenalty > 0.0 && cfg.temperature > 0.0 && i < |logits|
    ensures AdjustedAt(logits[i], multiset(recent)[i], cfg, Adjusted(logits, recent, cfg)[i])
  {
    var p, c, l := cfg.repeatPenalty, multiset(recent)[i], logits[i];
    var scaled := Penalised(logits, recent, p)[i];
    InverseTimes(scaled, cfg.temperature);
    assert Adjusted(logits, recent, cfg)[i] * cfg.temperature == scaled;
    if !NearOne(p) {
      PenaltyClosedForm(logits, recent, p, i);
      PowPositive(p, c);
      InverseTimes(l, Pow(p, c));
    }
  }

  predicate AllAdjusted(logits: seq<real>, recent: seq<nat>, cfg: SamplingConfig, scores: seq<real>) {
    |scores| == |logits|
    && forall i: nat :: i < |logits| ==> AdjustedAt(logits[i], multiset(recent)[i], cfg, scores[i])
  }

  lemma AdjustedAll(logits: seq<real>, recent: seq<nat>, cfg: SamplingConfig)
    requires cfg.repeatPenalty > 0.0 && cfg.temperature > 0.0
    ensures AllAdjusted(logits, recent, cfg, Adjusted(logits, recent, cfg))
  {
    forall i: nat | i < |logits|
      ensures AdjustedAt(logits[i], multiset(recent)[i], cfg, Adjusted(logits, recent, cfg)[i])
    {
      AdjustedExactly(logits, recent, cfg, i);
    }
  }

  method ScaleInPlace(logits: array<real>, factor: real)
    modifies logits
    ensures logits[..] == ScaleAll(old(logits[..]), factor)
  {
    ghost var before := logits[..];
    for i := 0 to logits.Length
      invariant forall j: nat :: j < logits.Length ==>
                  logits[j] == if j < i then before[j] * factor else before[j]
    {
      logits[i] := logits[i] * factor;
    }
    assert forall j: nat :: j < logits.Length ==> logits[..][j] == ScaleAll(before, factor)[j];
  }

  // --------------------------------------------------------------------- top-k

  /** `indices` are the ids of `k` largest logits, largest first; ties are free. */
  ghost predicate TopK(logits: seq<real>, indices: seq<nat>, k: nat) {
    && |indices| == k
    && (forall a: nat :: a < k ==> indices[a] < |logits|)
    && (forall a: nat, b: nat :: a < b < k ==> indices[a] != indices[b])
    && (forall a: nat, b: nat :: a < b < k ==> logits[indices[a]] >= logits[indices[b]])
    && (forall a: nat, j: nat :: a < k && j < |logits| && j !in indices ==> logits[j] <= logits[indices[a]])
  }

  /** Selection of the `k` largest, as the library's select, truncate and sort together promise. */
  method SelectTop(logits: seq<real>, k: nat) returns (indices: seq<nat>)
    requires k <= |logits|
    ensures TopK(logits, indices, k)
  {
    indices := [];
    for n := 0 to k
      invariant TopK(logits, indices, n)
    {
      var best: nat := FindUnused(logits, indices);
      for j := 0 to |logits|
        invariant best < |logits| && best !in indices && |indices| == n
        invariant forall i: nat :: i < j && i !in indices ==> logits[i] <= logits[best]
      {
        if j !in indices && logits[j] > logits[best] {
          best := j;
        }
      }
      indices := indices + [best];
    }
  }

  method FindUnused(logits: seq<real>, used: seq<nat>) returns (j: nat)
    requires |used| < |logits| && TopK(logits, used, |used|)
    ensures j < |logits| && j !in used
  {
    j := 0;
    while j < |logits|
      invariant j <= |logits|
      invariant forall i: nat :: i < j ==> i in used
    {
      if j !in used {
        return;
      }
      j := j + 1;
    }
    TooFewToCover(used, |logits|);
  }

  /** Fewer than `n` values cannot include all of 0 to n - 1. */
  lemma {:induction false} TooFewToCover(used: seq<nat>, n: nat)
    requires |used| < n
    requires forall i: nat :: i < n ==> i in used
    ensures false
  {
    assert n - 1 in used;
    var at :| 0 <= at < |used| && used[at] == n - 1;
    var less := used[..at] + used[at + 1..];
    forall i: nat | i < n - 1 ensures i in less {
      assert i in used;
      var b :| 0 <= b < |used| && used[b] == i;
      assert less[if b < at then b else b - 1] == i;
    }
    TooFewToCover(less, n - 1);
  }

  /** A selection of any size up to the number of logits exists. */
  lemma {:induction false} TopKExists(logits: seq<real>, k: nat) returns (indices: seq<nat>)
    requires k <= |logits|
    ensures TopK(logits, indices, k)
  {
    indices := [];
    if k > 0 {
      var fewer := TopKExists(logits, k - 1);
      var best := LargestUnused(logits, fewer, |logits|);
      if best.None? {
        TooFewToCover(fewer, |logits|);
      }
      indices := fewer + [best.value];
    }
  }

  lemma {:induction false} LargestUnused(logits: seq<real>, used: seq<nat>, n: nat) returns (best: Option<nat>)
    requires n <= |logits|
    ensures best.None? ==> forall j: nat :: j < n ==> j in used
    ensures best.Some? ==> best.value < n && best.value !in used
    ensures best.Some? ==> forall j: nat :: j < n && j !in used ==> logits[j] <= logits[best.value]
  {
    best := None;
    if n > 0 {
      best := LargestUnused(logits, used, n - 1);
      if n - 1 !in used && (best.None? || logits[best.value] < logits[n - 1]) {
        best := Some(n - 1);
      }
    }
  }

  // ------------------------------------------------------------------- softmax

  /** Sum of the first `n` values. */
  function Prefix(s: seq<real>, n: nat): real
    requires n <= |s|
  {
    if n == 0 then 0.0 else Prefix(s, n - 1) + s[n - 1]
  }

  function Sum(s: seq<real>): real { Prefix(s, |s|) }

  predicate Positive(s: seq<real>) { forall i: nat :: i < |s| ==> s[i] > 0.0 }

  lemma {:induction false} PrefixGrows(s: seq<real>, m: nat, n: nat)
    requires Positive(s) && m < n <= |s|
    ensures 0.0 <= Prefix(s, m) < Prefix(s, n)
  {
    if m < n - 1 {
      PrefixGrows(s, m, n - 1);
    } else if m > 0 {
      PrefixGrows(s, m - 1, m);
    }
  }

  lemma {:induction false} PrefixOfTake(s: seq<real>, m: nat, n: nat)
    requires n <= m <= |s|
    ensures Prefix(s[..m], n) == Prefix(s, n)
  {
    if n > 0 {
      PrefixOfTake(s, m, n - 1);
    }
  }

  /** Divide by the total, so that the result sums to 1. */
  function Normalised(s: seq<real>): (r: seq<real>)
    requires Sum(s) > 0.0
    ensures |r| == |s|
  {
    seq(|s|, i requires 0 <= i < |s| => s[i] / Sum(s))
  }

  lemma {:induction false} NormalisedPrefix(s: seq<real>, n: nat)
    requires Sum(s) > 0.0 && n <= |s|
    ensures Prefix(Normalised(s), n) == Prefix(s, n) / Sum(s)
  {
    if n > 0 {
      NormalisedPrefix(s, n - 1);
    }
  }

  method Normalise(s: seq<real>) returns (r: seq<real>)
    requires Sum(s) > 0.0
    ensures r == Normalised(s)
  {
    var sum := 0.0;
    for i := 0 to |s|
      invariant sum == Prefix(s, i)
    {
      sum := sum + s[i];
    }
    var a := new real[|s|](i requires 0 <= i < |s| => s[i]);
    for i := 0 to |s|
      invariant forall j: nat :: j < |s| ==> a[j] == if j < i then s[j] / sum else s[j]
    {
      a[i] := a[i] / sum;
    }
    return a[..];
  }

  /** Unnormalised weights of the kept tokens, relative to the largest. */
  function Weights(exp: Exp, logits: seq<real>, indices: seq<nat>): (w: seq<real>)
    requires forall a: nat :: a < |indices| ==> indices[a] < |logits|
    ensures |w| == |indices|
  {
    seq(|indices|, a requires 0 <= a < |indices| => exp(logits[indices[a]] - logits[indices[0]]))
  }

  lemma WeightsPositive(exp: Exp, logits: seq<real>, indices: seq<nat>)
    requires IsExp(exp) && indices != []
    requires forall a: nat :: a < |indices| ==> indices[a] < |logits|
    ensures Positive(Weights(exp, logits, indices)) && Sum(Weights(exp, logits, indices)) > 0.0
  {
    var w := Weights(exp, logits, indices);
    assert Positive(w);
    PrefixGrows(w, 0, |w|);
  }

  // ------------------------------------------------------------------- nucleus

  /** Length of the kept prefix: the first cumulative sum that reaches `topP`. */
  function CutoffFrom(probs: seq<real>, topP: real, n: nat): nat
    requires n <= |probs|
    decreases |probs| - n
  {
    if n == |probs| then |probs|
    else if Prefix(probs, n + 1) >= topP then n + 1
    else CutoffFrom(probs, topP, n + 1)
  }

  function Cutoff(probs: seq<real>, topP: real): nat { CutoffFrom(probs, topP, 0) }

  method FindCutoff(probs: seq<real>, topP: real) returns (cutoff: nat)
    ensures cutoff == Cutoff(probs, topP)
  {
    var cum := 0.0;
    cutoff := |probs|;
    for idx := 0 to |probs|
      invariant cum == Prefix(probs, idx)
      invariant cutoff == |probs| && Cutoff(probs, topP) == CutoffFrom(probs, topP, idx)
    {
      cum := cum + probs[idx];
      if cum >= topP {
        cutoff := idx + 1;
        break;
      }
    }
  }

  lemma {:induction false} CutoffFromFirst(probs: seq<real>, topP: real, n: nat)
    requires n < |probs| && Sum(probs) >= topP
    requires forall j: nat :: j <= n && j > 0 ==> Prefix(probs, j) < topP
    ensures var m := CutoffFrom(probs, topP, n);
            && n < m <= |probs| && Prefix(probs, m) >= topP
            && forall j: nat :: 0 < j < m ==> Prefix(probs, j) < topP
    decreases |probs| - n
  {
    if Prefix(probs, n + 1) < topP {
      CutoffFromFirst(probs, topP, n + 1);
    }
  }

  /** The nucleus is the shortest nonempty prefix whose mass reaches `topP`. */
  lemma CutoffIsShortest(probs: seq<real>, topP: real)
    requires probs != [] && Sum(probs) >= topP
    ensures var m := Cutoff(probs, topP);
            && 0 < m <= |probs| && Prefix(probs, m) >= topP
            && forall j: nat :: 0 < j < m ==> Prefix(probs, j) < topP
  {
    CutoffFromFirst(probs, topP, 0);
  }

  // ---------------------------------------------------------------------- draw

  /** The first position whose cumulative probability reaches the threshold. */
  function DrawFrom(probs: seq<real>, threshold: real, n: nat): (a: Option<nat>)
    requires n <= |probs|
    ensures a.Some? ==> a.value < |probs|
    decreases |probs| - n
  {
    if n == |probs| then None
    else if threshold <= Prefix(probs, n + 1) then Some(n)
    else DrawFrom(probs, threshold, n + 1)
  }

  method Draw(indices: seq<nat>, probs: seq<real>, threshold: real) returns (id: nat)
    requires |indices| == |probs| > 0
    ensures id == match DrawFrom(probs, threshold, 0) case Some(a) => indices[a] case None => indices[0]
  {
    var cum := 0.0;
    for a := 0 to |probs|
      invariant cum == Prefix(probs, a)
      invariant DrawFrom(probs, threshold, 0) == DrawFrom(probs, threshold, a)
    {
      cum := cum + probs[a];
      if threshold <= cum {
        return indices[a];
      }
    }
    return indices[0];
  }

  /** Position `a`'s own interval; the first one also owns everything below it. */
  predicate InInterval(probs: seq<real>, threshold: real, a: nat) {
    a < |probs| && threshold <= Prefix(probs, a + 1) && (a > 0 ==> Prefix(probs, a) < threshold)
  }

  lemma {:induction false} DrawFromExact(probs: seq<real>, threshold: real, n: nat, a: nat)
    requires Positive(probs) && n <= |probs|
    requires n > 0 ==> Prefix(probs, n) < threshold
    ensures DrawFrom(probs, threshold, n) == Some(a) <==> InInterval(probs, threshold, a)
    decreases |probs| - n
  {
    if n < |probs| && threshold > Prefix(probs, n + 1) {
      DrawFromExact(probs, threshold, n + 1, a);
    } else if a < |probs| && a + 1 < n {
      PrefixGrows(probs, a + 1, n);
    } else if n < |probs| && n + 1 < a <= |probs| {
      PrefixGrows(probs, n + 1, a);
    }
  }

  /**
   * Inverse-CDF exactness: a position is drawn exactly for the thresholds in its own interval, whose
   * length is its probability; for every threshold in [0, 1] some position is drawn.
   */
  lemma DrawExact(probs: seq<real>, threshold: real, a: nat)
    requires Positive(probs) && probs != [] && Sum(probs) == 1.0 && 0.0 <= threshold <= 1.0
    ensures DrawFrom(probs, threshold, 0) == Some(a) <==> InInterval(probs, threshold, a)
    ensures a < |probs| ==> Prefix(probs, a + 1) - Prefix(probs, a) == probs[a]
    ensures DrawFrom(probs, threshold, 0).Some?
  {
    DrawFromExact(probs, threshold, 0, a);
    DrawFinds(probs, threshold, 0);
  }

  lemma {:induction false} DrawFinds(probs: seq<real>, threshold: real, n: nat)
    requires n < |probs| && threshold <= Sum(probs)
    ensures DrawFrom(probs, threshold, n).Some?
    decreases |probs| - n
  {
    if threshold > Prefix(probs, n + 1) {
      DrawFinds(probs, threshold, n + 1);
    }
  }

  // ----------------------------------------------------------------- the whole draw

  /** Probabilities of the nucleus after renormalising. */
  function NucleusProbs(exp: Exp, logits: seq<real>, indices: seq<nat>, topP: real): (q: seq<real>)
    requires forall a: nat :: a < |indices| ==> indices[a] < |logits|
  {
    var w := Weights(exp, logits, indices);
    var p := if Sum(w) > 0.0 then Normalised(w) else w;
    var kept := CutProbs(p, topP);
    if Sum(kept) > 0.0 then Normalised(kept) else kept
  }

  function CutProbs(p: seq<real>, topP: real): seq<real> {
    if Cutoff(p, topP) <= |p| then p[..Cutoff(p, topP)] else p
  }

  /** Softmax over kept tokens gives positive probabilities, largest first, that sum to 1. */
  lemma SoftmaxSound(exp: Exp, logits: seq<real>, indices: seq<nat>)
    requires IsExp(exp) && TopK(logits, indices, |indices|) && indices != []
    ensures Sum(Weights(exp, logits, indices)) > 0.0
    ensures var p := Normalised(Weights(exp, logits, indices));
            && Positive(p) && Sum(p) == 1.0
            && forall a: nat, b: nat :: a < b < |p| ==> p[a] >= p[b]
  {
    var w := Weights(exp, logits, indices);
    WeightsPositive(exp, logits, indices);
    NormalisedPositive(w);
    forall a: nat, b: nat | a < b < |w| ensures Normalised(w)[a] >= Normalised(w)[b] {
      assert w[a] >= w[b];
      DivideMonotone(w[b], w[a], Sum(w));
    }
  }

  lemma DivideMonotone(x: real, y: real, d: real)
    requires x <= y && d > 0.0
    ensures x / d <= y / d
  {
  }

  lemma DivideSelf(d: real)
    requires d > 0.0
    ensures d / d == 1.0
  {
  }

  lemma NormalisedPositive(s: seq<real>)
    requires Positive(s) && Sum(s) > 0.0
    ensures Positive(Normalised(s)) && Sum(Normalised(s)) == 1.0
  {
    NormalisedPrefix(s, |s|);
    DivideSelf(Sum(s));
  }

  /** The nucleus of a valid draw: nonempty, shortest, and a probability distribution again. */
  lemma NucleusSound(exp: Exp, logits: seq<real>, indices: seq<nat>, topP: real)
    requires IsExp(exp) && TopK(logits, indices, |indices|) && indices != [] && 0.0 < topP <= 1.0
    requires Sum(Weights(exp, logits, indices)) > 0.0
    ensures var p := Normalised(Weights(exp, logits, indices));
            var m := Cutoff(p, topP);
            var q := NucleusProbs(exp, logits, indices, topP);
            && 0 < m <= |indices| && Prefix(p, m) >= topP
            && (forall j: nat :: 0 < j < m ==> Prefix(p, j) < topP)
            && |q| == m && Positive(q) && Sum(q) == 1.0
            && (forall a: nat :: a < m ==> q[a] == p[a] / Prefix(p, m))
  {
    SoftmaxSound(exp, logits, indices);
    var p := Normalised(Weights(exp, logits, indices));
    CutoffIsShortest(p, topP);
    PrefixSound(p, Cutoff(p, topP));
  }

  /** A nonempty prefix of positive probabilities, renormalised. */
  lemma PrefixSound(p: seq<real>, m: nat)
    requires Positive(p) && 0 < m <= |p|
    ensures Sum(p[..m]) == Prefix(p, m) > 0.0
    ensures Positive(Normalised(p[..m])) && Sum(Normalised(p[..m])) == 1.0
    ensures forall a: nat :: a < m ==> Normalised(p[..m])[a] == p[a] / Prefix(p, m)
  {
    PrefixOfTake(p, m, m);
    PrefixGrows(p, 0, m);
    var kept := p[..m];
    NormalisedPositive(kept);
  }

  /** The token a threshold selects. */
  function Picked(exp: Exp, logits: seq<real>, indices: seq<nat>, topP: real, threshold: real): Option<nat>
    requires forall a: nat :: a < |indices| ==> indices[a] < |logits|
  {
    match DrawFrom(NucleusProbs(exp, logits, indices, topP), threshold, 0)
    case Some(a) => if a < |indices| then Some(indices[a]) else None
    case None => None
  }

  /**
   * Sampler support: some token of the nucleus is always picked, and no token outside the nucleus has a
   * larger adjusted logit than any token inside.
   */
  lemma PickedInNucleus(exp: Exp, logits: seq<real>, indices: seq<nat>, topP: real, threshold: real)
    requires IsExp(exp) && TopK(logits, indices, |indices|) && indices != [] && 0.0 < topP <= 1.0
    requires 0.0 <= threshold <= 1.0
    ensures Sum(Weights(exp, logits, indices)) > 0.0
    ensures var m := Cutoff(Normalised(Weights(exp, logits, indices)), topP);
            var id := Picked(exp, logits, indices, topP, threshold);
            && m <= |indices|
            && id.Some? && id.value in indices[..m] && id.value < |logits|
            && forall j: nat, i :: j < |logits| && j !in indices[..m] && i in indices[..m] ==>
                 logits[j] <= logits[i]
  {
    SoftmaxSound(exp, logits, indices);
    var m := Cutoff(Normalised(Weights(exp, logits, indices)), topP);
    var q := NucleusProbs(exp, logits, indices, topP);
    assert |q| == m <= |indices| && Positive(q) && Sum(q) == 1.0 && q != [] by {
      NucleusSound(exp, logits, indices, topP);
    }
    assert DrawFrom(q, threshold, 0).Some? by {
      DrawFinds(q, threshold, 0);
    }
    var a := DrawFrom(q, threshold, 0).value;
    assert indices[..m][a] == indices[a];
    TakeDominates(logits, indices, m);
  }

  /** Any prefix of the kept tokens dominates everything outside it. */
  lemma TakeDominates(logits: seq<real>, indices: seq<nat>, m: nat)
    requires TopK(logits, indices, |indices|) && m <= |indices|
    ensures forall j: nat, i :: j < |logits| && j !in indices[..m] && i in indices[..m] ==> logits[j] <= logits[i]
  {
    forall c: nat | c < m ensures indices[c] in indices[..m] {
      assert indices[..m][c] == indices[c];
    }
    forall j: nat, i | j < |logits| && j !in indices[..m] && i in indices[..m]
      ensures logits[j] <= logits[i]
    {
      var b :| 0 <= b < m && indices[..m][b] == i;
      if j in indices {
        var c :| 0 <= c < |indices| && indices[c] == j;
      }
    }
  }

  /** When the largest probability alone reaches `topP`, the draw is greedy whatever the random number. */
  lemma DominantTokenWins(exp: Exp, logits: seq<real>, indices: seq<nat>, topP: real, threshold: real)
    requires IsExp(exp) && TopK(logits, indices, |indices|) && indices != [] && 0.0 < topP <= 1.0
    requires 0.0 <= threshold <= 1.0
    requires Sum(Weights(exp, logits, indices)) > 0.0
    requires Normalised(Weights(exp, logits, indices))[0] >= topP
    ensures Picked(exp, logits, indices, topP, threshold) == Some(indices[0])
  {
    NucleusSound(exp, logits, indices, topP);
    var p, q := Normalised(Weights(exp, logits, indices)), NucleusProbs(exp, logits, indices, topP);
    assert Prefix(p, 1) == Prefix(p, 0) + p[0];
    assert |q| == 1;
    DrawFinds(q, threshold, 0);
  }

  // -------------------------------------------------------- the distribution, as such

  /** Probabilities over the kept tokens, in proportion to the exponentials of their logits. */
  ghost predicate Softmax(exp: Exp, logits: seq<real>, indices: seq<nat>, p: seq<real>)
    requires forall a: nat :: a < |indices| ==> indices[a] < |logits|
  {
    && |p| == |indices| && Positive(p) && Sum(p) == 1.0
    && forall a: nat, b: nat :: a < |p| && b < |p| ==> InProportion(exp, logits, indices, p, a, b)
  }

  predicate InProportion(exp: Exp, logits: seq<real>, indices: seq<nat>, p: seq<real>, a: nat, b: nat)
    requires |p| <= |indices| && a < |p| && b < |p|
    requires forall a: nat :: a < |indices| ==> indices[a] < |logits|
  {
    var top := logits[indices[0]];
    p[a] * exp(logits[indices[b]] - top) == p[b] * exp(logits[indices[a]] - top)
  }

  /** The shortest nonempty prefix of mass `topP`. */
  predicate ShortestReaching(p: seq<real>, topP: real, m: nat) {
    && 0 < m <= |p| && Prefix(p, m) >= topP
    && forall j: nat :: 0 < j < m ==> Prefix(p, j) < topP
  }

  /** `id` is drawn at the threshold from the softmax over the nucleus of the softmax over the kept tokens. */
  ghost predicate Selected(exp: Exp, logits: seq<real>, indices: seq<nat>, topP: real, threshold: real, id: nat)
    requires forall a: nat :: a < |indices| ==> indices[a] < |logits|
  {
    exists p, m: nat, q, a: nat ::
      && Softmax(exp, logits, indices, p) && ShortestReaching(p, topP, m) && m <= |indices|
      && Softmax(exp, logits, indices[..m], q) && InInterval(q, threshold, a) && id == indices[a]
  }

  predicate Proportional(p: seq<real>, w: seq<real>) {
    |p| == |w| && forall a: nat, b: nat :: a < |p| && b < |p| ==> p[a] * w[b] == p[b] * w[a]
  }

  lemma SoftmaxByWeights(exp: Exp, logits: seq<real>, indices: seq<nat>, p: seq<real>)
    requires forall a: nat :: a < |indices| ==> indices[a] < |logits|
    ensures Softmax(exp, logits, indices, p)
            <==> Positive(p) && Sum(p) == 1.0 && Proportional(p, Weights(exp, logits, indices))
  {
    var w := Weights(exp, logits, indices);
    if |p| == |w| {
      forall a: nat, b: nat | a < |p| && b < |p|
        ensures InProportion(exp, logits, indices, p, a, b) <==> p[a] * w[b] == p[b] * w[a]
      {
      }
    }
  }

  lemma {:induction false} ProportionalPrefix(p: seq<real>, w: seq<real>, n: nat)
    requires Proportional(p, w) && n <= |p| && 0 < |p|
    ensures Prefix(p, n) * w[0] == p[0] * Prefix(w, n)
  {
    if n > 0 {
      ProportionalPrefix(p, w, n - 1);
      assert p[n - 1] * w[0] == p[0] * w[n - 1];
    }
  }

  lemma ShareOf(x: real, first: real, w: real, w0: real, total: real)
    requires w0 > 0.0 && total > 0.0 && x * w0 == first * w && w0 == first * total
    ensures x == w / total
  {
    assert x * total * w0 == first * w * total == w * w0;
    assert x * total == w;
    InverseTimes(x, total);
  }

  lemma SameShare(x: real, y: real, u: real, v: real, d: real)
    requires x * v == y * u && d > 0.0
    ensures x / d * v == y / d * u
  {
    assert x / d * v == x * v / d && y / d * u == y * u / d;
  }

  /** Proportion and total leave no freedom. */
  lemma ProportionalIsNormalised(p: seq<real>, w: seq<real>)
    requires Positive(w) && w != [] && Proportional(p, w) && Sum(p) == 1.0
    ensures Sum(w) > 0.0 && p == Normalised(w)
  {
    PrefixGrows(w, 0, |w|);
    ProportionalPrefix(p, w, |p|);
    forall a: nat | a < |p| ensures p[a] == Normalised(w)[a] {
      assert p[a] * w[0] == p[0] * w[a];
      ShareOf(p[a], p[0], w[a], w[0], Sum(w));
    }
  }

  lemma NormalisedProportional(p: seq<real>, w: seq<real>)
    requires Proportional(p, w) && Sum(p) > 0.0
    ensures Proportional(Normalised(p), w)
  {
    var q, d := Normalised(p), Sum(p);
    forall a: nat, b: nat | a < |q| && b < |q| ensures q[a] * w[b] == q[b] * w[a] {
      assert p[a] * w[b] == p[b] * w[a];
      SameShare(p[a], p[b], w[a], w[b], d);
    }
  }

  lemma TakeProportional(p: seq<real>, w: seq<real>, m: nat)
    requires Proportional(p, w) && m <= |p|
    ensures Proportional(p[..m], w[..m])
  {
  }

  lemma WeightsOfTake(exp: Exp, logits: seq<real>, indices: seq<nat>, m: nat)
    requires 0 < m <= |indices| && forall a: nat :: a < |indices| ==> indices[a] < |logits|
    ensures Weights(exp, logits, indices[..m]) == Weights(exp, logits, indices)[..m]
  {
  }

  lemma SoftmaxIsNormalised(exp: Exp, logits: seq<real>, indices: seq<nat>, p: seq<real>)
    requires IsExp(exp) && indices != [] && forall a: nat :: a < |indices| ==> indices[a] < |logits|
    requires Softmax(exp, logits, indices, p)
    ensures Sum(Weights(exp, logits, indices)) > 0.0 && p == Normalised(Weights(exp, logits, indices))
  {
    SoftmaxByWeights(exp, logits, indices, p);
    WeightsPositive(exp, logits, indices);
    ProportionalIsNormalised(p, Weights(exp, logits, indices));
  }

  lemma NormalisedIsSoftmax(exp: Exp, logits: seq<real>, indices: seq<nat>)
    requires IsExp(exp) && indices != [] && forall a: nat :: a < |indices| ==> indices[a] < |logits|
    ensures Sum(Weights(exp, logits, indices)) > 0.0
    ensures Softmax(exp, logits, indices, Normalised(Weights(exp, logits, indices)))
  {
    var w := Weights(exp, logits, indices);
    WeightsPositive(exp, logits, indices);
    NormalisedPositive(w);
    NormalisedProportional(w, w);
    SoftmaxByWeights(exp, logits, indices, Normalised(w));
  }

  /** A prefix of a softmax, renormalised, is the softmax over its own tokens. */
  lemma PrefixIsSoftmax(exp: Exp, logits: seq<real>, indices: seq<nat>, p: seq<real>, m: nat)
    requires forall a: nat :: a < |indices| ==> indices[a] < |logits|
    requires Softmax(exp, logits, indices, p) && 0 < m <= |p|
    ensures Sum(p[..m]) > 0.0 && Softmax(exp, logits, indices[..m], Normalised(p[..m]))
  {
    var w := Weights(exp, logits, indices);
    SoftmaxByWeights(exp, logits, indices, p);
    PrefixSound(p, m);
    TakeProportional(p, w, m);
    NormalisedProportional(p[..m], w[..m]);
    WeightsOfTake(exp, logits, indices, m);
    SoftmaxByWeights(exp, logits, indices[..m], Normalised(p[..m]));
  }

  lemma NucleusIsSoftmax(exp: Exp, logits: seq<real>, indices: seq<nat>, topP: real)
    requires IsExp(exp) && TopK(logits, indices, |indices|) && indices != [] && 0.0 < topP <= 1.0
    ensures Sum(Weights(exp, logits, indices)) > 0.0
    ensures var p, q := Normalised(Weights(exp, logits, indices)), NucleusProbs(exp, logits, indices, topP);
            && Softmax(exp, logits, indices, p) && ShortestReaching(p, topP, |q|)
            && |q| <= |indices| && Softmax(exp, logits, indices[..|q|], q) && Positive(q) && Sum(q) == 1.0
  {
    NormalisedIsSoftmax(exp, logits, indices);
    var p := Normalised(Weights(exp, logits, indices));
    CutoffIsShortest(p, topP);
    PrefixIsSoftmax(exp, logits, indices, p, Cutoff(p, topP));
  }

  lemma ShortestUnique(p: seq<real>, topP: real, m: nat, n: nat)
    requires ShortestReaching(p, topP, m) && ShortestReaching(p, topP, n)
    ensures m == n
  {
  }

  /** The draw picks exactly the ids so selected. */
  lemma PickedExactly(exp: Exp, logits: seq<real>, indices: seq<nat>, topP: real, threshold: real, id: nat)
    requires IsExp(exp) && TopK(logits, indices, |indices|) && indices != [] && 0.0 < topP <= 1.0
    requires 0.0 <= threshold <= 1.0
    ensures Picked(exp, logits, indices, topP, threshold) == Some(id)
            <==> Selected(exp, logits, indices, topP, threshold, id)
  {
    if Picked(exp, logits, indices, topP, threshold) == Some(id) {
      PickedIsSelected(exp, logits, indices, topP, threshold, id);
    }
    if Selected(exp, logits, indices, topP, threshold, id) {
      SelectedIsPicked(exp, logits, indices, topP, threshold, id);
    }
  }

  lemma PickedIsSelected(exp: Exp, logits: seq<real>, indices: seq<nat>, topP: real, threshold: real, id: nat)
    requires IsExp(exp) && TopK(logits, indices, |indices|) && indices != [] && 0.0 < topP <= 1.0
    requires 0.0 <= threshold <= 1.0 && Picked(exp, logits, indices, topP, threshold) == Some(id)
    ensures Selected(exp, logits, indices, topP, threshold, id)
  {
    NucleusIsSoftmax(exp, logits, indices, topP);
    var q := NucleusProbs(exp, logits, indices, topP);
    var a := DrawFrom(q, threshold, 0).value;
    assert InInterval(q, threshold, a) by {
      DrawExact(q, threshold, a);
    }
  }

  lemma SelectedIsPicked(exp: Exp, logits: seq<real>, indices: seq<nat>, topP: real, threshold: real, id: nat)
    requires IsExp(exp) && TopK(logits, indices, |indices|) && indices != [] && 0.0 < topP <= 1.0
    requires 0.0 <= threshold <= 1.0 && Selected(exp, logits, indices, topP, threshold, id)
    ensures Picked(exp, logits, indices, topP, threshold) == Some(id)
  {
    var p, m: nat, q, a: nat :|
      && Softmax(exp, logits, indices, p) && ShortestReaching(p, topP, m) && m <= |indices|
      && Softmax(exp, logits, indices[..m], q) && InInterval(q, threshold, a) && id == indices[a];
    var mine := NucleusProbs(exp, logits, indices, topP);
    assert q == mine by {
      OnlyNucleus(exp, logits, indices, topP, p, m, q);
    }
    assert Positive(q) && q != [] && Sum(q) == 1.0;
    assert DrawFrom(q, threshold, 0) == Some(a) by {
      DrawExact(q, threshold, a);
    }
  }

  lemma OnlyNucleus(
    exp: Exp, logits: seq<real>, indices: seq<nat>, topP: real, p: seq<real>, m: nat, q: seq<real>)
    requires IsExp(exp) && TopK(logits, indices, |indices|) && indices != [] && 0.0 < topP <= 1.0
    requires Softmax(exp, logits, indices, p) && ShortestReaching(p, topP, m) && m <= |indices|
    requires Softmax(exp, logits, indices[..m], q)
    ensures q == NucleusProbs(exp, logits, indices, topP)
  {
    var mine := NucleusProbs(exp, logits, indices, topP);
    NucleusIsSoftmax(exp, logits, indices, topP);
    SoftmaxIsNormalised(exp, logits, indices, p);
    ShortestUnique(p, topP, m, |mine|);
    SoftmaxIsNormalised(exp, logits, indices[..m], q);
    SoftmaxIsNormalised(exp, logits, indices[..m], mine);
  }

  /** How many tokens are kept: `top_k` of them, but no more than there are. */
  predicate KeptCount(cfg: SamplingConfig, vocab: nat, k: nat) {
    match cfg.topK
    case None => k == vocab
    case Some(limit) => k <= vocab && k <= limit && (k == vocab || k == limit)
  }

  /** `id` may be drawn from these scores with this random word; ties among scores leave some choice. */
  ghost predicate MayDraw(exp: Exp, scores: seq<real>, cfg: SamplingConfig, word: Word, id: nat) {
    exists indices ::
      && TopK(scores, indices, |indices|) && KeptCount(cfg, |scores|, |indices|)
      && Selected(exp, scores, indices, cfg.topP, Value(word) as real / 18446744073709551615.0, id)
  }

  /** The random number as a fraction of the largest one. */
  function Threshold(r: Word): (t: real)
    ensures 0.0 <= t <= 1.0
  {
    PowOfWidth();
    Fraction(Value(r), Pow2(WIDTH) - 1)
  }

  function Fraction(a: nat, b: nat): (t: real)
    requires a <= b && b > 0
    ensures 0.0 <= t <= 1.0
  {
    a as real / b as real
  }

  lemma {:induction false} Pow2Grows(n: nat)
    ensures Pow2(n) > n
  {
    if n > 0 {
      Pow2Grows(n - 1);
    }
  }

  lemma PowOfWidth()
    ensures Pow2(WIDTH) >= 2
  {
    Pow2Grows(WIDTH);
  }

  lemma {:induction false} Pow2Sum(a: nat, b: nat)
    ensures Pow2(a + b) == Pow2(a) * Pow2(b)
  {
    if b > 0 {
      Pow2Sum(a, b - 1);
    }
  }

  lemma Pow2Twice(n: nat, v: nat, m: nat)
    requires Pow2(n) == v && m == n + n
    ensures Pow2(m) == v * v
  {
    Pow2Sum(n, n);
  }

  lemma Pow2Width()
    ensures Pow2(WIDTH) == 18446744073709551616
  {
    assert Pow2(4) == 16;
    Pow2Twice(4, 16, 8);
    Pow2Twice(8, 256, 16);
    Pow2Twice(16, 65536, 32);
    Pow2Twice(32, 4294967296, 64);
  }

  lemma ThresholdExactly(r: Word)
    ensures Threshold(r) == Value(r) as real / 18446744073709551615.0
  {
    Pow2Width();
  }

  /** Softmax, nucleus and draw over the kept indices. */
  method PickToken(exp: Exp, logits: seq<real>, indices: seq<nat>, topP: real, rng: Word)
    returns (id: nat, rng': Word)
    requires IsExp(exp) && TopK(logits, indices, |indices|) && indices != [] && 0.0 < topP <= 1.0
    ensures rng' == Xorshift64(rng)
    ensures Selected(exp, logits, indices, topP, Value(rng') as real / 18446744073709551615.0, id)
  {
    SoftmaxSound(exp, logits, indices);
    NucleusSound(exp, logits, indices, topP);
    var probs := Normalise(Weights(exp, logits, indices));
    var cutoff := FindCutoff(probs, topP);
    PrefixSound(probs, cutoff);
    var nucleus := Normalise(probs[..cutoff]);
    rng' := Step(rng);
    DrawFinds(nucleus, Threshold(rng'), 0);
    id := Draw(indices[..cutoff], nucleus, Threshold(rng'));
    PickedExactly(exp, logits, indices, topP, Threshold(rng'), id);
    ThresholdExactly(rng');
  }

  method SampleToken(exp: Exp, logits: array<real>, cfg: SamplingConfig, recent: seq<nat>, rng: Word)
    returns (r: SampleResult, rng': Word)
    requires IsExp(exp) && cfg.repeatPenalty != 0.0
    modifies logits
    ensures Validate(cfg).Some? ==>
              r == Rejected(Validate(cfg).value) && rng' == rng && logits[..] == old(logits[..])
    ensures Validate(cfg).None? && logits.Length == 0 ==> r == Rejected(EmptyLogits) && rng' == rng
    ensures Validate(cfg).None? && logits.Length > 0 ==>
              && logits[..] == Adjusted(old(logits[..]), recent, cfg)
              && (r.SamplePanic? <==> cfg.topK == Some(0))
              && (cfg.topK != Some(0) ==>
                    rng' == Xorshift64(rng) && r.Sampled? && MayDraw(exp, logits[..], cfg, rng', r.id))
    ensures Validate(cfg).None? && cfg.repeatPenalty > 0.0 ==>
              AllAdjusted(old(logits[..]), recent, cfg, logits[..])
  {
    rng' := rng;
    var invalid := Validate(cfg);
    if invalid.Some? {
      return Rejected(invalid.value), rng;
    }
    if logits.Length == 0 {
      return Rejected(EmptyLogits), rng;
    }
    ApplyRepeatPenalty(logits, recent, cfg.repeatPenalty);
    ScaleInPlace(logits, 1.0 / cfg.temperature);
    assert cfg.repeatPenalty > 0.0 ==> AllAdjusted(old(logits[..]), recent, cfg, logits[..]) by {
      if cfg.repeatPenalty > 0.0 {
        AdjustedAll(old(logits[..]), recent, cfg);
      }
    }
    var k := Kept(cfg, logits.Length);
    if k == 0 {
      return SamplePanic, rng;
    }
    var indices := SelectTop(logits[..], k);
    var id;
    id, rng' := PickToken(exp, logits[..], indices, cfg.topP, rng);
    return Sampled(id), rng';
  }

  /** `top_k.unwrap_or(vocab).min(vocab)` */
  function Kept(cfg: SamplingConfig, vocab: nat): (k: nat)
    ensures k <= vocab
  {
    match cfg.topK case Some(k) => (if k < vocab then k else vocab) case None => vocab
  }

  // -------------------------------------------------------------- some draw exists

  lemma SelectedExists(exp: Exp, logits: seq<real>, indices: seq<nat>, topP: real, word: Word) returns (id: nat)
    requires IsExp(exp) && TopK(logits, indices, |indices|) && indices != [] && 0.0 < topP <= 1.0
    ensures Selected(exp, logits, indices, topP, Value(word) as real / 18446744073709551615.0, id)
  {
    var threshold := Threshold(word);
    PickedInNucleus(exp, logits, indices, topP, threshold);
    id := Picked(exp, logits, indices, topP, threshold).value;
    PickedIsSelected(exp, logits, indices, topP, threshold, id);
    ThresholdExactly(word);
  }

  /** Every word draws some id. */
  lemma MayDrawExists(exp: Exp, scores: seq<real>, cfg: SamplingConfig, word: Word) returns (id: nat)
    requires IsExp(exp) && scores != [] && cfg.topK != Some(0) && Validate(cfg).None?
    ensures MayDraw(exp, scores, cfg, word, id)
  {
    var k := Kept(cfg, |scores|);
    var indices := TopKExists(scores, k);
    assert KeptCount(cfg, |scores|, |indices|);
    id := SelectedExists(exp, scores, indices, cfg.topP, word);
  }
}
