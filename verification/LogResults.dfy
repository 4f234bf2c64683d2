/** What each operation of a run returns, as a function of the token log alone. */
module LogResults {
  import opened Bytes
  import opened CacheLayout
  import opened KvCache
  import opened Forward
  import opened CacheRuns
  import opened TokenLog

  /** The result is the state with which the last entry of a log leaves the top layer, projected. */
  ghost predicate Projected(net: Net, s: Shape, log: seq<Entry>, out: Option<Outcome>) {
    exists c: Cache, h ::
      c.Fits(s) && Explains(net, c, log, h) && log != []
      && out == Some(Ok(net.project(StateAbove(net, c, log, h, |log| - 1))))
  }

  /** Nothing to feed, or no room for it. */
  predicate Refused(s: Shape, log: seq<Entry>, op: Op) {
    match op
    case Reset => false
    case Feed(tokens) => tokens == [] || |log| + |tokens| > s.nCtx
    case Next(_) => |log| >= s.nCtx
  }

  ghost predicate Answer(net: Net, s: Shape, log: seq<Entry>, op: Op, out: Option<Outcome>) {
    if op.Reset? then out == None
    else if Refused(s, log, op) then out == Some(ForwardError)
    else Projected(net, s, LogAfter(s, log, op), out)
  }

  /** A log leaves no freedom to the result either. */
  lemma AnswerUnique(net: Net, s: Shape, log: seq<Entry>, op: Op, a: Option<Outcome>, b: Option<Outcome>)
    requires Answer(net, s, log, op, a) && Answer(net, s, log, op, b)
    ensures a == b
  {
    if !op.Reset? && !Refused(s, log, op) {
      var after := LogAfter(s, log, op);
      var ca: Cache, ha :| ca.Fits(s) && Explains(net, ca, after, ha)
                    && a == Some(Ok(net.project(StateAbove(net, ca, after, ha, |after| - 1))));
      var cb: Cache, hb :| cb.Fits(s) && Explains(net, cb, after, hb)
                    && b == Some(Ok(net.project(StateAbove(net, cb, after, hb, |after| - 1))));
      LogDeterminesAll(net, ca, cb, after, ha, hb);
    }
  }

  /** After a prefill the last token's state leaving the top layer is that of the last log entry. */
  lemma TopOfFeed(
    net: Net, c: Cache, log: seq<Entry>, h: seq<seq<Hidden>>, tokens: seq<nat>, c': Cache, h': seq<seq<Hidden>>)
    requires tokens != [] && Shaped(c, log, h) && Shaped(c', log + Batch(tokens, |log| + |tokens|), h')
    requires |h| == |h'|
    requires forall l: nat :: l < |h| ==> FedLayer(net, c, h, tokens, c', h', l)
    ensures StateAbove(net, c', log + Batch(tokens, |log| + |tokens|), h', |log| + |tokens| - 1)
         == PrefillHidden(net, c, tokens, 0, |c.k|)[|tokens| - 1]
  {
    var n, j := |h|, |tokens| - 1;
    BatchAt(log, tokens, j);
    if n > 0 {
      var l := n - 1;
      assert FedLayer(net, c, h, tokens, c', h', l);
      assert c'.k[l][..c'.head] == c'.k[l] && c'.v[l][..c'.head] == c'.v[l];
      TopLayer(net, c, tokens, l, n);
      assert h'[l][|log| + j] == PrefillHidden(net, c, tokens, 0, l)[j];
    }
  }

  lemma TopLayer(net: Net, c: Cache, tokens: seq<nat>, l: nat, next: nat)
    requires next == l + 1 <= |c.k| == |c.v|
    ensures var hs := PrefillHidden(net, c, tokens, 0, l);
            PrefillHidden(net, c, tokens, 0, next) ==
            AttendAll(net, l, hs, 0, c.k[l] + KeyRows(net, l, hs, 0), c.v[l] + ValueRows(net, l, hs))
  {
  }

  lemma TopOfNext(
    net: Net, c: Cache, log: seq<Entry>, h: seq<seq<Hidden>>, token: nat, c': Cache, h': seq<seq<Hidden>>)
    requires Shaped(c, log, h) && Shaped(c', log + [Entry(token, |log|, |log|)], h') && |h| == |h'|
    requires forall l: nat :: l < |h| ==> NextLayer(net, c, h, token, c', h', l)
    ensures StateAbove(net, c', log + [Entry(token, |log|, |log|)], h', |log|)
         == DecodeHidden(net, c, token, c.head, |c.k|)
  {
    if |h| > 0 {
      var l := |h| - 1;
      assert NextLayer(net, c, h, token, c', h', l);
      assert c'.k[l][..c.head] == c.k[l] && c'.v[l][..c.head] == c.v[l];
    }
  }

  lemma FeedAnswer(net: Net, s: Shape, c: Cache, log: seq<Entry>, tokens: seq<nat>)
    requires c.Fits(s) && Accounted(net, c, log) && tokens != [] && |log| + |tokens| <= s.nCtx
    ensures Projected(net, s, log + Batch(tokens, |log| + |tokens|), Some(Ok(PrefillLogits(net, c, tokens, 0))))
  {
    var h :| Explains(net, c, log, h);
    var h' := FeedExplained(net, c, log, h, tokens);
    var c' := PrefilledCache(net, c, tokens, 0);
    TopOfFeed(net, c, log, h, tokens, c', h');
    FitsWhenExplained(net, s, c', log + Batch(tokens, |log| + |tokens|), h');
  }

  lemma NextAnswer(net: Net, s: Shape, c: Cache, log: seq<Entry>, token: nat)
    requires c.Fits(s) && Accounted(net, c, log) && |log| < s.nCtx
    ensures Projected(net, s, log + [Entry(token, |log|, |log|)], Some(Ok(DecodeLogits(net, c, token, c.head))))
  {
    var h :| Explains(net, c, log, h);
    var h' := NextExplained(net, c, log, h, token);
    var c' := DecodedCache(net, c, c, token);
    TopOfNext(net, c, log, h, token, c', h');
    FitsWhenExplained(net, s, c', log + [Entry(token, |log|, |log|)], h');
  }

  lemma FitsWhenExplained(net: Net, s: Shape, c: Cache, log: seq<Entry>, h: seq<seq<Hidden>>)
    requires Explains(net, c, log, h) && |h| == s.nLayers && |log| <= s.nCtx
    ensures c.Fits(s)
  {
  }

  /** One operation on an accounted cache answers from the log. */
  lemma StepAnswers(net: Net, s: Shape, c: Cache, log: seq<Entry>, op: Op)
    requires c.Fits(s) && Accounted(net, c, log)
    ensures Answer(net, s, log, op, Ideal(net, s, c, op).1)
    ensures Refused(s, log, op) ==> Ideal(net, s, c, op).0 == c
  {
    var h :| Explains(net, c, log, h);
    if !Refused(s, log, op) {
      match op {
        case Reset =>
        case Feed(tokens) => FeedAnswer(net, s, c, log, tokens);
        case Next(token) => NextAnswer(net, s, c, log, token);
      }
    }
  }

  /** All results of a run. */
  ghost predicate Answers(net: Net, s: Shape, log: seq<Entry>, ops: seq<Op>, outs: seq<Option<Outcome>>)
    decreases |ops|
  {
    && |outs| == |ops|
    && (ops != [] ==>
          Answer(net, s, log, ops[0], outs[0]) && Answers(net, s, LogAfter(s, log, ops[0]), ops[1..], outs[1..]))
  }

  /** Every result of every run is determined by the log at that point. */
  lemma {:induction false} RunAnswers(net: Net, s: Shape, c: Cache, log: seq<Entry>, ops: seq<Op>)
    requires c.Fits(s) && Accounted(net, c, log)
    ensures Answers(net, s, log, ops, LogicalRun(net, s, c, ops).1)
    decreases |ops|
  {
    if ops != [] {
      StepAnswers(net, s, c, log, ops[0]);
      StepAccounted(net, s, c, log, ops[0]);
      var next := Ideal(net, s, c, ops[0]);
      var rest := LogicalRun(net, s, next.0, ops[1..]).1;
      RunAnswers(net, s, next.0, LogAfter(s, log, ops[0]), ops[1..]);
      assert ([next.1] + rest)[1..] == rest;
    }
  }

  /** So is every result read off the buffer, whatever stale rows it started with. */
  lemma BufferAnswers(net: Net, s: Shape, m: Memory, ops: seq<Op>)
    requires m.Valid(s) && m.head == 0 && Guarded(s, 0, ops)
    ensures Answers(net, s, [], ops, PhysicalRun(net, s, m, ops).1)
  {
    RunRefines(net, s, m, ops);
    assert m.Contents(s) == Empty(s);
    EmptyAccounted(net, s);
    RunAnswers(net, s, Empty(s), [], ops);
  }

  /** `as i32` keeps the token modulo 2^32, in the signed range. */
  lemma AsI32Exactly(token: nat, i: int)
    ensures i == AsI32(token) <==> -0x8000_0000 <= i < 0x8000_0000 && (token - i) % 0x1_0000_0000 == 0
  {
  }
}
