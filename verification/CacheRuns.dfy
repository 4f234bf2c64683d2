/**
 * Whole runs of the cache: any sequence of reset, prefill and decode. A physical run works on every row
 * of the buffer, stale or not; a logical run knows only the rows in use.
 */
module CacheRuns {
  import opened Bytes
  import opened CacheLayout
  import opened KvCache
  import opened Forward

  datatype Op = Reset | Feed(tokens: seq<nat>) | Next(token: nat)

  /** The buffer's rows together with the number in use. */
  datatype Memory = Memory(all: Cache, head: nat)
  {
    predicate Valid(s: Shape) { Full(s, all) && head <= s.nCtx }

    function Contents(s: Shape): (c: Cache)
      requires Valid(s)
      ensures c.Fits(s)
    {
      all.Upto(head)
    }

    function Seen(s: Shape): (c: Cache)
      requires Valid(s)
      ensures |c.k| == |c.v| == s.nLayers
    {
      if head >= 1 then Contents(s) else all
    }
  }

  // -------------------------------------------------------------- physical runs

  function Perform(net: Net, s: Shape, m: Memory, op: Op): (r: (Memory, Option<Outcome>))
    requires m.Valid(s)
    ensures r.0.Valid(s)
  {
    match op
    case Reset => (m.(head := 0), None)
    case Feed(tokens) =>
      if tokens == [] || m.head + |tokens| > s.nCtx then (m, Some(ForwardError))
      else
        var c := m.Contents(s);
        OverwrittenIsAppended(s, m.all, m.head, |tokens|,
          PrefillKeys(net, c, tokens, 0, s.nLayers), PrefillValues(net, c, tokens, 0, s.nLayers));
        (Memory(PrefilledAll(net, c, m.all, tokens, 0), m.head + |tokens|), Some(Ok(PrefillLogits(net, c, tokens, 0))))
    case Next(token) =>
      if m.head >= s.nCtx then (m, Some(ForwardError))
      else
        var seen := m.Seen(s);
        OverwrittenIsAppended(s, m.all, m.head, 1,
          Singles(DecodeKeys(net, seen, token, m.head, s.nLayers)),
          Singles(DecodeValues(net, seen, token, m.head, s.nLayers)));
        (Memory(DecodedAll(net, seen, m.all, token, m.head), m.head + 1),
         Some(Ok(DecodeLogits(net, seen, token, m.head))))
  }

  function PhysicalRun(net: Net, s: Shape, m: Memory, ops: seq<Op>): (r: (Memory, seq<Option<Outcome>>))
    requires m.Valid(s)
    ensures r.0.Valid(s)
    decreases |ops|
  {
    if ops == [] then (m, [])
    else
      var (m', out) := Perform(net, s, m, ops[0]);
      var (m'', outs) := PhysicalRun(net, s, m', ops[1..]);
      (m'', [out] + outs)
  }

  method ExecuteFeed(g: LlamaGraph, tokens: seq<nat>) returns (r: Outcome)
    requires g.Valid()
    modifies g.kv, g.kv.data
    ensures g.Valid()
    ensures (Memory(g.kv.all, g.kv.head), Some(r)) ==
            Perform(g.net, g.kv.shape, old(Memory(g.kv.all, g.kv.head)), Feed(tokens))
  {
    ghost var before := g.kv.Contents();
    assert before == Memory(g.kv.all, g.kv.head).Contents(g.kv.shape);
    r := g.Prefill(tokens);
    assert g.kv.Contents().head == g.kv.head;
  }

  method ExecuteNext(g: LlamaGraph, token: nat) returns (r: Outcome)
    requires g.Valid()
    modifies g.kv, g.kv.data
    ensures g.Valid()
    ensures (Memory(g.kv.all, g.kv.head), Some(r)) ==
            Perform(g.net, g.kv.shape, old(Memory(g.kv.all, g.kv.head)), Next(token))
  {
    ghost var seen := g.Seen();
    assert seen == Memory(g.kv.all, g.kv.head).Seen(g.kv.shape);
    r := g.ExecuteDecode(token);
    assert g.kv.Contents().head == g.kv.head;
  }

  /** The class's operation and the function's agree on memory and result. */
  method Execute(g: LlamaGraph, op: Op) returns (out: Option<Outcome>)
    requires g.Valid()
    modifies g.kv, g.kv.data
    ensures g.Valid()
    ensures (Memory(g.kv.all, g.kv.head), out) ==
            Perform(g.net, g.kv.shape, old(Memory(g.kv.all, g.kv.head)), op)
  {
    match op {
      case Reset =>
        g.ResetKv();
        out := None;
      case Feed(tokens) =>
        var r := ExecuteFeed(g, tokens);
        out := Some(r);
      case Next(token) =>
        var r := ExecuteNext(g, token);
        out := Some(r);
    }
  }

  /** Executing any run on the class does exactly what the physical run says. */
  method Replay(g: LlamaGraph, ops: seq<Op>) returns (outs: seq<Option<Outcome>>)
    requires g.Valid()
    modifies g.kv, g.kv.data
    ensures g.Valid()
    ensures (Memory(g.kv.all, g.kv.head), outs) ==
            PhysicalRun(g.net, g.kv.shape, old(Memory(g.kv.all, g.kv.head)), ops)
  {
    if ops == [] {
      return [];
    }
    var out := Execute(g, ops[0]);
    var rest := Replay(g, ops[1..]);
    return [out] + rest;
  }

  // --------------------------------------------------------------- logical runs

  function Empty(s: Shape): Cache {
    Cache(0, seq(s.nLayers, _ => []), seq(s.nLayers, _ => []))
  }

  /** One operation on the rows in use alone. */
  function Ideal(net: Net, s: Shape, c: Cache, op: Op): (r: (Cache, Option<Outcome>))
    requires c.Fits(s)
    ensures r.0.Fits(s)
  {
    match op
    case Reset => (Empty(s), None)
    case Feed(tokens) =>
      if tokens == [] || c.head + |tokens| > s.nCtx then (c, Some(ForwardError))
      else (PrefilledCache(net, c, tokens, 0), Some(Ok(PrefillLogits(net, c, tokens, 0))))
    case Next(token) =>
      if c.head >= s.nCtx then (c, Some(ForwardError))
      else (DecodedCache(net, c, c, token), Some(Ok(DecodeLogits(net, c, token, c.head))))
  }

  function LogicalRun(net: Net, s: Shape, c: Cache, ops: seq<Op>): (r: (Cache, seq<Option<Outcome>>))
    requires c.Fits(s)
    ensures r.0.Fits(s)
    decreases |ops|
  {
    if ops == [] then (c, [])
    else
      var (c', out) := Ideal(net, s, c, ops[0]);
      var (c'', outs) := LogicalRun(net, s, c', ops[1..]);
      (c'', [out] + outs)
  }

  /** Rows in use after an operation; it does not depend on what the rows are. */
  function HeadAfter(s: Shape, head: nat, op: Op): nat {
    match op
    case Reset => 0
    case Feed(tokens) => if head + |tokens| > s.nCtx then head else head + |tokens|
    case Next(_) => if head >= s.nCtx then head else head + 1
  }

  /** No decode happens on an empty cache. */
  predicate Guarded(s: Shape, head: nat, ops: seq<Op>)
    decreases |ops|
  {
    ops == [] || ((ops[0].Next? ==> head >= 1) && Guarded(s, HeadAfter(s, head, ops[0]), ops[1..]))
  }

  /** One physical operation is the logical one on the rows in use. */
  lemma PerformRefines(net: Net, s: Shape, m: Memory, op: Op)
    requires m.Valid(s) && (op.Next? ==> m.head >= 1)
    ensures Perform(net, s, m, op).0.Contents(s) == Ideal(net, s, m.Contents(s), op).0
    ensures Perform(net, s, m, op).1 == Ideal(net, s, m.Contents(s), op).1
    ensures Perform(net, s, m, op).0.head == HeadAfter(s, m.head, op)
  {
    var c := m.Contents(s);
    match op {
      case Reset =>
      case Feed(tokens) =>
        if tokens != [] && m.head + |tokens| <= s.nCtx {
          OverwrittenIsAppended(s, m.all, m.head, |tokens|,
            PrefillKeys(net, c, tokens, 0, s.nLayers), PrefillValues(net, c, tokens, 0, s.nLayers));
        }
      case Next(token) =>
        if m.head < s.nCtx {
          OverwrittenIsAppended(s, m.all, m.head, 1,
            Singles(DecodeKeys(net, c, token, m.head, s.nLayers)),
            Singles(DecodeValues(net, c, token, m.head, s.nLayers)));
        }
    }
  }

  /** Every guarded physical run is the logical run on the rows in use at its start. */
  lemma {:induction false} RunRefines(net: Net, s: Shape, m: Memory, ops: seq<Op>)
    requires m.Valid(s) && Guarded(s, m.head, ops)
    ensures PhysicalRun(net, s, m, ops).0.Contents(s) == LogicalRun(net, s, m.Contents(s), ops).0
    ensures PhysicalRun(net, s, m, ops).1 == LogicalRun(net, s, m.Contents(s), ops).1
    decreases |ops|
  {
    if ops != [] {
      PerformRefines(net, s, m, ops[0]);
      RunRefines(net, s, Perform(net, s, m, ops[0]).0, ops[1..]);
    }
  }

  /**
   * Stale rows cannot be observed: two memories that agree on the rows in use, and on nothing else,
   * give the same results in every guarded run and still agree on the rows in use afterwards.
   */
  lemma StaleRowsUnobservable(net: Net, s: Shape, a: Memory, b: Memory, ops: seq<Op>)
    requires a.Valid(s) && b.Valid(s) && a.Contents(s) == b.Contents(s)
    requires Guarded(s, a.head, ops)
    ensures PhysicalRun(net, s, a, ops).1 == PhysicalRun(net, s, b, ops).1
    ensures PhysicalRun(net, s, a, ops).0.Contents(s) == PhysicalRun(net, s, b, ops).0.Contents(s)
  {
    RunRefines(net, s, a, ops);
    RunRefines(net, s, b, ops);
  }

  function FilledMemory(s: Shape, x: real): (m: Memory)
    ensures m.Valid(s) && m.head == 0
  {
    var rows := seq(s.nLayers, _ => seq(s.nCtx, _ => seq(s.rowLen, _ => x)));
    Memory(Cache(s.nCtx, rows, rows), 0)
  }

  function ZeroedMemory(s: Shape): (m: Memory)
    ensures m.Valid(s)
  {
    FilledMemory(s, 0.0)
  }

  /** So a reset cache behaves, in every guarded run, like one just allocated and zeroed. */
  lemma ResetIsFresh(net: Net, s: Shape, m: Memory, ops: seq<Op>)
    requires m.Valid(s) && Guarded(s, 0, ops)
    ensures PhysicalRun(net, s, m, [Reset] + ops).1[1..] == PhysicalRun(net, s, ZeroedMemory(s), ops).1
  {
    var reset := m.(head := 0);
    assert ([Reset] + ops)[1..] == ops;
    assert PhysicalRun(net, s, m, [Reset] + ops).1 == [None] + PhysicalRun(net, s, reset, ops).1;
    StaleRowsUnobservable(net, s, reset, ZeroedMemory(s), ops);
  }

  /** A model whose layers pass on the first visible value row. */
  function FirstRowNet(s: Shape): Net {
    Net(_ => [], (_, _, _) => seq(s.rowLen, _ => 0.0), (_, _) => seq(s.rowLen, _ => 0.0),
        (_, h, _, _, vs) => if vs == [] then h else vs[0], h => h)
  }

  /** Decoding is blind to stale rows, for all models and memories, exactly when some row is in use. */
  lemma DecodeIsolatedExactly(s: Shape, head: nat, token: nat)
    requires head < s.nCtx && s.nLayers >= 1 && s.rowLen >= 1
    ensures (forall net: Net, a: Memory, b: Memory ::
               a.Valid(s) && b.Valid(s) && a.head == b.head == head && a.Contents(s) == b.Contents(s) ==>
                 Perform(net, s, a, Next(token)).1 == Perform(net, s, b, Next(token)).1)
            <==> head >= 1
  {
    if head >= 1 {
      forall net: Net, a: Memory, b: Memory |
        a.Valid(s) && b.Valid(s) && a.head == b.head == head && a.Contents(s) == b.Contents(s)
        ensures Perform(net, s, a, Next(token)).1 == Perform(net, s, b, Next(token)).1
      {
      }
    } else {
      var net := FirstRowNet(s);
      var a, b := ZeroedMemory(s), FilledMemory(s, 1.0);
      assert a.Contents(s) == b.Contents(s);
      var top := s.nLayers - 1;
      assert DecodeLogits(net, a.Seen(s), token, 0) == DecodeHidden(net, a.all, token, 0, s.nLayers) == a.all.v[top][0];
      assert DecodeLogits(net, b.Seen(s), token, 0) == DecodeHidden(net, b.all, token, 0, s.nLayers) == b.all.v[top][0];
      assert a.all.v[top][0][0] != b.all.v[top][0][0];
      assert Perform(net, s, a, Next(token)).1 != Perform(net, s, b, Next(token)).1;
    }
  }

  /** Rows already in use are never rewritten: an operation other than reset only adds rows at the end. */
  lemma EarlierRowsKept(net: Net, s: Shape, c: Cache, op: Op)
    requires c.Fits(s) && !op.Reset?
    ensures c.head <= Ideal(net, s, c, op).0.head
    ensures Ideal(net, s, c, op).0.Upto(c.head) == c
  {
    var after := Ideal(net, s, c, op).0;
    forall l: nat | l < s.nLayers ensures after.k[l][..c.head] == c.k[l] && after.v[l][..c.head] == c.v[l] {
    }
  }
}
