/**
 * The header encoding of the GGUF specification ("File Structure", versions 2 and 3), and what parsing
 * makes of it.
 */
module GgufRoundTrip {
  import opened Bytes
  import Utf8
  import opened GgufFormat

  // ------------------------------------------------------------------ encoding

  /** Little-endian bytes of a word. */
  function LeBytes(v: nat, width: nat): (s: seq<byte>)
    ensures |s| == width
  {
    seq(width, i requires 0 <= i < width => PowPositive(i); v / Pow256(i) % 256)
  }

  lemma {:induction false} PowPositive(n: nat)
    ensures Pow256(n) > 0
  {
    if n > 0 {
      PowPositive(n - 1);
    }
  }

  lemma QuotientUnique(x: nat, d: nat, q: nat, r: nat)
    requires x == Multiple(q, d) + r && r < d
    ensures x / d == q
  {
    var q', r' := x / d, x % d;
    assert Multiple(q', d) + r' == x;
    if q < q' {
      SmallerMultiple(q, q', d);
    } else if q' < q {
      SmallerMultiple(q', q, d);
    }
  }

  lemma DivideTwice(v: nat, p: nat)
    requires p > 0
    ensures v / 256 / p == v / (256 * p)
  {
    var a, s := v / 256, v % 256;
    var q, r := a / p, a % p;
    assert a == Multiple(q, p) + r;
    assert Multiple(q, 256 * p) == 256 * Multiple(q, p);
    QuotientUnique(v, 256 * p, q, 256 * r + s);
  }

  /** The lowest byte comes first. */
  lemma LeBytesStep(v: nat, width: nat)
    requires width > 0
    ensures LeBytes(v, width) == [v % 256] + LeBytes(v / 256, width - 1)
  {
    forall i: nat | 0 < i < width ensures LeBytes(v, width)[i] == LeBytes(v / 256, width - 1)[i - 1] {
      PowPositive(i - 1);
      DivideTwice(v, Pow256(i - 1));
    }
  }

  function StringBytes(s: seq<byte>): seq<byte> { LeBytes(|s|, 8) + s }

  /** A metadata value with its declared array element type. */
  datatype Typed = Scalar(v: GgufValue) | Items(elemType: nat, items: seq<GgufValue>)
  {
    /** What a reader is meant to see. */
    function Meaning(): GgufValue {
      match this case Scalar(v) => v case Items(_, items) => Array(items)
    }
  }

  function TypeId(v: GgufValue): nat {
    match v
    case U8(_) => 0 case I8(_) => 1 case U16(_) => 2 case I16(_) => 3 case U32(_) => 4 case I32(_) => 5
    case F32(_) => 6 case Bool(_) => 7 case Str(_) => 8 case Array(_) => 9
    case U64(_) => 10 case I64(_) => 11 case F64(_) => 12
  }

  /** Two's complement of a signed number in `width` bytes. */
  function FromSigned(i: int, width: nat): int {
    if i >= 0 then i else i + Pow256(width)
  }

  /** The word a fixed-size value is stored as. */
  function ToWord(v: GgufValue): int {
    match v
    case U8(n) => n case U16(n) => n case U32(n) => n case U64(n) => n
    case I8(i) => FromSigned(i, 1) case I16(i) => FromSigned(i, 2)
    case I32(i) => FromSigned(i, 4) case I64(i) => FromSigned(i, 8)
    case F32(bits) => bits case F64(bits) => bits
    case Bool(b) => if b then 1 else 0
    case _ => 0
  }

  predicate InSigned(i: int, width: nat) { -(Pow256(width) as int) <= 2 * i < Pow256(width) }

  predicate ValidString(s: seq<byte>) { Utf8.Valid(s) && |s| < Pow256(8) }

  /** A non-array value in the range of its type. */
  predicate ValidScalar(v: GgufValue) {
    match v
    case U8(n) => n < Pow256(1) case U16(n) => n < Pow256(2) case U32(n) => n < Pow256(4)
    case U64(n) => n < Pow256(8) case F32(n) => n < Pow256(4) case F64(n) => n < Pow256(8)
    case I8(i) => InSigned(i, 1) case I16(i) => InSigned(i, 2)
    case I32(i) => InSigned(i, 4) case I64(i) => InSigned(i, 8)
    case Bool(_) => true
    case Str(s) => ValidString(s)
    case Array(_) => false
  }

  function ScalarBytes(v: GgufValue): seq<byte>
    requires ValidScalar(v)
  {
    if v.Str? then StringBytes(v.s)
    else WordFits(v); LeBytes(ToWord(v), Width(v))
  }

  /** How many bytes the specification gives a fixed-size value. */
  function Width(v: GgufValue): nat {
    match v
    case U8(_) => 1 case I8(_) => 1 case Bool(_) => 1
    case U16(_) => 2 case I16(_) => 2
    case U32(_) => 4 case I32(_) => 4 case F32(_) => 4
    case U64(_) => 8 case I64(_) => 8 case F64(_) => 8
    case _ => 0
  }

  lemma WordFits(v: GgufValue)
    requires ValidScalar(v) && !v.Str?
    ensures WidthOf(TypeId(v)) == Some(Width(v))
    ensures 0 <= ToWord(v) < Pow256(Width(v))
    ensures FromWord(TypeId(v), ToWord(v)) == v
  {
  }

  predicate ValidTyped(t: Typed) {
    match t
    case Scalar(v) => ValidScalar(v)
    case Items(elemType, items) =>
      && elemType < Pow256(4) && |items| < Pow256(8)
      && forall i: nat :: i < |items| ==> ValidScalar(items[i]) && TypeId(items[i]) == elemType
  }

  /** Encodings one after another. */
  function All<T>(enc: T -> seq<byte>, xs: seq<T>): seq<byte> {
    if xs == [] then [] else enc(xs[0]) + All(enc, xs[1..])
  }

  function ItemBytes(v: GgufValue): seq<byte> {
    if ValidScalar(v) then ScalarBytes(v) else []
  }

  function ArrayBytes(elemType: nat, items: seq<GgufValue>): seq<byte> {
    LeBytes(elemType, 4) + (LeBytes(|items|, 8) + All(ItemBytes, items))
  }

  function TypedBytes(t: Typed): seq<byte> {
    match t
    case Scalar(v) => LeBytes(TypeId(v), 4) + ItemBytes(v)
    case Items(elemType, items) => LeBytes(9, 4) + ArrayBytes(elemType, items)
  }

  datatype KeyValue = KeyValue(key: seq<byte>, value: Typed)

  predicate ValidKeyValue(kv: KeyValue) { ValidString(kv.key) && ValidTyped(kv.value) }

  function KeyValueBytes(kv: KeyValue): seq<byte> { StringBytes(kv.key) + TypedBytes(kv.value) }

  function PairOf(kv: KeyValue): Pair { Pair(kv.key, kv.value.Meaning()) }

  predicate ValidTensor(t: TensorInfo) {
    && ValidString(t.name) && |t.dims| < Pow256(4) && t.ggmlType < Pow256(4) && t.offset < Pow256(8)
    && forall i: nat :: i < |t.dims| ==> t.dims[i] < Pow256(8)
  }

  function DimBytes(d: nat): seq<byte> { LeBytes(d, 8) }

  function TensorBytes(t: TensorInfo): seq<byte> {
    StringBytes(t.name)
    + (LeBytes(|t.dims|, 4) + (All(DimBytes, t.dims) + (LeBytes(t.ggmlType, 4) + LeBytes(t.offset, 8))))
  }

  datatype Document = Document(version: nat, pairs: seq<KeyValue>, tensors: seq<TensorInfo>)

  predicate ValidDocument(d: Document) {
    && d.version in {2, 3}
    && |d.pairs| < Pow256(8) && |d.tensors| < Pow256(8)
    && (forall i: nat :: i < |d.pairs| ==> ValidKeyValue(d.pairs[i]))
    && (forall i: nat :: i < |d.tensors| ==> ValidTensor(d.tensors[i]))
  }

  function PreambleBytes(d: Document): seq<byte> {
    LeBytes(GGUF_MAGIC, 4) + (LeBytes(d.version, 4) + (LeBytes(|d.tensors|, 8) + LeBytes(|d.pairs|, 8)))
  }

  function DocumentBytes(d: Document): seq<byte> {
    PreambleBytes(d) + (All(KeyValueBytes, d.pairs) + All(TensorBytes, d.tensors))
  }

  // ------------------------------------------------------- encodings in a stream

  /** The stream has `e` at `pos`. */
  predicate Holds(data: seq<byte>, pos: nat, e: seq<byte>) {
    pos + |e| <= |data| && forall i: nat :: i < |e| ==> data[pos + i] == e[i]
  }

  lemma HoldsSplit(data: seq<byte>, pos: nat, a: seq<byte>, b: seq<byte>)
    requires Holds(data, pos, a + b)
    ensures Holds(data, pos, a) && Holds(data, pos + |a|, b)
  {
    assert forall i: nat :: i < |a| ==> (a + b)[i] == a[i];
    forall i: nat | i < |b| ensures data[pos + |a| + i] == b[i] {
      assert (a + b)[|a| + i] == b[i];
      assert pos + (|a| + i) == pos + |a| + i;
    }
  }

  lemma {:induction false} LeValueOfBytes(data: seq<byte>, pos: nat, v: nat, width: nat)
    requires v < Pow256(width) && Holds(data, pos, LeBytes(v, width))
    ensures LeValue(data, pos, pos + width) == v
    decreases width
  {
    if width > 0 {
      var low, high := [v % 256], LeBytes(v / 256, width - 1);
      LeBytesStep(v, width);
      HoldsSplit(data, pos, low, high);
      LeValueOfBytes(data, pos + 1, v / 256, width - 1);
      assert data[pos + 0] == low[0];
    }
  }

  lemma UintBack(data: seq<byte>, pos: nat, v: nat, width: nat)
    requires v < Pow256(width) && Holds(data, pos, LeBytes(v, width))
    ensures ReadUint(data, pos, width) == Got(v, pos + width)
  {
    LeValueOfBytes(data, pos, v, width);
  }

  lemma StringBack(data: seq<byte>, pos: nat, s: seq<byte>)
    requires ValidString(s) && Holds(data, pos, StringBytes(s))
    ensures ReadString(data, pos) == Got(s, pos + |StringBytes(s)|)
  {
    HoldsSplit(data, pos, LeBytes(|s|, 8), s);
    UintBack(data, pos, |s|, 8);
    assert data[pos + 8..pos + 8 + |s|] == s;
  }

  lemma ScalarBack(data: seq<byte>, pos: nat, v: GgufValue)
    requires ValidScalar(v) && Holds(data, pos, ScalarBytes(v))
    ensures ReadByType(data, pos, TypeId(v)) == Got(v, pos + |ScalarBytes(v)|)
  {
    if v.Str? {
      StringBack(data, pos, v.s);
    } else {
      WordFits(v);
      UintBack(data, pos, ToWord(v), Width(v));
    }
  }

  function Mapped<T, U>(f: T -> U, xs: seq<T>): (ys: seq<U>)
    ensures |ys| == |xs|
  {
    if xs == [] then [] else [f(xs[0])] + Mapped(f, xs[1..])
  }

  /** Reading undoes encoding element by element, so it undoes a run of encodings. */
  ghost predicate Undoes<T(!new), U>(data: seq<byte>, read: At<U>, enc: T -> seq<byte>, f: T -> U, xs: seq<T>) {
    forall i: nat, p: nat :: i < |xs| && Holds(data, p, enc(xs[i])) ==> read(p) == Got(f(xs[i]), p + |enc(xs[i])|)
  }

  lemma {:induction false} ManyBack<T(!new), U>(
    data: seq<byte>, read: At<U>, enc: T -> seq<byte>, f: T -> U, xs: seq<T>, pos: nat)
    requires Undoes(data, read, enc, f, xs) && Holds(data, pos, All(enc, xs))
    ensures ReadMany(read, pos, |xs|) == Got(Mapped(f, xs), pos + |All(enc, xs)|)
    decreases |xs|
  {
    if xs != [] {
      HoldsSplit(data, pos, enc(xs[0]), All(enc, xs[1..]));
      var p := pos + |enc(xs[0])|;
      assert read(pos) == Got(f(xs[0]), p);
      UndoesRest(data, read, enc, f, xs);
      ManyBack(data, read, enc, f, xs[1..], p);
    }
  }

  lemma UndoesRest<T(!new), U>(data: seq<byte>, read: At<U>, enc: T -> seq<byte>, f: T -> U, xs: seq<T>)
    requires Undoes(data, read, enc, f, xs) && xs != []
    ensures Undoes(data, read, enc, f, xs[1..])
  {
    forall i: nat, p: nat | i < |xs[1..]| && Holds(data, p, enc(xs[1..][i]))
      ensures read(p) == Got(f(xs[1..][i]), p + |enc(xs[1..][i])|)
    {
      assert xs[1..][i] == xs[i + 1];
    }
  }

  function Same<T>(): T -> T { x => x }

  lemma {:induction false} MappedSame<T>(xs: seq<T>)
    ensures Mapped(Same(), xs) == xs
  {
    if xs != [] {
      MappedSame(xs[1..]);
    }
  }

  lemma ItemsBack(data: seq<byte>, pos: nat, elemType: nat, items: seq<GgufValue>)
    requires ValidTyped(Items(elemType, items)) && Holds(data, pos, All(ItemBytes, items))
    ensures ReadMany(ItemAt(data, elemType), pos, |items|) == Got(items, pos + |All(ItemBytes, items)|)
  {
    forall i: nat, p: nat | i < |items| && Holds(data, p, ItemBytes(items[i]))
      ensures ItemAt(data, elemType)(p) == Got(items[i], p + |ItemBytes(items[i])|)
    {
      ScalarBack(data, p, items[i]);
    }
    ManyBack(data, ItemAt(data, elemType), ItemBytes, Same(), items, pos);
    MappedSame(items);
  }

  lemma ArrayBack(data: seq<byte>, pos: nat, elemType: nat, items: seq<GgufValue>, version: nat)
    requires ValidTyped(Items(elemType, items)) && version in {2, 3}
    requires Holds(data, pos, LeBytes(9, 4) + ArrayBytes(elemType, items))
    ensures ReadValue(data, pos, version) == Got(Array(items), pos + 4 + |ArrayBytes(elemType, items)|)
  {
    var p, q, q' := pos + 4, pos + 4 + 4, pos + 4 + 4 + 8;
    HoldsSplit(data, pos, LeBytes(9, 4), ArrayBytes(elemType, items));
    HoldsSplit(data, p, LeBytes(elemType, 4), LeBytes(|items|, 8) + All(ItemBytes, items));
    HoldsSplit(data, q, LeBytes(|items|, 8), All(ItemBytes, items));
    UintBack(data, pos, 9, 4);
    UintBack(data, p, elemType, 4);
    UintBack(data, q, |items|, 8);
    ItemsBack(data, q', elemType, items);
  }

  lemma TypedBack(data: seq<byte>, pos: nat, t: Typed, version: nat)
    requires ValidTyped(t) && version in {2, 3} && Holds(data, pos, TypedBytes(t))
    ensures ReadValue(data, pos, version) == Got(t.Meaning(), pos + |TypedBytes(t)|)
  {
    match t {
      case Scalar(v) =>
        HoldsSplit(data, pos, LeBytes(TypeId(v), 4), ItemBytes(v));
        UintBack(data, pos, TypeId(v), 4);
        ScalarBack(data, pos + 4, v);
      case Items(elemType, items) =>
        ArrayBack(data, pos, elemType, items, version);
    }
  }

  lemma KeyValueBack(data: seq<byte>, pos: nat, kv: KeyValue, version: nat)
    requires ValidKeyValue(kv) && version in {2, 3} && Holds(data, pos, KeyValueBytes(kv))
    ensures ReadPair(data, pos, version) == Got(PairOf(kv), pos + |KeyValueBytes(kv)|)
  {
    var p := pos + |StringBytes(kv.key)|;
    HoldsSplit(data, pos, StringBytes(kv.key), TypedBytes(kv.value));
    assert ReadString(data, pos) == Got(kv.key, p) by { StringBack(data, pos, kv.key); }
    assert ReadValue(data, p, version) == Got(kv.value.Meaning(), p + |TypedBytes(kv.value)|) by {
      TypedBack(data, p, kv.value, version);
    }
    PairFrom(data, pos, version, kv.key, p, kv.value.Meaning(), p + |TypedBytes(kv.value)|);
  }

  lemma PairFrom(
    data: seq<byte>, pos: nat, version: nat, key: seq<byte>, p: nat, value: GgufValue, end: nat)
    requires ReadString(data, pos) == Got(key, p) && ReadValue(data, p, version) == Got(value, end)
    ensures ReadPair(data, pos, version) == Got(Pair(key, value), end)
  {
  }

  lemma DimsBack(data: seq<byte>, pos: nat, dims: seq<nat>, version: nat)
    requires version in {2, 3} && Holds(data, pos, All(DimBytes, dims))
    requires forall i: nat :: i < |dims| ==> dims[i] < Pow256(8)
    ensures ReadMany(DimAt(data, version), pos, |dims|) == Got(dims, pos + |All(DimBytes, dims)|)
  {
    forall i: nat, p: nat | i < |dims| && Holds(data, p, DimBytes(dims[i]))
      ensures DimAt(data, version)(p) == Got(dims[i], p + |DimBytes(dims[i])|)
    {
      UintBack(data, p, dims[i], 8);
    }
    ManyBack(data, DimAt(data, version), DimBytes, Same(), dims, pos);
    MappedSame(dims);
  }

  lemma TensorBack(data: seq<byte>, pos: nat, t: TensorInfo, version: nat)
    requires ValidTensor(t) && version in {2, 3} && Holds(data, pos, TensorBytes(t))
    ensures ReadTensor(data, pos, version) == Got(t, pos + |TensorBytes(t)|)
  {
    var name, count, dims := StringBytes(t.name), LeBytes(|t.dims|, 4), All(DimBytes, t.dims);
    var kind, offset := LeBytes(t.ggmlType, 4), LeBytes(t.offset, 8);
    var p := pos + |name|;
    var q := p + 4;
    var q' := q + |dims|;
    var q'' := q' + 4;
    HoldsSplit(data, pos, name, count + (dims + (kind + offset)));
    HoldsSplit(data, p, count, dims + (kind + offset));
    HoldsSplit(data, q, dims, kind + offset);
    HoldsSplit(data, q', kind, offset);
    StringBack(data, pos, t.name);
    UintBack(data, p, |t.dims|, 4);
    DimsBack(data, q, t.dims, version);
    UintBack(data, q', t.ggmlType, 4);
    UintBack(data, q'', t.offset, 8);
    TensorFrom(data, pos, version, t, p, q, q', q'');
  }

  lemma TensorFrom(
    data: seq<byte>, pos: nat, version: nat, t: TensorInfo, p: nat, q: nat, q': nat, q'': nat)
    requires ReadString(data, pos) == Got(t.name, p)
    requires ReadUint(data, p, 4) == Got(|t.dims|, q)
    requires ReadMany(DimAt(data, version), q, |t.dims|) == Got(t.dims, q')
    requires ReadUint(data, q', 4) == Got(t.ggmlType, q'')
    requires ReadUint(data, q'', 8) == Got(t.offset, q'' + 8)
    ensures ReadTensor(data, pos, version) == Got(t, q'' + 8)
  {
  }

  lemma PreambleBack(data: seq<byte>, d: Document)
    requires ValidDocument(d) && Holds(data, 0, PreambleBytes(d))
    ensures ReadPreamble(data) == Got(Preamble(d.version, |d.tensors|, |d.pairs|), |PreambleBytes(d)|)
  {
    var magic, version := LeBytes(GGUF_MAGIC, 4), LeBytes(d.version, 4);
    var nTensors, nKv := LeBytes(|d.tensors|, 8), LeBytes(|d.pairs|, 8);
    HoldsSplit(data, 0, magic, version + (nTensors + nKv));
    HoldsSplit(data, 4, version, nTensors + nKv);
    HoldsSplit(data, 8, nTensors, nKv);
    UintBack(data, 0, GGUF_MAGIC, 4);
    UintBack(data, 4, d.version, 4);
    UintBack(data, 8, |d.tensors|, 8);
    UintBack(data, 16, |d.pairs|, 8);
  }

  lemma BodyBack(data: seq<byte>, d: Document)
    requires ValidDocument(d) && Holds(data, 0, DocumentBytes(d))
    ensures ReadBody(data) ==
            Got(Body(Preamble(d.version, |d.tensors|, |d.pairs|), Mapped(PairOf, d.pairs), d.tensors),
                |DocumentBytes(d)|)
  {
    var p, q, end := SectionsAt(data, d);
    PreambleBack(data, d);
    PairsBack(data, p, d);
    TensorsBack(data, q, d);
    BodyFrom(data, Preamble(d.version, |d.tensors|, |d.pairs|), p, Mapped(PairOf, d.pairs), q, d.tensors, end);
  }

  /** Where the three sections of a document start, and where the last one ends. */
  lemma SectionsAt(data: seq<byte>, d: Document) returns (p: nat, q: nat, end: nat)
    requires Holds(data, 0, DocumentBytes(d))
    ensures Holds(data, 0, PreambleBytes(d)) && p == |PreambleBytes(d)|
    ensures Holds(data, p, All(KeyValueBytes, d.pairs)) && q == p + |All(KeyValueBytes, d.pairs)|
    ensures Holds(data, q, All(TensorBytes, d.tensors)) && end == q + |All(TensorBytes, d.tensors)|
    ensures end == |DocumentBytes(d)|
  {
    var pre, pairs, tensors := PreambleBytes(d), All(KeyValueBytes, d.pairs), All(TensorBytes, d.tensors);
    HoldsSplit(data, 0, pre, pairs + tensors);
    HoldsSplit(data, |pre|, pairs, tensors);
    p, q, end := |pre|, |pre| + |pairs|, |pre| + |pairs| + |tensors|;
  }

  lemma BodyFrom(
    data: seq<byte>, pre: Preamble, p: nat, pairs: seq<Pair>, q: nat, tensors: seq<TensorInfo>, end: nat)
    requires ReadPreamble(data) == Got(pre, p)
    requires ReadMany(PairAt(data, pre.version), p, pre.nKv) == Got(pairs, q)
    requires ReadMany(TensorAt(data, pre.version), q, pre.nTensors) == Got(tensors, end)
    ensures ReadBody(data) == Got(Body(pre, pairs, tensors), end)
  {
  }

  lemma PairsUndone(data: seq<byte>, d: Document)
    requires ValidDocument(d)
    ensures Undoes(data, PairAt(data, d.version), KeyValueBytes, PairOf, d.pairs)
  {
    forall i: nat, p: nat | i < |d.pairs| && Holds(data, p, KeyValueBytes(d.pairs[i]))
      ensures PairAt(data, d.version)(p) == Got(PairOf(d.pairs[i]), p + |KeyValueBytes(d.pairs[i])|)
    {
      KeyValueBack(data, p, d.pairs[i], d.version);
    }
  }

  lemma PairsBack(data: seq<byte>, pos: nat, d: Document)
    requires ValidDocument(d) && Holds(data, pos, All(KeyValueBytes, d.pairs))
    ensures ReadMany(PairAt(data, d.version), pos, |d.pairs|) ==
            Got(Mapped(PairOf, d.pairs), pos + |All(KeyValueBytes, d.pairs)|)
  {
    PairsUndone(data, d);
    ManyBack(data, PairAt(data, d.version), KeyValueBytes, PairOf, d.pairs, pos);
  }

  lemma TensorsUndone(data: seq<byte>, d: Document)
    requires ValidDocument(d)
    ensures Undoes(data, TensorAt(data, d.version), TensorBytes, Same(), d.tensors)
  {
    forall i: nat, p: nat | i < |d.tensors| && Holds(data, p, TensorBytes(d.tensors[i]))
      ensures TensorAt(data, d.version)(p) == Got(d.tensors[i], p + |TensorBytes(d.tensors[i])|)
    {
      TensorBack(data, p, d.tensors[i], d.version);
    }
  }

  lemma TensorsBack(data: seq<byte>, pos: nat, d: Document)
    requires ValidDocument(d) && Holds(data, pos, All(TensorBytes, d.tensors))
    ensures ReadMany(TensorAt(data, d.version), pos, |d.tensors|) ==
            Got(d.tensors, pos + |All(TensorBytes, d.tensors)|)
  {
    TensorsUndone(data, d);
    ManyBack(data, TensorAt(data, d.version), TensorBytes, Same(), d.tensors, pos);
    MappedSame(d.tensors);
  }

  /** The metadata a document declares. */
  function Declared(d: Document): map<seq<byte>, GgufValue> { Metadata(Mapped(PairOf, d.pairs)) }

  /**
   * Header round trip: parsing a document's encoding, whatever follows it, gives the document back and
   * puts the data right after it, aligned; only a declared alignment of zero ends the program instead.
   */
  lemma HeaderRoundTrip(d: Document, rest: seq<byte>)
    requires ValidDocument(d)
    ensures ParseHeader(DocumentBytes(d) + rest) ==
            if Alignment(Declared(d)) == 0 then DivisionPanic
            else Parsed(Header(d.version, |d.tensors|, Declared(d), d.tensors,
                               AlignUp(|DocumentBytes(d)|, Alignment(Declared(d)))))
  {
    var data := DocumentBytes(d) + rest;
    BodyBack(data, d);
  }

  /** The last pair with its key. */
  predicate LastOfKey(pairs: seq<KeyValue>, i: nat) {
    i < |pairs| && forall j: nat :: i < j < |pairs| ==> pairs[j].key != pairs[i].key
  }

  lemma {:induction false} LastExists(pairs: seq<KeyValue>, i: nat) returns (last: nat)
    requires i < |pairs|
    ensures LastOfKey(pairs, last) && pairs[last].key == pairs[i].key
    decreases |pairs| - i
  {
    if j: nat :| i < j < |pairs| && pairs[j].key == pairs[i].key {
      last := LastExists(pairs, j);
    } else {
      last := i;
    }
  }

  lemma {:induction false} MappedAt<T, U>(f: T -> U, xs: seq<T>, i: nat)
    requires i < |xs|
    ensures Mapped(f, xs)[i] == f(xs[i])
  {
    if i > 0 {
      MappedAt(f, xs[1..], i - 1);
    }
  }

  /** Exactly the inserted keys are present. */
  lemma {:induction false} MetadataKeys(pairs: seq<Pair>, key: seq<byte>)
    ensures key in Metadata(pairs) <==> exists i: nat :: i < |pairs| && pairs[i].key == key
    decreases |pairs|
  {
    if pairs != [] {
      var n := |pairs| - 1;
      MetadataKeys(pairs[..n], key);
      if i: nat :| i < n && pairs[i].key == key {
        assert pairs[..n][i].key == key;
      }
    }
  }

  /** A key has the value it was last inserted with. */
  lemma {:induction false} MetadataValue(pairs: seq<Pair>, i: nat)
    requires i < |pairs| && forall j: nat :: i < j < |pairs| ==> pairs[j].key != pairs[i].key
    ensures pairs[i].key in Metadata(pairs) && Metadata(pairs)[pairs[i].key] == pairs[i].value
    decreases |pairs|
  {
    var n := |pairs| - 1;
    if i < n {
      MetadataValue(pairs[..n], i);
    }
  }

  /** Exactly the declared keys are found, each with the value declared last. */
  lemma DeclaredExactly(d: Document, key: seq<byte>)
    ensures key in Declared(d) <==> exists i: nat :: i < |d.pairs| && d.pairs[i].key == key
    ensures forall i: nat :: LastOfKey(d.pairs, i) && d.pairs[i].key == key ==>
              key in Declared(d) && Declared(d)[key] == d.pairs[i].value.Meaning()
  {
    var pairs := Mapped(PairOf, d.pairs);
    forall i: nat | i < |d.pairs| ensures pairs[i] == PairOf(d.pairs[i]) {
      MappedAt(PairOf, d.pairs, i);
    }
    MetadataKeys(pairs, key);
    forall i: nat | LastOfKey(d.pairs, i) && d.pairs[i].key == key
      ensures key in Declared(d) && Declared(d)[key] == d.pairs[i].value.Meaning()
    {
      MetadataValue(pairs, i);
    }
    if i: nat :| i < |d.pairs| && d.pairs[i].key == key {
      assert pairs[i].key == key;
    }
  }

  // ------------------------------------------------------------- strict prefixes

  /** What `short` decided, `long` decides alike, and nothing is read past `n`: more bytes help only at an end. */
  ghost predicate Keeps<T>(short: Read<T>, long: Read<T>, n: nat) {
    !short.UnexpectedEof? ==> long == short && (short.Got? ==> short.pos <= n)
  }

  ghost predicate Extends<T(!new)>(short: At<T>, long: At<T>, n: nat) {
    forall p: nat :: p <= n ==> Keeps(short(p), long(p), n)
  }

  lemma {:induction false} ManyExtends<T(!new)>(short: At<T>, long: At<T>, n: nat, pos: nat, count: nat)
    requires Extends(short, long, n) && pos <= n
    ensures Keeps(ReadMany(short, pos, count), ReadMany(long, pos, count), n)
    decreases count
  {
    if count > 0 {
      assert Keeps(short(pos), long(pos), n);
      if short(pos).Got? {
        ManyExtends(short, long, n, short(pos).pos, count - 1);
      }
    }
  }

  lemma {:induction false} LeValueExtends(a: seq<byte>, b: seq<byte>, lo: nat, hi: nat)
    requires a <= b && lo <= hi <= |a|
    ensures LeValue(b, lo, hi) == LeValue(a, lo, hi)
    decreases hi - lo
  {
    if lo < hi {
      LeValueExtends(a, b, lo + 1, hi);
    }
  }

  lemma UintExtends(a: seq<byte>, b: seq<byte>, pos: nat, width: nat)
    requires a <= b
    ensures Keeps(ReadUint(a, pos, width), ReadUint(b, pos, width), |a|)
  {
    if pos + width <= |a| {
      LeValueExtends(a, b, pos, pos + width);
    }
  }

  lemma StringExtends(a: seq<byte>, b: seq<byte>, pos: nat)
    requires a <= b
    ensures Keeps(ReadString(a, pos), ReadString(b, pos), |a|)
  {
    UintExtends(a, b, pos, 8);
    var len := ReadUint(a, pos, 8);
    if len.Got? && len.pos + len.value <= |a| {
      assert a[len.pos..len.pos + len.value] == b[len.pos..len.pos + len.value];
    }
  }

  lemma ByTypeExtends(a: seq<byte>, b: seq<byte>, pos: nat, typeId: nat)
    requires a <= b
    ensures Keeps(ReadByType(a, pos, typeId), ReadByType(b, pos, typeId), |a|)
  {
    if typeId == 8 {
      StringExtends(a, b, pos);
    } else if WidthOf(typeId).Some? {
      UintExtends(a, b, pos, WidthOf(typeId).value);
    }
  }

  lemma ValueExtends(a: seq<byte>, b: seq<byte>, pos: nat, version: nat)
    requires a <= b
    ensures Keeps(ReadValue(a, pos, version), ReadValue(b, pos, version), |a|)
  {
    UintExtends(a, b, pos, 4);
    var typeId := ReadUint(a, pos, 4);
    if typeId.Got? {
      ByTypeExtends(a, b, typeId.pos, typeId.value);
      UintExtends(a, b, typeId.pos, 4);
      var elemType := ReadUint(a, typeId.pos, 4);
      if elemType.Got? {
        UintExtends(a, b, elemType.pos, CountWidth(version));
        var count := ReadUint(a, elemType.pos, CountWidth(version));
        if count.Got? {
          ItemsExtend(a, b, count.pos, elemType.value, count.value);
        }
      }
    }
  }

  lemma ItemsExtend(a: seq<byte>, b: seq<byte>, pos: nat, elemType: nat, count: nat)
    requires a <= b && pos <= |a|
    ensures Keeps(ReadMany(ItemAt(a, elemType), pos, count), ReadMany(ItemAt(b, elemType), pos, count), |a|)
  {
    forall p: nat | p <= |a| ensures Keeps(ItemAt(a, elemType)(p), ItemAt(b, elemType)(p), |a|) {
      ByTypeExtends(a, b, p, elemType);
    }
    ManyExtends(ItemAt(a, elemType), ItemAt(b, elemType), |a|, pos, count);
  }

  lemma PairExtends(a: seq<byte>, b: seq<byte>, version: nat, pos: nat)
    requires a <= b
    ensures Keeps(ReadPair(a, pos, version), ReadPair(b, pos, version), |a|)
  {
    StringExtends(a, b, pos);
    if ReadString(a, pos).Got? {
      ValueExtends(a, b, ReadString(a, pos).pos, version);
    }
  }

  lemma PairsExtend(a: seq<byte>, b: seq<byte>, version: nat, pos: nat, count: nat)
    requires a <= b && pos <= |a|
    ensures Keeps(ReadMany(PairAt(a, version), pos, count), ReadMany(PairAt(b, version), pos, count), |a|)
  {
    forall p: nat | p <= |a| ensures Keeps(PairAt(a, version)(p), PairAt(b, version)(p), |a|) {
      PairExtends(a, b, version, p);
    }
    ManyExtends(PairAt(a, version), PairAt(b, version), |a|, pos, count);
  }

  lemma DimsExtend(a: seq<byte>, b: seq<byte>, version: nat, pos: nat, count: nat)
    requires a <= b && pos <= |a|
    ensures Keeps(ReadMany(DimAt(a, version), pos, count), ReadMany(DimAt(b, version), pos, count), |a|)
  {
    forall p: nat | p <= |a| ensures Keeps(DimAt(a, version)(p), DimAt(b, version)(p), |a|) {
      UintExtends(a, b, p, CountWidth(version));
    }
    ManyExtends(DimAt(a, version), DimAt(b, version), |a|, pos, count);
  }

  lemma TensorExtends(a: seq<byte>, b: seq<byte>, version: nat, pos: nat)
    requires a <= b
    ensures Keeps(ReadTensor(a, pos, version), ReadTensor(b, pos, version), |a|)
  {
    StringExtends(a, b, pos);
    var name := ReadString(a, pos);
    if name.Got? {
      UintExtends(a, b, name.pos, 4);
      var count := ReadUint(a, name.pos, 4);
      if count.Got? {
        DimsExtend(a, b, version, count.pos, count.value);
        var dims := ReadMany(DimAt(a, version), count.pos, count.value);
        if dims.Got? {
          UintExtends(a, b, dims.pos, 4);
          UintExtends(a, b, dims.pos + 4, 8);
        }
      }
    }
  }

  lemma TensorsExtend(a: seq<byte>, b: seq<byte>, version: nat, pos: nat, count: nat)
    requires a <= b && pos <= |a|
    ensures Keeps(ReadMany(TensorAt(a, version), pos, count), ReadMany(TensorAt(b, version), pos, count), |a|)
  {
    forall p: nat | p <= |a| ensures Keeps(TensorAt(a, version)(p), TensorAt(b, version)(p), |a|) {
      TensorExtends(a, b, version, p);
    }
    ManyExtends(TensorAt(a, version), TensorAt(b, version), |a|, pos, count);
  }

  lemma PreambleExtends(a: seq<byte>, b: seq<byte>)
    requires a <= b
    ensures Keeps(ReadPreamble(a), ReadPreamble(b), |a|)
  {
    UintExtends(a, b, 0, 4);
    UintExtends(a, b, 4, 4);
    if ReadUint(a, 4, 4).Got? {
      var w := CountWidth(ReadUint(a, 4, 4).value);
      UintExtends(a, b, 8, w);
      UintExtends(a, b, 8 + w, w);
    }
  }

  /** Bytes added at the end never change a header that was already read, or a verdict that it is invalid. */
  lemma BodyExtends(a: seq<byte>, b: seq<byte>)
    requires a <= b
    ensures Keeps(ReadBody(a), ReadBody(b), |a|)
  {
    PreambleExtends(a, b);
    var pre := ReadPreamble(a);
    if pre.Got? {
      PairsExtend(a, b, pre.value.version, pre.pos, pre.value.nKv);
      var pairs := ReadMany(PairAt(a, pre.value.version), pre.pos, pre.value.nKv);
      if pairs.Got? {
        TensorsExtend(a, b, pre.value.version, pairs.pos, pre.value.nTensors);
      }
    }
  }

  /** No strict prefix of a document's encoding parses, and each fails for want of bytes. */
  lemma StrictPrefixFails(d: Document, n: nat)
    requires ValidDocument(d) && n < |DocumentBytes(d)|
    ensures ParseHeader(DocumentBytes(d)[..n]) == NotParsed(false)
  {
    var whole := DocumentBytes(d);
    BodyBack(whole, d);
    BodyExtends(whole[..n], whole);
  }

  // ---------------------------------------------------------------- the data offset

  /** "general.alignment" */
  const ALIGNMENT_NAME: seq<byte> :=
    [103, 101, 110, 101, 114, 97, 108, 46, 97, 108, 105, 103, 110, 109, 101, 110, 116]

  predicate LeastMultiple(offset: nat, a: nat, end: nat) {
    a > 0 && offset % a == 0 && end <= offset < end + a
  }

  /** The last pair with that key declares the alignment, and as a `u32`. */
  ghost predicate DeclaresAlignment(d: Document, a: nat) {
    exists i: nat :: LastOfKey(d.pairs, i) && d.pairs[i] == KeyValue(ALIGNMENT_NAME, Scalar(U32(a)))
  }

  lemma AlignmentDeclared(d: Document, a: nat)
    requires DeclaresAlignment(d, a)
    ensures Alignment(Declared(d)) == a
  {
    DeclaredExactly(d, ALIGNMENT_NAME);
  }

  lemma AlignmentMissing(d: Document)
    requires forall a: nat :: !DeclaresAlignment(d, a)
    ensures Alignment(Declared(d)) == 32
  {
    DeclaredExactly(d, ALIGNMENT_NAME);
    var all := Declared(d);
    if ALIGNMENT_NAME in all && all[ALIGNMENT_NAME].U32? {
      var i: nat :| i < |d.pairs| && d.pairs[i].key == ALIGNMENT_NAME;
      var last := LastExists(d.pairs, i);
      var a := all[ALIGNMENT_NAME].n;
      assert d.pairs[last].value.Meaning() == U32(a);
      assert d.pairs[last] == KeyValue(ALIGNMENT_NAME, Scalar(U32(a)));
      assert DeclaresAlignment(d, a);
      assert false;
    }
  }

  lemma AlignedOffset(end: nat, a: nat)
    requires a > 0
    ensures LeastMultiple(AlignUp(end, a), a, end)
  {
    DivideUp(end, a);
    MultipleRemainder((end + a - 1) / a, a);
  }

  lemma {:induction false} MultipleRemainder(k: nat, a: nat)
    requires a > 0
    ensures Multiple(k, a) % a == 0
  {
    QuotientUnique(Multiple(k, a), a, k, 0);
    var x := Multiple(k, a);
    assert x == Multiple(x / a, a) + x % a;
  }

  /** The data starts at the least multiple of the declared alignment, or of 32, after the header. */
  lemma DataOffsetExactly(d: Document, rest: seq<byte>, a: nat)
    requires ValidDocument(d)
    ensures var r := ParseHeader(DocumentBytes(d) + rest);
            && (DeclaresAlignment(d, 0) ==> r == DivisionPanic)
            && (DeclaresAlignment(d, a) && a > 0 ==>
                  r.Parsed? && LeastMultiple(r.header.dataOffset, a, |DocumentBytes(d)|))
            && ((forall b: nat :: !DeclaresAlignment(d, b)) ==>
                  r.Parsed? && LeastMultiple(r.header.dataOffset, 32, |DocumentBytes(d)|))
  {
    if DeclaresAlignment(d, 0) {
      AlignmentDeclared(d, 0);
      OffsetFor(d, rest, 0);
    }
    if DeclaresAlignment(d, a) {
      AlignmentDeclared(d, a);
      OffsetFor(d, rest, a);
    }
    if forall b: nat :: !DeclaresAlignment(d, b) {
      AlignmentMissing(d);
      OffsetFor(d, rest, 32);
    }
  }

  lemma OffsetFor(d: Document, rest: seq<byte>, a: nat)
    requires ValidDocument(d) && Alignment(Declared(d)) == a
    ensures var r := ParseHeader(DocumentBytes(d) + rest);
            if a == 0 then r == DivisionPanic
            else r.Parsed? && LeastMultiple(r.header.dataOffset, a, |DocumentBytes(d)|)
  {
    HeaderRoundTrip(d, rest);
    if a > 0 {
      AlignedOffset(|DocumentBytes(d)|, a);
    }
  }

  // ----------------------------------------------------------------- the first bytes

  lemma LeStep(data: seq<byte>, lo: nat, next: nat, hi: nat)
    requires lo < hi <= |data| && next == lo + 1
    ensures LeValue(data, lo, hi) == data[lo] as int + 256 * LeValue(data, next, hi)
  {
  }

  lemma FourBytes(data: seq<byte>, pos: nat, hi: nat)
    requires hi == pos + 4 <= |data|
    ensures LeValue(data, pos, hi) ==
            data[pos] as int + 256 * (data[pos + 1] as int + 256 * (data[pos + 2] as int + 256 * data[pos + 3] as int))
  {
    LeStep(data, pos, pos + 1, hi);
    LeStep(data, pos + 1, pos + 2, hi);
    LeStep(data, pos + 2, pos + 3, hi);
    LeStep(data, pos + 3, hi, hi);
  }

  /** Four bytes, least significant first. */
  function Word(data: seq<byte>, pos: nat): nat
    requires pos + 4 <= |data|
  {
    data[pos] as int + 0x100 * data[pos + 1] as int + 0x1_0000 * data[pos + 2] as int
    + 0x100_0000 * data[pos + 3] as int
  }

  lemma WordRead(data: seq<byte>, pos: nat)
    ensures ReadUint(data, pos, 4) ==
            if pos + 4 <= |data| then Got(Word(data, pos), pos + 4) else UnexpectedEof
  {
    if pos + 4 <= |data| {
      FourBytes(data, pos, pos + 4);
    }
  }

  /** The file starts with "GGUF" and a version. */
  predicate HasVersion(data: seq<byte>, version: byte) {
    |data| >= 8 && data[..8] == [0x47, 0x47, 0x55, 0x46, version, 0, 0, 0]
  }

  lemma HasVersionExactly(data: seq<byte>, version: byte)
    ensures HasVersion(data, version) <==> |data| >= 8 && Word(data, 0) == 0x46554747 && Word(data, 4) == version
  {
    if |data| >= 8 {
      var front := data[..8];
      assert forall i: nat :: i < 8 ==> front[i] == data[i];
    }
  }

  /** The preamble is read from the files that start with "GGUF" and a version from 1 to 3, and from no others. */
  lemma PreambleExactly(data: seq<byte>)
    ensures ReadPreamble(data).Got? <==>
            (HasVersion(data, 1) && |data| >= 16) || ((HasVersion(data, 2) || HasVersion(data, 3)) && |data| >= 24)
    ensures ReadPreamble(data).Got? ==> ReadPreamble(data).pos == if HasVersion(data, 1) then 16 else 24
    ensures HasVersion(data, 1) && |data| >= 16 ==>
              ReadPreamble(data) == Got(Preamble(1, Word(data, 8), Word(data, 12)), 16)
  {
    WordRead(data, 0);
    WordRead(data, 4);
    HasVersionExactly(data, 1);
    HasVersionExactly(data, 2);
    HasVersionExactly(data, 3);
    WordRead(data, 8);
    WordRead(data, 12);
  }

  /** So no other file has a header, whether or not reading it would end the program. */
  lemma StartsAsGguf(data: seq<byte>)
    ensures ParseHeader(data).NotParsed? || HasVersion(data, 1) || HasVersion(data, 2) || HasVersion(data, 3)
  {
    PreambleExactly(data);
  }

  // --------------------------------------------------------------- nested arrays

  /** An array of arrays is refused as soon as it has an element. */
  lemma NestedArrayExactly(data: seq<byte>, pos: nat, count: nat, version: nat)
    requires version in {2, 3} && count < Pow256(8)
    requires Holds(data, pos, LeBytes(9, 4) + (LeBytes(9, 4) + LeBytes(count, 8)))
    ensures ReadValue(data, pos, version) == if count == 0 then Got(Array([]), pos + 16) else InvalidData
  {
    HoldsSplit(data, pos, LeBytes(9, 4), LeBytes(9, 4) + LeBytes(count, 8));
    HoldsSplit(data, pos + 4, LeBytes(9, 4), LeBytes(count, 8));
    UintBack(data, pos, 9, 4);
    UintBack(data, pos + 4, 9, 4);
    UintBack(data, pos + 8, count, 8);
  }
}
