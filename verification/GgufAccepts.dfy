/** What the header parser accepts: nothing but encodings, up to how a true boolean is spelt. */
module GgufAccepts {
  import opened Bytes
  import Utf8
  import opened GgufFormat
  import opened GgufRoundTrip

  /** The stream has `e` at `pos`, except that a byte above 1 may stand for 1. */
  predicate Near(data: seq<byte>, pos: nat, e: seq<byte>) {
    && pos + |e| <= |data|
    && forall i: nat :: i < |e| ==> data[pos + i] == e[i] || (e[i] == 1 && data[pos + i] > 1)
  }

  lemma NearJoin(data: seq<byte>, pos: nat, a: seq<byte>, b: seq<byte>)
    requires Near(data, pos, a) && Near(data, pos + |a|, b)
    ensures Near(data, pos, a + b)
  {
    forall i: nat | i < |a + b|
      ensures data[pos + i] == (a + b)[i] || ((a + b)[i] == 1 && data[pos + i] > 1)
    {
      if i >= |a| {
        var j := i - |a|;
        assert data[pos + |a| + j] == b[j] || (b[j] == 1 && data[pos + |a| + j] > 1);
      }
    }
  }

  // -------------------------------------------------------------------- leaves

  lemma {:induction false} LeValueWritten(data: seq<byte>, lo: nat, hi: nat, width: nat)
    requires lo + width == hi <= |data|
    ensures LeValue(data, lo, hi) < Pow256(width)
    ensures Near(data, lo, LeBytes(LeValue(data, lo, hi), width))
    decreases width
  {
    if width > 0 {
      var next, less := lo + 1, width - 1;
      LeValueWritten(data, next, hi, less);
      LowByteWritten(data, lo, LeValue(data, next, hi), less);
    }
  }

  lemma LowByteWritten(data: seq<byte>, lo: nat, high: nat, less: nat)
    requires lo < |data| && Near(data, lo + 1, LeBytes(high, less))
    ensures Near(data, lo, LeBytes(data[lo] + 256 * high, less + 1))
  {
    LeBytesStep(data[lo] + 256 * high, less + 1);
    NearJoin(data, lo, [data[lo]], LeBytes(high, less));
  }

  lemma UintWritten(data: seq<byte>, pos: nat, width: nat)
    requires ReadUint(data, pos, width).Got?
    ensures var v := ReadUint(data, pos, width).value; v < Pow256(width) && Near(data, pos, LeBytes(v, width))
  {
    LeValueWritten(data, pos, pos + width, width);
  }

  lemma StringWritten(data: seq<byte>, pos: nat)
    requires ReadString(data, pos).Got?
    ensures var r := ReadString(data, pos);
            && ValidString(r.value) && Near(data, pos, StringBytes(r.value))
            && r.pos == pos + |StringBytes(r.value)|
  {
    var s := ReadString(data, pos).value;
    UintWritten(data, pos, 8);
    assert Near(data, pos + 8, s);
    NearJoin(data, pos, LeBytes(|s|, 8), s);
  }

  lemma SignedBack(word: nat, width: nat)
    requires word < Pow256(width)
    ensures InSigned(ToSigned(word, width), width) && FromSigned(ToSigned(word, width), width) == word
  {
  }

  predicate Signed(typeId: nat) { typeId in {1, 3, 5, 11} }

  lemma SignedWordBack(typeId: nat, word: nat)
    requires Signed(typeId) && word < Pow256(WidthOf(typeId).value)
    ensures var v := FromWord(typeId, word); ValidScalar(v) && ToWord(v) == word
  {
    SignedBack(word, WidthOf(typeId).value);
  }

  lemma UnsignedWordBack(typeId: nat, word: nat)
    requires WidthOf(typeId).Some? && !Signed(typeId) && word < Pow256(WidthOf(typeId).value)
    ensures var v := FromWord(typeId, word);
            ValidScalar(v) && ToWord(v) == if typeId == 7 && word > 0 then 1 else word
  {
  }

  /** A word of a fixed-size type is the word of the value it is read as, but for booleans. */
  lemma WordBack(typeId: nat, word: nat)
    requires WidthOf(typeId).Some? && word < Pow256(WidthOf(typeId).value)
    ensures var v := FromWord(typeId, word);
            && ValidScalar(v) && !v.Str? && TypeId(v) == typeId
            && ToWord(v) == if typeId == 7 && word > 0 then 1 else word
  {
    if Signed(typeId) {
      SignedWordBack(typeId, word);
    } else {
      UnsignedWordBack(typeId, word);
    }
  }

  lemma WordWritten(data: seq<byte>, pos: nat, typeId: nat)
    requires WidthOf(typeId).Some? && ReadUint(data, pos, WidthOf(typeId).value).Got?
    ensures var v := FromWord(typeId, ReadUint(data, pos, WidthOf(typeId).value).value);
            ValidScalar(v) && TypeId(v) == typeId && !v.Str? && Near(data, pos, ScalarBytes(v))
  {
    var width := WidthOf(typeId).value;
    var word := ReadUint(data, pos, width).value;
    UintWritten(data, pos, width);
    WordBack(typeId, word);
    if typeId == 7 {
      assert LeBytes(word, 1) == [word] && LeValue(data, pos, pos + 1) == data[pos];
      var bit := ToWord(FromWord(typeId, word));
      assert LeBytes(bit, 1) == [bit];
    }
  }

  lemma ScalarWritten(data: seq<byte>, pos: nat, typeId: nat)
    requires ReadByType(data, pos, typeId).Got?
    ensures var r := ReadByType(data, pos, typeId);
            && ValidScalar(r.value) && TypeId(r.value) == typeId
            && Near(data, pos, ScalarBytes(r.value)) && r.pos == pos + |ScalarBytes(r.value)|
  {
    if typeId == 8 {
      StringWritten(data, pos);
    } else {
      WordWritten(data, pos, typeId);
    }
  }

  // ------------------------------------------------------------------ sequences

  /** What was read at `p` is the reading of a good `x`, whose encoding is there. */
  ghost predicate Written<T(!new), U>(
    data: seq<byte>, p: nat, r: Read<U>, enc: T -> seq<byte>, f: T -> U, good: T -> bool, x: T)
  {
    good(x) && r == Got(f(x), p + |enc(x)|) && Near(data, p, enc(x))
  }

  ghost predicate AlwaysWritten<T(!new), U>(
    data: seq<byte>, read: At<U>, enc: T -> seq<byte>, f: T -> U, good: T -> bool)
  {
    forall p: nat :: read(p).Got? ==> exists x: T :: Written(data, p, read(p), enc, f, good, x)
  }

  lemma {:induction false} ManyWritten<T(!new), U>(
    data: seq<byte>, read: At<U>, enc: T -> seq<byte>, f: T -> U, good: T -> bool, pos: nat, count: nat)
    returns (xs: seq<T>)
    requires AlwaysWritten(data, read, enc, f, good) && ReadMany(read, pos, count).Got?
    requires pos <= |data|
    ensures |xs| == count && forall i: nat :: i < count ==> good(xs[i])
    ensures ReadMany(read, pos, count) == Got(Mapped(f, xs), pos + |All(enc, xs)|)
    ensures Near(data, pos, All(enc, xs))
    decreases count
  {
    if count == 0 {
      xs := [];
    } else {
      var x: T :| Written(data, pos, read(pos), enc, f, good, x);
      var rest := ManyWritten(data, read, enc, f, good, read(pos).pos, count - 1);
      xs := [x] + rest;
      assert xs[1..] == rest;
      NearJoin(data, pos, enc(x), All(enc, rest));
    }
  }

  function GoodItem(elemType: nat): GgufValue -> bool { v => ValidScalar(v) && TypeId(v) == elemType }

  lemma ItemsWritten(data: seq<byte>, pos: nat, elemType: nat, count: nat)
    requires ReadMany(ItemAt(data, elemType), pos, count).Got? && pos <= |data|
    ensures var r := ReadMany(ItemAt(data, elemType), pos, count);
            && |r.value| == count
            && (forall i: nat :: i < count ==> ValidScalar(r.value[i]) && TypeId(r.value[i]) == elemType)
            && Near(data, pos, All(ItemBytes, r.value)) && r.pos == pos + |All(ItemBytes, r.value)|
  {
    var read, good := ItemAt(data, elemType), GoodItem(elemType);
    forall p: nat | read(p).Got?
      ensures exists v :: Written(data, p, read(p), ItemBytes, Same(), good, v)
    {
      ScalarWritten(data, p, elemType);
      assert Written(data, p, read(p), ItemBytes, Same(), good, read(p).value);
    }
    var xs := ManyWritten(data, read, ItemBytes, Same(), good, pos, count);
    MappedSame(xs);
  }

  // --------------------------------------------------------------------- values

  lemma ArrayWritten(data: seq<byte>, pos: nat, version: nat) returns (t: Typed)
    requires version in {2, 3} && ReadValue(data, pos, version).Got? && ReadUint(data, pos, 4) == Got(9, pos + 4)
    ensures ValidTyped(t) && t.Meaning() == ReadValue(data, pos, version).value
    ensures Near(data, pos, TypedBytes(t)) && ReadValue(data, pos, version).pos == pos + |TypedBytes(t)|
  {
    var elemType, count := ReadUint(data, pos + 4, 4).value, ReadUint(data, pos + 8, 8).value;
    var items := ReadValue(data, pos, version).value.items;
    UintWritten(data, pos, 4);
    UintWritten(data, pos + 4, 4);
    UintWritten(data, pos + 8, 8);
    ItemsWritten(data, pos + 16, elemType, count);
    t := Items(elemType, items);
    NearJoin(data, pos + 8, LeBytes(count, 8), All(ItemBytes, items));
    NearJoin(data, pos + 4, LeBytes(elemType, 4), LeBytes(count, 8) + All(ItemBytes, items));
    NearJoin(data, pos, LeBytes(9, 4), ArrayBytes(elemType, items));
  }

  lemma TypedWritten(data: seq<byte>, pos: nat, version: nat) returns (t: Typed)
    requires version in {2, 3} && ReadValue(data, pos, version).Got?
    ensures ValidTyped(t) && t.Meaning() == ReadValue(data, pos, version).value
    ensures Near(data, pos, TypedBytes(t)) && ReadValue(data, pos, version).pos == pos + |TypedBytes(t)|
  {
    var typeId := ReadUint(data, pos, 4).value;
    if typeId == 9 {
      t := ArrayWritten(data, pos, version);
    } else {
      UintWritten(data, pos, 4);
      ScalarWritten(data, pos + 4, typeId);
      var v := ReadByType(data, pos + 4, typeId).value;
      t := Scalar(v);
      NearJoin(data, pos, LeBytes(typeId, 4), ScalarBytes(v));
    }
  }

  lemma KeyValueWritten(data: seq<byte>, pos: nat, version: nat) returns (kv: KeyValue)
    requires version in {2, 3} && ReadPair(data, pos, version).Got?
    ensures ValidKeyValue(kv) && Near(data, pos, KeyValueBytes(kv))
    ensures ReadPair(data, pos, version) == Got(PairOf(kv), pos + |KeyValueBytes(kv)|)
  {
    var key := ReadString(data, pos);
    StringWritten(data, pos);
    var t := TypedWritten(data, key.pos, version);
    kv := KeyValue(key.value, t);
    NearJoin(data, pos, StringBytes(key.value), TypedBytes(t));
  }

  // -------------------------------------------------------------------- sections

  lemma PairsWritten(data: seq<byte>, pos: nat, version: nat, count: nat) returns (pairs: seq<KeyValue>)
    requires version in {2, 3} && ReadMany(PairAt(data, version), pos, count).Got? && pos <= |data|
    ensures |pairs| == count && forall i: nat :: i < count ==> ValidKeyValue(pairs[i])
    ensures Near(data, pos, All(KeyValueBytes, pairs))
    ensures ReadMany(PairAt(data, version), pos, count) ==
            Got(Mapped(PairOf, pairs), pos + |All(KeyValueBytes, pairs)|)
  {
    var read := PairAt(data, version);
    forall p: nat | read(p).Got?
      ensures exists kv :: Written(data, p, read(p), KeyValueBytes, PairOf, ValidKeyValue, kv)
    {
      var kv := KeyValueWritten(data, p, version);
      assert Written(data, p, read(p), KeyValueBytes, PairOf, ValidKeyValue, kv);
    }
    pairs := ManyWritten(data, read, KeyValueBytes, PairOf, ValidKeyValue, pos, count);
  }

  function GoodDim(): nat -> bool { d => d < Pow256(8) }

  lemma DimsWritten(data: seq<byte>, pos: nat, version: nat, count: nat, dims: seq<nat>, end: nat)
    requires version in {2, 3} && ReadMany(DimAt(data, version), pos, count) == Got(dims, end) && pos <= |data|
    ensures |dims| == count && forall i: nat :: i < count ==> dims[i] < Pow256(8)
    ensures Near(data, pos, All(DimBytes, dims)) && end == pos + |All(DimBytes, dims)|
  {
    var read, good := DimAt(data, version), GoodDim();
    forall p: nat | read(p).Got?
      ensures exists d: nat :: Written<nat, nat>(data, p, read(p), DimBytes, Same<nat>(), good, d)
    {
      UintWritten(data, p, 8);
      assert Written<nat, nat>(data, p, read(p), DimBytes, Same<nat>(), good, read(p).value);
    }
    var xs := ManyWritten<nat, nat>(data, read, DimBytes, Same<nat>(), good, pos, count);
    MappedSame<nat>(xs);
  }

  /** The parts a tensor descriptor was read from. */
  lemma TensorParts(data: seq<byte>, pos: nat, version: nat, t: TensorInfo, end: nat) returns (p: nat, q: nat)
    requires ReadTensor(data, pos, version) == Got(t, end)
    ensures ReadString(data, pos) == Got(t.name, p)
    ensures ReadUint(data, p, 4).Got? && p + 4 <= |data|
    ensures ReadMany(DimAt(data, version), p + 4, ReadUint(data, p, 4).value) == Got(t.dims, q)
    ensures ReadUint(data, q, 4) == Got(t.ggmlType, q + 4) && ReadUint(data, q + 4, 8) == Got(t.offset, end)
  {
    p := ReadString(data, pos).pos;
    q := ReadMany(DimAt(data, version), p + 4, ReadUint(data, p, 4).value).pos;
  }

  lemma TensorWritten(data: seq<byte>, pos: nat, version: nat, t: TensorInfo, end: nat)
    requires version in {2, 3} && ReadTensor(data, pos, version) == Got(t, end)
    ensures ValidTensor(t) && Near(data, pos, TensorBytes(t)) && end == pos + |TensorBytes(t)|
  {
    var p, q := TensorParts(data, pos, version, t, end);
    StringWritten(data, pos);
    UintWritten(data, p, 4);
    DimsWritten(data, p + 4, version, ReadUint(data, p, 4).value, t.dims, q);
    UintWritten(data, q, 4);
    UintWritten(data, q + 4, 8);
    TensorJoined(data, pos, t, p, q);
  }

  lemma TensorJoined(data: seq<byte>, pos: nat, t: TensorInfo, p: nat, q: nat)
    requires Near(data, pos, StringBytes(t.name)) && p == pos + |StringBytes(t.name)|
    requires Near(data, p, LeBytes(|t.dims|, 4))
    requires Near(data, p + 4, All(DimBytes, t.dims)) && q == p + 4 + |All(DimBytes, t.dims)|
    requires Near(data, q, LeBytes(t.ggmlType, 4)) && Near(data, q + 4, LeBytes(t.offset, 8))
    ensures Near(data, pos, TensorBytes(t)) && |TensorBytes(t)| == q + 12 - pos
  {
    var name, count, dims := StringBytes(t.name), LeBytes(|t.dims|, 4), All(DimBytes, t.dims);
    var kind, offset := LeBytes(t.ggmlType, 4), LeBytes(t.offset, 8);
    NearJoin(data, q, kind, offset);
    NearJoin(data, p + 4, dims, kind + offset);
    NearJoin(data, p, count, dims + (kind + offset));
    NearJoin(data, pos, name, count + (dims + (kind + offset)));
  }

  lemma TensorsWritten(data: seq<byte>, pos: nat, version: nat, count: nat)
    requires version in {2, 3} && ReadMany(TensorAt(data, version), pos, count).Got? && pos <= |data|
    ensures var r := ReadMany(TensorAt(data, version), pos, count);
            && |r.value| == count && (forall i: nat :: i < count ==> ValidTensor(r.value[i]))
            && Near(data, pos, All(TensorBytes, r.value)) && r.pos == pos + |All(TensorBytes, r.value)|
  {
    var read := TensorAt(data, version);
    forall p: nat | read(p).Got?
      ensures exists t :: Written(data, p, read(p), TensorBytes, Same(), ValidTensor, t)
    {
      TensorWritten(data, p, version, read(p).value, read(p).pos);
      assert Written(data, p, read(p), TensorBytes, Same(), ValidTensor, read(p).value);
    }
    var xs := ManyWritten(data, read, TensorBytes, Same(), ValidTensor, pos, count);
    MappedSame(xs);
  }

  lemma PreambleWritten(data: seq<byte>)
    requires ReadPreamble(data).Got? && ReadPreamble(data).value.version in {2, 3}
    ensures var r := ReadPreamble(data);
            && r.value.nTensors < Pow256(8) && r.value.nKv < Pow256(8) && r.pos == 24
            && Near(data, 0, LeBytes(GGUF_MAGIC, 4) + (LeBytes(r.value.version, 4)
                             + (LeBytes(r.value.nTensors, 8) + LeBytes(r.value.nKv, 8))))
  {
    var pre := ReadPreamble(data).value;
    UintWritten(data, 0, 4);
    UintWritten(data, 4, 4);
    UintWritten(data, 8, 8);
    UintWritten(data, 16, 8);
    NearJoin(data, 8, LeBytes(pre.nTensors, 8), LeBytes(pre.nKv, 8));
    NearJoin(data, 4, LeBytes(pre.version, 4), LeBytes(pre.nTensors, 8) + LeBytes(pre.nKv, 8));
    NearJoin(data, 0, LeBytes(GGUF_MAGIC, 4),
      LeBytes(pre.version, 4) + (LeBytes(pre.nTensors, 8) + LeBytes(pre.nKv, 8)));
  }

  /** The sections a header was read from. */
  lemma BodyParts(data: seq<byte>)
    returns (pre: Preamble, p: nat, pairs: seq<Pair>, q: nat, tensors: seq<TensorInfo>, end: nat)
    requires ReadBody(data).Got?
    ensures ReadBody(data) == Got(Body(pre, pairs, tensors), end) && ReadPreamble(data) == Got(pre, p)
    ensures ReadMany(PairAt(data, pre.version), p, pre.nKv) == Got(pairs, q)
    ensures ReadMany(TensorAt(data, pre.version), q, pre.nTensors) == Got(tensors, end)
  {
    pre, p := ReadPreamble(data).value, ReadPreamble(data).pos;
    var read := ReadMany(PairAt(data, pre.version), p, pre.nKv);
    pairs, q := read.value, read.pos;
    tensors, end := ReadBody(data).value.tensors, ReadBody(data).pos;
  }

  lemma SectionsWritten(
    data: seq<byte>, pre: Preamble, p: nat, pairs: seq<Pair>, q: nat, tensors: seq<TensorInfo>, end: nat)
    returns (d: Document)
    requires ReadPreamble(data) == Got(pre, p) && pre.version in {2, 3}
    requires ReadMany(PairAt(data, pre.version), p, pre.nKv) == Got(pairs, q)
    requires ReadMany(TensorAt(data, pre.version), q, pre.nTensors) == Got(tensors, end)
    ensures ValidDocument(d) && d.version == pre.version && d.tensors == tensors
    ensures |d.tensors| == pre.nTensors && |d.pairs| == pre.nKv && pairs == Mapped(PairOf, d.pairs)
    ensures Near(data, 0, DocumentBytes(d)) && end == |DocumentBytes(d)|
  {
    PreambleWritten(data);
    var keyValues := PairsWritten(data, p, pre.version, pre.nKv);
    TensorsWritten(data, q, pre.version, pre.nTensors);
    d := Document(pre.version, keyValues, tensors);
    DocumentJoined(data, d, q);
  }

  lemma DocumentJoined(data: seq<byte>, d: Document, q: nat)
    requires Near(data, 0, PreambleBytes(d)) && |PreambleBytes(d)| == 24
    requires Near(data, 24, All(KeyValueBytes, d.pairs)) && q == 24 + |All(KeyValueBytes, d.pairs)|
    requires Near(data, q, All(TensorBytes, d.tensors))
    ensures Near(data, 0, DocumentBytes(d)) && |DocumentBytes(d)| == q + |All(TensorBytes, d.tensors)|
  {
    var fields, pairs, tensors := PreambleBytes(d), All(KeyValueBytes, d.pairs), All(TensorBytes, d.tensors);
    NearJoin(data, 24, pairs, tensors);
    NearJoin(data, 0, fields, pairs + tensors);
  }

  /**
   * Whatever the parser accepts as version 2 or 3 is the reading of a valid document of the same length,
   * whose encoding the stream starts with, up to bytes above 1 that stand for a true boolean.
   */
  lemma AcceptedIsEncoded(data: seq<byte>) returns (d: Document)
    requires ReadBody(data).Got? && ReadBody(data).value.preamble.version in {2, 3}
    ensures ValidDocument(d) && Near(data, 0, DocumentBytes(d))
    ensures ReadBody(data) ==
            Got(Body(Preamble(d.version, |d.tensors|, |d.pairs|), Mapped(PairOf, d.pairs), d.tensors),
                |DocumentBytes(d)|)
    ensures ReadBody(DocumentBytes(d)) == ReadBody(data)
  {
    var pre, p, pairs, q, tensors, end := BodyParts(data);
    d := SectionsWritten(data, pre, p, pairs, q, tensors, end);
    BodyBack(DocumentBytes(d), d);
  }
}
