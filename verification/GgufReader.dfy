/** The GGUF reader as it runs: a stream whose position every read moves. */
module GgufReader {
  import opened Bytes
  import Utf8
  import opened GgufFormat

  class Reader {
    const data: seq<byte>
    var pos: nat

    constructor (data: seq<byte>)
      ensures this.data == data && pos == 0
    {
      this.data := data;
      pos := 0;
    }

    /** A stream operation did what the function of bytes and position says; failures end the parse. */
    ghost predicate Agrees<T>(r: Read<T>, spec: Read<T>)
      reads this
    {
      r == spec && (r.Got? ==> pos == r.pos)
    }

    method Uint(width: nat) returns (r: Read<nat>)
      modifies this
      ensures Agrees(r, ReadUint(data, old(pos), width))
    {
      r := ReadUint(data, pos, width);
      if r.Got? {
        pos := r.pos;
      }
    }

    method String() returns (r: Read<seq<byte>>)
      modifies this
      ensures Agrees(r, ReadString(data, old(pos)))
    {
      var len := Uint(8);
      if len.IsFailure() {
        return len.PropagateFailure<seq<byte>>();
      }
      if pos + len.value > |data| {
        return UnexpectedEof;
      }
      var buf := data[pos..pos + len.value];
      pos := pos + len.value;
      if !Utf8.Valid(buf) {
        return InvalidData;
      }
      return Got(buf, pos);
    }

    method ByType(typeId: nat) returns (r: Read<GgufValue>)
      modifies this
      ensures Agrees(r, ReadByType(data, old(pos), typeId))
    {
      if typeId == 8 {
        var s := String();
        if s.IsFailure() {
          return s.PropagateFailure<GgufValue>();
        }
        return Got(Str(s.value), pos);
      }
      var width := WidthOf(typeId);
      if width.None? {
        return InvalidData;
      }
      var word := Uint(width.value);
      if word.IsFailure() {
        return word.PropagateFailure<GgufValue>();
      }
      return Got(FromWord(typeId, word.value), pos);
    }

    /** `read_gguf_value` */
    method Value(version: nat) returns (r: Read<GgufValue>)
      modifies this
      ensures Agrees(r, ReadValue(data, old(pos), version))
    {
      var typeId := Uint(4);
      if typeId.IsFailure() {
        return typeId.PropagateFailure<GgufValue>();
      }
      if typeId.value != 9 {
        r := ByType(typeId.value);
        return;
      }
      var elemType := Uint(4);
      if elemType.IsFailure() {
        return elemType.PropagateFailure<GgufValue>();
      }
      var count := Uint(CountWidth(version));
      if count.IsFailure() {
        return count.PropagateFailure<GgufValue>();
      }
      var items := Items(elemType.value, count.value);
      if items.IsFailure() {
        return items.PropagateFailure<GgufValue>();
      }
      return Got(Array(items.value), pos);
    }

    method Items(elemType: nat, count: nat) returns (r: Read<seq<GgufValue>>)
      modifies this
      ensures Agrees(r, ReadMany(ItemAt(data, elemType), old(pos), count))
    {
      var arr: seq<GgufValue> := [];
      ghost var read := ItemAt(data, elemType);
      ghost var spec := ReadMany(read, pos, count);
      AfterNothing(spec);
      ghost var left := count;
      for i := 0 to count
        invariant left == count - i
        invariant spec == After(arr, ReadMany(read, pos, left))
      {
        ghost var rest := left - 1;
        ManyStep(read, pos, left, rest, arr);
        var next := ByType(elemType);
        if next.IsFailure() {
          return next.PropagateFailure<seq<GgufValue>>();
        }
        arr := arr + [next.value];
        left := rest;
      }
      assert arr + [] == arr;
      return Got(arr, pos);
    }

    method KeyValue(version: nat) returns (r: Read<Pair>)
      modifies this
      ensures Agrees(r, ReadPair(data, old(pos), version))
    {
      var key := String();
      if key.IsFailure() { return key.PropagateFailure<Pair>(); }
      var value := Value(version);
      if value.IsFailure() { return value.PropagateFailure<Pair>(); }
      return Got(Pair(key.value, value.value), pos);
    }

    /** The metadata map, filled pair by pair. */
    method Pairs(version: nat, count: nat)
      returns (metadata: Read<map<seq<byte>, GgufValue>>, ghost spec: Read<seq<Pair>>)
      modifies this
      ensures spec == ReadMany(PairAt(data, version), old(pos), count)
      ensures spec.Got? ==> metadata == Got(Metadata(spec.value), pos) && spec.pos == pos
      ensures spec.IsFailure() ==> metadata == spec.PropagateFailure<map<seq<byte>, GgufValue>>()
    {
      var filled: map<seq<byte>, GgufValue> := map[];
      ghost var pairs: seq<Pair> := [];
      ghost var read := PairAt(data, version);
      spec := ReadMany(read, pos, count);
      AfterNothing(spec);
      ghost var left := count;
      for i := 0 to count
        invariant left == count - i
        invariant spec == After(pairs, ReadMany(read, pos, left))
        invariant filled == Metadata(pairs)
      {
        ghost var rest := left - 1;
        ManyStep(read, pos, left, rest, pairs);
        var pair := KeyValue(version);
        if pair.IsFailure() {
          return pair.PropagateFailure<map<seq<byte>, GgufValue>>(), spec;
        }
        MetadataStep(pairs, pair.value);
        filled := filled[pair.value.key := pair.value.value];
        pairs := pairs + [pair.value];
        left := rest;
      }
      assert pairs + [] == pairs;
      return Got(filled, pos), spec;
    }

    static lemma MetadataStep(pairs: seq<Pair>, pair: Pair)
      ensures Metadata(pairs + [pair]) == Metadata(pairs)[pair.key := pair.value]
    {
      assert (pairs + [pair])[..|pairs|] == pairs;
    }

    method Dims(version: nat, count: nat) returns (r: Read<seq<nat>>)
      modifies this
      ensures Agrees(r, ReadMany(DimAt(data, version), old(pos), count))
    {
      var dims: seq<nat> := [];
      ghost var read := DimAt(data, version);
      ghost var spec := ReadMany(read, pos, count);
      AfterNothing(spec);
      ghost var left := count;
      for i := 0 to count
        invariant left == count - i
        invariant spec == After(dims, ReadMany(read, pos, left))
      {
        ghost var rest := left - 1;
        ManyStep(read, pos, left, rest, dims);
        var next := Uint(CountWidth(version));
        if next.IsFailure() {
          return next.PropagateFailure<seq<nat>>();
        }
        dims := dims + [next.value];
        left := rest;
      }
      assert dims + [] == dims;
      return Got(dims, pos);
    }

    method Tensor(version: nat) returns (r: Read<TensorInfo>)
      modifies this
      ensures Agrees(r, ReadTensor(data, old(pos), version))
    {
      var name := String();
      if name.IsFailure() { return name.PropagateFailure<TensorInfo>(); }
      var nDims := Uint(4);
      if nDims.IsFailure() { return nDims.PropagateFailure<TensorInfo>(); }
      var dims := Dims(version, nDims.value);
      if dims.IsFailure() { return dims.PropagateFailure<TensorInfo>(); }
      var ggmlType := Uint(4);
      if ggmlType.IsFailure() { return ggmlType.PropagateFailure<TensorInfo>(); }
      var offset := Uint(8);
      if offset.IsFailure() { return offset.PropagateFailure<TensorInfo>(); }
      return Got(TensorInfo(name.value, dims.value, ggmlType.value, offset.value), pos);
    }

    method Tensors(version: nat, count: nat) returns (r: Read<seq<TensorInfo>>)
      modifies this
      ensures Agrees(r, ReadMany(TensorAt(data, version), old(pos), count))
    {
      var tensors: seq<TensorInfo> := [];
      ghost var read := TensorAt(data, version);
      ghost var spec := ReadMany(read, pos, count);
      AfterNothing(spec);
      ghost var left := count;
      for i := 0 to count
        invariant left == count - i
        invariant spec == After(tensors, ReadMany(read, pos, left))
      {
        ghost var rest := left - 1;
        ManyStep(read, pos, left, rest, tensors);
        var next := Tensor(version);
        if next.IsFailure() {
          return next.PropagateFailure<seq<TensorInfo>>();
        }
        tensors := tensors + [next.value];
        left := rest;
      }
      assert tensors + [] == tensors;
      return Got(tensors, pos);
    }

    method ReadFields() returns (r: Read<Preamble>)
      requires pos == 0
      modifies this
      ensures Agrees(r, ReadPreamble(data))
    {
      var magic := Uint(4);
      if magic.IsFailure() { return magic.PropagateFailure<Preamble>(); }
      if magic.value != GGUF_MAGIC { return InvalidData; }
      var version := Uint(4);
      if version.IsFailure() { return version.PropagateFailure<Preamble>(); }
      if version.value !in {1, 2, 3} { return InvalidData; }
      var nTensors := Uint(CountWidth(version.value));
      if nTensors.IsFailure() { return nTensors.PropagateFailure<Preamble>(); }
      var nKv := Uint(CountWidth(version.value));
      if nKv.IsFailure() { return nKv.PropagateFailure<Preamble>(); }
      return Got(Preamble(version.value, nTensors.value, nKv.value), pos);
    }
  }

  /** `GgufHeader::parse` */
  method Parse(data: seq<byte>) returns (r: ParseResult)
    ensures r == ParseHeader(data)
  {
    var reader := new Reader(data);
    var pre := reader.ReadFields();
    if pre.IsFailure() { return NotParsed(pre.InvalidData?); }
    var version := pre.value.version;
    var metadata;
    ghost var pairs;
    metadata, pairs := reader.Pairs(version, pre.value.nKv);
    if metadata.IsFailure() { return NotParsed(metadata.InvalidData?); }
    var tensors := reader.Tensors(version, pre.value.nTensors);
    if tensors.IsFailure() { return NotParsed(tensors.InvalidData?); }
    assert ReadBody(data) == Got(Body(pre.value, pairs.value, tensors.value), reader.pos);
    var alignment := Alignment(metadata.value);
    if alignment == 0 { return DivisionPanic; }
    return Parsed(Header(
      version, pre.value.nTensors, metadata.value, tensors.value, AlignUp(reader.pos, alignment)));
  }

  // -------------------------------------------------- elements pushed one by one

  /** What a count-driven read yields when `done` has already been pushed. */
  function After<T>(done: seq<T>, rest: Read<seq<T>>): Read<seq<T>> {
    match rest
    case Got(items, pos) => Got(done + items, pos)
    case UnexpectedEof => UnexpectedEof
    case InvalidData => InvalidData
  }

  lemma AfterNothing<T>(r: Read<seq<T>>)
    ensures After([], r) == r
  {
    if r.Got? {
      assert [] + r.value == r.value;
    }
  }

  /** One more element read moves it from what is to come to what is done. */
  lemma ManyStep<T>(read: At<T>, pos: nat, count: nat, rest: nat, done: seq<T>)
    requires count == rest + 1
    ensures read(pos).Got? ==>
              After(done, ReadMany(read, pos, count)) ==
              After(done + [read(pos).value], ReadMany(read, read(pos).pos, rest))
    ensures read(pos).IsFailure() ==>
              After(done, ReadMany(read, pos, count)) == read(pos).PropagateFailure<seq<T>>()
  {
    if read(pos).Got? {
      var x, more := read(pos).value, ReadMany(read, read(pos).pos, rest);
      if more.Got? {
        assert done + ([x] + more.value) == done + [x] + more.value;
      }
    }
  }
}
