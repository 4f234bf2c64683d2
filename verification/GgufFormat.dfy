/** GGUF header values, and reading them as functions of the bytes and a position. */
module GgufFormat {
  import opened Bytes
  import Utf8

  const GGUF_MAGIC: nat := 0x46554747

  /** Floating-point values are kept as their bit patterns. */
  datatype GgufValue =
    | U8(n: nat) | I8(i: int) | U16(n: nat) | I16(i: int) | U32(n: nat) | I32(i: int)
    | F32(bits: nat) | Bool(b: bool) | Str(s: seq<byte>) | Array(items: seq<GgufValue>)
    | U64(n: nat) | I64(i: int) | F64(bits: nat)

  datatype TensorInfo = TensorInfo(name: seq<byte>, dims: seq<nat>, ggmlType: nat, offset: nat)

  datatype Header = Header(
    version: nat, nTensors: nat, metadata: map<seq<byte>, GgufValue>, tensors: seq<TensorInfo>, dataOffset: nat)

  /** A value and the position after it, or the reason there is none. */
  datatype Read<+T> = Got(value: T, pos: nat) | UnexpectedEof | InvalidData
  {
    predicate IsFailure() { !Got? }

    function PropagateFailure<U>(): Read<U>
      requires IsFailure()
    {
      if UnexpectedEof? then UnexpectedEof else InvalidData
    }

    function Extract(): (T, nat)
      requires Got?
    {
      (value, pos)
    }
  }

  // ------------------------------------------------------------------ integers

  function Pow256(n: nat): nat { if n == 0 then 1 else 256 * Pow256(n - 1) }

  /** Little-endian value of `data[lo..hi]`. */
  function LeValue(data: seq<byte>, lo: nat, hi: nat): nat
    requires lo <= hi <= |data|
    decreases hi - lo
  {
    if lo == hi then 0 else data[lo] + 256 * LeValue(data, lo + 1, hi)
  }

  function ReadUint(data: seq<byte>, pos: nat, width: nat): (r: Read<nat>)
    ensures r.Got? ==> r.pos == pos + width <= |data|
  {
    if pos + width <= |data| then Got(LeValue(data, pos, pos + width), pos + width) else UnexpectedEof
  }

  /** Two's complement reinterpretation of a `width`-byte word. */
  function ToSigned(v: nat, width: nat): int {
    if 2 * v < Pow256(width) then v else v - Pow256(width)
  }

  /** Reads at a position of a fixed stream. */
  type At<+T> = nat -> Read<T>

  /** `count` elements one after another. */
  function ReadMany<T>(read: At<T>, pos: nat, count: nat): (r: Read<seq<T>>)
    ensures r.Got? ==> |r.value| == count
    decreases count
  {
    if count == 0 then Got([], pos)
    else
      var (first, p) :- read(pos);
      var (rest, end) :- ReadMany(read, p, count - 1);
      Got([first] + rest, end)
  }

  // ------------------------------------------------------------- single values

  function ReadString(data: seq<byte>, pos: nat): (r: Read<seq<byte>>)
    ensures r.Got? ==> pos + 8 <= r.pos <= |data|
  {
    var (len, p) :- ReadUint(data, pos, 8);
    if p + len > |data| then UnexpectedEof
    else if Utf8.Valid(data[p..p + len]) then Got(data[p..p + len], p + len)
    else InvalidData
  }

  /** Bytes taken by a value of a fixed-size type; strings, arrays and unknown types have none. */
  function WidthOf(typeId: nat): (width: Option<nat>)
    ensures width.Some? ==> 1 <= width.value <= 8
  {
    match typeId
    case 0 => Some(1) case 1 => Some(1) case 7 => Some(1)
    case 2 => Some(2) case 3 => Some(2)
    case 4 => Some(4) case 5 => Some(4) case 6 => Some(4)
    case 10 => Some(8) case 11 => Some(8) case 12 => Some(8)
    case _ => None
  }

  /** The value of a fixed-size type held in a word. */
  function FromWord(typeId: nat, word: nat): GgufValue
    requires WidthOf(typeId).Some?
  {
    match typeId
    case 0 => U8(word)
    case 1 => I8(ToSigned(word, 1))
    case 2 => U16(word)
    case 3 => I16(ToSigned(word, 2))
    case 4 => U32(word)
    case 5 => I32(ToSigned(word, 4))
    case 6 => F32(word)
    case 7 => Bool(word != 0)
    case 10 => U64(word)
    case 11 => I64(ToSigned(word, 8))
    case _ => F64(word)
  }

  /** `read_gguf_value_by_type`: everything but arrays. */
  function ReadByType(data: seq<byte>, pos: nat, typeId: nat): (r: Read<GgufValue>)
    ensures r.Got? ==> pos < r.pos <= |data|
  {
    if typeId == 8 then
      var (s, p) :- ReadString(data, pos);
      Got(Str(s), p)
    else match WidthOf(typeId)
      case None => InvalidData
      case Some(width) =>
        var (word, p) :- ReadUint(data, pos, width);
        Got(FromWord(typeId, word), p)
  }

  function ItemAt(data: seq<byte>, elemType: nat): At<GgufValue> { (p: nat) => ReadByType(data, p, elemType) }

  /** Counts are four bytes in version 1 and eight later. */
  function CountWidth(version: nat): nat { if version == 1 then 4 else 8 }

  /** `read_gguf_value` */
  function ReadValue(data: seq<byte>, pos: nat, version: nat): Read<GgufValue> {
    var (typeId, p) :- ReadUint(data, pos, 4);
    if typeId != 9 then ReadByType(data, p, typeId)
    else
      var (elemType, q) :- ReadUint(data, p, 4);
      var (count, q') :- ReadUint(data, q, CountWidth(version));
      var (items, end) :- ReadMany(ItemAt(data, elemType), q', count);
      Got(Array(items), end)
  }

  // -------------------------------------------------------------------- sections

  datatype Pair = Pair(key: seq<byte>, value: GgufValue)

  function ReadPair(data: seq<byte>, pos: nat, version: nat): Read<Pair> {
    var (key, p) :- ReadString(data, pos);
    var (value, end) :- ReadValue(data, p, version);
    Got(Pair(key, value), end)
  }

  function PairAt(data: seq<byte>, version: nat): At<Pair> { (p: nat) => ReadPair(data, p, version) }

  function DimAt(data: seq<byte>, version: nat): At<nat> { (p: nat) => ReadUint(data, p, CountWidth(version)) }

  function ReadTensor(data: seq<byte>, pos: nat, version: nat): Read<TensorInfo> {
    var (name, p) :- ReadString(data, pos);
    var (nDims, q) :- ReadUint(data, p, 4);
    var (dims, q') :- ReadMany(DimAt(data, version), q, nDims);
    var (ggmlType, q'') :- ReadUint(data, q', 4);
    var (offset, end) :- ReadUint(data, q'', 8);
    Got(TensorInfo(name, dims, ggmlType, offset), end)
  }

  function TensorAt(data: seq<byte>, version: nat): At<TensorInfo> { (p: nat) => ReadTensor(data, p, version) }

  // ---------------------------------------------------------------------- header

  /** The four fixed fields. */
  datatype Preamble = Preamble(version: nat, nTensors: nat, nKv: nat)

  function ReadPreamble(data: seq<byte>): Read<Preamble> {
    var (magic, p) :- ReadUint(data, 0, 4);
    if magic != GGUF_MAGIC then InvalidData
    else
      var (version, q) :- ReadUint(data, p, 4);
      if version !in {1, 2, 3} then InvalidData
      else
        var (nTensors, q') :- ReadUint(data, q, CountWidth(version));
        var (nKv, end) :- ReadUint(data, q', CountWidth(version));
        Got(Preamble(version, nTensors, nKv), end)
  }

  datatype Body = Body(preamble: Preamble, pairs: seq<Pair>, tensors: seq<TensorInfo>)

  /** Everything before alignment. */
  function ReadBody(data: seq<byte>): Read<Body> {
    var (pre, p) :- ReadPreamble(data);
    var (pairs, q) :- ReadMany(PairAt(data, pre.version), p, pre.nKv);
    var (tensors, end) :- ReadMany(TensorAt(data, pre.version), q, pre.nTensors);
    Got(Body(pre, pairs, tensors), end)
  }

  /** Inserting in order: a repeated key keeps its last value. */
  function Metadata(pairs: seq<Pair>): map<seq<byte>, GgufValue> {
    if pairs == [] then map[]
    else
      var last := pairs[|pairs| - 1];
      Metadata(pairs[..|pairs| - 1])[last.key := last.value]
  }

  const ALIGNMENT_KEY: seq<byte> :=
    // "general.alignment"
    [103, 101, 110, 101, 114, 97, 108, 46, 97, 108, 105, 103, 110, 109, 101, 110, 116]

  /** The declared alignment, or 32 when it is absent or not a `u32`. */
  function Alignment(metadata: map<seq<byte>, GgufValue>): nat {
    if ALIGNMENT_KEY in metadata && metadata[ALIGNMENT_KEY].U32? then metadata[ALIGNMENT_KEY].n else 32
  }

  function AlignUp(pos: nat, alignment: nat): nat
    requires alignment > 0
  {
    (pos + alignment - 1) / alignment * alignment
  }

  datatype ParseResult = Parsed(header: Header) | NotParsed(invalid: bool) | DivisionPanic

  function ParseHeader(data: seq<byte>): ParseResult {
    match ReadBody(data)
    case UnexpectedEof => NotParsed(false)
    case InvalidData => NotParsed(true)
    case Got(body, pos) =>
      var metadata := Metadata(body.pairs);
      var alignment := Alignment(metadata);
      if alignment == 0 then DivisionPanic
      else Parsed(Header(
        body.preamble.version, body.preamble.nTensors, metadata, body.tensors, AlignUp(pos, alignment)))
  }

  function Multiple(k: nat, a: nat): nat { k * a }

  lemma DivideUp(pos: nat, a: nat)
    requires a > 0
    ensures pos <= Multiple((pos + a - 1) / a, a) < pos + a
  {
    var q, r := (pos + a - 1) / a, (pos + a - 1) % a;
    assert q * a + r == pos + a - 1;
  }

  lemma {:induction false} SmallerMultiple(k: nat, q: nat, a: nat)
    requires k < q
    ensures Multiple(k, a) + a <= Multiple(q, a)
  {
    NextMultiple(q - 1, a);
    if k < q - 1 {
      SmallerMultiple(k, q - 1, a);
    }
  }

  lemma NextMultiple(k: nat, a: nat)
    ensures Multiple(k + 1, a) == Multiple(k, a) + a
  {
  }

  /** The data offset is the least multiple of the alignment at or above the header's end. */
  lemma AlignUpIsLeast(pos: nat, alignment: nat)
    requires alignment > 0
    ensures pos <= AlignUp(pos, alignment)
    ensures exists q: nat :: AlignUp(pos, alignment) == Multiple(q, alignment)
    ensures forall k: nat :: Multiple(k, alignment) >= pos ==> AlignUp(pos, alignment) <= Multiple(k, alignment)
  {
    DivideUp(pos, alignment);
    var q := (pos + alignment - 1) / alignment;
    assert AlignUp(pos, alignment) == Multiple(q, alignment);
    forall k: nat | Multiple(k, alignment) >= pos ensures Multiple(q, alignment) <= Multiple(k, alignment) {
      if k < q {
        SmallerMultiple(k, q, alignment);
      } else if q < k {
        SmallerMultiple(q, k, alignment);
      }
    }
  }
}
