/** The GPT-2 byte-to-unicode alphabet in which vocabulary texts are stored. */
module ByteUnicode {
  import opened Bytes
  import Utf8

  // ---------------------------------------------------------------- the table

  predicate Printable(b: byte) {
    33 <= b <= 126 || 161 <= b <= 172 || 174 <= b
  }

  /** How many non-printable bytes come before `b`. */
  function NonPrintableBelow(b: nat): nat
    requires b <= 256
  {
    if b == 0 then 0 else NonPrintableBelow(b - 1) + if Printable(b - 1) then 0 else 1
  }

  /** Printable bytes stand for themselves; the others take U+0100, U+0101, ... in order. */
  function CodePoint(b: byte): nat {
    if Printable(b) then b else 256 + NonPrintableBelow(b)
  }

  method BuildTable() returns (table: seq<nat>)
    ensures |table| == 256
    ensures forall b: byte :: table[b] == CodePoint(b)
  {
    table := [];
    var n := 0;
    var b := 0;
    while b < 256
      invariant 0 <= b <= 256 && |table| == b
      invariant n == NonPrintableBelow(b)
      invariant forall c: byte :: c < b ==> table[c] == CodePoint(c)
    {
      if Printable(b) {
        table := table + [b];
      } else {
        table := table + [256 + n];
        n := n + 1;
      }
      b := b + 1;
    }
  }

  lemma {:induction false} NonPrintableBelowClosed(b: nat)
    requires b <= 256
    ensures NonPrintableBelow(b) ==
            if b <= 33 then b
            else if b <= 127 then 33
            else if b <= 161 then b - 94
            else if b <= 173 then 67
            else 68
  {
    if b > 0 {
      NonPrintableBelowClosed(b - 1);
    }
  }

  /** The last code point in use is U+0143, well below the three-byte range. */
  lemma CodePointClosed(b: byte)
    ensures CodePoint(b) ==
            if Printable(b) then b else if b <= 32 then 256 + b else if b <= 160 then 162 + b else 323
    ensures CodePoint(b) <= 0x143
  {
    NonPrintableBelowClosed(b);
  }

  /** The byte a code point stands for, if it is in the alphabet. */
  function ByteOf(cp: nat): Option<byte> {
    if cp < 256 then (if Printable(cp) then Some(cp) else None)
    else if cp <= 288 then Some(cp - 256)
    else if cp <= 322 then Some(cp - 162)
    else if cp == 323 then Some(173)
    else None
  }

  lemma ByteOfInvertsCodePoint(b: byte, cp: nat)
    ensures ByteOf(cp) == Some(b) <==> cp == CodePoint(b)
  {
    CodePointClosed(b);
  }

  // ------------------------------------------------------- UTF-8 of one byte

  function CharOf(b: byte): (s: seq<byte>)
    ensures 1 <= |s| <= 2
    ensures |s| == 1 <==> 33 <= b <= 126
    ensures |s| == 1 ==> s[0] == b
    ensures |s| == 2 ==> 0xC2 <= s[0] <= 0xC5 && Utf8.Tail(s[1])
  {
    CodePointClosed(b);
    Utf8.CharBytes(CodePoint(b))
  }

  /** The number of bytes the source steps over, judged by the first byte alone. */
  function Gpt2CharLen(first: byte): nat {
    if first < 0x80 then 1 else if first < 0xE0 then 2 else 3
  }

  /** `bytes_to_gpt2_unicode` as a function. */
  function Expand(text: seq<byte>): seq<byte> {
    if text == [] then [] else CharOf(text[0]) + Expand(text[1..])
  }

  method BytesToGpt2Unicode(input: seq<byte>) returns (out: seq<byte>)
    ensures out == Expand(input)
  {
    var table := BuildTable();
    out := [];
    for k := 0 to |input|
      invariant out == Expand(input[..k])
    {
      var cp := table[input[k]];
      CodePointClosed(input[k]);
      ExpandOneMore(input, k);
      if cp < 0x80 {
        out := out + [cp];
      } else if cp < 0x800 {
        out := out + [0xC0 + cp / 64];
        out := out + [0x80 + cp % 64];
      } else {
        assert false;
      }
    }
    assert input[..|input|] == input;
  }

  lemma ExpandOneMore(text: seq<byte>, k: nat)
    requires k < |text|
    ensures Expand(text[..k + 1]) == Expand(text[..k]) + CharOf(text[k])
  {
    assert text[..k + 1] == text[..k] + [text[k]];
    ExpandAppend(text[..k], [text[k]]);
    assert Expand([text[k]]) == CharOf(text[k]) + Expand([]);
  }

  lemma {:induction false} ExpandAppend(a: seq<byte>, b: seq<byte>)
    ensures Expand(a + b) == Expand(a) + Expand(b)
  {
    if a == [] {
      assert a + b == b;
    } else {
      assert (a + b)[1..] == a[1..] + b;
      ExpandAppend(a[1..], b);
    }
  }

  lemma {:induction false} ExpandIsUtf8(text: seq<byte>)
    ensures Utf8.Valid(Expand(text))
  {
    if text != [] {
      ExpandIsUtf8(text[1..]);
      assert Utf8.Valid(CharOf(text[0]));
      Utf8.ValidConcat(CharOf(text[0]), Expand(text[1..]));
    }
  }

  // ------------------------------------------------------------- the inverse

  function TwoByteValue(lead: byte, tail: byte): nat
    requires 0xC2 <= lead && 0x80 <= tail
  {
    (lead as int - 0xC0) * 64 + (tail as int - 0x80)
  }

  /** The byte whose character starts `u`, if `u` starts with a character of the alphabet. */
  function FirstByte(u: seq<byte>): Option<byte> {
    if u == [] then None
    else if u[0] < 0x80 then ByteOf(u[0])
    else if |u| >= 2 && 0xC2 <= u[0] < 0xE0 && Utf8.Tail(u[1]) then
      ByteOf(TwoByteValue(u[0], u[1]))
    else None
  }

  lemma FirstByteExact(u: seq<byte>, b: byte)
    ensures FirstByte(u) == Some(b) <==> CharOf(b) <= u
  {
    CodePointClosed(b);
    if u != [] {
      ByteOfInvertsCodePoint(b, u[0]);
      if |u| >= 2 && 0xC2 <= u[0] < 0xE0 && Utf8.Tail(u[1]) {
        ByteOfInvertsCodePoint(b, TwoByteValue(u[0], u[1]));
      }
    }
  }

  /** Reads a whole number of alphabet characters back into bytes. */
  function Collapse(u: seq<byte>): Option<seq<byte>> {
    if u == [] then Some([])
    else match FirstByte(u)
      case None => None
      case Some(b) =>
        FirstByteExact(u, b);
        match Collapse(u[|CharOf(b)|..])
        case None => None
        case Some(rest) => Some([b] + rest)
  }

  lemma CollapseFront(b: byte, rest: seq<byte>)
    ensures Collapse(CharOf(b) + rest) ==
            match Collapse(rest) case None => None case Some(text) => Some([b] + text)
  {
    var u := CharOf(b) + rest;
    FirstByteExact(u, b);
    assert u[|CharOf(b)|..] == rest;
  }

  /** `Collapse` is the exact inverse of `Expand`, in both directions, on all byte strings. */
  lemma {:induction false} CollapseInvertsExpand(u: seq<byte>, text: seq<byte>)
    ensures Collapse(u) == Some(text) <==> u == Expand(text)
    decreases |u|
  {
    if u != [] && text != [] {
      var b := text[0];
      FirstByteExact(u, b);
      if CharOf(b) <= u {
        var rest := u[|CharOf(b)|..];
        assert u == CharOf(b) + rest;
        CollapseFront(b, rest);
        CollapseInvertsExpand(rest, text[1..]);
        assert text == [b] + text[1..];
        assert u == Expand(text) <==> rest == Expand(text[1..]) by {
          assert Expand(text)[|CharOf(b)|..] == Expand(text[1..]);
        }
      } else {
        assert CharOf(b) <= Expand(text);
        assert Collapse(u).Some? && Collapse(u).value != [] ==> FirstByte(u) == Some(Collapse(u).value[0]);
      }
    }
  }

  lemma ExpandInjective(a: seq<byte>, b: seq<byte>)
    requires Expand(a) == Expand(b)
    ensures a == b
  {
    CollapseInvertsExpand(Expand(a), a);
    CollapseInvertsExpand(Expand(b), b);
  }

  /** `u` is a whole number of alphabet characters. */
  predicate Whole(u: seq<byte>) { Collapse(u).Some? }

  // ------------------------------------------------- positions and boundaries

  /** Where the character of input byte `k` starts in the expansion. */
  function Boundary(text: seq<byte>, k: nat): nat
    requires k <= |text|
  {
    |Expand(text[..k])|
  }

  lemma BoundaryStep(text: seq<byte>, k: nat)
    requires k < |text|
    ensures Boundary(text, k + 1) == Boundary(text, k) + |CharOf(text[k])|
    ensures Boundary(text, k + 1) <= |Expand(text)|
    ensures Expand(text)[Boundary(text, k)..] == CharOf(text[k]) + Expand(text[k + 1..])
    ensures Gpt2CharLen(Expand(text)[Boundary(text, k)]) == |CharOf(text[k])|
  {
    BoundarySplits(text, k);
    ExpandOneMore(text, k);
    BoundarySplits(text, k + 1);
    assert text[k..][1..] == text[k + 1..];
    assert Expand(text)[Boundary(text, k)] == Expand(text)[Boundary(text, k)..][0];
  }

  lemma BoundarySplits(text: seq<byte>, k: nat)
    requires k <= |text|
    ensures Boundary(text, k) <= |Expand(text)|
    ensures Expand(text)[Boundary(text, k)..] == Expand(text[k..])
  {
    assert text == text[..k] + text[k..];
    ExpandAppend(text[..k], text[k..]);
  }

  /** Boundaries grow strictly, so a position belongs to at most one input byte. */
  lemma {:induction false} BoundaryMonotone(text: seq<byte>, j: nat, k: nat)
    requires j < k <= |text|
    ensures Boundary(text, j) < Boundary(text, k)
  {
    BoundaryStep(text, k - 1);
    if j < k - 1 {
      BoundaryMonotone(text, j, k - 1);
    }
  }

  /** The input position whose character starts at `pos`; 0 when `pos` starts none. */
  ghost function OriginOf(text: seq<byte>, pos: nat): nat {
    if exists k: nat :: k < |text| && Boundary(text, k) == pos
    then var k: nat :| k < |text| && Boundary(text, k) == pos; k
    else 0
  }

  lemma OriginOfBoundary(text: seq<byte>, k: nat)
    requires k < |text|
    ensures OriginOf(text, Boundary(text, k)) == k
  {
    var j := OriginOf(text, Boundary(text, k));
    if j < k { BoundaryMonotone(text, j, k); } else if k < j { BoundaryMonotone(text, k, j); }
  }

  /** `orig_byte_at`: a forward scan that never indexes past the expansion. */
  method OrigByteAt(orig: seq<byte>, gpt2: seq<byte>, gpt2Pos: nat) returns (r: nat)
    requires gpt2 == Expand(orig)
    ensures r == OriginOf(orig, gpt2Pos)
    ensures orig != [] ==> r < |orig|
  {
    var g := 0;
    for k := 0 to |orig|
      invariant g == Boundary(orig, k)
      invariant forall j: nat :: j < k ==> Boundary(orig, j) != gpt2Pos
    {
      if g == gpt2Pos {
        OriginOfBoundary(orig, k);
        return k;
      }
      BoundaryStep(orig, k);
      g := g + Gpt2CharLen(gpt2[g]);
    }
    return 0;
  }

  /** The alphabet is a prefix code: a whole prefix of an expansion expands a prefix. */
  lemma {:induction false} WholePrefix(text: seq<byte>, u: seq<byte>)
    requires Whole(u) && u <= Expand(text)
    ensures Collapse(u).value <= text
    decreases |u|
  {
    if u != [] {
      var b := FirstByte(u).value;
      FirstByteExact(u, b);
      assert CharOf(b) <= Expand(text);
      FirstByteExact(Expand(text), b);
      FirstByteExact(Expand(text), text[0]);
      var n := |CharOf(b)|;
      assert Expand(text)[n..] == Expand(text[1..]);
      assert u[n..] <= Expand(text[1..]);
      WholePrefix(text[1..], u[n..]);
    }
  }

  /** `u` ends inside a character: a whole number of characters and then a lone first byte. */
  predicate Ragged(u: seq<byte>) {
    if u == [] then false
    else match FirstByte(u)
      case Some(b) =>
        FirstByteExact(u, b);
        Ragged(u[|CharOf(b)|..])
      case None => |u| == 1 && 0xC2 <= u[0] <= 0xC5
  }

  /** What stands at the front of an expansion either ends between two characters or inside one. */
  lemma {:induction false} WholeOrRagged(text: seq<byte>, u: seq<byte>)
    requires u <= Expand(text)
    ensures Whole(u) || Ragged(u)
    decreases |u|
  {
    if u != [] {
      var b := text[0];
      assert Expand(text) == CharOf(b) + Expand(text[1..]);
      if CharOf(b) <= u {
        FirstByteExact(u, b);
        assert u[|CharOf(b)|..] <= Expand(text[1..]);
        WholeOrRagged(text[1..], u[|CharOf(b)|..]);
      } else {
        assert |u| == 1 && u[0] == CharOf(b)[0];
      }
    }
  }

  /** Ragged strings are exactly those found at the front of some expansion that are not whole. */
  lemma RaggedExactly(u: seq<byte>)
    ensures Ragged(u) <==> !Whole(u) && exists text :: u <= Expand(text)
  {
    if Ragged(u) {
      var text := RaggedOccurs(u);
    } else if exists text :: u <= Expand(text) {
      var text :| u <= Expand(text);
      WholeOrRagged(text, u);
    }
  }

  lemma {:induction false} RaggedOccurs(u: seq<byte>) returns (text: seq<byte>)
    requires Ragged(u)
    ensures u <= Expand(text) && !Whole(u)
    decreases |u|
  {
    if FirstByte(u).Some? {
      var b := FirstByte(u).value;
      FirstByteExact(u, b);
      var rest := RaggedOccurs(u[|CharOf(b)|..]);
      text := [b] + rest;
      assert text[1..] == rest;
      assert u == CharOf(b) + u[|CharOf(b)|..];
    } else {
      // one character for each of the four first bytes in use
      text := [if u[0] == 0xC2 then 0xA1 else if u[0] == 0xC3 then 0xC0 else if u[0] == 0xC4 then 0 else 158];
      CodePointClosed(text[0]);
      assert Expand(text) == CharOf(text[0]) + Expand([]);
    }
  }
}
