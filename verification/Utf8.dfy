/** Well-formed UTF-8, from the byte-sequence syntax in section 4 of RFC 3629. */
module Utf8 {
  import opened Bytes

  predicate Tail(b: byte) { 0x80 <= b <= 0xBF }

  /** Length of the well-formed character at the front of `s`; 0 when there is none. */
  function CharLength(s: seq<byte>): (n: nat)
    ensures n <= 4 && n <= |s|
  {
    if s == [] then 0
    else if s[0] <= 0x7F then 1
    else if |s| < 2 then 0
    else if 0xC2 <= s[0] <= 0xDF then (if Tail(s[1]) then 2 else 0)
    else if |s| < 3 then 0
    else if 0xE0 <= s[0] <= 0xEF then
      if SecondOfThree(s[0], s[1]) && Tail(s[2]) then 3 else 0
    else if |s| < 4 then 0
    else if 0xF0 <= s[0] <= 0xF4 && SecondOfFour(s[0], s[1]) && Tail(s[2]) && Tail(s[3]) then 4
    else 0
  }

  /** Excludes overlong forms (E0) and surrogates (ED). */
  predicate SecondOfThree(lead: byte, b: byte) {
    if lead == 0xE0 then 0xA0 <= b <= 0xBF
    else if lead == 0xED then 0x80 <= b <= 0x9F
    else Tail(b)
  }

  /** Excludes overlong forms (F0) and values above U+10FFFF (F4). */
  predicate SecondOfFour(lead: byte, b: byte) {
    if lead == 0xF0 then 0x90 <= b <= 0xBF
    else if lead == 0xF4 then 0x80 <= b <= 0x8F
    else Tail(b)
  }

  predicate Valid(s: seq<byte>) {
    s == [] || (CharLength(s) > 0 && Valid(s[CharLength(s)..]))
  }

  lemma {:induction false} ValidConcat(a: seq<byte>, b: seq<byte>)
    requires Valid(a) && Valid(b)
    ensures Valid(a + b)
    decreases |a|
  {
    if a == [] {
      assert a + b == b;
    } else {
      var n := CharLength(a);
      assert CharLength(a + b) == n;
      assert (a + b)[n..] == a[n..] + b;
      ValidConcat(a[n..], b);
    }
  }

  // -------------------------------------------------- what well-formed means

  /** A Unicode scalar value: a code point that is not a surrogate. */
  type Scalar = c: nat | c < 0xD800 || 0xE000 <= c < 0x110000

  /** The bytes of one character, as section 3 of RFC 3629 lays them out. */
  function CharBytes(c: Scalar): (s: seq<byte>)
    ensures 1 <= |s| <= 4
  {
    if c < 0x80 then [c]
    else if c < 0x800 then [0xC0 + c / 64, 0x80 + c % 64]
    else if c < 0x10000 then [0xE0 + c / 4096, 0x80 + c / 64 % 64, 0x80 + c % 64]
    else [0xF0 + c / 262144, 0x80 + c / 4096 % 64, 0x80 + c / 64 % 64, 0x80 + c % 64]
  }

  function TextBytes(cs: seq<Scalar>): seq<byte> {
    if cs == [] then [] else CharBytes(cs[0]) + TextBytes(cs[1..])
  }

  /** The code point whose bits the bytes of one character carry. */
  function CodePointOf(s: seq<byte>): int
    requires 1 <= |s| <= 4
  {
    if |s| == 1 then s[0]
    else if |s| == 2 then (s[0] as int - 0xC0) * 64 + Low(s[1])
    else if |s| == 3 then (s[0] as int - 0xE0) * 4096 + Low(s[1]) * 64 + Low(s[2])
    else (s[0] as int - 0xF0) * 262144 + Low(s[1]) * 4096 + Low(s[2]) * 64 + Low(s[3])
  }

  function Low(b: byte): int { b as int - 0x80 }

  /** Six bits at a time. */
  lemma Digits(c: nat)
    ensures c / 4096 == c / 64 / 64 && c / 262144 == c / 4096 / 64
    ensures c == c / 64 * 64 + c % 64
    ensures c == c / 4096 * 4096 + c / 64 % 64 * 64 + c % 64
    ensures c == c / 262144 * 262144 + c / 4096 % 64 * 4096 + c / 64 % 64 * 64 + c % 64
  {
    var d := c / 64;
    var e := d / 64;
    assert c == d * 64 + c % 64;
    assert d == e * 64 + d % 64;
    assert e == e / 64 * 64 + e % 64;
    assert c / 4096 == e;
    assert c / 262144 == e / 64;
  }

  lemma CodePointBack(c: Scalar)
    ensures CodePointOf(CharBytes(c)) == c
  {
    Digits(c);
    var s := CharBytes(c);
    if c < 0x80 {
    } else if c < 0x800 {
      assert Low(s[1]) == c % 64;
    } else if c < 0x10000 {
      assert Low(s[1]) == c / 64 % 64 && Low(s[2]) == c % 64;
    } else {
      assert Low(s[1]) == c / 4096 % 64 && Low(s[2]) == c / 64 % 64 && Low(s[3]) == c % 64;
    }
  }

  lemma CharAlone(c: Scalar)
    ensures CharLength(CharBytes(c)) == |CharBytes(c)|
  {
    Digits(c);
    var s := CharBytes(c);
    if c < 0x80 {
    } else if c < 0x800 {
      assert 2 <= c / 64 < 32 && Tail(s[1]);
    } else if c < 0x10000 {
      var lead := c / 4096;
      assert Tail(s[1]) && Tail(s[2]);
      assert lead == 0 ==> c / 64 % 64 >= 32;
      assert lead == 13 ==> c / 64 % 64 < 32;
      assert SecondOfThree(s[0], s[1]);
    } else {
      var lead := c / 262144;
      assert Tail(s[1]) && Tail(s[2]) && Tail(s[3]);
      assert lead <= 4;
      assert lead == 0 ==> c / 4096 % 64 >= 16;
      assert lead == 4 ==> c / 4096 % 64 < 16;
      assert SecondOfFour(s[0], s[1]);
    }
  }

  lemma FrontDecides(s: seq<byte>, rest: seq<byte>)
    requires CharLength(s) > 0
    ensures CharLength(s + rest) == CharLength(s)
  {
  }

  lemma CharInFront(c: Scalar, rest: seq<byte>)
    ensures CharLength(CharBytes(c) + rest) == |CharBytes(c)|
    ensures (CharBytes(c) + rest)[..|CharBytes(c)|] == CharBytes(c)
    ensures (CharBytes(c) + rest)[|CharBytes(c)|..] == rest
  {
    CharAlone(c);
    FrontDecides(CharBytes(c), rest);
  }

  /** Each byte pattern `CharLength` lets through is some character's. */
  lemma FrontIsChar(s: seq<byte>)
    requires CharLength(s) == |s| > 0
    ensures var c := CodePointOf(s); (0 <= c < 0xD800 || 0xE000 <= c < 0x110000) && CharBytes(c) == s
  {
    var c := CodePointOf(s);
    if |s| == 1 {
    } else if |s| == 2 {
      assert 0 <= Low(s[1]) < 64 && 2 <= s[0] as int - 0xC0 < 32;
      assert 0x80 <= c < 0x800;
      assert c / 64 == s[0] as int - 0xC0;
    } else if |s| == 3 {
      ThreeBytes(s[0] as int - 0xE0, Low(s[1]), Low(s[2]));
    } else {
      FourBytes(s[0] as int - 0xF0, Low(s[1]), Low(s[2]), Low(s[3]));
    }
  }

  lemma ThreeBytes(x: int, y: int, z: int)
    requires 0 <= y < 64 && 0 <= z < 64
    ensures var c := x * 4096 + y * 64 + z; c / 4096 == x && c / 64 % 64 == y && c % 64 == z
  {
    var c := x * 4096 + y * 64 + z;
    assert c / 64 == x * 64 + y;
  }

  lemma FourBytes(w: int, x: int, y: int, z: int)
    requires 0 <= x < 64 && 0 <= y < 64 && 0 <= z < 64
    ensures var c := w * 262144 + x * 4096 + y * 64 + z;
            c / 262144 == w && c / 4096 % 64 == x && c / 64 % 64 == y && c % 64 == z
  {
    var c := w * 262144 + x * 4096 + y * 64 + z;
    assert c / 64 == w * 4096 + x * 64 + y;
    assert c / 4096 == w * 64 + x;
  }

  lemma {:induction false} TextIsValid(cs: seq<Scalar>)
    ensures Valid(TextBytes(cs))
  {
    if cs != [] {
      TextIsValid(cs[1..]);
      CharInFront(cs[0], TextBytes(cs[1..]));
    }
  }

  lemma {:induction false} ValidIsText(s: seq<byte>) returns (cs: seq<Scalar>)
    requires Valid(s)
    ensures s == TextBytes(cs)
    decreases |s|
  {
    if s == [] {
      cs := [];
    } else {
      var n := CharLength(s);
      FrontAlone(s);
      FrontIsChar(s[..n]);
      var rest := ValidIsText(s[n..]);
      cs := [CodePointOf(s[..n])] + rest;
      assert s == s[..n] + s[n..];
    }
  }

  lemma FrontAlone(s: seq<byte>)
    requires CharLength(s) > 0
    ensures CharLength(s[..CharLength(s)]) == CharLength(s)
  {
  }

  /** The byte patterns accepted are exactly the spellings of scalar values, one after another. */
  lemma ValidExactly(s: seq<byte>)
    ensures Valid(s) <==> exists cs: seq<Scalar> :: s == TextBytes(cs)
  {
    if Valid(s) {
      var cs := ValidIsText(s);
    }
    forall cs: seq<Scalar> | s == TextBytes(cs) ensures Valid(s) {
      TextIsValid(cs);
    }
  }

  /** And no text has two spellings. */
  lemma {:induction false} SpellingUnique(a: seq<Scalar>, b: seq<Scalar>)
    requires TextBytes(a) == TextBytes(b)
    ensures a == b
  {
    if a == [] || b == [] {
      assert a == [] && b == [];
    } else {
      var s := TextBytes(a);
      CharInFront(a[0], TextBytes(a[1..]));
      CharInFront(b[0], TextBytes(b[1..]));
      assert s[..CharLength(s)] == CharBytes(a[0]) == CharBytes(b[0]);
      CodePointBack(a[0]);
      CodePointBack(b[0]);
      SpellingUnique(a[1..], b[1..]);
      assert a == [a[0]] + a[1..] && b == [b[0]] + b[1..];
    }
  }
}
