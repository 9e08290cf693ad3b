/** The byte-level test for UTF-8, tied to the encoding of Unicode scalar values it stands for. */
module Utf8Text {
  import opened Bytes
  import opened Proto

  /** A code point that is not a surrogate. */
  predicate IsScalar(cp: nat) {
    cp < 0x11_0000 && !(0xD800 <= cp < 0xE000)
  }

  /** The bit distribution of section 3 of RFC 3629. */
  function EncodeScalar(cp: nat): (e: seq<byte>)
    requires IsScalar(cp)
    ensures |e| > 0
  {
    if cp < 0x80 then [cp]
    else if cp < 0x800 then [0xC0 + cp / 64, 0x80 + cp % 64]
    else if cp < 0x1_0000 then [0xE0 + cp / 4096, 0x80 + cp / 64 % 64, 0x80 + cp % 64]
    else [0xF0 + cp / 26_2144, 0x80 + cp / 4096 % 64, 0x80 + cp / 64 % 64, 0x80 + cp % 64]
  }

  function EncodeText(text: seq<nat>): seq<byte>
    requires forall cp <- text :: IsScalar(cp)
  {
    if text == [] then [] else EncodeScalar(text[0]) + EncodeText(text[1..])
  }

  function LowBits(x: byte): nat
    requires Continues(x)
  {
    x as int - 0x80
  }

  function FromTwo(x: byte, y: byte): nat
    requires x >= 0xC0 && Continues(y)
  {
    (x as int - 0xC0) * 64 + LowBits(y)
  }

  function FromThree(x: byte, y: byte, z: byte): nat
    requires x >= 0xE0 && Continues(y) && Continues(z)
  {
    (x as int - 0xE0) * 4096 + LowBits(y) * 64 + LowBits(z)
  }

  function FromFour(w: byte, x: byte, y: byte, z: byte): nat
    requires w >= 0xF0 && Continues(x) && Continues(y) && Continues(z)
  {
    (w as int - 0xF0) * 26_2144 + LowBits(x) * 4096 + LowBits(y) * 64 + LowBits(z)
  }

  /** The scalar value at the front, and its width. */
  function FirstScalar(s: seq<byte>): (r: (nat, nat))
    requires s != [] && ValidUtf8(s)
    ensures 0 < r.1 <= |s|
  {
    if s[0] <= 0x7F then (s[0], 1)
    else if s[0] <= 0xDF then (FromTwo(s[0], s[1]), 2)
    else if s[0] <= 0xEF then (FromThree(s[0], s[1], s[2]), 3)
    else (FromFour(s[0], s[1], s[2], s[3]), 4)
  }

  /** Base-64 digits below a leading part. */
  lemma Digits(a: nat, b: nat, c: nat, d: nat)
    requires b < 64 && c < 64 && d < 64
    ensures var n := a * 26_2144 + b * 4096 + c * 64 + d;
            n / 26_2144 == a && n / 4096 % 64 == b && n / 64 % 64 == c && n % 64 == d
  {
    var n := a * 26_2144 + b * 4096 + c * 64 + d;
    assert n / 64 == a * 4096 + b * 64 + c;
    assert n / 4096 == a * 64 + b;
  }

  lemma TwoBytes(x: byte, y: byte)
    requires 0xC2 <= x <= 0xDF && Continues(y)
    ensures var cp := FromTwo(x, y);
            IsScalar(cp) && EncodeScalar(cp) == [x, y]
  {
    Digits(0, 0, x as int - 0xC0, LowBits(y));
  }

  lemma ThreeBytes(x: byte, y: byte, z: byte)
    requires 0xE0 <= x <= 0xEF && Continues(y) && Continues(z)
    requires (x == 0xE0 ==> y >= 0xA0) && (x == 0xED ==> y <= 0x9F)
    ensures var cp := FromThree(x, y, z);
            IsScalar(cp) && EncodeScalar(cp) == [x, y, z]
  {
    var a, b, c := x as int - 0xE0, LowBits(y), LowBits(z);
    var cp := a * 4096 + b * 64 + c;
    assert 0x800 <= cp < 0x1_0000;
    Digits(0, a, b, c);
    assert cp / 4096 == a;
  }

  lemma FourBytes(w: byte, x: byte, y: byte, z: byte)
    requires 0xF0 <= w <= 0xF4 && Continues(x) && Continues(y) && Continues(z)
    requires (w == 0xF0 ==> x >= 0x90) && (w == 0xF4 ==> x <= 0x8F)
    ensures var cp := FromFour(w, x, y, z);
            IsScalar(cp) && EncodeScalar(cp) == [w, x, y, z]
  {
    var a, b, c, d := w as int - 0xF0, LowBits(x), LowBits(y), LowBits(z);
    assert 0x1_0000 <= a * 26_2144 + b * 4096 + c * 64 + d < 0x11_0000;
    Digits(a, b, c, d);
  }

  /** The first bytes encode a scalar value, and what follows is valid again. */
  ghost predicate FrontEncodes(s: seq<byte>)
    requires s != [] && ValidUtf8(s)
  {
    var (cp, w) := FirstScalar(s);
    w <= |s| && IsScalar(cp) && EncodeScalar(cp) == s[..w] && ValidUtf8(s[w..])
  }

  lemma NarrowFront(s: seq<byte>)
    requires s != [] && ValidUtf8(s) && s[0] <= 0xDF
    ensures FrontEncodes(s)
  {
    FrontIsValid(s);
    hide EncodeScalar, IsScalar, ValidUtf8, FromTwo, FromThree, FromFour;
    if s[0] <= 0x7F {
      AsciiByte(s[0]);
    } else {
      TwoBytes(s[0], s[1]);
    }
  }

  lemma ThreeByteFront(s: seq<byte>)
    requires s != [] && ValidUtf8(s) && 0xDF < s[0] <= 0xEF
    ensures FrontEncodes(s)
  {
    FrontIsValid(s);
    hide EncodeScalar, IsScalar, ValidUtf8, FromTwo, FromThree, FromFour;
    ThreeBytes(s[0], s[1], s[2]);
  }

  lemma FourByteFront(s: seq<byte>)
    requires s != [] && ValidUtf8(s) && 0xEF < s[0]
    ensures FrontEncodes(s)
  {
    FrontIsValid(s);
    hide EncodeScalar, IsScalar, ValidUtf8, FromTwo, FromThree, FromFour;
    FourBytes(s[0], s[1], s[2], s[3]);
  }

  lemma FirstScalarEncodes(s: seq<byte>)
    requires s != [] && ValidUtf8(s)
    ensures FrontEncodes(s)
  {
    hide FrontEncodes, ValidUtf8;
    if s[0] <= 0xDF {
      NarrowFront(s);
    } else if s[0] <= 0xEF {
      ThreeByteFront(s);
    } else {
      FourByteFront(s);
    }
  }

  /** The test, one scalar value at a time. */
  lemma FrontIsValid(s: seq<byte>)
    requires s != [] && ValidUtf8(s)
    ensures s[0] <= 0x7F ==> ValidUtf8(s[1..])
    ensures 0x7F < s[0] <= 0xDF ==> s[0] >= 0xC2 && |s| >= 2 && Continues(s[1]) && ValidUtf8(s[2..])
    ensures 0xDF < s[0] <= 0xEF ==>
              && |s| >= 3 && Continues(s[1]) && Continues(s[2])
              && (s[0] == 0xE0 ==> s[1] >= 0xA0) && (s[0] == 0xED ==> s[1] <= 0x9F) && ValidUtf8(s[3..])
    ensures 0xEF < s[0] ==>
              && s[0] <= 0xF4 && |s| >= 4 && Continues(s[1]) && Continues(s[2]) && Continues(s[3])
              && (s[0] == 0xF0 ==> s[1] >= 0x90) && (s[0] == 0xF4 ==> s[1] <= 0x8F) && ValidUtf8(s[4..])
  {
  }

  lemma AsciiByte(x: byte)
    requires x <= 0x7F
    ensures IsScalar(x) && EncodeScalar(x) == [x]
  {
  }

  /** The bytes the test admits at the front, for one scalar value. */
  predicate WellFormedFront(e: seq<byte>) {
    if |e| == 1 then e[0] <= 0x7F
    else if |e| == 2 then 0xC2 <= e[0] <= 0xDF && Continues(e[1])
    else if |e| == 3 then
      && 0xE0 <= e[0] <= 0xEF && Continues(e[1]) && Continues(e[2])
      && (e[0] == 0xE0 ==> e[1] >= 0xA0) && (e[0] == 0xED ==> e[1] <= 0x9F)
    else
      && |e| == 4 && 0xF0 <= e[0] <= 0xF4 && Continues(e[1]) && Continues(e[2]) && Continues(e[3])
      && (e[0] == 0xF0 ==> e[1] >= 0x90) && (e[0] == 0xF4 ==> e[1] <= 0x8F)
  }

  lemma EncodedScalarIsFront(cp: nat)
    requires IsScalar(cp)
    ensures WellFormedFront(EncodeScalar(cp))
  {
  }

  lemma FrontThenValid(e: seq<byte>, rest: seq<byte>)
    requires WellFormedFront(e) && ValidUtf8(rest)
    ensures ValidUtf8(e + rest)
  {
    assert (e + rest)[|e|..] == rest;
  }

  lemma ScalarThenValid(cp: nat, rest: seq<byte>)
    requires IsScalar(cp) && ValidUtf8(rest)
    ensures ValidUtf8(EncodeScalar(cp) + rest)
  {
    hide IsScalar, EncodeScalar, ValidUtf8, WellFormedFront;
    EncodedScalarIsFront(cp);
    FrontThenValid(EncodeScalar(cp), rest);
  }

  lemma {:induction false} EncodedTextIsValid(text: seq<nat>)
    requires forall cp <- text :: IsScalar(cp)
    ensures ValidUtf8(EncodeText(text))
  {
    if text != [] {
      EncodedTextIsValid(text[1..]);
      ScalarThenValid(text[0], EncodeText(text[1..]));
    }
  }

  ghost predicate IsEncodingOf(s: seq<byte>, text: seq<nat>) {
    (forall cp <- text :: IsScalar(cp)) && EncodeText(text) == s
  }

  function DecodeText(s: seq<byte>): seq<nat>
    requires ValidUtf8(s)
    decreases |s|
  {
    if s == [] then []
    else
      FirstScalarEncodes(s);
      var (cp, w) := FirstScalar(s);
      [cp] + DecodeText(s[w..])
  }

  lemma {:induction false} DecodedTextEncodes(s: seq<byte>)
    requires ValidUtf8(s)
    ensures IsEncodingOf(s, DecodeText(s))
    decreases |s|
  {
    hide FirstScalar, EncodeScalar, ValidUtf8, IsScalar;
    if s != [] {
      FirstScalarEncodes(s);
      var (cp, w) := FirstScalar(s);
      DecodedTextEncodes(s[w..]);
      var rest := DecodeText(s[w..]);
      assert DecodeText(s) == [cp] + rest;
      PrependScalar(cp, rest);
      assert s == s[..w] + s[w..];
    }
  }

  lemma PrependScalar(cp: nat, text: seq<nat>)
    requires IsScalar(cp) && forall x <- text :: IsScalar(x)
    ensures forall x <- [cp] + text :: IsScalar(x)
    ensures EncodeText([cp] + text) == EncodeScalar(cp) + EncodeText(text)
  {
    assert ([cp] + text)[1..] == text;
  }

  /** A byte string passes the test if and only if it encodes some sequence of Unicode scalar values. */
  lemma ValidExactlyWhenEncoded(s: seq<byte>)
    ensures ValidUtf8(s) <==> exists text :: IsEncodingOf(s, text)
  {
    if ValidUtf8(s) {
      DecodedTextEncodes(s);
    }
    if text :| IsEncodingOf(s, text) {
      EncodedTextIsValid(text);
    }
  }
}
