/** Well-formed UTF-8, as section 4 of RFC 3629 defines it; the engine asks its standard library. */
module Utf8Text {
  import opened Bytes

  predicate Continues(b: seq<byte>, i: nat) {
    i < |b| && 0x80 <= b[i] < 0xC0
  }

  /** The length of the character that starts at `i`, or zero when none does. */
  function CharLength(b: seq<byte>, i: nat): (n: nat)
    requires i < |b|
    ensures n <= 4 && i + n <= |b|
  {
    var c := b[i];
    if c < 0x80 then 1
    else if 0xC2 <= c < 0xE0 && Continues(b, i + 1) then 2
    else if 0xE0 <= c < 0xF0 && Continues(b, i + 1) && Continues(b, i + 2)
      && (c == 0xE0 ==> b[i + 1] >= 0xA0) && (c == 0xED ==> b[i + 1] < 0xA0) then 3
    else if 0xF0 <= c < 0xF5 && Continues(b, i + 1) && Continues(b, i + 2) && Continues(b, i + 3)
      && (c == 0xF0 ==> b[i + 1] >= 0x90) && (c == 0xF4 ==> b[i + 1] < 0x90) then 4
    else 0
  }

  predicate Utf8From(b: seq<byte>, i: nat)
    requires i <= |b|
    decreases |b| - i
  {
    i == |b| || (CharLength(b, i) > 0 && Utf8From(b, i + CharLength(b, i)))
  }

  predicate Utf8(b: seq<byte>) {
    Utf8From(b, 0)
  }

  /** A text value, kept as its UTF-8 bytes. */
  type Text = b: seq<byte> | Utf8(b) witness []

  // ----- Texts as code points -----

  /** A Unicode scalar value: a code point that is not a surrogate. */
  predicate Scalar(c: nat) {
    c < 0xD800 || 0xE000 <= c < 0x11_0000
  }

  /** The one to four bytes of a character, as the table in section 3 of RFC 3629 gives them. */
  function EncodeChar(c: nat): seq<byte>
    requires Scalar(c)
  {
    if c < 0x80 then [c]
    else if c < 0x800 then [0xC0 + c / 64, 0x80 + c % 64]
    else if c < 0x1_0000 then [0xE0 + c / 4096, 0x80 + c / 64 % 64, 0x80 + c % 64]
    else [0xF0 + c / 26_2144, 0x80 + c / 4096 % 64, 0x80 + c / 64 % 64, 0x80 + c % 64]
  }

  ghost predicate Scalars(cs: seq<nat>) {
    forall k | 0 <= k < |cs| :: Scalar(cs[k])
  }

  function EncodeChars(cs: seq<nat>): seq<byte>
    requires forall k | 0 <= k < |cs| :: Scalar(cs[k])
  {
    if cs == [] then [] else EncodeChar(cs[0]) + EncodeChars(cs[1..])
  }

  /** Which bytes the encoding of a character can have. */
  lemma CharBytes(c: nat)
    requires Scalar(c)
    ensures var e := EncodeChar(c);
      && 1 <= |e| <= 4 && (forall k | 1 <= k < |e| :: 0x80 <= e[k] < 0xC0)
      && (|e| == 1 ==> e[0] < 0x80) && (|e| == 2 ==> 0xC2 <= e[0] < 0xE0)
      && (|e| == 3 ==> 0xE0 <= e[0] < 0xF0 && (e[0] == 0xE0 ==> e[1] >= 0xA0) && (e[0] == 0xED ==> e[1] < 0xA0))
      && (|e| == 4 ==> 0xF0 <= e[0] < 0xF5 && (e[0] == 0xF0 ==> e[1] >= 0x90) && (e[0] == 0xF4 ==> e[1] < 0x90))
  {
  }

  /** The encoding of a character is recognised wherever it stands, with its length. */
  lemma CharIsRead(b: seq<byte>, i: nat, c: nat)
    requires Scalar(c) && i + |EncodeChar(c)| <= |b| && b[i..i + |EncodeChar(c)|] == EncodeChar(c)
    ensures i < |b| && CharLength(b, i) == |EncodeChar(c)|
  {
    CharBytes(c);
    var e := EncodeChar(c);
    hide EncodeChar, Scalar;
    assert forall k | 0 <= k < |e| :: e[k] == b[i + k];
    assert b[i] == e[0];
    if |e| > 1 {
      assert b[i + 1] == e[1];
    }
    if |e| > 2 {
      assert b[i + 2] == e[2];
    }
    if |e| > 3 {
      assert b[i + 3] == e[3];
    }
  }

  /** And a recognised character is the encoding of one. */
  lemma CharIsEncoded(b: seq<byte>, i: nat) returns (c: nat)
    requires i < |b| && CharLength(b, i) > 0
    ensures Scalar(c) && EncodeChar(c) == b[i..i + CharLength(b, i)]
  {
    var n := CharLength(b, i);
    var b0: int := b[i];
    if n == 1 {
      c := b0;
    } else if n == 2 {
      var b1: int := b[i + 1];
      c := (b0 - 0xC0) * 64 + (b1 - 0x80);
      assert b[i..i + 2] == [b[i], b[i + 1]];
    } else if n == 3 {
      c := TripleIsEncoded(b, i);
    } else {
      c := QuadrupleIsEncoded(b, i);
    }
  }

  lemma TripleIsEncoded(b: seq<byte>, i: nat) returns (c: nat)
    requires i < |b| && CharLength(b, i) == 3
    ensures Scalar(c) && EncodeChar(c) == b[i..i + 3]
  {
    var b0: int, b1: int, b2: int := b[i], b[i + 1], b[i + 2];
    c := (b0 - 0xE0) * 4096 + (b1 - 0x80) * 64 + (b2 - 0x80);
    assert c / 4096 == b0 - 0xE0 && c / 64 == (b0 - 0xE0) * 64 + (b1 - 0x80) && c % 64 == b2 - 0x80;
    assert b[i..i + 3] == [b[i], b[i + 1], b[i + 2]];
  }

  lemma QuadrupleIsEncoded(b: seq<byte>, i: nat) returns (c: nat)
    requires i < |b| && CharLength(b, i) == 4
    ensures Scalar(c) && EncodeChar(c) == b[i..i + 4]
  {
    var b0: int, b1: int, b2: int, b3: int := b[i], b[i + 1], b[i + 2], b[i + 3];
    c := (b0 - 0xF0) * 26_2144 + (b1 - 0x80) * 4096 + (b2 - 0x80) * 64 + (b3 - 0x80);
    assert c / 26_2144 == b0 - 0xF0 && c / 4096 == (b0 - 0xF0) * 64 + (b1 - 0x80);
    assert c / 64 == ((b0 - 0xF0) * 64 + (b1 - 0x80)) * 64 + (b2 - 0x80) && c % 64 == b3 - 0x80;
    assert b[i..i + 4] == [b[i], b[i + 1], b[i + 2], b[i + 3]];
  }

  lemma {:induction false} EncodedIsUtf8(p: seq<byte>, cs: seq<nat>)
    requires Scalars(cs)
    ensures Utf8From(p + EncodeChars(cs), |p|)
    decreases |cs|
  {
    hide EncodeChar, CharLength, Scalar;
    if cs != [] {
      var b, e, rest := p + EncodeChars(cs), EncodeChar(cs[0]), EncodeChars(cs[1..]);
      EncodedIsUtf8(p + e, cs[1..]);
      CharIsNonempty(cs[0]);
      Rejoined(p, e, rest);
      CharIsRead(b, |p|, cs[0]);
    }
  }

  lemma CharIsNonempty(c: nat)
    requires Scalar(c)
    ensures |EncodeChar(c)| >= 1
  {
  }

  lemma Rejoined(p: seq<byte>, e: seq<byte>, rest: seq<byte>)
    ensures p + (e + rest) == (p + e) + rest && (p + (e + rest))[|p|..|p| + |e|] == e
  {
  }

  lemma {:induction false} Utf8IsEncoded(b: seq<byte>, i: nat) returns (cs: seq<nat>)
    requires i <= |b| && Utf8From(b, i)
    ensures Scalars(cs) && EncodeChars(cs) == b[i..]
    decreases |b| - i
  {
    hide EncodeChar, CharLength, Scalar;
    if i == |b| {
      cs := [];
    } else {
      var n := CharLength(b, i);
      var c := CharIsEncoded(b, i);
      var rest := Utf8IsEncoded(b, i + n);
      cs := [c] + rest;
      assert cs[1..] == rest;
      assert b[i..] == b[i..i + n] + b[i + n..];
    }
  }

  /** The byte strings that count as text are exactly the encodings of sequences of Unicode scalar values. */
  lemma {:induction false} Utf8IffEncoded(b: seq<byte>)
    ensures Utf8(b) <==> exists cs :: Scalars(cs) && b == EncodeChars(cs)
  {
    if Utf8(b) {
      var cs := Utf8IsEncoded(b, 0);
      assert Scalars(cs) && b == EncodeChars(cs);
    }
    if cs :| Scalars(cs) && b == EncodeChars(cs) {
      assert b == [] + EncodeChars(cs);
      EncodedIsUtf8([], cs);
    }
  }
}
