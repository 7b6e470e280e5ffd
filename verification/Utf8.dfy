// The byte sequences that strict decoding accepts are the encodings of Unicode scalar values.
module Utf8 {
  import opened Bytes
  import opened Collections

  predicate Scalar(c: int) { 0 <= c < 0x11_0000 && !(0xD800 <= c < 0xE000) }

  // Section 3 of RFC 3629.
  function EncodeOne(c: int): (s: seq<Byte>)
    requires Scalar(c)
    ensures s != []
  {
    if c < 0x80 then [c]
    else if c < 0x800 then [0xC0 + c / 0x40, 0x80 + c % 0x40]
    else if c < 0x1_0000 then [0xE0 + c / 0x1000, 0x80 + c / 0x40 % 0x40, 0x80 + c % 0x40]
    else [0xF0 + c / 0x4_0000, 0x80 + c / 0x1000 % 0x40, 0x80 + c / 0x40 % 0x40, 0x80 + c % 0x40]
  }

  ghost predicate AllScalar(t: Text) { forall i | 0 <= i < |t| :: Scalar(t[i]) }

  function Encode(t: Text): seq<Byte>
    requires AllScalar(t)
  {
    if t == [] then [] else EncodeOne(t[0]) + Encode(t[1..])
  }

  lemma OneByte(c: int, rest: seq<Byte>)
    requires 0 <= c < 0x80
    ensures ValidUtf8([c] + rest) <==> ValidUtf8(rest)
  {
    assert ([c] + rest)[1..] == rest;
  }

  lemma EncodedValid(c: int, rest: seq<Byte>)
    requires Scalar(c)
    ensures ValidUtf8(EncodeOne(c) + rest) <==> ValidUtf8(rest)
  {
    var s := EncodeOne(c) + rest;
    assert s[|EncodeOne(c)|..] == rest;
    if c < 0x80 {
      OneByte(c, rest);
    } else if c < 0x800 {
      assert s[0] == 0xC0 + c / 0x40 && 0xC2 <= s[0] <= 0xDF;
    } else if c < 0x1_0000 {
      assert s[0] == 0xE0 + c / 0x1000 && s[1] == 0x80 + c / 0x40 % 0x40;
    } else {
      assert s[0] == 0xF0 + c / 0x4_0000 && s[1] == 0x80 + c / 0x1000 % 0x40;
    }
  }

  lemma {:induction false} EncodingValid(t: Text)
    requires AllScalar(t)
    ensures ValidUtf8(Encode(t))
  {
    if t != [] {
      EncodingValid(t[1..]);
      EncodedValid(t[0], Encode(t[1..]));
    }
  }

  // The scalar value that a valid sequence begins with.
  lemma FirstScalar(s: seq<Byte>) returns (c: int, rest: seq<Byte>)
    requires ValidUtf8(s) && s != []
    ensures Scalar(c) && s == EncodeOne(c) + rest && ValidUtf8(rest)
  {
    if s[0] < 0x80 {
      c, rest := s[0], s[1..];
    } else if s[0] <= 0xDF {
      var x: nat, y: nat := s[0] - 0xC0, s[1] - 0x80;
      c, rest := x * 0x40 + y, s[2..];
      SixBits(x, y);
      assert s == [s[0], s[1]] + rest;
    } else if s[0] <= 0xEF {
      c, rest := FirstOfThree(s);
    } else {
      c, rest := FirstOfFour(s);
    }
  }

  lemma FirstOfThree(s: seq<Byte>) returns (c: int, rest: seq<Byte>)
    requires ValidUtf8(s) && s != [] && 0xE0 <= s[0] <= 0xEF
    ensures Scalar(c) && s == EncodeOne(c) + rest && ValidUtf8(rest)
  {
    var x: nat, y: nat, z: nat := s[0] - 0xE0, s[1] - 0x80, s[2] - 0x80;
    c, rest := x * 0x1000 + y * 0x40 + z, s[3..];
    ThreeBytes(x, y, z);
    assert s == [s[0], s[1], s[2]] + rest;
  }

  lemma FirstOfFour(s: seq<Byte>) returns (c: int, rest: seq<Byte>)
    requires ValidUtf8(s) && s != [] && 0xF0 <= s[0]
    ensures Scalar(c) && s == EncodeOne(c) + rest && ValidUtf8(rest)
  {
    var w: nat, x: nat, y: nat, z: nat := s[0] - 0xF0, s[1] - 0x80, s[2] - 0x80, s[3] - 0x80;
    c, rest := w * 0x4_0000 + x * 0x1000 + y * 0x40 + z, s[4..];
    FourBytes(w, x, y, z);
    assert s == [s[0], s[1], s[2], s[3]] + rest;
  }

  lemma SixBits(q: nat, r: nat)
    requires r < 0x40
    ensures (q * 0x40 + r) / 0x40 == q && (q * 0x40 + r) % 0x40 == r
  {
  }

  lemma DivideTwice(c: nat)
    ensures c / 0x1000 == c / 0x40 / 0x40 && c / 0x4_0000 == c / 0x40 / 0x40 / 0x40
  {
  }

  lemma ThreeBytes(x: nat, y: nat, z: nat)
    requires y < 0x40 && z < 0x40
    ensures var c := x * 0x1000 + y * 0x40 + z; c / 0x1000 == x && c / 0x40 % 0x40 == y && c % 0x40 == z
  {
    var c := x * 0x1000 + y * 0x40 + z;
    DivideTwice(c);
    SixBits(x * 0x40 + y, z);
    SixBits(x, y);
  }

  lemma FourBytes(w: nat, x: nat, y: nat, z: nat)
    requires x < 0x40 && y < 0x40 && z < 0x40
    ensures var c := w * 0x4_0000 + x * 0x1000 + y * 0x40 + z;
            c / 0x4_0000 == w && c / 0x1000 % 0x40 == x && c / 0x40 % 0x40 == y && c % 0x40 == z
  {
    var c := w * 0x4_0000 + x * 0x1000 + y * 0x40 + z;
    DivideTwice(c);
    SixBits(w * 0x1000 + x * 0x40 + y, z);
    SixBits(w * 0x40 + x, y);
    SixBits(w, x);
  }

  // A byte sequence is accepted exactly when it encodes some text of scalar values.
  lemma {:induction false} Utf8Exact(s: seq<Byte>)
    ensures ValidUtf8(s) <==> exists t: Text :: AllScalar(t) && Encode(t) == s
  {
    if ValidUtf8(s) { var t := Decoded(s); }
    forall t: Text | AllScalar(t) && Encode(t) == s ensures ValidUtf8(s) { EncodingValid(t); }
  }

  lemma {:induction false} Decoded(s: seq<Byte>) returns (t: Text)
    requires ValidUtf8(s)
    ensures AllScalar(t) && Encode(t) == s
    decreases |s|
  {
    if s == [] { return []; }
    var c, rest := FirstScalar(s);
    var more := Decoded(rest);
    t := [c] + more;
    assert t[1..] == more;
  }
}
