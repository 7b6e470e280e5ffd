// Little-endian fixed-width integers as struct.unpack reads them, their inverses, UTF-8 validity, ASCII literals,
// and the type of a byte, for the modules that work on files.
module Bytes {

  type Byte = x: int | 0 <= x < 256

  function Pow256(width: nat): (p: nat)
    ensures p > 0
  {
    if width == 0 then 1 else 256 * Pow256(width - 1)
  }

  // The value that struct.unpack("<B" / "<H" / "<I" / "<Q") gives for |s| = 1, 2, 4, 8.
  function Little(s: seq<Byte>): (n: nat)
    ensures n < Pow256(|s|)
  {
    if s == [] then 0 else s[0] + 256 * Little(s[1..])
  }

  function ToLittle(n: nat, width: nat): (s: seq<Byte>)
    requires n < Pow256(width)
    ensures |s| == width
  {
    if width == 0 then [] else [n % 256] + ToLittle(n / 256, width - 1)
  }

  lemma {:induction false} LittleOfToLittle(n: nat, width: nat)
    requires n < Pow256(width)
    ensures Little(ToLittle(n, width)) == n
  {
    if width > 0 {
      LittleOfToLittle(n / 256, width - 1);
      assert ToLittle(n, width)[1..] == ToLittle(n / 256, width - 1);
    }
  }

  lemma {:induction false} ToLittleOfLittle(s: seq<Byte>)
    ensures ToLittle(Little(s), |s|) == s
  {
    if s != [] {
      ToLittleOfLittle(s[1..]);
      var tail := Little(s[1..]);
      assert (s[0] + 256 * tail) % 256 == s[0] && (s[0] + 256 * tail) / 256 == tail;
      assert s == [s[0]] + s[1..];
    }
  }

  const LIMIT16: nat := 0x1_0000
  const LIMIT32: nat := 0x1_0000_0000
  const LIMIT64: nat := 0x1_0000_0000_0000_0000

  lemma WidthLimits()
    ensures Pow256(1) == 256 && Pow256(2) == LIMIT16
    ensures Pow256(4) == LIMIT32 && Pow256(8) == LIMIT64
  {
    assert Pow256(1) == 256 * Pow256(0);
    assert Pow256(2) == 256 * Pow256(1);
    assert Pow256(3) == 256 * Pow256(2);
    assert Pow256(4) == 256 * Pow256(3);
    assert Pow256(5) == 256 * Pow256(4);
    assert Pow256(6) == 256 * Pow256(5);
    assert Pow256(7) == 256 * Pow256(6);
    assert Pow256(8) == 256 * Pow256(7);
  }

  // A field of fixed width keeps the value modulo its range; callers show that nothing is lost.
  function U16(n: nat): (s: seq<Byte>)
    ensures |s| == 2 && Little(s) == n % LIMIT16
  {
    WidthLimits();
    LittleOfToLittle(n % LIMIT16, 2);
    ToLittle(n % LIMIT16, 2)
  }

  function U32(n: nat): (s: seq<Byte>)
    ensures |s| == 4 && Little(s) == n % LIMIT32
  {
    WidthLimits();
    LittleOfToLittle(n % LIMIT32, 4);
    ToLittle(n % LIMIT32, 4)
  }

  function U64(n: nat): (s: seq<Byte>)
    ensures |s| == 8 && Little(s) == n % LIMIT64
  {
    WidthLimits();
    LittleOfToLittle(n % LIMIT64, 8);
    ToLittle(n % LIMIT64, 8)
  }

  // Two, four or eight bytes denote exactly one integer, and that integer has only this encoding.
  lemma FixedWidthInverse(s: seq<Byte>)
    ensures |s| == 2 ==> Little(s) < LIMIT16 && U16(Little(s)) == s
    ensures |s| == 4 ==> Little(s) < LIMIT32 && U32(Little(s)) == s
    ensures |s| == 8 ==> Little(s) < LIMIT64 && U64(Little(s)) == s
  {
    hide Little, ToLittle, Pow256;
    WidthLimits();
    ToLittleOfLittle(s);
    var n := Little(s);
    assert n < Pow256(|s|);
    if |s| == 2 {
      assert n % LIMIT16 == n;
    } else if |s| == 4 {
      assert n % LIMIT32 == n;
    } else if |s| == 8 {
      assert n % LIMIT64 == n;
    }
  }

  // Two's complement reading of the same bytes ("<b", "<h", "<i", "<q").
  function SignedLittle(s: seq<Byte>): int
  {
    var n := Little(s);
    if 2 * n >= Pow256(|s|) then n - Pow256(|s|) else n
  }

  // The bytes of an ASCII literal.
  function Ascii(text: string): (s: seq<Byte>)
    ensures |s| == |text|
  {
    seq(|text|, i requires 0 <= i < |text| => text[i] as int % 256)
  }

  predicate Continuation(b: Byte) { 0x80 <= b <= 0xBF }

  // The byte sequences a strict UTF-8 decoder accepts (Unicode 15, table 3-7).
  // Strict decoding is injective, so accepted text is represented by its bytes.
  predicate ValidUtf8(s: seq<Byte>)
    decreases |s|
  {
    if s == [] then true
    else if s[0] < 0x80 then ValidUtf8(s[1..])
    else if 0xC2 <= s[0] <= 0xDF then
      |s| >= 2 && Continuation(s[1]) && ValidUtf8(s[2..])
    else if 0xE0 <= s[0] <= 0xEF then
      && |s| >= 3 && Continuation(s[1]) && Continuation(s[2])
      && (s[0] == 0xE0 ==> s[1] >= 0xA0)
      && (s[0] == 0xED ==> s[1] <= 0x9F)
      && ValidUtf8(s[3..])
    else if 0xF0 <= s[0] <= 0xF4 then
      && |s| >= 4 && Continuation(s[1]) && Continuation(s[2]) && Continuation(s[3])
      && (s[0] == 0xF0 ==> s[1] >= 0x90)
      && (s[0] == 0xF4 ==> s[1] <= 0x8F)
      && ValidUtf8(s[4..])
    else false
  }
}
