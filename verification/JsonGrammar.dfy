// The grammar of JSON texts.
module JsonGrammar {
  import opened Collections
  import opened Json

  // ---------------------------------------------------------------- blanks and numbers

  ghost predicate Blank(s: Text, a: nat, b: nat)
  {
    a <= b <= |s| && forall i | a <= i < b :: s[i] == 32 || s[i] == 9 || s[i] == 10 || s[i] == 13
  }

  ghost predicate Digits(s: Text, a: nat, b: nat) { a < b <= |s| && forall i | a <= i < b :: 48 <= s[i] <= 57 }

  // No number goes on here: the end, white space, a comma or a closing bracket.
  ghost predicate Follows(s: Text, b: nat)
  {
    b == |s| || (b < |s| && (s[b] == 32 || s[b] == 9 || s[b] == 10 || s[b] == 13 || s[b] == 44 || s[b] == 93 || s[b] == 125))
  }

  ghost predicate Sign(s: Text, a: nat, p: nat) { p == a || (p == a + 1 && p <= |s| && s[a] == 45) }

  ghost predicate Whole(s: Text, p: nat, q: nat) { Digits(s, p, q) && (s[p] == 48 ==> q == p + 1) }

  ghost predicate Fraction(s: Text, q: nat, r: nat) { r == q || (q < |s| && s[q] == 46 && Digits(s, q + 1, r)) }

  ghost predicate Exponent(s: Text, r: nat, b: nat)
  {
    || b == r
    || (r < |s| && (s[r] == 101 || s[r] == 69)
        && (Digits(s, r + 1, b) || (r + 1 < |s| && (s[r + 1] == 43 || s[r + 1] == 45) && Digits(s, r + 2, b))))
  }

  // Section 6 of RFC 8259.
  ghost predicate NumberAt(s: Text, a: nat, b: nat)
  {
    exists p: nat, q: nat, r: nat :: Sign(s, a, p) && Whole(s, p, q) && Fraction(s, q, r) && Exponent(s, r, b)
  }

  lemma {:induction false} SkipDigitsStops(s: Text, pos: nat)
    requires pos <= |s|
    ensures var end := SkipDigits(s, pos);
            && (forall i | pos <= i < end :: 48 <= s[i] <= 57) && (end < |s| ==> !(48 <= s[end] <= 57))
    decreases |s| - pos
  {
    if pos < |s| && IsDigit(s[pos]) { SkipDigitsStops(s, pos + 1); }
  }

  lemma {:induction false} SkipDigitsIs(s: Text, pos: nat, end: nat)
    requires pos <= end <= |s| && (forall i | pos <= i < end :: 48 <= s[i] <= 57) && (end < |s| ==> !(48 <= s[end] <= 57))
    ensures SkipDigits(s, pos) == end
    decreases end - pos
  {
    if pos < end { SkipDigitsIs(s, pos + 1, end); }
  }

  lemma WholeFound(s: Text, p: nat)
    requires p < |s| && IsDigit(s[p])
    ensures Whole(s, p, if s[p] == 48 then p + 1 else SkipDigits(s, p))
  {
    SkipDigitsStops(s, p);
  }

  lemma FractionFound(s: Text, q: nat)
    requires q <= |s|
    ensures Fraction(s, q, if At(s, q, 46) && q + 1 < |s| && IsDigit(s[q + 1]) then SkipDigits(s, q + 1) else q)
  {
    if At(s, q, 46) && q + 1 < |s| && IsDigit(s[q + 1]) { SkipDigitsStops(s, q + 1); }
  }

  lemma ExponentFound(s: Text, r: nat)
    requires At(s, r, 101) || At(s, r, 69)
    ensures var sign := if At(s, r + 1, 43) || At(s, r + 1, 45) then r + 2 else r + 1;
            Exponent(s, r, if sign < |s| && IsDigit(s[sign]) then SkipDigits(s, sign) else r)
  {
    var sign := if At(s, r + 1, 43) || At(s, r + 1, 45) then r + 2 else r + 1;
    if sign < |s| && IsDigit(s[sign]) { SkipDigitsStops(s, sign); }
  }

  lemma NumberSound(s: Text, a: nat)
    requires a <= |s| && NumberEnd(s, a).Some?
    ensures NumberAt(s, a, NumberEnd(s, a).value)
  {
    hide SkipDigits, Whole, Fraction, Exponent;
    var p := if At(s, a, 45) then a + 1 else a;
    var q := if s[p] == 48 then p + 1 else SkipDigits(s, p);
    WholeFound(s, p);
    var r := if At(s, q, 46) && q + 1 < |s| && IsDigit(s[q + 1]) then SkipDigits(s, q + 1) else q;
    FractionFound(s, q);
    if At(s, r, 101) || At(s, r, 69) { ExponentFound(s, r); } else { NoExponent(s, r); }
    assert Sign(s, a, p) && Exponent(s, r, NumberEnd(s, a).value);
  }

  lemma NoExponent(s: Text, r: nat)
    ensures Exponent(s, r, r)
  {
  }

  lemma WholeTaken(s: Text, p: nat, q: nat)
    requires Whole(s, p, q) && (q < |s| ==> !IsDigit(s[q]))
    ensures p < |s| && IsDigit(s[p]) && q <= |s| && (if s[p] == 48 then p + 1 else SkipDigits(s, p)) == q
  {
    if s[p] != 48 { SkipDigitsIs(s, p, q); }
  }

  lemma FractionTaken(s: Text, q: nat, r: nat)
    requires q <= |s| && Fraction(s, q, r) && (r < |s| ==> !IsDigit(s[r])) && (r == q ==> !At(s, q, 46))
    ensures (if At(s, q, 46) && q + 1 < |s| && IsDigit(s[q + 1]) then SkipDigits(s, q + 1) else q) == r <= |s|
    ensures q < |s| ==> !IsDigit(s[q])
  {
    if r != q { SkipDigitsIs(s, q + 1, r); }
  }

  lemma ExponentTaken(s: Text, r: nat, b: nat)
    requires r <= |s| && Exponent(s, r, b) && Follows(s, b)
    ensures At(s, r, 101) || At(s, r, 69) ==>
              var sign := if At(s, r + 1, 43) || At(s, r + 1, 45) then r + 2 else r + 1;
              sign < |s| && IsDigit(s[sign]) && SkipDigits(s, sign) == b
    ensures !(At(s, r, 101) || At(s, r, 69)) ==> b == r
    ensures r < |s| ==> !IsDigit(s[r]) && s[r] != 46
  {
    if b != r { SkipDigitsIs(s, if Digits(s, r + 1, b) then r + 1 else r + 2, b); }
  }

  lemma NumberComplete(s: Text, a: nat, b: nat)
    requires a <= |s| && NumberAt(s, a, b) && Follows(s, b)
    ensures NumberEnd(s, a) == Some(b)
  {
    hide SkipDigits, Whole, Fraction, Exponent, Follows;
    var p: nat, q: nat, r: nat :| Sign(s, a, p) && Whole(s, p, q) && Fraction(s, q, r) && Exponent(s, r, b);
    NumberInside(s, p, q, r);
    ExponentTaken(s, r, b);
    FractionTaken(s, q, r);
    WholeTaken(s, p, q);
  }

  lemma NumberInside(s: Text, p: nat, q: nat, r: nat)
    requires Whole(s, p, q) && Fraction(s, q, r)
    ensures p < q <= r <= |s|
  {
  }

  // ---------------------------------------------------------------- strings

  ghost predicate HexIs(c: int, d: int)
  {
    (48 <= c <= 57 && d == c - 48) || (65 <= c <= 70 && d == c - 55) || (97 <= c <= 102 && d == c - 87)
  }

  // The six characters \uXXXX with this number.
  ghost predicate UnitAt(s: Text, a: nat, n: int)
  {
    && a + 6 <= |s| && s[a] == 92 && s[a + 1] == 117
    && exists w, x, y, z :: DigitsAre(s, a, w, x, y, z) && n == ((w * 16 + x) * 16 + y) * 16 + z
  }

  ghost predicate DigitsAre(s: Text, a: nat, w: int, x: int, y: int, z: int)
    requires a + 6 <= |s|
  {
    HexIs(s[a + 2], w) && HexIs(s[a + 3], x) && HexIs(s[a + 4], y) && HexIs(s[a + 5], z)
  }

  // The escapes of one letter: quote, backslash, slash, b, f, n, r, t.
  ghost predicate LetterMeans(e: int, c: int)
  {
    || (e == 34 && c == 34) || (e == 92 && c == 92) || (e == 47 && c == 47) || (e == 98 && c == 8)
    || (e == 102 && c == 12) || (e == 110 && c == 10) || (e == 114 && c == 13) || (e == 116 && c == 9)
  }

  // Two units that stand for one code point beyond U+FFFF.
  ghost predicate SurrogatesAt(s: Text, a: nat, high: int, low: int)
  {
    UnitAt(s, a, high) && UnitAt(s, a + 6, low) && 0xD800 <= high <= 0xDBFF && 0xDC00 <= low <= 0xDFFF
  }

  // One character: itself, an escape of one letter, a unit that does not begin a pair, or a pair of units.
  ghost predicate CharAt(s: Text, a: nat, m: nat, c: int)
  {
    || (m == a + 1 && m <= |s| && s[a] == c && c >= 32 && c != 34 && c != 92)
    || (m == a + 2 && m <= |s| && s[a] == 92 && LetterMeans(s[a + 1], c))
    || (m == a + 6 && UnitAt(s, a, c) && forall high, low :: !SurrogatesAt(s, a, high, low))
    || (m == a + 12 && exists high, low :: SurrogatesAt(s, a, high, low)
                                        && c == 0x10000 + (high - 0xD800) * 0x400 + (low - 0xDC00))
  }

  ghost predicate CharsAt(s: Text, a: nat, b: nat, t: Text)
    decreases t
  {
    if t == [] then a == b else exists m: nat :: m <= b && CharAt(s, a, m, t[0]) && CharsAt(s, m, b, t[1..])
  }

  // A string literal: quotes around the characters.
  ghost predicate StringAt(s: Text, a: nat, b: nat, t: Text)
  {
    a + 2 <= b <= |s| && s[a] == 34 && s[b - 1] == 34 && CharsAt(s, a + 1, b - 1, t)
  }

  lemma HexExact(c: int, d: int)
    ensures HexValue(c).Some? && HexValue(c).value == d <==> HexIs(c, d)
  {
  }

  lemma UnitExact(s: Text, a: nat, n: int)
    requires At(s, a, 92) && At(s, a + 1, 117)
    ensures Hex4(s, a + 2).Some? && Hex4(s, a + 2).value == n <==> UnitAt(s, a, n)
  {
    hide HexIs, HexValue;
    forall c, d ensures HexValue(c).Some? && HexValue(c).value == d <==> HexIs(c, d) { HexExact(c, d); }
    if Hex4(s, a + 2).Some? && Hex4(s, a + 2).value == n {
      var w, x, y, z := HexValue(s[a + 2]).value, HexValue(s[a + 3]).value, HexValue(s[a + 4]).value, HexValue(s[a + 5]).value;
      assert DigitsAre(s, a, w, x, y, z);
    }
  }

  lemma UnitUnique(s: Text, a: nat, m: int, n: int)
    requires UnitAt(s, a, m) && UnitAt(s, a, n)
    ensures m == n
  {
    hide UnitAt;
    assert At(s, a, 92) && At(s, a + 1, 117) by { UnitStarts(s, a, m); }
    UnitExact(s, a, m);
    UnitExact(s, a, n);
  }

  lemma UnitStarts(s: Text, a: nat, n: int)
    requires UnitAt(s, a, n)
    ensures a + 6 <= |s| && s[a] == 92 && s[a + 1] == 117
  {
  }

  lemma LetterExact(e: int, c: int)
    ensures SimpleEscape(e) == Some(c) <==> LetterMeans(e, c)
  {
  }

  lemma CharSound(s: Text, a: nat)
    requires a < |s| && s[a] != 34 && ScanChar(s, a).Some?
    ensures var (c, m) := ScanChar(s, a).value; CharAt(s, a, m, c)
  {
    hide UnitAt, LetterMeans, SimpleEscape, Hex4;
    var (c, m) := ScanChar(s, a).value;
    if s[a] == 92 && s[a + 1] != 117 { LetterExact(s[a + 1], c); }
    if s[a] == 92 && s[a + 1] == 117 {
      var high := Hex4(s, a + 2).value;
      UnitExact(s, a, high);
      forall h, l | SurrogatesAt(s, a, h, l)
        ensures h == high && At(s, a + 6, 92) && At(s, a + 7, 117) && Hex4(s, a + 8) != None && Hex4(s, a + 8).value == l
      {
        UnitUnique(s, a, h, high);
        UnitStarts(s, a + 6, l);
        UnitExact(s, a + 6, l);
      }
      if m == a + 12 {
        var low := Hex4(s, a + 8).value;
        UnitExact(s, a + 6, low);
        assert SurrogatesAt(s, a, high, low);
      }
    }
  }

  // In front of another character or the closing quote the scanner takes exactly this one.
  lemma CharComplete(s: Text, a: nat, m: nat, c: int)
    requires CharAt(s, a, m, c)
    requires At(s, m, 92) && At(s, m + 1, 117) ==> Hex4(s, m + 2).Some?
    ensures a < |s| && s[a] != 34 && ScanChar(s, a) == Some((c, m))
  {
    hide UnitAt, LetterMeans, SimpleEscape, Hex4;
    if m == a + 2 {
      LetterExact(s[a + 1], c);
      LetterNotU(s[a + 1], c);
    } else if m == a + 6 {
      UnitStarts(s, a, c);
      UnitExact(s, a, c);
      if At(s, m, 92) && At(s, m + 1, 117) {
        var low := Hex4(s, m + 2).value;
        UnitExact(s, m, low);
        assert !SurrogatesAt(s, a, c, low);
      }
    } else if m == a + 12 {
      var high, low :| SurrogatesAt(s, a, high, low) && c == 0x10000 + (high - 0xD800) * 0x400 + (low - 0xDC00);
      UnitStarts(s, a, high);
      UnitStarts(s, a + 6, low);
      UnitExact(s, a, high);
      UnitExact(s, a + 6, low);
    }
  }

  lemma LetterNotU(e: int, c: int)
    requires LetterMeans(e, c)
    ensures e != 117
  {
  }

  // A character that begins with \u has its four digits.
  lemma CharUnit(s: Text, a: nat, m: nat, c: int)
    requires CharAt(s, a, m, c)
    ensures a < |s| && s[a] != 34
    ensures At(s, a, 92) && At(s, a + 1, 117) ==> Hex4(s, a + 2).Some?
  {
    hide UnitAt, LetterMeans, Hex4;
    if m == a + 2 {
      LetterNotU(s[a + 1], c);
    } else if m == a + 6 {
      UnitStarts(s, a, c);
      UnitExact(s, a, c);
    } else if m == a + 12 {
      var high, low :| SurrogatesAt(s, a, high, low);
      UnitStarts(s, a, high);
      UnitExact(s, a, high);
    }
  }

  lemma {:induction false} CharsSound(s: Text, a: nat)
    requires ScanString(s, a).Some?
    ensures var (t, b) := ScanString(s, a).value; a < b <= |s| && s[b - 1] == 34 && CharsAt(s, a, b - 1, t)
    decreases |s| - a
  {
    hide ScanChar, CharAt;
    var (t, b) := ScanString(s, a).value;
    if s[a] != 34 {
      var (c, m) := ScanChar(s, a).value;
      CharSound(s, a);
      CharsSound(s, m);
      assert t == [c] + ScanString(s, m).value.0;
      assert t[1..] == ScanString(s, m).value.0;
    }
  }

  lemma {:induction false} CharsComplete(s: Text, a: nat, b: nat, t: Text)
    requires CharsAt(s, a, b, t) && b < |s| && s[b] == 34
    ensures ScanString(s, a) == Some((t, b + 1))
    ensures At(s, a, 92) && At(s, a + 1, 117) ==> Hex4(s, a + 2).Some?
    decreases t
  {
    hide ScanChar, CharAt, Hex4;
    if t != [] {
      var m: nat :| m <= b && CharAt(s, a, m, t[0]) && CharsAt(s, m, b, t[1..]);
      CharsComplete(s, m, b, t[1..]);
      CharComplete(s, a, m, t[0]);
      CharUnit(s, a, m, t[0]);
      assert t == [t[0]] + t[1..];
    }
  }

  lemma StringExact(s: Text, a: nat, b: nat, t: Text)
    requires At(s, a, 34)
    ensures ScanString(s, a + 1) == Some((t, b)) <==> StringAt(s, a, b, t)
  {
    hide ScanString, CharsAt, Hex4;
    if ScanString(s, a + 1) == Some((t, b)) { CharsSound(s, a + 1); }
    if StringAt(s, a, b, t) { CharsComplete(s, a + 1, b - 1, t); }
  }

  // ---------------------------------------------------------------- values

  ghost predicate NoKeyTwice(members: seq<(Text, Value)>)
  {
    forall i, j | 0 <= i < j < |members| :: members[i].0 != members[j].0
  }

  // The text from a to b is this value: sections 3 to 7 of RFC 8259, with every object's keys distinct and
  // without NaN and infinities.
  ghost predicate ValueAt(s: Text, a: nat, b: nat, v: Value)
    decreases v
  {
    && a < b <= |s|
    && match v
       case Null => s[a..b] == [110, 117, 108, 108]
       case True => s[a..b] == [116, 114, 117, 101]
       case False => s[a..b] == [102, 97, 108, 115, 101]
       case Number(token) => NumberAt(s, a, b) && s[a..b] == token
       case Str(text) => StringAt(s, a, b, text)
       case Arr(items) =>
         && a + 2 <= b && s[a] == 91 && s[b - 1] == 93
         && if items == [] then Blank(s, a + 1, b - 1) else ItemsAt(s, a + 1, b - 1, items)
       case Obj(members) =>
         && a + 2 <= b && s[a] == 123 && s[b - 1] == 125 && NoKeyTwice(members)
         && if members == [] then Blank(s, a + 1, b - 1) else MembersAt(s, a + 1, b - 1, members)
  }

  // Values between commas, white space around each.
  ghost predicate ItemsAt(s: Text, a: nat, b: nat, items: seq<Value>)
    requires items != []
    decreases items
  {
    exists x: nat, y: nat, z: nat ::
      && Blank(s, a, x) && ValueAt(s, x, y, items[0]) && Blank(s, y, z) && z <= b
      && if |items| == 1 then z == b else z < b && At(s, z, 44) && ItemsAt(s, z + 1, b, items[1..])
  }

  ghost predicate MembersAt(s: Text, a: nat, b: nat, members: seq<(Text, Value)>)
    requires members != []
    decreases members
  {
    exists x: nat, y: nat, z: nat ::
      && Blank(s, a, x) && MemberAt(s, x, y, members[0]) && Blank(s, y, z) && z <= b
      && if |members| == 1 then z == b else z < b && At(s, z, 44) && MembersAt(s, z + 1, b, members[1..])
  }

  // A key, a colon and a value, white space around the colon.
  ghost predicate MemberAt(s: Text, a: nat, b: nat, member: (Text, Value))
    decreases member
  {
    exists x: nat, y: nat, z: nat ::
      StringAt(s, a, x, member.0) && Blank(s, x, y) && At(s, y, 58) && BlankAfter(s, y, z) && ValueAt(s, z, b, member.1)
  }

  ghost predicate BlankAfter(s: Text, y: nat, z: nat) { Blank(s, y + 1, z) }

  // The whole text is one value, white space around it.
  ghost predicate JsonText(s: Text, v: Value)
  {
    exists a, b :: Blank(s, 0, a) && ValueAt(s, a, b, v) && Blank(s, b, |s|)
  }

  // ---------------------------------------------------------------- blanks

  lemma {:induction false} SkipSound(s: Text, a: nat)
    requires a <= |s|
    ensures Blank(s, a, SkipSpace(s, a))
    ensures SkipSpace(s, a) < |s| ==> !IsSpace(s[SkipSpace(s, a)])
    decreases |s| - a
  {
    if a < |s| && IsSpace(s[a]) { SkipSound(s, a + 1); }
  }

  lemma {:induction false} SkipComplete(s: Text, a: nat, b: nat)
    requires Blank(s, a, b) && (b < |s| ==> !IsSpace(s[b]))
    ensures SkipSpace(s, a) == b
    decreases b - a
  {
    if a < b { SkipComplete(s, a + 1, b); }
  }

  // A value begins with a visible character that closes nothing.
  lemma ValueStarts(s: Text, a: nat, b: nat, v: Value)
    requires ValueAt(s, a, b, v)
    ensures a < |s| && !IsSpace(s[a]) && s[a] != 93 && s[a] != 125
  {
    if v.Number? { NumberStarts(s, a, b); }
    if v.Null? || v.True? || v.False? { assert s[a] == s[a..b][0]; }
  }

  lemma NumberStarts(s: Text, a: nat, b: nat)
    requires NumberAt(s, a, b)
    ensures a < b <= |s| && (s[a] == 45 || 48 <= s[a] <= 57)
  {
    var p: nat, q: nat, r: nat :| Sign(s, a, p) && Whole(s, p, q) && Fraction(s, q, r) && Exponent(s, r, b);
  }

  // ---------------------------------------------------------------- the parser finds values

  lemma Words()
    ensures Codes("null") == [110, 117, 108, 108] && Codes("true") == [116, 114, 117, 101]
    ensures Codes("false") == [102, 97, 108, 115, 101]
  {
  }

  lemma ScalarSound(s: Text, a: nat)
    requires ParseValue(s, a).Some? && s[a] != 123 && s[a] != 91
    ensures var (v, b) := ParseValue(s, a).value; ValueAt(s, a, b, v)
  {
    hide ScanString, NumberEnd, StringAt, NumberAt, Codes;
    Words();
    var (v, b) := ParseValue(s, a).value;
    if s[a] == 34 {
      StringExact(s, a, b, v.text);
    } else if v.Number? {
      NumberSound(s, a);
    }
  }

  lemma ValueSound(s: Text, a: nat)
    requires ParseValue(s, a).Some?
    ensures var (v, b) := ParseValue(s, a).value; ValueAt(s, a, b, v)
    decreases |s| - a, 1
  {
    hide ScanString, NumberEnd, StringAt, NumberAt, ItemsAt, MembersAt, ParseItems, ParseMembers, SkipSpace, Word, Blank;
    if s[a] == 123 {
      ObjectSound(s, a);
    } else if s[a] == 91 {
      SkipSound(s, a + 1);
      var start := SkipSpace(s, a + 1);
      if !At(s, start, 93) {
        ItemsSound(s, start);
        var (items, end) := ParseItems(s, start).value;
        ItemsEarlier(s, a + 1, start, end - 1, items);
      }
    } else {
      ScalarSound(s, a);
    }
  }

  lemma ObjectSound(s: Text, a: nat)
    requires ParseValue(s, a).Some? && s[a] == 123
    ensures var (v, b) := ParseValue(s, a).value; ValueAt(s, a, b, v)
    decreases |s| - a, 0
  {
    hide ScanString, NumberEnd, StringAt, NumberAt, ItemsAt, MembersAt, ParseItems, ParseMembers, SkipSpace, Word, Blank;
    SkipSound(s, a + 1);
    var start := SkipSpace(s, a + 1);
    if !At(s, start, 125) {
      MembersSound(s, start);
      var (members, end) := ParseMembers(s, start).value;
      MembersEarlier(s, a + 1, start, end - 1, members);
    }
  }

  // More white space in front belongs to the first item.
  lemma BlankJoins(s: Text, a: nat, m: nat, x: nat)
    requires Blank(s, a, m) && Blank(s, m, x)
    ensures Blank(s, a, x)
  {
  }

  lemma ItemsEarlier(s: Text, a: nat, m: nat, b: nat, items: seq<Value>)
    requires items != [] && Blank(s, a, m) && ItemsAt(s, m, b, items)
    ensures ItemsAt(s, a, b, items)
  {
    hide Blank, ValueAt;
    var x: nat, y: nat, z: nat :|
      && Blank(s, m, x) && ValueAt(s, x, y, items[0]) && Blank(s, y, z) && z <= b
      && if |items| == 1 then z == b else z < b && At(s, z, 44) && ItemsAt(s, z + 1, b, items[1..]);
    BlankJoins(s, a, m, x);
  }

  lemma MembersEarlier(s: Text, a: nat, m: nat, b: nat, members: seq<(Text, Value)>)
    requires members != [] && Blank(s, a, m) && MembersAt(s, m, b, members)
    ensures MembersAt(s, a, b, members)
  {
    hide Blank, MemberAt;
    var x: nat, y: nat, z: nat :|
      && Blank(s, m, x) && MemberAt(s, x, y, members[0]) && Blank(s, y, z) && z <= b
      && if |members| == 1 then z == b else z < b && At(s, z, 44) && MembersAt(s, z + 1, b, members[1..]);
    BlankJoins(s, a, m, x);
  }

  lemma BlankHere(s: Text, a: nat)
    requires a <= |s|
    ensures Blank(s, a, a)
  {
  }

  lemma ItemsBuilt(s: Text, a: nat, y: nat, z: nat, b: nat, items: seq<Value>)
    requires items != [] && ValueAt(s, a, y, items[0]) && Blank(s, y, z) && a <= |s| && z <= b
    requires if |items| == 1 then z == b else z < b && At(s, z, 44) && ItemsAt(s, z + 1, b, items[1..])
    ensures ItemsAt(s, a, b, items)
  {
    hide ValueAt, Blank;
    BlankHere(s, a);
  }

  lemma ItemsSound(s: Text, a: nat)
    requires ParseItems(s, a).Some?
    ensures var (items, b) := ParseItems(s, a).value; items != [] && a < b <= |s| && s[b - 1] == 93 && ItemsAt(s, a, b - 1, items)
    decreases |s| - a, 2
  {
    hide ParseValue, ValueAt, SkipSpace, Blank, ItemsAt;
    var (items, b) := ParseItems(s, a).value;
    var (first, y) := ParseValue(s, a).value;
    ValueSound(s, a);
    SkipSound(s, y);
    var z := SkipSpace(s, y);
    if At(s, z, 93) {
      ItemsBuilt(s, a, y, z, z, items);
    } else {
      var next := SkipSpace(s, z + 1);
      SkipSound(s, z + 1);
      ItemsSound(s, next);
      var rest := ParseItems(s, next).value.0;
      ItemsEarlier(s, z + 1, next, b - 1, rest);
      assert items == [first] + rest && items[1..] == rest;
      ItemsBuilt(s, a, y, z, b - 1, items);
    }
  }

  lemma MemberSound(s: Text, a: nat)
    requires ParseMember(s, a).Some?
    ensures var (member, b) := ParseMember(s, a).value; MemberAt(s, a, b, member)
    decreases |s| - a, 2
  {
    hide ParseValue, ValueAt, SkipSpace, Blank, ScanString, StringAt;
    var (key, x) := ScanString(s, a + 1).value;
    StringExact(s, a, x, key);
    SkipSound(s, x);
    var y := SkipSpace(s, x);
    SkipSound(s, y + 1);
    var z := SkipSpace(s, y + 1);
    ValueSound(s, z);
    assert StringAt(s, a, x, key) && Blank(s, x, y) && At(s, y, 58) && BlankAfter(s, y, z);
  }

  lemma MembersBuilt(s: Text, a: nat, y: nat, z: nat, b: nat, members: seq<(Text, Value)>)
    requires members != [] && MemberAt(s, a, y, members[0]) && Blank(s, y, z) && a <= |s| && z <= b
    requires if |members| == 1 then z == b else z < b && At(s, z, 44) && MembersAt(s, z + 1, b, members[1..])
    ensures MembersAt(s, a, b, members)
  {
    hide MemberAt, Blank;
    BlankHere(s, a);
  }

  lemma MembersSound(s: Text, a: nat)
    requires ParseMembers(s, a).Some?
    ensures var (members, b) := ParseMembers(s, a).value;
            members != [] && a < b <= |s| && s[b - 1] == 125 && MembersAt(s, a, b - 1, members)
    decreases |s| - a, 3
  {
    hide ParseMember, MemberAt, SkipSpace, Blank, MembersAt;
    var (members, b) := ParseMembers(s, a).value;
    var (first, y) := ParseMember(s, a).value;
    MemberSound(s, a);
    SkipSound(s, y);
    var z := SkipSpace(s, y);
    if At(s, z, 125) {
      MembersBuilt(s, a, y, z, z, members);
    } else {
      var next := SkipSpace(s, z + 1);
      SkipSound(s, z + 1);
      MembersSound(s, next);
      var rest := ParseMembers(s, next).value.0;
      MembersEarlier(s, z + 1, next, b - 1, rest);
      assert members == [first] + rest && members[1..] == rest;
      MembersBuilt(s, a, y, z, b - 1, members);
    }
  }

  // ---------------------------------------------------------------- the parser finds every value

  // After white space comes a comma, a closing bracket or the end.
  lemma FollowsBlank(s: Text, y: nat, z: nat)
    requires Blank(s, y, z) && Follows(s, z)
    ensures Follows(s, y)
  {
  }

  lemma ScalarComplete(s: Text, a: nat, b: nat, v: Value)
    requires ValueAt(s, a, b, v) && !v.Arr? && !v.Obj? && Follows(s, b)
    ensures ParseValue(s, a) == Some((v, b))
  {
    hide ScanString, NumberEnd, StringAt, NumberAt, Codes;
    Words();
    if v.Str? {
      StringQuoted(s, a, b, v.text);
      StringExact(s, a, b, v.text);
    } else if v.Number? {
      NumberStarts(s, a, b);
      NumberComplete(s, a, b);
      WordStarts(s, a, Codes("null"));
      WordStarts(s, a, Codes("true"));
      WordStarts(s, a, Codes("false"));
    } else {
      assert s[a] == s[a..b][0];
      WordStarts(s, a, Codes("null"));
      WordStarts(s, a, Codes("true"));
      WordStarts(s, a, Codes("false"));
    }
  }

  lemma StringQuoted(s: Text, a: nat, b: nat, t: Text)
    requires StringAt(s, a, b, t)
    ensures At(s, a, 34)
  {
  }

  lemma ValueComplete(s: Text, a: nat, b: nat, v: Value)
    requires ValueAt(s, a, b, v) && Follows(s, b)
    ensures ParseValue(s, a) == Some((v, b))
    decreases v, 1
  {
    hide ScanString, NumberEnd, StringAt, NumberAt, ItemsAt, MembersAt, ParseItems, ParseMembers, SkipSpace, Word, Blank;
    if v.Arr? {
      if v.items == [] {
        SkipComplete(s, a + 1, b - 1);
      } else {
        ItemsComplete(s, a + 1, b - 1, v.items);
      }
    } else if v.Obj? {
      if v.members == [] {
        SkipComplete(s, a + 1, b - 1);
      } else {
        MembersComplete(s, a + 1, b - 1, v.members);
      }
    } else {
      ScalarComplete(s, a, b, v);
    }
  }

  lemma ItemsSplit(s: Text, a: nat, b: nat, items: seq<Value>) returns (x: nat, y: nat, z: nat)
    requires items != [] && ItemsAt(s, a, b, items)
    ensures Blank(s, a, x) && ValueAt(s, x, y, items[0]) && Blank(s, y, z) && z <= b
    ensures if |items| == 1 then z == b else z < b && At(s, z, 44) && ItemsAt(s, z + 1, b, items[1..])
  {
    hide Blank, ValueAt;
    x, y, z :|
      && Blank(s, a, x) && ValueAt(s, x, y, items[0]) && Blank(s, y, z) && z <= b
      && if |items| == 1 then z == b else z < b && At(s, z, 44) && ItemsAt(s, z + 1, b, items[1..]);
  }

  lemma ItemsComplete(s: Text, a: nat, b: nat, items: seq<Value>)
    requires items != [] && ItemsAt(s, a, b, items) && b < |s| && s[b] == 93
    ensures ParseItems(s, SkipSpace(s, a)) == Some((items, b + 1))
    ensures !At(s, SkipSpace(s, a), 93) && a <= |s|
    decreases items, 0
  {
    hide ParseValue, ValueAt, SkipSpace, Blank, ItemsAt;
    var x, y, z := ItemsSplit(s, a, b, items);
    ValueStarts(s, x, y, items[0]);
    BlankInside(s, a, x);
    SkipComplete(s, a, x);
    FollowsBlank(s, y, z);
    ValueComplete(s, x, y, items[0]);
    SkipComplete(s, y, z);
    if |items| == 1 {
      assert items == [items[0]];
    } else {
      ItemsComplete(s, z + 1, b, items[1..]);
      assert items == [items[0]] + items[1..];
    }
  }

  lemma BlankInside(s: Text, a: nat, x: nat)
    requires Blank(s, a, x)
    ensures a <= x <= |s|
  {
  }

  lemma MemberComplete(s: Text, a: nat, b: nat, member: (Text, Value))
    requires MemberAt(s, a, b, member) && Follows(s, b)
    ensures ParseMember(s, a) == Some((member, b))
    ensures a < |s| && s[a] == 34
    decreases member
  {
    hide ParseValue, ValueAt, SkipSpace, Blank, ScanString, StringAt;
    var x: nat, y: nat, z: nat :|
      StringAt(s, a, x, member.0) && Blank(s, x, y) && At(s, y, 58) && BlankAfter(s, y, z) && ValueAt(s, z, b, member.1);
    StringQuoted(s, a, x, member.0);
    StringExact(s, a, x, member.0);
    SkipComplete(s, x, y);
    ValueStarts(s, z, b, member.1);
    SkipComplete(s, y + 1, z);
    ValueComplete(s, z, b, member.1);
  }

  lemma MembersSplit(s: Text, a: nat, b: nat, members: seq<(Text, Value)>) returns (x: nat, y: nat, z: nat)
    requires members != [] && MembersAt(s, a, b, members)
    ensures Blank(s, a, x) && MemberAt(s, x, y, members[0]) && Blank(s, y, z) && z <= b
    ensures if |members| == 1 then z == b else z < b && At(s, z, 44) && MembersAt(s, z + 1, b, members[1..])
  {
    hide Blank, MemberAt;
    x, y, z :|
      && Blank(s, a, x) && MemberAt(s, x, y, members[0]) && Blank(s, y, z) && z <= b
      && if |members| == 1 then z == b else z < b && At(s, z, 44) && MembersAt(s, z + 1, b, members[1..]);
  }

  lemma MembersComplete(s: Text, a: nat, b: nat, members: seq<(Text, Value)>)
    requires members != [] && MembersAt(s, a, b, members) && b < |s| && s[b] == 125
    ensures ParseMembers(s, SkipSpace(s, a)) == Some((members, b + 1))
    ensures !At(s, SkipSpace(s, a), 125) && a <= |s|
    decreases members, 0
  {
    hide ParseMember, MemberAt, SkipSpace, Blank, MembersAt;
    var x, y, z := MembersSplit(s, a, b, members);
    BlankInside(s, a, x);
    FollowsBlank(s, y, z);
    MemberComplete(s, x, y, members[0]);
    SkipComplete(s, a, x);
    SkipComplete(s, y, z);
    if |members| == 1 {
      assert members == [members[0]];
    } else {
      MembersComplete(s, z + 1, b, members[1..]);
      assert members == [members[0]] + members[1..];
    }
  }

  // The strict parser reads exactly the JSON texts, each as the value it denotes.
  lemma ParseExact(s: Text, v: Value)
    ensures Parse(s) == Some(v) <==> JsonText(s, v)
  {
    hide ParseValue, ValueAt, SkipSpace, Blank;
    if Parse(s) == Some(v) {
      var a := SkipSpace(s, 0);
      var b := ParseValue(s, a).value.1;
      SkipSound(s, 0);
      ValueSound(s, a);
      SkipSound(s, b);
      assert Blank(s, 0, a) && ValueAt(s, a, b, v) && Blank(s, b, |s|);
    }
    if JsonText(s, v) {
      var a, b :| Blank(s, 0, a) && ValueAt(s, a, b, v) && Blank(s, b, |s|);
      ValueStarts(s, a, b, v);
      SkipComplete(s, 0, a);
      FollowsBlank(s, b, |s|);
      ValueComplete(s, a, b, v);
      SkipComplete(s, b, |s|);
    }
  }

  // ---------------------------------------------------------------- the printer, written out

  // The escapes of json.dumps; the other control characters as \u00 and two lower-case digits.
  lemma EscapesAre(c: int)
    ensures c == 34 ==> EscapeChar(c) == Codes("\\\"")
    ensures c == 92 ==> EscapeChar(c) == Codes("\\\\")
    ensures c == 8 ==> EscapeChar(c) == Codes("\\b")
    ensures c == 12 ==> EscapeChar(c) == Codes("\\f")
    ensures c == 10 ==> EscapeChar(c) == Codes("\\n")
    ensures c == 13 ==> EscapeChar(c) == Codes("\\r")
    ensures c == 9 ==> EscapeChar(c) == Codes("\\t")
    ensures c == 1 ==> EscapeChar(c) == Codes("\\u0001")
    ensures c == 11 ==> EscapeChar(c) == Codes("\\u000b")
    ensures c == 31 ==> EscapeChar(c) == Codes("\\u001f")
    ensures 0 <= c < 32 && c !in [8, 9, 10, 12, 13] ==> |EscapeChar(c)| == 6 && UnitAt(EscapeChar(c), 0, c)
    ensures 32 <= c && c != 34 && c != 92 ==> EscapeChar(c) == [c]
  {
    if 0 <= c < 32 && c !in [8, 9, 10, 12, 13] {
      var s := EscapeChar(c);
      assert DigitsAre(s, 0, 0, 0, c / 16, c % 16);
    }
  }

  // A text is quoted character by character.
  lemma {:induction false} QuotesAre(t: Text, u: Text)
    ensures Escape(t + u) == Escape(t) + Escape(u) && Quote(t) == [34] + Escape(t) + [34]
  {
    hide EscapeChar;
    if t == [] {
      assert t + u == u;
    } else {
      QuotesAre(t[1..], u);
      assert (t + u)[1..] == t[1..] + u;
    }
  }

  // {"a": [1, "b"]} with a blank after each comma and colon, {"a":[1,"b"]} without.
  lemma PrintedExample(l: Layout)
    ensures Print(Obj([([97], Arr([Number([49]), Str([98])]))]), l)
         == [123] + ([34, 97, 34]
                    + ([58] + (l.afterColon + ([91] + ([49] + ([44] + (l.afterComma + ([34, 98, 34] + [93]))))))) + [125])
  {
    var items := [Number([49]), Str([98])];
    OneQuoted(97);
    OneQuoted(98);
    assert items[1..] == [Str([98])];
    ItemsParts(items, l);
    ItemsParts(items[1..], l);
  }

  lemma OneQuoted(c: int)
    requires 32 <= c && c != 34 && c != 92
    ensures Quote([c]) == [34, c, 34]
  {
    assert [c][1..] == [];
    assert Escape([c]) == EscapeChar(c) + Escape([]);
  }
}
