// Strict JSON as the corpus tools use it: a parser and the json.dumps printer.
module Json {
  import opened Collections

  datatype Value =
    | Null | True | False | Number(token: Text) | Str(text: Text)
    | Arr(items: seq<Value>) | Obj(members: seq<(Text, Value)>)

  type Result<T> = Option<(T, nat)>

  const QUOTE: int := 34
  const BACKSLASH: int := 92

  // ---------------------------------------------------------------- lexical pieces

  predicate IsSpace(c: int) { c == 32 || c == 9 || c == 10 || c == 13 }

  predicate IsDigit(c: int) { 48 <= c <= 57 }

  function SkipSpace(s: Text, pos: nat): (end: nat)
    ensures pos <= end && (pos <= |s| ==> end <= |s|)
    decreases |s| - pos
  {
    if pos < |s| && IsSpace(s[pos]) then SkipSpace(s, pos + 1) else pos
  }

  function SkipDigits(s: Text, pos: nat): (end: nat)
    ensures pos <= end && (pos <= |s| ==> end <= |s|)
    decreases |s| - pos
  {
    if pos < |s| && IsDigit(s[pos]) then SkipDigits(s, pos + 1) else pos
  }

  predicate At(s: Text, pos: nat, c: int) { pos < |s| && s[pos] == c }

  predicate Word(s: Text, pos: nat, word: Text) { pos + |word| <= |s| && s[pos..pos + |word|] == word }

  // -?(0|[1-9][0-9]*)(.[0-9]+)?([eE][+-]?[0-9]+)?
  function NumberEnd(s: Text, pos: nat): (end: Option<nat>)
    requires pos <= |s|
    ensures end.Some? ==> pos < end.value <= |s|
  {
    var start := if At(s, pos, 45) then pos + 1 else pos;
    if !(start < |s| && IsDigit(s[start])) then None else
    var whole := if s[start] == 48 then start + 1 else SkipDigits(s, start);
    var fraction := if At(s, whole, 46) && whole + 1 < |s| && IsDigit(s[whole + 1]) then SkipDigits(s, whole + 1) else whole;
    assert SkipDigits(s, start) > start;
    if !(At(s, fraction, 101) || At(s, fraction, 69)) then Some(fraction) else
    var sign := if At(s, fraction + 1, 43) || At(s, fraction + 1, 45) then fraction + 2 else fraction + 1;
    if sign < |s| && IsDigit(s[sign]) then Some(SkipDigits(s, sign)) else Some(fraction)
  }

  function HexValue(c: int): Option<nat>
  {
    if IsDigit(c) then Some(c - 48)
    else if 97 <= c <= 102 then Some(c - 87)
    else if 65 <= c <= 70 then Some(c - 55)
    else None
  }

  function Hex4(s: Text, pos: nat): Option<nat>
  {
    if pos + 4 > |s| then None else
    var a, b, c, d := HexValue(s[pos]), HexValue(s[pos + 1]), HexValue(s[pos + 2]), HexValue(s[pos + 3]);
    if a == None || b == None || c == None || d == None then None
    else Some(4096 * a.value + 256 * b.value + 16 * c.value + d.value)
  }

  function SimpleEscape(c: int): Option<int>
  {
    if c == QUOTE || c == BACKSLASH || c == 47 then Some(c)
    else if c == 98 then Some(8)
    else if c == 102 then Some(12)
    else if c == 110 then Some(10)
    else if c == 114 then Some(13)
    else if c == 116 then Some(9)
    else None
  }

  // One character of a string literal: the code point and where the next one starts. A high
  // surrogate escape takes a following low surrogate escape with it.
  function ScanChar(s: Text, pos: nat): (r: Result<int>)
    requires pos < |s|
    ensures r.Some? ==> pos < r.value.1 <= |s|
  {
    if s[pos] != BACKSLASH then if s[pos] < 32 then None else Some((s[pos], pos + 1))
    else if pos + 1 >= |s| then None
    else if s[pos + 1] != 117 then
      var simple := SimpleEscape(s[pos + 1]);
      if simple == None then None else Some((simple.value, pos + 2))
    else
      var high := Hex4(s, pos + 2);
      if high == None then None
      else if !(0xD800 <= high.value <= 0xDBFF && At(s, pos + 6, BACKSLASH) && At(s, pos + 7, 117)) then
        Some((high.value, pos + 6))
      else
        var low := Hex4(s, pos + 8);
        if low == None then None
        else if 0xDC00 <= low.value <= 0xDFFF then
          Some((0x10000 + (high.value - 0xD800) * 1024 + (low.value - 0xDC00), pos + 12))
        else Some((high.value, pos + 6))
  }

  // The rest of a string literal after its opening quote.
  function ScanString(s: Text, pos: nat): (r: Result<Text>)
    ensures r.Some? ==> pos < r.value.1 <= |s|
    decreases |s| - pos
  {
    if pos >= |s| then None
    else if s[pos] == QUOTE then Some(([], pos + 1))
    else
      var first := ScanChar(s, pos);
      if first == None then None else
      var rest := ScanString(s, first.value.1);
      if rest == None then None else Some(([first.value.0] + rest.value.0, rest.value.1))
  }

  // ---------------------------------------------------------------- values and documents

  function ParseValue(s: Text, pos: nat): (r: Result<Value>)
    ensures r.Some? ==> pos < r.value.1 <= |s|
    decreases |s| - pos, 0
  {
    if pos >= |s| then None
    else if s[pos] == QUOTE then
      var text := ScanString(s, pos + 1);
      if text == None then None else Some((Str(text.value.0), text.value.1))
    else if s[pos] == 123 then
      var start := SkipSpace(s, pos + 1);
      if At(s, start, 125) then Some((Obj([]), start + 1)) else
      var members := ParseMembers(s, start);
      if members == None || !UniqueKeys(members.value.0) then None else Some((Obj(members.value.0), members.value.1))
    else if s[pos] == 91 then
      var start := SkipSpace(s, pos + 1);
      if At(s, start, 93) then Some((Arr([]), start + 1)) else
      var items := ParseItems(s, start);
      if items == None then None else Some((Arr(items.value.0), items.value.1))
    else if Word(s, pos, Codes("null")) then Some((Null, pos + 4))
    else if Word(s, pos, Codes("true")) then Some((True, pos + 4))
    else if Word(s, pos, Codes("false")) then Some((False, pos + 5))
    else
      var end := NumberEnd(s, pos);
      if end == None then None else Some((Number(s[pos..end.value]), end.value))
  }

  // One or more items and the closing bracket.
  function ParseItems(s: Text, pos: nat): (r: Result<seq<Value>>)
    ensures r.Some? ==> pos < r.value.1 <= |s|
    decreases |s| - pos, 1
  {
    var first := ParseValue(s, pos);
    if first == None then None else
    var next := SkipSpace(s, first.value.1);
    if At(s, next, 93) then Some(([first.value.0], next + 1))
    else if !At(s, next, 44) then None
    else
      var rest := ParseItems(s, SkipSpace(s, next + 1));
      if rest == None then None else Some(([first.value.0] + rest.value.0, rest.value.1))
  }

  function ParseMember(s: Text, pos: nat): (r: Result<(Text, Value)>)
    ensures r.Some? ==> pos < r.value.1 <= |s|
    decreases |s| - pos, 1
  {
    if !At(s, pos, QUOTE) then None else
    var key := ScanString(s, pos + 1);
    if key == None then None else
    var colon := SkipSpace(s, key.value.1);
    if !At(s, colon, 58) then None else
    var value := ParseValue(s, SkipSpace(s, colon + 1));
    if value == None then None else Some(((key.value.0, value.value.0), value.value.1))
  }

  // One or more members and the closing brace.
  function ParseMembers(s: Text, pos: nat): (r: Result<seq<(Text, Value)>>)
    ensures r.Some? ==> pos < r.value.1 <= |s|
    decreases |s| - pos, 2
  {
    var first := ParseMember(s, pos);
    if first == None then None else
    var next := SkipSpace(s, first.value.1);
    if At(s, next, 125) then Some(([first.value.0], next + 1))
    else if !At(s, next, 44) then None
    else
      var rest := ParseMembers(s, SkipSpace(s, next + 1));
      if rest == None then None else Some(([first.value.0] + rest.value.0, rest.value.1))
  }

  predicate UniqueKeys(members: seq<(Text, Value)>)
  {
    forall i, j | 0 <= i < j < |members| :: members[i].0 != members[j].0
  }

  // The whole text is one value between white space; duplicate keys and NaN are refused.
  function Parse(s: Text): Option<Value>
  {
    var value := ParseValue(s, SkipSpace(s, 0));
    if value == None || SkipSpace(s, value.value.1) != |s| then None else Some(value.value.0)
  }

  // ---------------------------------------------------------------- printing

  function HexDigit(n: nat): int
    requires n < 16
  {
    if n < 10 then 48 + n else 87 + n
  }

  // json.dumps(..., ensure_ascii=False) of one character inside a string.
  function EscapeChar(c: int): Text
  {
    if c == QUOTE || c == BACKSLASH then [BACKSLASH, c]
    else if c == 8 then [BACKSLASH, 98]
    else if c == 12 then [BACKSLASH, 102]
    else if c == 10 then [BACKSLASH, 110]
    else if c == 13 then [BACKSLASH, 114]
    else if c == 9 then [BACKSLASH, 116]
    else if 0 <= c < 32 then [BACKSLASH, 117, 48, 48, HexDigit(c / 16), HexDigit(c % 16)]
    else [c]
  }

  function Escape(t: Text): Text
  {
    if t == [] then [] else EscapeChar(t[0]) + Escape(t[1..])
  }

  function Quote(t: Text): Text { [QUOTE] + (Escape(t) + [QUOTE]) }

  // White space after each comma and each colon: json.dumps writes one blank, or none.
  datatype Layout = Layout(afterComma: Text, afterColon: Text)
  {
    predicate Blank() { AllSpace(afterComma) && AllSpace(afterColon) }
  }

  predicate AllSpace(t: Text) { forall i | 0 <= i < |t| :: IsSpace(t[i]) }

  function Print(v: Value, l: Layout): Text
    decreases v
  {
    match v
    case Null => Codes("null")
    case True => Codes("true")
    case False => Codes("false")
    case Number(token) => token
    case Str(text) => Quote(text)
    case Arr(items) => if items == [] then [91, 93] else [91] + PrintItems(items, l)
    case Obj(members) => if members == [] then [123, 125] else [123] + PrintMembers(members, l)
  }

  function PrintItems(items: seq<Value>, l: Layout): Text
    requires items != []
    decreases items
  {
    if |items| == 1 then Print(items[0], l) + [93]
    else Print(items[0], l) + ([44] + (l.afterComma + PrintItems(items[1..], l)))
  }

  function PrintMember(member: (Text, Value), l: Layout): Text
    decreases member
  {
    Quote(member.0) + ([58] + (l.afterColon + Print(member.1, l)))
  }

  function PrintMembers(members: seq<(Text, Value)>, l: Layout): Text
    requires members != []
    decreases members
  {
    if |members| == 1 then PrintMember(members[0], l) + [125]
    else PrintMember(members[0], l) + ([44] + (l.afterComma + PrintMembers(members[1..], l)))
  }

  // ---------------------------------------------------------------- parsing a printed value

  // Values whose printed form is JSON: distinct keys, code points in every string. The only numbers
  // the tools print where this is used are natural.
  predicate Printable(v: Value)
    decreases v
  {
    match v
    case Number(token) => Natural(token)
    case Str(text) => CodePoints(text)
    case Arr(items) => PrintableItems(items)
    case Obj(members) => PrintableMembers(members) && UniqueKeys(members)
    case _ => true
  }

  predicate Natural(token: Text)
  {
    token == [48] || (token != [] && 49 <= token[0] <= 57 && forall i | 0 <= i < |token| :: IsDigit(token[i]))
  }

  // No number goes on at this position.
  predicate Stops(s: Text, pos: nat)
  {
    pos >= |s| || !(IsDigit(s[pos]) || s[pos] == 46 || s[pos] == 101 || s[pos] == 69)
  }

  predicate PrintableItems(items: seq<Value>)
    decreases items
  {
    items == [] || (Printable(items[0]) && PrintableItems(items[1..]))
  }

  predicate PrintableMembers(members: seq<(Text, Value)>)
    decreases members
  {
    members == [] || (PrintableMember(members[0]) && PrintableMembers(members[1..]))
  }

  predicate PrintableMember(member: (Text, Value))
    decreases member
  {
    CodePoints(member.0) && Printable(member.1)
  }

  predicate CodePoints(t: Text) { forall i | 0 <= i < |t| :: 0 <= t[i] < 0x110000 }

  lemma SpanAt(s: Text, pos: nat, part: Text)
    requires Spans(s, pos, pos + |part|, part)
    ensures forall i | 0 <= i < |part| :: s[pos + i] == part[i]
  {
    forall i | 0 <= i < |part| ensures s[pos + i] == part[i] {
      assert s[pos..pos + |part|][i] == part[i];
    }
  }

  lemma FirstOf(s: Text, pos: nat, part: Text)
    requires part != [] && Spans(s, pos, pos + |part|, part)
    ensures At(s, pos, part[0])
  {
    SpanAt(s, pos, part);
  }

  lemma NoSpace(s: Text, pos: nat)
    requires pos < |s| && !IsSpace(s[pos])
    ensures SkipSpace(s, pos) == pos
  {
  }

  lemma SpanIndex(s: Text, pos: nat, part: Text, i: nat)
    requires i < |part| && Spans(s, pos, pos + |part|, part)
    ensures s[pos + i] == part[i]
  {
    assert s[pos..pos + |part|][i] == part[i];
  }

  lemma ScanEscaped(s: Text, pos: nat, c: int)
    requires 0 <= c < 0x110000 && Spans(s, pos, pos + |EscapeChar(c)|, EscapeChar(c))
    ensures pos < |s| && s[pos] != QUOTE && ScanChar(s, pos) == Some((c, pos + |EscapeChar(c)|))
  {
    var e := EscapeChar(c);
    SpanIndex(s, pos, e, 0);
    if |e| > 1 { SpanIndex(s, pos, e, 1); }
    if |e| > 2 {
      SpanIndex(s, pos, e, 2);
      SpanIndex(s, pos, e, 3);
      SpanIndex(s, pos, e, 4);
      SpanIndex(s, pos, e, 5);
      assert Hex4(s, pos + 2) == Some(c);
    }
  }

  // Escaping and unescaping are inverse on every string.
  lemma {:induction false} ScanPrinted(s: Text, pos: nat, t: Text)
    requires CodePoints(t) && Spans(s, pos, pos + |Escape(t)| + 1, Escape(t) + [QUOTE])
    ensures ScanString(s, pos) == Some((t, pos + |Escape(t)| + 1))
    decreases |t|
  {
    hide ScanChar, EscapeChar;
    if t == [] {
      SpanAt(s, pos, [QUOTE]);
    } else {
      var first, rest := EscapeChar(t[0]), Escape(t[1..]) + [QUOTE];
      assert Escape(t) + [QUOTE] == first + rest;
      SpansConcat(s, pos, pos + |Escape(t)| + 1, first, rest);
      ScanEscaped(s, pos, t[0]);
      ScanPrinted(s, pos + |first|, t[1..]);
      assert t == [t[0]] + t[1..];
    }
  }

  lemma QuotePrinted(s: Text, pos: nat, t: Text)
    requires CodePoints(t) && Spans(s, pos, pos + |Quote(t)|, Quote(t))
    ensures At(s, pos, QUOTE) && ScanString(s, pos + 1) == Some((t, pos + |Quote(t)|))
  {
    hide ScanString, Escape, CodePoints;
    var e := Escape(t) + [QUOTE];
    assert |Quote(t)| == 1 + |e| && |e| == |Escape(t)| + 1;
    SpansConcat(s, pos, pos + |Quote(t)|, [QUOTE], e);
    SpanIndex(s, pos, [QUOTE], 0);
    ScanPrinted(s, pos + 1, t);
  }

  lemma {:induction false} SkipBlank(s: Text, pos: nat, blank: Text)
    requires AllSpace(blank) && Spans(s, pos, pos + |blank|, blank)
    requires pos + |blank| < |s| && !IsSpace(s[pos + |blank|])
    ensures SkipSpace(s, pos) == pos + |blank|
    decreases |blank|
  {
    SpanAt(s, pos, blank);
    if blank != [] {
      assert s[pos + 1..pos + |blank|] == s[pos..pos + |blank|][1..];
      SkipBlank(s, pos + 1, blank[1..]);
    }
  }

  // A printed value starts with a visible character.
  lemma PrintStarts(v: Value, l: Layout)
    requires Printable(v)
    ensures |Print(v, l)| > 0 && !IsSpace(Print(v, l)[0])
    ensures Print(v, l)[0] !in {93, 125, 44}
  {
  }

  lemma ParseConstant(s: Text, pos: nat, v: Value, l: Layout)
    requires v.Null? || v.True? || v.False?
    requires Spans(s, pos, pos + |Print(v, l)|, Print(v, l))
    ensures ParseValue(s, pos) == Some((v, pos + |Print(v, l)|))
  {
    hide ParseItems, ParseMembers, ScanString, NumberEnd;
    FirstOf(s, pos, Print(v, l));
    WordStarts(s, pos, Codes("null"));
    WordStarts(s, pos, Codes("true"));
    assert Word(s, pos, Print(v, l));
  }

  lemma WordStarts(s: Text, pos: nat, word: Text)
    ensures Word(s, pos, word) && word != [] ==> At(s, pos, word[0])
  {
    if Word(s, pos, word) && word != [] {
      assert s[pos..pos + |word|][0] == s[pos];
    }
  }

  lemma {:induction false} DigitsEnd(s: Text, pos: nat, end: nat)
    requires pos <= end <= |s| && (forall i | pos <= i < end :: IsDigit(s[i])) && Stops(s, end)
    ensures SkipDigits(s, pos) == end
    decreases end - pos
  {
    if pos < end { DigitsEnd(s, pos + 1, end); }
  }

  lemma ParseNatural(s: Text, pos: nat, token: Text)
    requires Natural(token) && Spans(s, pos, pos + |token|, token) && Stops(s, pos + |token|)
    ensures ParseValue(s, pos) == Some((Number(token), pos + |token|))
  {
    hide ParseItems, ParseMembers, ScanString;
    SpanAt(s, pos, token);
    WordStarts(s, pos, Codes("null"));
    WordStarts(s, pos, Codes("true"));
    WordStarts(s, pos, Codes("false"));
    forall i | pos <= i < pos + |token| ensures IsDigit(s[i]) { assert s[pos + (i - pos)] == token[i - pos]; }
    assert s[pos + 0] == token[0];
    if token != [48] { DigitsEnd(s, pos, pos + |token|); }
  }

  lemma ParsePrinted(s: Text, pos: nat, v: Value, l: Layout)
    requires l.Blank() && Printable(v) && Spans(s, pos, pos + |Print(v, l)|, Print(v, l))
    requires v.Number? ==> Stops(s, pos + |Print(v, l)|)
    ensures ParseValue(s, pos) == Some((v, pos + |Print(v, l)|))
    decreases v, 1
  {
    hide ScanString, ParseItems, ParseMembers, NumberEnd, Spans, PrintItems, PrintMembers, Quote, Word, SkipSpace,
         PrintableItems, PrintableMembers, UniqueKeys;
    match v
    case Str(text) => QuotePrinted(s, pos, text);
    case Number(token) => ParseNatural(s, pos, token);
    case Arr(_) => ParsePrintedArray(s, pos, v, l);
    case Obj(_) => ParsePrintedObject(s, pos, v, l);
    case _ => ParseConstant(s, pos, v, l);
  }

  lemma ParsePrintedArray(s: Text, pos: nat, v: Value, l: Layout)
    requires l.Blank() && v.Arr? && Printable(v) && Spans(s, pos, pos + |Print(v, l)|, Print(v, l))
    ensures ParseValue(s, pos) == Some((v, pos + |Print(v, l)|))
    decreases v, 0
  {
    hide ScanString, ParseItems, ParseMembers, NumberEnd, Spans, PrintItems, Word, SkipSpace, PrintableItems;
    var end := pos + |Print(v, l)|;
    FirstOf(s, pos, Print(v, l));
    if v.items == [] {
      assert Print(v, l) == [91] + [93];
      SpansConcat(s, pos, end, [91], [93]);
      FirstOf(s, pos + 1, [93]);
      NoSpace(s, pos + 1);
    } else {
      SpansConcat(s, pos, end, [91], PrintItems(v.items, l));
      ItemsStart(v.items, l);
      FirstOf(s, pos + 1, PrintItems(v.items, l));
      NoSpace(s, pos + 1);
      ParsePrintedItems(s, pos + 1, v.items, l);
    }
  }

  lemma ParsePrintedObject(s: Text, pos: nat, v: Value, l: Layout)
    requires l.Blank() && v.Obj? && Printable(v) && Spans(s, pos, pos + |Print(v, l)|, Print(v, l))
    ensures ParseValue(s, pos) == Some((v, pos + |Print(v, l)|))
    decreases v, 0
  {
    hide ScanString, ParseItems, ParseMembers, NumberEnd, Spans, PrintMembers, Word, SkipSpace, PrintableMembers, UniqueKeys;
    var end := pos + |Print(v, l)|;
    FirstOf(s, pos, Print(v, l));
    if v.members == [] {
      assert Print(v, l) == [123] + [125];
      SpansConcat(s, pos, end, [123], [125]);
      FirstOf(s, pos + 1, [125]);
      NoSpace(s, pos + 1);
    } else {
      SpansConcat(s, pos, end, [123], PrintMembers(v.members, l));
      MembersStart(v.members, l);
      FirstOf(s, pos + 1, PrintMembers(v.members, l));
      NoSpace(s, pos + 1);
      ParsePrintedMembers(s, pos + 1, v.members, l);
    }
  }

  lemma ItemsStart(items: seq<Value>, l: Layout)
    requires items != [] && PrintableItems(items)
    ensures |PrintItems(items, l)| > 0 && !IsSpace(PrintItems(items, l)[0])
    ensures PrintItems(items, l)[0] !in {93, 125, 44}
  {
    PrintStarts(items[0], l);
  }

  lemma MembersStart(members: seq<(Text, Value)>, l: Layout)
    requires members != []
    ensures |PrintMembers(members, l)| > 0 && PrintMembers(members, l)[0] == QUOTE
  {
  }

  lemma ItemsParts(items: seq<Value>, l: Layout)
    requires items != []
    ensures |items| == 1 ==> PrintItems(items, l) == Print(items[0], l) + [93]
    ensures |items| > 1 ==> PrintItems(items, l) == Print(items[0], l) + ([44] + (l.afterComma + PrintItems(items[1..], l)))
  {
    hide Print, PrintMember;
  }

  // A comma and the white space after it lead to the next visible character.
  lemma CommaSkips(s: Text, next: nat, blank: Text, rest: Text)
    requires AllSpace(blank) && rest != [] && !IsSpace(rest[0]) && Spans(s, next, next + 1, [44])
    requires Spans(s, next + 1, next + 1 + |blank|, blank)
    requires Spans(s, next + 1 + |blank|, next + 1 + |blank| + |rest|, rest)
    ensures At(s, next, 44) && SkipSpace(s, next) == next && SkipSpace(s, next + 1) == next + 1 + |blank|
  {
    hide SkipSpace, Spans;
    FirstOf(s, next, [44]);
    NoSpace(s, next);
    FirstOf(s, next + 1 + |blank|, rest);
    SkipBlank(s, next + 1, blank);
  }

  // Where the parts of a printed list stand.
  lemma ItemsSpans(s: Text, pos: nat, items: seq<Value>, l: Layout)
    requires items != [] && Spans(s, pos, pos + |PrintItems(items, l)|, PrintItems(items, l))
    ensures var first, end := Print(items[0], l), pos + |PrintItems(items, l)|;
            var next := pos + |first|;
            && Spans(s, pos, next, first)
            && (|items| == 1 ==> end == next + 1 && Spans(s, next, end, [93]))
            && (|items| > 1 ==>
                  var rest, after := PrintItems(items[1..], l), next + 1 + |l.afterComma|;
                  && end == after + |rest| && Spans(s, next, next + 1, [44])
                  && Spans(s, next + 1, after, l.afterComma) && Spans(s, after, end, rest))
  {
    hide Spans, Print, PrintMember, PrintItems;
    ItemsParts(items, l);
    var first, end := Print(items[0], l), pos + |PrintItems(items, l)|;
    var next := pos + |first|;
    if |items| == 1 {
      SpansConcat(s, pos, end, first, [93]);
    } else {
      var rest := PrintItems(items[1..], l);
      SpansConcat(s, pos, end, first, [44] + (l.afterComma + rest));
      SpansConcat(s, next, end, [44], l.afterComma + rest);
      SpansConcat(s, next + 1, end, l.afterComma, rest);
    }
  }

  lemma {:induction false} ParsePrintedItems(s: Text, pos: nat, items: seq<Value>, l: Layout)
    requires l.Blank() && items != [] && PrintableItems(items)
    requires Spans(s, pos, pos + |PrintItems(items, l)|, PrintItems(items, l))
    ensures ParseItems(s, pos) == Some((items, pos + |PrintItems(items, l)|))
    decreases items
  {
    hide ParseValue, Print, Printable, Spans, SkipSpace, PrintItems;
    var first := Print(items[0], l);
    var end, next := pos + |PrintItems(items, l)|, pos + |first|;
    ItemsSpans(s, pos, items, l);
    if |items| == 1 {
      FirstOf(s, next, [93]);
      ParsePrinted(s, pos, items[0], l);
      NoSpace(s, next);
      assert items == [items[0]];
    } else {
      var rest := PrintItems(items[1..], l);
      ItemsStart(items[1..], l);
      CommaSkips(s, next, l.afterComma, rest);
      ParsePrinted(s, pos, items[0], l);
      ParsePrintedItems(s, next + 1 + |l.afterComma|, items[1..], l);
      assert items == [items[0]] + items[1..];
    }
  }

  lemma ParsePrintedMember(s: Text, pos: nat, member: (Text, Value), l: Layout)
    requires l.Blank() && PrintableMember(member)
    requires Spans(s, pos, pos + |PrintMember(member, l)|, PrintMember(member, l))
    requires member.1.Number? ==> Stops(s, pos + |PrintMember(member, l)|)
    ensures ParseMember(s, pos) == Some((member, pos + |PrintMember(member, l)|))
    decreases member
  {
    hide ParseValue, Print, Printable, ScanString, Spans, SkipSpace, Quote;
    var end, colon := pos + |PrintMember(member, l)|, pos + |Quote(member.0)|;
    var value := Print(member.1, l);
    SpansConcat(s, pos, end, Quote(member.0), [58] + (l.afterColon + value));
    SpansConcat(s, colon, end, [58], l.afterColon + value);
    SpansConcat(s, colon + 1, end, l.afterColon, value);
    QuotePrinted(s, pos, member.0);
    FirstOf(s, colon, [58]);
    NoSpace(s, colon);
    PrintStarts(member.1, l);
    FirstOf(s, colon + 1 + |l.afterColon|, value);
    SkipBlank(s, colon + 1, l.afterColon);
    ParsePrinted(s, colon + 1 + |l.afterColon|, member.1, l);
  }

  lemma MembersParts(members: seq<(Text, Value)>, l: Layout)
    requires members != []
    ensures |members| == 1 ==> PrintMembers(members, l) == PrintMember(members[0], l) + [125]
    ensures |members| > 1 ==>
              PrintMembers(members, l)
              == PrintMember(members[0], l) + ([44] + (l.afterComma + PrintMembers(members[1..], l)))
  {
    hide Print, PrintMember;
  }

  // Where the parts of a printed list stand.
  lemma MembersSpans(s: Text, pos: nat, members: seq<(Text, Value)>, l: Layout)
    requires members != [] && Spans(s, pos, pos + |PrintMembers(members, l)|, PrintMembers(members, l))
    ensures var first, end := PrintMember(members[0], l), pos + |PrintMembers(members, l)|;
            var next := pos + |first|;
            && Spans(s, pos, next, first)
            && (|members| == 1 ==> end == next + 1 && Spans(s, next, end, [125]))
            && (|members| > 1 ==>
                  var rest, after := PrintMembers(members[1..], l), next + 1 + |l.afterComma|;
                  && end == after + |rest| && Spans(s, next, next + 1, [44])
                  && Spans(s, next + 1, after, l.afterComma) && Spans(s, after, end, rest))
  {
    hide Spans, Print, PrintMember, PrintMembers;
    MembersParts(members, l);
    var first, end := PrintMember(members[0], l), pos + |PrintMembers(members, l)|;
    var next := pos + |first|;
    if |members| == 1 {
      SpansConcat(s, pos, end, first, [125]);
    } else {
      var rest := PrintMembers(members[1..], l);
      SpansConcat(s, pos, end, first, [44] + (l.afterComma + rest));
      SpansConcat(s, next, end, [44], l.afterComma + rest);
      SpansConcat(s, next + 1, end, l.afterComma, rest);
    }
  }

  lemma {:induction false} ParsePrintedMembers(s: Text, pos: nat, members: seq<(Text, Value)>, l: Layout)
    requires l.Blank() && members != [] && PrintableMembers(members)
    requires Spans(s, pos, pos + |PrintMembers(members, l)|, PrintMembers(members, l))
    ensures ParseMembers(s, pos) == Some((members, pos + |PrintMembers(members, l)|))
    decreases members
  {
    hide ParseMember, PrintMember, PrintableMember, Spans, SkipSpace, PrintMembers;
    var first := PrintMember(members[0], l);
    var end, next := pos + |PrintMembers(members, l)|, pos + |first|;
    MembersSpans(s, pos, members, l);
    if |members| == 1 {
      FirstOf(s, next, [125]);
      ParsePrintedMember(s, pos, members[0], l);
      NoSpace(s, next);
      assert members == [members[0]];
    } else {
      var rest := PrintMembers(members[1..], l);
      MembersStart(members[1..], l);
      CommaSkips(s, next, l.afterComma, rest);
      ParsePrintedMember(s, pos, members[0], l);
      ParsePrintedMembers(s, next + 1 + |l.afterComma|, members[1..], l);
      assert members == [members[0]] + members[1..];
    }
  }

  // Parsing inverts printing on every printable value and in every layout.
  lemma ParsePrint(v: Value, l: Layout)
    requires l.Blank() && Printable(v)
    ensures Parse(Print(v, l)) == Some(v)
  {
    var s := Print(v, l);
    assert s[0..|s|] == s;
    PrintStarts(v, l);
    NoSpace(s, 0);
    ParsePrinted(s, 0, v, l);
  }

  // ---------------------------------------------------------------- strictness

  // No object anywhere in the value repeats a key.
  predicate WellKeyed(v: Value)
    decreases v
  {
    match v
    case Arr(items) => WellKeyedItems(items)
    case Obj(members) => UniqueKeys(members) && WellKeyedMembers(members)
    case _ => true
  }

  predicate WellKeyedItems(items: seq<Value>)
    decreases items
  {
    items == [] || (WellKeyed(items[0]) && WellKeyedItems(items[1..]))
  }

  predicate WellKeyedMembers(members: seq<(Text, Value)>)
    decreases members
  {
    members == [] || (WellKeyedMember(members[0]) && WellKeyedMembers(members[1..]))
  }

  predicate WellKeyedMember(member: (Text, Value))
    decreases member
  {
    WellKeyed(member.1)
  }

  lemma ParsedKeys(s: Text, pos: nat)
    ensures ParseValue(s, pos).Some? ==> WellKeyed(ParseValue(s, pos).value.0)
    decreases |s| - pos, 0
  {
    hide ScanString, NumberEnd, ParseItems, ParseMembers, SkipSpace, Word;
    if pos < |s| && s[pos] == 123 {
      ParsedMemberKeys(s, SkipSpace(s, pos + 1));
    } else if pos < |s| && s[pos] == 91 {
      ParsedItemKeys(s, SkipSpace(s, pos + 1));
    }
  }

  lemma ParsedItemKeys(s: Text, pos: nat)
    ensures ParseItems(s, pos).Some? ==> WellKeyedItems(ParseItems(s, pos).value.0)
    decreases |s| - pos, 1
  {
    hide ParseValue, SkipSpace, WellKeyed;
    ParsedKeys(s, pos);
    var first := ParseValue(s, pos);
    if first.Some? {
      var next := SkipSpace(s, first.value.1);
      if At(s, next, 44) {
        ParsedItemKeys(s, SkipSpace(s, next + 1));
      }
    }
  }

  lemma ParsedMemberKeys(s: Text, pos: nat)
    ensures ParseMembers(s, pos).Some? ==> WellKeyedMembers(ParseMembers(s, pos).value.0)
    decreases |s| - pos, 2
  {
    hide ParseValue, SkipSpace, WellKeyed, ScanString;
    if At(s, pos, QUOTE) {
      var key := ScanString(s, pos + 1);
      if key.Some? {
        ParsedKeys(s, SkipSpace(s, SkipSpace(s, key.value.1) + 1));
      }
    }
    var first := ParseMember(s, pos);
    if first.Some? {
      var next := SkipSpace(s, first.value.1);
      if At(s, next, 44) {
        ParsedMemberKeys(s, SkipSpace(s, next + 1));
      }
    }
  }

  // The strict parser never returns a value with a repeated key, at any depth.
  lemma ParseIsStrict(s: Text)
    ensures Parse(s).Some? ==> WellKeyed(Parse(s).value)
  {
    ParsedKeys(s, SkipSpace(s, 0));
  }
}
