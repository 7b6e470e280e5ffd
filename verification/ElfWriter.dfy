// A writer of ELF64 images, and the proof that the reader gives back what was written: names, search paths and
// the interpreter.
module ElfWriter {
  import opened Bytes
  import opened Collections
  import opened ElfReader

  // What the reader does not look at: unused header fields and the entries after DT_NULL.
  datatype Filler = Filler(ident: seq<Byte>, middle: seq<Byte>, sections: seq<Byte>, trailing: seq<Tag>)
  {
    predicate Fits() { |ident| == 26 && |middle| == 14 && |sections| == 6 }
  }

  // Names hold no NUL and path components no colon; the search paths are absent or nonempty lists.
  predicate Writable(facts: Facts)
  {
    && (forall i | 0 <= i < |facts.needed| :: 0 !in facts.needed[i])
    && Components(facts.rpath) && Components(facts.runpath)
  }

  predicate Components(parts: seq<seq<Byte>>)
  {
    forall i | 0 <= i < |parts| :: 0 !in parts[i] && COLON !in parts[i]
  }

  // ---------------------------------------------------------------- the string table

  function Join(parts: seq<seq<Byte>>): seq<Byte>
    requires parts != []
  {
    if |parts| == 1 then parts[0] else parts[0] + [COLON] + Join(parts[1..])
  }

  function PathTexts(parts: seq<seq<Byte>>): seq<seq<Byte>>
  {
    if parts == [] then [] else [Join(parts)]
  }

  // The texts of the table, each followed by its NUL.
  function Terminate(texts: seq<seq<Byte>>): seq<Byte>
  {
    if texts == [] then [] else Terminate(texts[..|texts| - 1]) + (texts[|texts| - 1] + [0])
  }

  function OffsetsIn(texts: seq<seq<Byte>>, start: nat): (r: seq<nat>)
    ensures |r| == |texts|
  {
    if texts == [] then [] else
    var before := texts[..|texts| - 1];
    OffsetsIn(before, start) + [start + |Terminate(before)|]
  }

  function Strings(facts: Facts): seq<Byte>
  {
    [0] + (Terminate(facts.needed) + (Terminate(PathTexts(facts.rpath)) + Terminate(PathTexts(facts.runpath))))
  }

  function RpathStart(facts: Facts): nat { 1 + |Terminate(facts.needed)| }

  function RunpathStart(facts: Facts): nat { RpathStart(facts) + |Terminate(PathTexts(facts.rpath))| }

  // ---------------------------------------------------------------- tables of numbers

  function TagList(tag: nat, values: seq<nat>): (r: seq<Tag>)
    ensures |r| == |values|
  {
    seq(|values|, i requires 0 <= i < |values| => Tag(tag, values[i]))
  }

  function TagsFor(facts: Facts, address: nat): seq<Tag>
  {
    TagList(NEEDED, OffsetsIn(facts.needed, 1))
    + (TagList(RPATH, OffsetsIn(PathTexts(facts.rpath), RpathStart(facts)))
       + (TagList(RUNPATH, OffsetsIn(PathTexts(facts.runpath), RunpathStart(facts)))
          + [Tag(STRTAB, address), Tag(STRSZ, |Strings(facts)|)]))
  }

  function EmitTags(tags: seq<Tag>): (r: seq<Byte>)
    ensures |r| == 16 * |tags|
  {
    if tags == [] then [] else (U64(tags[0].tag) + U64(tags[0].value)) + EmitTags(tags[1..])
  }

  function EmitHeader(h: ProgramHeader): (r: seq<Byte>)
    ensures |r| == 56
  {
    U32(h.kind) + (U32(h.flags) + (U64(h.offset) + (U64(h.address)
    + (U64(h.physical) + (U64(h.fileSize) + (U64(h.memorySize) + U64(h.align)))))))
  }

  function EmitHeaders(headers: seq<ProgramHeader>): (r: seq<Byte>)
    ensures |r| == 56 * |headers|
  {
    if headers == [] then [] else EmitHeaders(headers[..|headers| - 1]) + EmitHeader(headers[|headers| - 1])
  }

  // ---------------------------------------------------------------- the image

  function InterpreterBytes(facts: Facts): seq<Byte>
  {
    if facts.interpreter.Some? then facts.interpreter.value + [0] else []
  }

  function HeaderCount(facts: Facts): nat { if facts.interpreter.Some? then 3 else 2 }

  function InterpreterStart(facts: Facts): nat { 64 + 56 * HeaderCount(facts) }

  function StringsStart(facts: Facts): nat { InterpreterStart(facts) + |InterpreterBytes(facts)| }

  function DynamicStart(facts: Facts): nat { StringsStart(facts) + |Strings(facts)| }

  function AllTags(facts: Facts, base: nat, filler: Filler): seq<Tag>
  {
    TagsFor(facts, base + StringsStart(facts)) + ([Tag(0, 0)] + filler.trailing)
  }

  function ImageSize(facts: Facts, base: nat, filler: Filler): nat
  {
    DynamicStart(facts) + 16 * |AllTags(facts, base, filler)|
  }

  // PT_INTERP when there is one, a PT_LOAD that maps the whole file at base, and PT_DYNAMIC.
  function Headers(facts: Facts, base: nat, filler: Filler): (r: seq<ProgramHeader>)
    ensures |r| == HeaderCount(facts)
  {
    var size := ImageSize(facts, base, filler);
    var dynamic := 16 * |AllTags(facts, base, filler)|;
    (if facts.interpreter.Some?
     then [ProgramHeader(INTERP, 4, InterpreterStart(facts), base, base, |InterpreterBytes(facts)|, 0, 1)]
     else [])
    + [ProgramHeader(LOAD, 5, 0, base, base, size, size, 4096),
       ProgramHeader(DYNAMIC, 6, DynamicStart(facts), base, base, dynamic, dynamic, 8)]
  }

  function FileHeader(count: nat, filler: Filler): seq<Byte>
  {
    ELF_MAGIC + ([2, 1] + (filler.ident + (U64(64) + (filler.middle + (U16(56) + (U16(count) + filler.sections))))))
  }

  function Image(facts: Facts, base: nat, filler: Filler): seq<Byte>
  {
    FileHeader(HeaderCount(facts), filler)
    + (EmitHeaders(Headers(facts, base, filler))
       + (InterpreterBytes(facts)
          + (Strings(facts) + EmitTags(AllTags(facts, base, filler)))))
  }

  // ---------------------------------------------------------------- reading the pieces back

  lemma {:induction false} IndexOfExact(s: seq<Byte>, b: Byte, from: nat, k: nat)
    requires from <= k < |s| && s[k] == b && b !in s[from..k]
    ensures IndexOf(s, b, from) == Some(k)
    decreases k - from
  {
    if from < k {
      assert s[from..k] == [s[from]] + s[from + 1..k];
      IndexOfExact(s, b, from + 1, k);
    }
  }

  lemma {:induction false} SplitJoin(parts: seq<seq<Byte>>)
    requires parts != [] && forall i | 0 <= i < |parts| :: COLON !in parts[i]
    ensures Split(Join(parts)) == parts
  {
    hide Join, IndexOf;
    var text := Join(parts);
    if |parts| == 1 {
      JoinOne(parts);
      assert text[0..] == text;
      assert parts == [parts[0]];
    } else {
      JoinMore(parts);
      IndexOfExact(text, COLON, 0, |parts[0]|);
      SplitJoin(parts[1..]);
      assert parts == [parts[0]] + parts[1..];
    }
  }

  lemma JoinOne(parts: seq<seq<Byte>>)
    requires |parts| == 1
    ensures Join(parts) == parts[0]
  {
  }

  // The first part, a colon, the rest.
  lemma JoinMore(parts: seq<seq<Byte>>)
    requires |parts| > 1
    ensures var text, k := Join(parts), |parts[0]|;
            k < |text| && text[k] == COLON && text[..k] == text[0..k] == parts[0] && text[k + 1..] == Join(parts[1..])
  {
    hide Join;
    var head, rest := parts[0] + [COLON], Join(parts[1..]);
    assert Join(parts) == head + rest by { JoinStep(parts); }
    assert head[..|parts[0]|] == parts[0];
    assert (head + rest)[..|parts[0]|] == head[..|parts[0]|];
    assert (head + rest)[|head|..] == rest;
  }

  lemma JoinStep(parts: seq<seq<Byte>>)
    requires |parts| > 1
    ensures Join(parts) == parts[0] + [COLON] + Join(parts[1..])
  {
  }

  lemma PathRoundTrip(parts: seq<seq<Byte>>)
    requires Components(parts)
    ensures SplitAll(PathTexts(parts)) == parts
  {
    if parts != [] {
      SplitJoin(parts);
      var texts := PathTexts(parts);
      assert texts[..0] == [];
      assert [] + parts == parts;
    }
  }

  lemma {:induction false} JoinClean(parts: seq<seq<Byte>>)
    requires parts != [] && Components(parts)
    ensures 0 !in Join(parts)
  {
    if |parts| > 1 { JoinClean(parts[1..]); }
  }

  lemma {:induction false} TextsRoundTrip(strings: seq<Byte>, texts: seq<seq<Byte>>, start: nat)
    requires forall i | 0 <= i < |texts| :: 0 !in texts[i]
    requires Spans(strings, start, start + |Terminate(texts)|, Terminate(texts))
    ensures TextsAt(strings, OffsetsIn(texts, start)) == Some(texts)
  {
    hide Spans, TextAt;
    if texts != [] {
      var n := |texts| - 1;
      var before, last := texts[..n], texts[n];
      var offset := start + |Terminate(before)|;
      SpansConcat(strings, start, start + |Terminate(texts)|, Terminate(before), last + [0]);
      TextsRoundTrip(strings, before, start);
      TextRoundTrip(strings, offset, last);
      var offsets := OffsetsIn(texts, start);
      assert offsets[..n] == OffsetsIn(before, start);
      assert texts == before + [last];
    }
  }

  lemma TextRoundTrip(strings: seq<Byte>, offset: nat, text: seq<Byte>)
    requires 0 !in text && Spans(strings, offset, offset + |text| + 1, text + [0])
    ensures TextAt(strings, offset) == Some(text)
  {
    SpansConcat(strings, offset, offset + |text| + 1, text, [0]);
    assert strings[offset + |text|] == strings[offset + |text|..offset + |text| + 1][0];
    IndexOfExact(strings, 0, offset, offset + |text|);
  }

  // A number below the range of its field reads back.
  lemma NumberAt(raw: seq<Byte>, pos: nat, n: nat)
    ensures n < LIMIT64 && Spans(raw, pos, pos + 8, U64(n)) ==> Little(raw[pos..pos + 8]) == n
    ensures n < LIMIT32 && Spans(raw, pos, pos + 4, U32(n)) ==> Little(raw[pos..pos + 4]) == n
    ensures n < LIMIT16 && Spans(raw, pos, pos + 2, U16(n)) ==> Little(raw[pos..pos + 2]) == n
  {
    hide Little, U16, U32, U64;
    assert n < LIMIT64 ==> n % LIMIT64 == n;
    assert n < LIMIT32 ==> n % LIMIT32 == n;
    assert n < LIMIT16 ==> n % LIMIT16 == n;
  }

  predicate HeaderFits(h: ProgramHeader)
  {
    && h.kind < LIMIT32 && h.flags < LIMIT32 && h.offset < LIMIT64 && h.address < LIMIT64
    && h.physical < LIMIT64 && h.fileSize < LIMIT64 && h.memorySize < LIMIT64 && h.align < LIMIT64
  }

  lemma HeaderRoundTrip(raw: seq<Byte>, pos: nat, h: ProgramHeader)
    requires HeaderFits(h) && Spans(raw, pos, pos + 56, EmitHeader(h))
    ensures pos + 56 <= |raw| && HeaderAt(raw, pos) == h
  {
    hide U32, U64, Little, Spans;
    var g := U64(h.align);
    var f := U64(h.memorySize) + g;
    var e := U64(h.fileSize) + f;
    var d := U64(h.physical) + e;
    var c := U64(h.address) + d;
    var b := U64(h.offset) + c;
    var a := U32(h.flags) + b;
    SpansConcat(raw, pos, pos + 56, U32(h.kind), a);
    SpansConcat(raw, pos + 4, pos + 56, U32(h.flags), b);
    SpansConcat(raw, pos + 8, pos + 56, U64(h.offset), c);
    SpansConcat(raw, pos + 16, pos + 56, U64(h.address), d);
    SpansConcat(raw, pos + 24, pos + 56, U64(h.physical), e);
    SpansConcat(raw, pos + 32, pos + 56, U64(h.fileSize), f);
    SpansConcat(raw, pos + 40, pos + 56, U64(h.memorySize), g);
    NumberAt(raw, pos, h.kind);
    NumberAt(raw, pos + 4, h.flags);
    NumberAt(raw, pos + 8, h.offset);
    NumberAt(raw, pos + 16, h.address);
    NumberAt(raw, pos + 24, h.physical);
    NumberAt(raw, pos + 32, h.fileSize);
    NumberAt(raw, pos + 40, h.memorySize);
    NumberAt(raw, pos + 48, h.align);
  }

  lemma {:induction false} HeadersRoundTrip(raw: seq<Byte>, pos: nat, headers: seq<ProgramHeader>)
    requires forall i | 0 <= i < |headers| :: HeaderFits(headers[i])
    requires Spans(raw, pos, pos + 56 * |headers|, EmitHeaders(headers))
    ensures pos + 56 * |headers| <= |raw| && HeadersAt(raw, pos, |headers|) == headers
  {
    hide EmitHeader, HeaderAt, HeaderFits, Spans;
    if headers != [] {
      var n := |headers| - 1;
      SpansConcat(raw, pos, pos + 56 * |headers|, EmitHeaders(headers[..n]), EmitHeader(headers[n]));
      HeadersRoundTrip(raw, pos, headers[..n]);
      HeaderRoundTrip(raw, pos + 56 * n, headers[n]);
      assert headers == headers[..n] + [headers[n]];
    }
  }

  lemma {:induction false} TagsRoundTrip(raw: seq<Byte>, pos: nat, tags: seq<Tag>, trailing: seq<Tag>)
    requires forall i | 0 <= i < |tags| :: 0 < tags[i].tag < LIMIT64 && tags[i].value < LIMIT64
    requires var all := tags + ([Tag(0, 0)] + trailing);
             Spans(raw, pos, pos + 16 * |all|, EmitTags(all))
    ensures var count := |tags| + 1 + |trailing|;
            pos + 16 * count <= |raw| && TagsAt(raw, pos, count) == tags
    decreases |tags|
  {
    hide U64, Little, Spans;
    var all := tags + ([Tag(0, 0)] + trailing);
    var first := all[0];
    SpansConcat(raw, pos, pos + 16 * |all|, U64(first.tag) + U64(first.value), EmitTags(all[1..]));
    SpansConcat(raw, pos, pos + 16, U64(first.tag), U64(first.value));
    NumberAt(raw, pos, first.tag);
    NumberAt(raw, pos + 8, first.value);
    if tags != [] {
      assert all[1..] == tags[1..] + ([Tag(0, 0)] + trailing);
      TagsRoundTrip(raw, pos + 16, tags[1..], trailing);
      assert tags == [tags[0]] + tags[1..];
    }
  }

  lemma {:induction false} ValuesConcat(a: seq<Tag>, b: seq<Tag>, tag: nat)
    ensures ValuesOf(a + b, tag) == ValuesOf(a, tag) + ValuesOf(b, tag)
  {
    if a == [] {
      assert a + b == b;
    } else {
      var head := if a[0].tag == tag then [a[0].value] else [];
      assert (a + b)[1..] == a[1..] + b;
      ValuesConcat(a[1..], b, tag);
      assert head + (ValuesOf(a[1..], tag) + ValuesOf(b, tag)) == (head + ValuesOf(a[1..], tag)) + ValuesOf(b, tag);
    }
  }

  lemma {:induction false} ValuesOfList(tag: nat, values: seq<nat>, wanted: nat)
    ensures ValuesOf(TagList(tag, values), wanted) == if tag == wanted then values else []
  {
    if values != [] {
      assert TagList(tag, values)[1..] == TagList(tag, values[1..]);
      ValuesOfList(tag, values[1..], wanted);
      assert values == [values[0]] + values[1..];
    }
  }

  lemma ValuesOfTwo(a: Tag, b: Tag, wanted: nat)
    ensures ValuesOf([a, b], wanted)
         == (if a.tag == wanted then [a.value] else []) + if b.tag == wanted then [b.value] else []
  {
    assert [a, b][1..] == [b] && [b][1..] == [];
    assert ValuesOf([b], wanted) == if b.tag == wanted then [b.value] else [];
  }

  lemma ValuesOfTags(facts: Facts, address: nat, wanted: nat)
    ensures ValuesOf(TagsFor(facts, address), wanted)
         == if wanted == NEEDED then OffsetsIn(facts.needed, 1)
            else if wanted == RPATH then OffsetsIn(PathTexts(facts.rpath), RpathStart(facts))
            else if wanted == RUNPATH then OffsetsIn(PathTexts(facts.runpath), RunpathStart(facts))
            else if wanted == STRTAB then [address]
            else if wanted == STRSZ then [|Strings(facts)|]
            else []
  {
    hide OffsetsIn, Strings, TagList, ValuesOf;
    var a := TagList(NEEDED, OffsetsIn(facts.needed, 1));
    var b := TagList(RPATH, OffsetsIn(PathTexts(facts.rpath), RpathStart(facts)));
    var c := TagList(RUNPATH, OffsetsIn(PathTexts(facts.runpath), RunpathStart(facts)));
    var d := [Tag(STRTAB, address), Tag(STRSZ, |Strings(facts)|)];
    ValuesConcat(a, b + (c + d), wanted);
    ValuesConcat(b, c + d, wanted);
    ValuesConcat(c, d, wanted);
    ValuesOfList(NEEDED, OffsetsIn(facts.needed, 1), wanted);
    ValuesOfList(RPATH, OffsetsIn(PathTexts(facts.rpath), RpathStart(facts)), wanted);
    ValuesOfList(RUNPATH, OffsetsIn(PathTexts(facts.runpath), RunpathStart(facts)), wanted);
    ValuesOfTwo(Tag(STRTAB, address), Tag(STRSZ, |Strings(facts)|), wanted);
  }

  // ---------------------------------------------------------------- the round trip

  ghost predicate Addressable(facts: Facts, base: nat, filler: Filler)
  {
    filler.Fits() && Writable(facts) && base + ImageSize(facts, base, filler) < LIMIT64
  }

  lemma FileHeaderFields(raw: seq<Byte>, count: nat, filler: Filler)
    requires filler.Fits() && count < LIMIT16 && Spans(raw, 0, 64, FileHeader(count, filler))
    ensures |raw| >= 64 && raw[..4] == ELF_MAGIC && raw[4] == 2 && raw[5] == 1
    ensures Little(raw[32..40]) == 64 && Little(raw[54..56]) == 56 && Little(raw[56..58]) == count
  {
    hide U16, U64, Little;
    var g := U16(count) + filler.sections;
    var f := U16(56) + g;
    var e := filler.middle + f;
    var d := U64(64) + e;
    var c := filler.ident + d;
    var b: seq<Byte> := [2, 1];
    SpansConcat(raw, 0, 64, ELF_MAGIC, b + c);
    SpansConcat(raw, 4, 64, b, c);
    SpansConcat(raw, 6, 64, filler.ident, d);
    SpansConcat(raw, 32, 64, U64(64), e);
    SpansConcat(raw, 40, 64, filler.middle, f);
    SpansConcat(raw, 54, 64, U16(56), g);
    SpansConcat(raw, 56, 64, U16(count), filler.sections);
    assert raw[4] == raw[4..6][0] && raw[5] == raw[4..6][1];
    NumberAt(raw, 32, 64);
    NumberAt(raw, 54, 56);
    NumberAt(raw, 56, count);
  }

  // Where each part of the image lies.
  lemma ImageParts(facts: Facts, base: nat, filler: Filler)
    requires filler.Fits()
    ensures var raw := Image(facts, base, filler);
            && |raw| == ImageSize(facts, base, filler)
            && Spans(raw, 0, 64, FileHeader(HeaderCount(facts), filler))
            && Spans(raw, 64, InterpreterStart(facts), EmitHeaders(Headers(facts, base, filler)))
            && Spans(raw, InterpreterStart(facts), StringsStart(facts), InterpreterBytes(facts))
            && Spans(raw, StringsStart(facts), DynamicStart(facts), Strings(facts))
            && Spans(raw, DynamicStart(facts), |raw|, EmitTags(AllTags(facts, base, filler)))
  {
    hide Strings, EmitTags, EmitHeaders, AllTags, Headers, InterpreterBytes, U16, U64;
    var raw := Image(facts, base, filler);
    var e := EmitTags(AllTags(facts, base, filler));
    var d := Strings(facts) + e;
    var c := InterpreterBytes(facts) + d;
    var b := EmitHeaders(Headers(facts, base, filler)) + c;
    var a := FileHeader(HeaderCount(facts), filler);
    assert |a| == 64;
    assert Spans(raw, 0, |raw|, a + b) by { assert raw[0..|raw|] == raw; }
    SpansConcat(raw, 0, |raw|, a, b);
    SpansConcat(raw, 64, |raw|, EmitHeaders(Headers(facts, base, filler)), c);
    SpansConcat(raw, InterpreterStart(facts), |raw|, InterpreterBytes(facts), d);
    SpansConcat(raw, StringsStart(facts), |raw|, Strings(facts), e);
  }

  lemma StringsRoundTrip(facts: Facts)
    requires Writable(facts)
    ensures TextsAt(Strings(facts), OffsetsIn(facts.needed, 1)) == Some(facts.needed)
    ensures TextsAt(Strings(facts), OffsetsIn(PathTexts(facts.rpath), RpathStart(facts))) == Some(PathTexts(facts.rpath))
    ensures TextsAt(Strings(facts), OffsetsIn(PathTexts(facts.runpath), RunpathStart(facts))) == Some(PathTexts(facts.runpath))
  {
    hide Terminate, OffsetsIn, TextsAt, Join, Spans;
    var strings := Strings(facts);
    var n := Terminate(facts.needed);
    var r, u := Terminate(PathTexts(facts.rpath)), Terminate(PathTexts(facts.runpath));
    WholeSpan(strings);
    SpansConcat(strings, 0, |strings|, [0], n + (r + u));
    SpansConcat(strings, 1, |strings|, n, r + u);
    SpansConcat(strings, RpathStart(facts), |strings|, r, u);
    if facts.rpath != [] { JoinClean(facts.rpath); }
    if facts.runpath != [] { JoinClean(facts.runpath); }
    TextsRoundTrip(strings, facts.needed, 1);
    TextsRoundTrip(strings, PathTexts(facts.rpath), RpathStart(facts));
    TextsRoundTrip(strings, PathTexts(facts.runpath), RunpathStart(facts));
  }

  lemma WholeSpan(s: seq<Byte>)
    ensures Spans(s, 0, |s|, s)
  {
    assert s[0..|s|] == s;
  }

  lemma TagsFit(facts: Facts, address: nat)
    requires address + |Strings(facts)| < LIMIT64
    ensures var tags := TagsFor(facts, address);
            forall i | 0 <= i < |tags| :: 0 < tags[i].tag < LIMIT64 && tags[i].value < LIMIT64
  {
    hide Strings, OffsetsIn, PathTexts, Terminate;
    OffsetsBelow(facts.needed, 1);
    OffsetsBelow(PathTexts(facts.rpath), RpathStart(facts));
    OffsetsBelow(PathTexts(facts.runpath), RunpathStart(facts));
    assert |Strings(facts)| == RunpathStart(facts) + |Terminate(PathTexts(facts.runpath))| by { StringsLength(facts); }
  }

  lemma StringsLength(facts: Facts)
    ensures |Strings(facts)| == RunpathStart(facts) + |Terminate(PathTexts(facts.runpath))|
  {
    hide Terminate;
  }

  lemma {:induction false} OffsetsBelow(texts: seq<seq<Byte>>, start: nat)
    ensures forall i | 0 <= i < |texts| :: OffsetsIn(texts, start)[i] <= start + |Terminate(texts)|
  {
    if texts != [] { OffsetsBelow(texts[..|texts| - 1], start); }
  }

  lemma HeadersFit(facts: Facts, base: nat, filler: Filler)
    requires Addressable(facts, base, filler)
    ensures forall i | 0 <= i < HeaderCount(facts) :: HeaderFits(Headers(facts, base, filler)[i])
  {
    hide Strings, AllTags, InterpreterBytes, Writable;
  }

  lemma TwoHeaders(raw: seq<Byte>, load: ProgramHeader, dynamic: ProgramHeader, address: nat)
    requires load.kind == LOAD && dynamic.kind == DYNAMIC
    requires load.address <= address < load.address + load.fileSize
    ensures InterpreterOf(raw, [load, dynamic]) == Some(None)
    ensures FirstDynamic([load, dynamic]) == Some(dynamic)
    ensures OffsetOf([load, dynamic], address) == Some(load.offset + address - load.address)
  {
    var both := [load, dynamic];
    assert both[..1] == [load] && [load][..0] == [] && both[1..] == [dynamic];
    assert InterpreterOf(raw, [load]) == InterpreterOf(raw, []) == Some(None);
  }

  lemma ThreeHeaders(raw: seq<Byte>, interp: ProgramHeader, load: ProgramHeader, dynamic: ProgramHeader, address: nat)
    requires interp.kind == INTERP && load.kind == LOAD && dynamic.kind == DYNAMIC
    requires load.address <= address < load.address + load.fileSize && GoodInterpreter(raw, interp)
    ensures var all := [interp, load, dynamic];
            && InterpreterOf(raw, all) == Some(Some(raw[interp.offset..interp.offset + interp.fileSize - 1]))
            && FirstDynamic(all) == Some(dynamic)
            && OffsetOf(all, address) == Some(load.offset + address - load.address)
  {
    var all := [interp, load, dynamic];
    assert all[..2] == [interp, load] && [interp, load][..1] == [interp] && [interp][..0] == [];
    assert all[1..] == [load, dynamic];
    assert InterpreterOf(raw, []) == Some(None);
    assert InterpreterOf(raw, [interp]).Some?;
    assert InterpreterOf(raw, [interp, load]) == InterpreterOf(raw, [interp]);
    TwoHeaders(raw, load, dynamic, address);
  }

  // The program headers lead back to the interpreter, the dynamic section and the string table.
  lemma HeadersMeaning(facts: Facts, base: nat, filler: Filler)
    requires Addressable(facts, base, filler)
    ensures var raw, headers := Image(facts, base, filler), Headers(facts, base, filler);
            && InterpreterOf(raw, headers) == Some(facts.interpreter)
            && FirstDynamic(headers).Some?
            && FirstDynamic(headers).value.offset == DynamicStart(facts)
            && FirstDynamic(headers).value.fileSize == 16 * |AllTags(facts, base, filler)|
            && OffsetOf(headers, base + StringsStart(facts)) == Some(StringsStart(facts))
  {
    hide Strings, AllTags, Writable, Image, InterpreterOf, FirstDynamic, OffsetOf, EmitHeaders, EmitTags, FileHeader;
    var raw, headers := Image(facts, base, filler), Headers(facts, base, filler);
    var address := base + StringsStart(facts);
    ImageParts(facts, base, filler);
    StringsLength(facts);
    if facts.interpreter.Some? {
      assert headers == [headers[0], headers[1], headers[2]];
      InterpreterPlaced(raw, facts);
      ThreeHeaders(raw, headers[0], headers[1], headers[2], address);
    } else {
      assert headers == [headers[0], headers[1]];
      TwoHeaders(raw, headers[0], headers[1], address);
    }
  }

  lemma InterpreterPlaced(raw: seq<Byte>, facts: Facts)
    requires facts.interpreter.Some? && Spans(raw, InterpreterStart(facts), StringsStart(facts), InterpreterBytes(facts))
    ensures var start, size := InterpreterStart(facts), |InterpreterBytes(facts)|;
            && start + size <= |raw| && size > 0 && raw[start + size - 1] == 0
            && raw[start..start + size - 1] == facts.interpreter.value
  {
    var text := facts.interpreter.value;
    SpansConcat(raw, InterpreterStart(facts), StringsStart(facts), text, [0]);
    var nul := InterpreterStart(facts) + |text|;
    assert raw[nul] == raw[nul..nul + 1][0];
  }

  // Reading an image gives back the names, search paths and interpreter it was written with, in
  // order, whatever the filler and whatever follows DT_NULL.
  lemma ElfRoundTrip(facts: Facts, base: nat, filler: Filler)
    requires Addressable(facts, base, filler)
    ensures ReadingOf(Image(facts, base, filler)) == Elf(facts)
  {
    hide Image, Strings, AllTags, Headers, EmitHeaders, EmitTags, Little, FileHeader, Spans, TextsAt, SplitAll,
         OffsetsIn, ValuesOf, OffsetOf, InterpreterOf, FirstDynamic, HeadersAt, TagsAt, Writable;
    var raw, headers := Image(facts, base, filler), Headers(facts, base, filler);
    ImageParts(facts, base, filler);
    FileHeaderFields(raw, HeaderCount(facts), filler);
    HeadersFit(facts, base, filler);
    HeadersRoundTrip(raw, 64, headers);
    HeadersMeaning(facts, base, filler);
    TagsMeaning(facts, base, filler);
    LinkedRoundTrip(facts, base, filler);
  }

  lemma TagsMeaning(facts: Facts, base: nat, filler: Filler)
    requires Addressable(facts, base, filler)
    ensures var raw, count := Image(facts, base, filler), |AllTags(facts, base, filler)|;
            && DynamicStart(facts) + 16 * count <= |raw|
            && TagsAt(raw, DynamicStart(facts), count) == TagsFor(facts, base + StringsStart(facts))
  {
    hide Image, Strings, TagsFor, EmitTags, EmitHeaders, FileHeader, Spans, TagsAt, Writable;
    ImageParts(facts, base, filler);
    TagsFit(facts, base + StringsStart(facts));
    TagsRoundTrip(Image(facts, base, filler), DynamicStart(facts), TagsFor(facts, base + StringsStart(facts)), filler.trailing);
  }

  // The tags and the headers lead to the string table.
  lemma StringsFound(facts: Facts, base: nat, filler: Filler)
    requires Addressable(facts, base, filler)
    ensures var tags := TagsFor(facts, base + StringsStart(facts));
            && ValuesOf(tags, STRTAB) != [] && ValuesOf(tags, STRSZ) != []
            && StringsFor(Image(facts, base, filler), Headers(facts, base, filler), tags) == Some(Strings(facts))
  {
    hide Image, Strings, Headers, EmitHeaders, EmitTags, TagsFor, FileHeader, OffsetsIn, ValuesOf, OffsetOf, PathTexts,
         InterpreterOf, FirstDynamic;
    var address := base + StringsStart(facts);
    ImageParts(facts, base, filler);
    HeadersMeaning(facts, base, filler);
    ValuesOfTags(facts, address, STRTAB);
    ValuesOfTags(facts, address, STRSZ);
  }

  lemma LinkedRoundTrip(facts: Facts, base: nat, filler: Filler)
    requires Addressable(facts, base, filler)
    ensures var raw, headers := Image(facts, base, filler), Headers(facts, base, filler);
            Linked(raw, headers, TagsFor(facts, base + StringsStart(facts)), facts.interpreter) == Elf(facts)
  {
    hide Image, Strings, Headers, TagsFor, TextsAt, SplitAll, OffsetsIn, ValuesOf, NeedsStrings, PathTexts, StringsFor,
         ImageSize, StringsStart, RpathStart, RunpathStart, Components;
    var address := base + StringsStart(facts);
    StringsFound(facts, base, filler);
    ValuesOfTags(facts, address, NEEDED);
    ValuesOfTags(facts, address, RPATH);
    ValuesOfTags(facts, address, RUNPATH);
    StringsRoundTrip(facts);
    PathRoundTrip(facts.rpath);
    PathRoundTrip(facts.runpath);
  }
}
