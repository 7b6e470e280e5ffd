// The little-endian ELF64 reader: headers, interpreter, tags and strings.
module ElfReader {
  import opened Bytes
  import opened Collections

  datatype ProgramHeader = ProgramHeader(kind: nat, flags: nat, offset: nat, address: nat, physical: nat,
                                         fileSize: nat, memorySize: nat, align: nat)
  datatype Tag = Tag(tag: nat, value: nat)
  datatype Facts = Facts(interpreter: Option<seq<Byte>>, needed: seq<seq<Byte>>,
                         rpath: seq<seq<Byte>>, runpath: seq<seq<Byte>>)
  datatype Reading = NotElf | Refused | Elf(facts: Facts)

  const ELF_MAGIC: seq<Byte> := [0x7F, 0x45, 0x4C, 0x46]
  const LOAD: nat := 1
  const DYNAMIC: nat := 2
  const INTERP: nat := 3
  const NEEDED: nat := 1
  const STRTAB: nat := 5
  const STRSZ: nat := 10
  const RPATH: nat := 15
  const RUNPATH: nat := 29
  const COLON: Byte := 58
  const MAX_HEADERS: nat := 4096

  // ---------------------------------------------------------------- what the file says

  function HeaderAt(raw: seq<Byte>, pos: nat): ProgramHeader
    requires pos + 56 <= |raw|
  {
    ProgramHeader(Little(raw[pos..pos + 4]), Little(raw[pos + 4..pos + 8]),
                  Little(raw[pos + 8..pos + 16]), Little(raw[pos + 16..pos + 24]),
                  Little(raw[pos + 24..pos + 32]), Little(raw[pos + 32..pos + 40]),
                  Little(raw[pos + 40..pos + 48]), Little(raw[pos + 48..pos + 56]))
  }

  function HeadersAt(raw: seq<Byte>, pos: nat, count: nat): (r: seq<ProgramHeader>)
    requires count > 0 ==> pos + 56 * count <= |raw|
    ensures |r| == count
  {
    if count == 0 then [] else HeadersAt(raw, pos, count - 1) + [HeaderAt(raw, pos + 56 * (count - 1))]
  }

  predicate GoodInterpreter(raw: seq<Byte>, header: ProgramHeader)
  {
    && header.offset + header.fileSize <= |raw| && header.fileSize > 0
    && raw[header.offset + header.fileSize - 1] == 0
  }

  // None when some PT_INTERP is invalid; otherwise the last one wins.
  function InterpreterOf(raw: seq<Byte>, headers: seq<ProgramHeader>): Option<Option<seq<Byte>>>
  {
    if headers == [] then Some(None) else
    var header := headers[|headers| - 1];
    var before := InterpreterOf(raw, headers[..|headers| - 1]);
    if before == None || header.kind != INTERP then before
    else if !GoodInterpreter(raw, header) then None
    else Some(Some(raw[header.offset..header.offset + header.fileSize - 1]))
  }

  function FirstDynamic(headers: seq<ProgramHeader>): Option<ProgramHeader>
  {
    if headers == [] then None
    else if headers[0].kind == DYNAMIC then Some(headers[0])
    else FirstDynamic(headers[1..])
  }

  // The entries before the first DT_NULL.
  function TagsAt(raw: seq<Byte>, pos: nat, count: nat): seq<Tag>
    requires pos + 16 * count <= |raw|
    decreases count
  {
    if count == 0 then [] else
    var tag := Tag(Little(raw[pos..pos + 8]), Little(raw[pos + 8..pos + 16]));
    if tag.tag == 0 then [] else [tag] + TagsAt(raw, pos + 16, count - 1)
  }

  function ValuesOf(tags: seq<Tag>, tag: nat): seq<nat>
  {
    if tags == [] then []
    else (if tags[0].tag == tag then [tags[0].value] else []) + ValuesOf(tags[1..], tag)
  }

  // The file offset of a virtual address, by the first PT_LOAD that holds it.
  function OffsetOf(headers: seq<ProgramHeader>, address: nat): Option<nat>
  {
    if headers == [] then None
    else if headers[0].kind == LOAD && headers[0].address <= address < headers[0].address + headers[0].fileSize
    then Some(headers[0].offset + address - headers[0].address)
    else OffsetOf(headers[1..], address)
  }

  function IndexOf(s: seq<Byte>, b: Byte, from: nat): (r: Option<nat>)
    ensures r.Some? ==> from <= r.value < |s| && s[r.value] == b && b !in s[from..r.value]
    ensures r == None && from <= |s| ==> b !in s[from..]
    decreases |s| - from
  {
    if from >= |s| then None
    else if s[from] == b then Some(from)
    else
      var r := IndexOf(s, b, from + 1);
      assert s[from..] == [s[from]] + s[from + 1..];
      assert r.Some? ==> s[from..r.value] == [s[from]] + s[from + 1..r.value];
      r
  }

  function TextAt(strings: seq<Byte>, offset: nat): Option<seq<Byte>>
  {
    if offset >= |strings| then None else
    var end := IndexOf(strings, 0, offset);
    if end == None then None else Some(strings[offset..end.value])
  }

  function TextsAt(strings: seq<Byte>, offsets: seq<nat>): (r: Option<seq<seq<Byte>>>)
    ensures r.Some? ==> |r.value| == |offsets|
  {
    if offsets == [] then Some([]) else
    var before := TextsAt(strings, offsets[..|offsets| - 1]);
    var last := TextAt(strings, offsets[|offsets| - 1]);
    if before == None || last == None then None else Some(before.value + [last.value])
  }

  // str.split(":")
  function Split(text: seq<Byte>): (parts: seq<seq<Byte>>)
    ensures parts != []
    decreases |text|
  {
    var colon := IndexOf(text, COLON, 0);
    if colon == None then [text] else [text[..colon.value]] + Split(text[colon.value + 1..])
  }

  function SplitAll(texts: seq<seq<Byte>>): seq<seq<Byte>>
  {
    if texts == [] then [] else SplitAll(texts[..|texts| - 1]) + Split(texts[|texts| - 1])
  }

  predicate NeedsStrings(tags: seq<Tag>)
  {
    exists i | 0 <= i < |tags| :: tags[i].tag in {NEEDED, RPATH, RUNPATH}
  }

  function StringsFor(raw: seq<Byte>, headers: seq<ProgramHeader>, tags: seq<Tag>): Option<seq<Byte>>
    requires ValuesOf(tags, STRTAB) != [] && ValuesOf(tags, STRSZ) != []
  {
    var length := ValuesOf(tags, STRSZ)[0];
    var start := OffsetOf(headers, ValuesOf(tags, STRTAB)[0]);
    if start == None || start.value + length > |raw| then None
    else Some(raw[start.value..start.value + length])
  }

  function Linked(raw: seq<Byte>, headers: seq<ProgramHeader>, tags: seq<Tag>, interpreter: Option<seq<Byte>>): Reading
  {
    if ValuesOf(tags, STRTAB) == [] || ValuesOf(tags, STRSZ) == [] then
      if NeedsStrings(tags) then Refused else Elf(Facts(interpreter, [], [], []))
    else
      var strings := StringsFor(raw, headers, tags);
      if strings == None then Refused else
      var needed := TextsAt(strings.value, ValuesOf(tags, NEEDED));
      var rpath := TextsAt(strings.value, ValuesOf(tags, RPATH));
      var runpath := TextsAt(strings.value, ValuesOf(tags, RUNPATH));
      if needed == None || rpath == None || runpath == None then Refused
      else Elf(Facts(interpreter, needed.value, SplitAll(rpath.value), SplitAll(runpath.value)))
  }

  function WithHeaders(raw: seq<Byte>, headers: seq<ProgramHeader>): Reading
  {
    var interpreter := InterpreterOf(raw, headers);
    if interpreter == None then Refused else
    var dynamic := FirstDynamic(headers);
    if dynamic == None then Elf(Facts(interpreter.value, [], [], [])) else
    var start, size := dynamic.value.offset, dynamic.value.fileSize;
    if start + size > |raw| || size % 16 != 0 then Refused
    else Linked(raw, headers, TagsAt(raw, start, size / 16), interpreter.value)
  }

  function ReadingOf(raw: seq<Byte>): Reading
  {
    if !(|raw| >= 4 && raw[..4] == ELF_MAGIC) then NotElf
    else if |raw| < 64 || raw[4] != 2 || raw[5] != 1 then Refused
    else
      var pos := Little(raw[32..40]);
      var count := Little(raw[56..58]);
      if Little(raw[54..56]) != 56 || count > MAX_HEADERS then Refused
      else if count > 0 && pos + 56 * count > |raw| then Refused
      else WithHeaders(raw, HeadersAt(raw, pos, count))
  }

  // ---------------------------------------------------------------- the reader itself

  method ReadHeaders(raw: seq<Byte>, pos: nat, count: nat) returns (r: Option<seq<ProgramHeader>>)
    ensures r == if count > 0 && pos + 56 * count > |raw| then None else Some(HeadersAt(raw, pos, count))
  {
    hide HeaderAt;
    var headers: seq<ProgramHeader> := [];
    for index := 0 to count
      invariant index > 0 ==> pos + 56 * index <= |raw|
      invariant headers == HeadersAt(raw, pos, index)
    {
      if pos + index * 56 + 56 > |raw| { return None; }
      headers := headers + [HeaderAt(raw, pos + index * 56)];
    }
    r := Some(headers);
  }

  method FindInterpreter(raw: seq<Byte>, headers: seq<ProgramHeader>) returns (r: Option<Option<seq<Byte>>>)
    ensures r == InterpreterOf(raw, headers)
  {
    var interpreter: Option<seq<Byte>> := None;
    for index := 0 to |headers|
      invariant InterpreterOf(raw, headers[..index]) == Some(interpreter)
    {
      InterpreterNext(raw, headers, index);
      var header := headers[index];
      if header.kind == INTERP {
        var stop := if header.offset + header.fileSize <= |raw| then header.offset + header.fileSize else |raw|;
        var value := if header.offset <= |raw| then raw[header.offset..stop] else [];
        if |value| != header.fileSize || value == [] || value[|value| - 1] != 0 {
          RefusedStays(raw, headers, index + 1);
          return None;
        }
        interpreter := Some(value[..|value| - 1]);
        assert value[..|value| - 1] == raw[header.offset..header.offset + header.fileSize - 1];
      }
    }
    assert headers[..|headers|] == headers;
    r := Some(interpreter);
  }

  lemma InterpreterNext(raw: seq<Byte>, headers: seq<ProgramHeader>, index: nat)
    requires index < |headers|
    ensures var header := headers[index];
            var before := InterpreterOf(raw, headers[..index]);
            InterpreterOf(raw, headers[..index + 1])
            == if before == None || header.kind != INTERP then before
               else if !GoodInterpreter(raw, header) then None
               else Some(Some(raw[header.offset..header.offset + header.fileSize - 1]))
  {
    assert headers[..index + 1][..index] == headers[..index];
  }

  lemma {:induction false} RefusedStays(raw: seq<Byte>, headers: seq<ProgramHeader>, n: nat)
    requires n <= |headers| && InterpreterOf(raw, headers[..n]) == None
    ensures InterpreterOf(raw, headers) == None
    decreases |headers| - n
  {
    if n < |headers| {
      assert headers[..n + 1][..n] == headers[..n];
      RefusedStays(raw, headers, n + 1);
    } else {
      assert headers[..n] == headers;
    }
  }

  method CollectTags(raw: seq<Byte>, pos: nat, size: nat) returns (tags: seq<Tag>)
    requires pos + size <= |raw| && size % 16 == 0
    ensures tags == TagsAt(raw, pos, size / 16)
  {
    hide Little;
    tags := [];
    var offset := pos;
    ghost var left := size / 16;
    while offset < pos + size
      invariant left >= 0 && offset + 16 * left == pos + size
      invariant TagsAt(raw, pos, size / 16) == tags + TagsAt(raw, offset, left)
    {
      var tag := Tag(Little(raw[offset..offset + 8]), Little(raw[offset + 8..offset + 16]));
      if tag.tag == 0 {
        assert tags + [] == tags;
        return;
      }
      left := left - 1;
      ghost var rest := TagsAt(raw, offset + 16, left);
      assert tags + ([tag] + rest) == tags + [tag] + rest;
      tags := tags + [tag];
      offset := offset + 16;
    }
  }

  method CollectTexts(strings: seq<Byte>, offsets: seq<nat>) returns (r: Option<seq<seq<Byte>>>)
    ensures r == TextsAt(strings, offsets)
  {
    var texts: seq<seq<Byte>> := [];
    for index := 0 to |offsets|
      invariant TextsAt(strings, offsets[..index]) == Some(texts)
    {
      assert offsets[..index + 1][..index] == offsets[..index];
      var text := TextAt(strings, offsets[index]);
      if text == None {
        NoTextStays(strings, offsets, index + 1);
        return None;
      }
      texts := texts + [text.value];
    }
    assert offsets[..|offsets|] == offsets;
    r := Some(texts);
  }

  lemma {:induction false} NoTextStays(strings: seq<Byte>, offsets: seq<nat>, n: nat)
    requires n <= |offsets| && TextsAt(strings, offsets[..n]) == None
    ensures TextsAt(strings, offsets) == None
    decreases |offsets| - n
  {
    if n < |offsets| {
      assert offsets[..n + 1][..n] == offsets[..n];
      NoTextStays(strings, offsets, n + 1);
    } else {
      assert offsets[..n] == offsets;
    }
  }

  method ReadElf(raw: seq<Byte>) returns (r: Reading)
    ensures r == ReadingOf(raw)
  {
    hide Little, HeadersAt, InterpreterOf, TagsAt, TextsAt, SplitAll, ValuesOf, OffsetOf, FirstDynamic;
    if !(|raw| >= 4 && raw[..4] == ELF_MAGIC) { return NotElf; }
    if |raw| < 64 || raw[4] != 2 || raw[5] != 1 { return Refused; }
    var programOffset := Little(raw[32..40]);
    var programSize := Little(raw[54..56]);
    var programCount := Little(raw[56..58]);
    if programSize != 56 || programCount > MAX_HEADERS { return Refused; }
    var read := ReadHeaders(raw, programOffset, programCount);
    if read == None { return Refused; }
    var headers := read.value;
    var interpreter := FindInterpreter(raw, headers);
    if interpreter == None { return Refused; }
    var dynamic := FirstDynamic(headers);
    if dynamic == None { return Elf(Facts(interpreter.value, [], [], [])); }
    var dynamicOffset, dynamicSize := dynamic.value.offset, dynamic.value.fileSize;
    if dynamicOffset + dynamicSize > |raw| || dynamicSize % 16 != 0 { return Refused; }
    var tags := CollectTags(raw, dynamicOffset, dynamicSize);
    var addresses, sizes := ValuesOf(tags, STRTAB), ValuesOf(tags, STRSZ);
    if addresses == [] || sizes == [] {
      if NeedsStrings(tags) { return Refused; }
      return Elf(Facts(interpreter.value, [], [], []));
    }
    var stringOffset := OffsetOf(headers, addresses[0]);
    if stringOffset == None || stringOffset.value + sizes[0] > |raw| { return Refused; }
    var strings := raw[stringOffset.value..stringOffset.value + sizes[0]];
    var needed := CollectTexts(strings, ValuesOf(tags, NEEDED));
    if needed == None { return Refused; }
    var rpath := CollectTexts(strings, ValuesOf(tags, RPATH));
    if rpath == None { return Refused; }
    var runpath := CollectTexts(strings, ValuesOf(tags, RUNPATH));
    if runpath == None { return Refused; }
    r := Elf(Facts(interpreter.value, needed.value, SplitAll(rpath.value), SplitAll(runpath.value)));
  }

  // ---------------------------------------------------------------- what is read lies in the file

  // text is the slice of the file at p, followed by its NUL, all between start and end.
  ghost predicate TerminatedAt(raw: seq<Byte>, start: nat, end: nat, text: seq<Byte>, p: nat)
    requires end <= |raw|
  {
    start <= p && p + |text| < end && raw[p..p + |text|] == text && 0 !in text && raw[p + |text|] == 0
  }

  ghost predicate TerminatedText(raw: seq<Byte>, start: nat, end: nat, text: seq<Byte>)
    requires end <= |raw|
  {
    exists p: nat :: TerminatedAt(raw, start, end, text, p)
  }

  ghost predicate Terminated(raw: seq<Byte>, start: nat, end: nat, texts: seq<seq<Byte>>)
    requires end <= |raw|
  {
    forall i | 0 <= i < |texts| :: TerminatedText(raw, start, end, texts[i])
  }

  lemma {:induction false} TextsTerminated(raw: seq<Byte>, start: nat, end: nat, offsets: seq<nat>)
    requires start <= end <= |raw|
    ensures var r := TextsAt(raw[start..end], offsets);
            r.Some? ==> Terminated(raw, start, end, r.value)
  {
    hide TerminatedText;
    var strings := raw[start..end];
    var r := TextsAt(strings, offsets);
    if r.Some? && offsets != [] {
      var n := |offsets| - 1;
      TextsTerminated(raw, start, end, offsets[..n]);
      TextTerminated(raw, start, end, offsets[n]);
      var before := TextsAt(strings, offsets[..n]).value;
      assert forall i | 0 <= i < n :: r.value[i] == before[i];
    }
  }

  lemma TextTerminated(raw: seq<Byte>, start: nat, end: nat, offset: nat)
    requires start <= end <= |raw| && TextAt(raw[start..end], offset).Some?
    ensures TerminatedText(raw, start, end, TextAt(raw[start..end], offset).value)
  {
    var strings := raw[start..end];
    var stop := IndexOf(strings, 0, offset).value;
    SliceOfSlice(raw, start, end, offset, stop);
    assert TerminatedAt(raw, start, end, strings[offset..stop], start + offset);
  }

  // The texts of an accepted image: its needed names, and the texts whose parts are its search paths,
  // are NUL-terminated slices of one table inside the file.
  ghost predicate NamesIn(raw: seq<Byte>, facts: Facts, start: nat, end: nat,
                          rpaths: seq<seq<Byte>>, runpaths: seq<seq<Byte>>)
  {
    && start <= end <= |raw|
    && Terminated(raw, start, end, facts.needed)
    && Terminated(raw, start, end, rpaths) && Terminated(raw, start, end, runpaths)
    && facts.rpath == SplitAll(rpaths) && facts.runpath == SplitAll(runpaths)
  }

  lemma NamesLieInTheFile(raw: seq<Byte>)
    requires ReadingOf(raw).Elf?
    ensures exists start, end, rpaths, runpaths :: NamesIn(raw, ReadingOf(raw).facts, start, end, rpaths, runpaths)
  {
    hide Little, HeadersAt, InterpreterOf, FirstDynamic, Linked, TagsAt, SplitAll;
    var headers := HeadersAt(raw, Little(raw[32..40]), Little(raw[56..58]));
    var interpreter := InterpreterOf(raw, headers).value;
    var dynamic := FirstDynamic(headers);
    if dynamic.Some? {
      LinkedNames(raw, headers, TagsAt(raw, dynamic.value.offset, dynamic.value.fileSize / 16), interpreter);
    } else {
      NoNames(raw, interpreter);
    }
  }

  lemma NoNames(raw: seq<Byte>, interpreter: Option<seq<Byte>>)
    ensures NamesIn(raw, Facts(interpreter, [], [], []), 0, 0, [], [])
  {
  }

  lemma LinkedNames(raw: seq<Byte>, headers: seq<ProgramHeader>, tags: seq<Tag>, interpreter: Option<seq<Byte>>)
    requires Linked(raw, headers, tags, interpreter).Elf?
    ensures exists start, end, rpaths, runpaths ::
              NamesIn(raw, Linked(raw, headers, tags, interpreter).facts, start, end, rpaths, runpaths)
  {
    hide TextsAt, ValuesOf, OffsetOf, SplitAll, Terminated;
    if ValuesOf(tags, STRTAB) == [] || ValuesOf(tags, STRSZ) == [] {
      NoNames(raw, interpreter);
    } else {
      var start := OffsetOf(headers, ValuesOf(tags, STRTAB)[0]).value;
      var end := start + ValuesOf(tags, STRSZ)[0];
      TextsTerminated(raw, start, end, ValuesOf(tags, NEEDED));
      TextsTerminated(raw, start, end, ValuesOf(tags, RPATH));
      TextsTerminated(raw, start, end, ValuesOf(tags, RUNPATH));
      assert NamesIn(raw, Linked(raw, headers, tags, interpreter).facts, start, end,
                     TextsAt(raw[start..end], ValuesOf(tags, RPATH)).value,
                     TextsAt(raw[start..end], ValuesOf(tags, RUNPATH)).value);
    }
  }

  // Entries after the first DT_NULL have no effect, whatever they hold and however many there are.
  lemma {:induction false} TagsStopAtNull(raw: seq<Byte>, raw': seq<Byte>, pos: nat, count: nat, count': nat, k: nat)
    requires pos + 16 * count <= |raw| && pos + 16 * count' <= |raw'| && k < count && k < count'
    requires raw[pos..pos + 16 * (k + 1)] == raw'[pos..pos + 16 * (k + 1)]
    requires Little(raw[pos + 16 * k..pos + 16 * k + 8]) == 0
    ensures TagsAt(raw, pos, count) == TagsAt(raw', pos, count')
    decreases k
  {
    hide Little;
    var span := 16 * (k + 1);
    SliceOfSlice(raw, pos, pos + span, 0, 8);
    SliceOfSlice(raw', pos, pos + span, 0, 8);
    SliceOfSlice(raw, pos, pos + span, 8, 16);
    SliceOfSlice(raw', pos, pos + span, 8, 16);
    if k > 0 {
      SliceOfSlice(raw, pos, pos + span, 16, span);
      SliceOfSlice(raw', pos, pos + span, 16, span);
      TagsStopAtNull(raw, raw', pos + 16, count - 1, count' - 1, k - 1);
    }
  }
}
