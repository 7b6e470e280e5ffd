// What an ELF64 image says, read off its bytes.
module ElfImage {
  // The reading is described here entry by entry, with no loop: which header, which tag and which string
  // decides each part of the result, and what makes the image unacceptable.

  import opened Bytes
  import opened Collections
  import opened ElfReader
  import opened ElfWriter

  // ---------------------------------------------------------------- the tables

  function Number(raw: seq<Byte>, pos: nat, width: nat): nat
    requires pos + width <= |raw|
  {
    Little(raw[pos..pos + width])
  }

  // One program header: type, flags, offset, address, physical address, sizes, alignment, 56 bytes in all.
  ghost predicate HeaderIs(raw: seq<Byte>, p: nat, h: ProgramHeader)
    requires p + 56 <= |raw|
  {
    && h.kind == Number(raw, p, 4) && h.flags == Number(raw, p + 4, 4)
    && h.offset == Number(raw, p + 8, 8) && h.address == Number(raw, p + 16, 8)
    && h.physical == Number(raw, p + 24, 8) && h.fileSize == Number(raw, p + 32, 8)
    && h.memorySize == Number(raw, p + 40, 8) && h.align == Number(raw, p + 48, 8)
  }

  // The table of them.
  ghost predicate HeaderTable(raw: seq<Byte>, headers: seq<ProgramHeader>)
    requires |raw| >= 64
  {
    && Number(raw, 54, 2) == 56 && Number(raw, 56, 2) == |headers| <= 4096
    && (|headers| > 0 ==> Number(raw, 32, 8) + 56 * |headers| <= |raw|)
    && forall k | 0 <= k < |headers| :: HeaderIs(raw, Number(raw, 32, 8) + 56 * k, headers[k])
  }

  // Entry i of the dynamic section: a tag that is not null, and its value.
  ghost predicate TagIs(raw: seq<Byte>, start: nat, i: nat, t: Tag)
    requires start + 16 * i + 16 <= |raw|
  {
    t.tag == Number(raw, start + 16 * i, 8) != 0 && t.value == Number(raw, start + 16 * i + 8, 8)
  }

  // The dynamic entries before the first null entry, or all of them.
  ghost predicate TagTable(raw: seq<Byte>, start: nat, size: nat, tags: seq<Tag>)
    requires start + size <= |raw|
  {
    && size % 16 == 0 && 16 * |tags| <= size
    && (forall i | 0 <= i < |tags| :: TagIs(raw, start, i, tags[i]))
    && (16 * |tags| < size ==> Number(raw, start + 16 * |tags|, 8) == 0)
  }

  lemma {:induction false} HeadersListed(raw: seq<Byte>, pos: nat, count: nat, k: nat)
    requires pos + 56 * count <= |raw| && k < count
    ensures HeadersAt(raw, pos, count)[k] == HeaderAt(raw, pos + 56 * k)
  {
    hide HeaderAt;
    if k < count - 1 { HeadersListed(raw, pos, count - 1, k); }
  }

  lemma HeaderExact(raw: seq<Byte>, p: nat, h: ProgramHeader)
    requires p + 56 <= |raw|
    ensures HeaderIs(raw, p, h) <==> h == HeaderAt(raw, p)
  {
    hide Little;
  }

  lemma HeaderTableExact(raw: seq<Byte>, headers: seq<ProgramHeader>)
    requires |raw| >= 64
    ensures HeaderTable(raw, headers)
       <==> var pos, count := Number(raw, 32, 8), Number(raw, 56, 2);
            && Number(raw, 54, 2) == 56 && count <= 4096 && (count > 0 ==> pos + 56 * count <= |raw|)
            && headers == HeadersAt(raw, pos, count)
  {
    hide HeadersAt, Number, HeaderIs, HeaderAt;
    var pos, count := Number(raw, 32, 8), Number(raw, 56, 2);
    if count > 0 && pos + 56 * count <= |raw| && |headers| == count {
      forall k | 0 <= k < count
        ensures HeaderIs(raw, pos + 56 * k, headers[k]) <==> headers[k] == HeadersAt(raw, pos, count)[k]
      {
        HeadersListed(raw, pos, count, k);
        HeaderExact(raw, pos + 56 * k, headers[k]);
      }
    }
    if count == 0 { NoHeaders(raw, pos); }
  }

  lemma NoHeaders(raw: seq<Byte>, pos: nat)
    ensures HeadersAt(raw, pos, 0) == []
  {
  }

  lemma {:induction false} TagsListed(raw: seq<Byte>, start: nat, count: nat)
    requires start + 16 * count <= |raw|
    ensures TagTable(raw, start, 16 * count, TagsAt(raw, start, count))
    decreases count
  {
    hide Little, TagTable;
    if count == 0 {
      NoTags(raw, start);
    } else {
      TagsListed(raw, start + 16, count - 1);
      TableFront(raw, start, count, TagsAt(raw, start + 16, count - 1));
    }
  }

  lemma NoTags(raw: seq<Byte>, start: nat)
    requires start <= |raw|
    ensures TagTable(raw, start, 0, [])
  {
  }

  lemma TableFront(raw: seq<Byte>, start: nat, count: nat, rest: seq<Tag>)
    requires count > 0 && start + 16 * count <= |raw| && TagTable(raw, start + 16, 16 * (count - 1), rest)
    ensures var tag := Tag(Number(raw, start, 8), Number(raw, start + 8, 8));
            TagTable(raw, start, 16 * count, if tag.tag == 0 then [] else [tag] + rest)
  {
    hide Number, TagIs;
    var tag := Tag(Number(raw, start, 8), Number(raw, start + 8, 8));
    if tag.tag != 0 {
      var all := [tag] + rest;
      forall i | 0 <= i < |all| ensures TagIs(raw, start, i, all[i]) {
        if i > 0 { TagShifts(raw, start, i, rest[i - 1]); } else { FirstTag(raw, start); }
      }
    }
  }

  lemma TagShifts(raw: seq<Byte>, start: nat, i: nat, t: Tag)
    requires i > 0 && start + 16 * i + 16 <= |raw| && TagIs(raw, start + 16, i - 1, t)
    ensures TagIs(raw, start, i, t)
  {
    hide Number;
    assert start + 16 + 16 * (i - 1) == start + 16 * i;
  }

  lemma FirstTag(raw: seq<Byte>, start: nat)
    requires start + 16 <= |raw| && Number(raw, start, 8) != 0
    ensures TagIs(raw, start, 0, Tag(Number(raw, start, 8), Number(raw, start + 8, 8)))
  {
    hide Number;
  }

  lemma TableNotShorter(raw: seq<Byte>, start: nat, size: nat, a: seq<Tag>, b: seq<Tag>)
    requires start + size <= |raw| && TagTable(raw, start, size, a) && TagTable(raw, start, size, b)
    ensures |b| <= |a|
  {
    hide Number;
    if |b| > |a| { EntryNotNull(raw, start, size, b, |a|); }
  }

  lemma EntryNotNull(raw: seq<Byte>, start: nat, size: nat, tags: seq<Tag>, i: nat)
    requires start + size <= |raw| && TagTable(raw, start, size, tags) && i < |tags|
    ensures Number(raw, start + 16 * i, 8) != 0
  {
    hide Number;
    assert TagIs(raw, start, i, tags[i]);
  }

  lemma TagTableUnique(raw: seq<Byte>, start: nat, size: nat, a: seq<Tag>, b: seq<Tag>)
    requires start + size <= |raw| && TagTable(raw, start, size, a) && TagTable(raw, start, size, b)
    ensures a == b
  {
    hide Little;
    TableNotShorter(raw, start, size, a, b);
    TableNotShorter(raw, start, size, b, a);
  }

  // ---------------------------------------------------------------- interpreter and dynamic section

  // A NUL ends the bytes of every interpreter header, inside the file.
  ghost predicate InterpretersGood(raw: seq<Byte>, headers: seq<ProgramHeader>)
  {
    forall k | 0 <= k < |headers| && headers[k].kind == 3 :: NulEnds(raw, headers[k])
  }

  ghost predicate NulEnds(raw: seq<Byte>, h: ProgramHeader)
  {
    var end := h.offset + h.fileSize;
    end <= |raw| && h.fileSize > 0 && raw[end - 1] == 0
  }

  // The last interpreter header.
  ghost predicate LastInterpreter(headers: seq<ProgramHeader>, k: nat): (last: bool)
    ensures last ==> k < |headers| && headers[k].kind == 3
  {
    k < |headers| && headers[k].kind == 3 && forall j | k < j < |headers| :: headers[j].kind != 3
  }

  // All are good, and the last one gives the interpreter.
  ghost predicate InterpreterIs(raw: seq<Byte>, headers: seq<ProgramHeader>, interpreter: Option<seq<Byte>>)
  {
    && InterpretersGood(raw, headers)
    && if forall k | 0 <= k < |headers| :: headers[k].kind != 3 then interpreter == None
       else exists k: nat :: LastInterpreter(headers, k) && IsText(raw, headers[k], interpreter)
  }

  // The bytes of the header before their NUL.
  ghost predicate IsText(raw: seq<Byte>, h: ProgramHeader, interpreter: Option<seq<Byte>>)
  {
    NulEnds(raw, h) && interpreter == Some(raw[h.offset..h.offset + h.fileSize - 1])
  }

  // The reading is refused for a bad interpreter, and otherwise gives one that meets the description.
  lemma {:induction false} InterpreterFound(raw: seq<Byte>, headers: seq<ProgramHeader>)
    ensures InterpreterOf(raw, headers).Some? <==> InterpretersGood(raw, headers)
    ensures InterpreterOf(raw, headers).Some? ==> InterpreterIs(raw, headers, InterpreterOf(raw, headers).value)
    decreases |headers|
  {
    hide InterpreterIs, InterpretersGood, NulEnds;
    if headers == [] {
      NoInterpreters(raw);
    } else {
      var n := |headers| - 1;
      InterpreterFound(raw, headers[..n]);
      GoodSnoc(raw, headers[..n], headers[n]);
      GoodEnds(raw, headers[n]);
      assert headers == headers[..n] + [headers[n]];
      if headers[n].kind == 3 {
        if NulEnds(raw, headers[n]) && InterpretersGood(raw, headers[..n]) { AnInterpreter(raw, headers); }
      } else if InterpreterOf(raw, headers).Some? {
        NotAnInterpreter(raw, headers, InterpreterOf(raw, headers).value);
      }
    }
  }

  lemma NoInterpreters(raw: seq<Byte>)
    ensures InterpretersGood(raw, []) && InterpreterIs(raw, [], None)
  {
  }

  lemma GoodEnds(raw: seq<Byte>, h: ProgramHeader)
    ensures GoodInterpreter(raw, h) <==> NulEnds(raw, h)
  {
  }

  lemma GoodSnoc(raw: seq<Byte>, pre: seq<ProgramHeader>, h: ProgramHeader)
    ensures InterpretersGood(raw, pre + [h]) <==> InterpretersGood(raw, pre) && (h.kind == 3 ==> NulEnds(raw, h))
  {
    hide NulEnds;
    var all := pre + [h];
    forall k | 0 <= k < |pre| ensures all[k] == pre[k] {}
    assert all[|pre|] == h;
    if InterpretersGood(raw, all) {
      forall k | 0 <= k < |pre| && pre[k].kind == 3 ensures NulEnds(raw, pre[k]) { assert all[k] == pre[k]; }
    }
  }

  lemma AnInterpreter(raw: seq<Byte>, headers: seq<ProgramHeader>)
    requires headers != [] && InterpretersGood(raw, headers)
    requires headers[|headers| - 1].kind == 3 && NulEnds(raw, headers[|headers| - 1])
    ensures var h := headers[|headers| - 1];
            InterpreterIs(raw, headers, Some(raw[h.offset..h.offset + h.fileSize - 1]))
  {
    hide InterpretersGood;
    assert LastInterpreter(headers, |headers| - 1);
  }

  lemma NotAnInterpreter(raw: seq<Byte>, headers: seq<ProgramHeader>, interpreter: Option<seq<Byte>>)
    requires headers != [] && headers[|headers| - 1].kind != 3 && InterpretersGood(raw, headers)
    requires InterpreterIs(raw, headers[..|headers| - 1], interpreter)
    ensures InterpreterIs(raw, headers, interpreter)
  {
    hide InterpretersGood, IsText;
    var n := |headers| - 1;
    var pre := headers[..n];
    assert headers == pre + [headers[n]];
    if exists k: nat :: LastInterpreter(pre, k) && IsText(raw, pre[k], interpreter) {
      var k: nat :| LastInterpreter(pre, k) && IsText(raw, pre[k], interpreter);
      StillLast(headers, k);
      assert headers[k] == pre[k];
    } else {
      forall k | 0 <= k < |headers| ensures headers[k].kind != 3 {
        if k < n { assert headers[k] == pre[k]; }
      }
    }
  }

  lemma StillLast(headers: seq<ProgramHeader>, k: nat)
    requires headers != [] && headers[|headers| - 1].kind != 3 && LastInterpreter(headers[..|headers| - 1], k)
    ensures LastInterpreter(headers, k) && k < |headers| - 1
  {
    var pre := headers[..|headers| - 1];
    forall j | k < j < |headers| ensures headers[j].kind != 3 {
      if j < |pre| { assert headers[j] == pre[j]; }
    }
  }

  lemma InterpreterUnique(raw: seq<Byte>, headers: seq<ProgramHeader>, a: Option<seq<Byte>>, b: Option<seq<Byte>>)
    requires InterpreterIs(raw, headers, a) && InterpreterIs(raw, headers, b)
    ensures a == b
  {
    hide InterpretersGood, IsText, LastInterpreter;
    if k: nat :| LastInterpreter(headers, k) && IsText(raw, headers[k], a) {
      var m: nat :| LastInterpreter(headers, m) && IsText(raw, headers[m], b);
      OneLast(headers, k, m);
      OneText(raw, headers[k], a, b);
    }
  }

  lemma OneLast(headers: seq<ProgramHeader>, k: nat, m: nat)
    requires LastInterpreter(headers, k) && LastInterpreter(headers, m)
    ensures k == m
  {
  }

  lemma OneText(raw: seq<Byte>, h: ProgramHeader, a: Option<seq<Byte>>, b: Option<seq<Byte>>)
    requires IsText(raw, h, a) && IsText(raw, h, b)
    ensures a == b
  {
  }

  lemma InterpreterExact(raw: seq<Byte>, headers: seq<ProgramHeader>, interpreter: Option<seq<Byte>>)
    ensures InterpreterOf(raw, headers) == Some(interpreter) <==> InterpreterIs(raw, headers, interpreter)
  {
    InterpreterFound(raw, headers);
    if InterpreterIs(raw, headers, interpreter) {
      InterpreterGood(raw, headers, interpreter);
      InterpreterUnique(raw, headers, interpreter, InterpreterOf(raw, headers).value);
    }
  }

  lemma InterpreterGood(raw: seq<Byte>, headers: seq<ProgramHeader>, interpreter: Option<seq<Byte>>)
    requires InterpreterIs(raw, headers, interpreter)
    ensures InterpretersGood(raw, headers)
  {
  }

  // The k-th header is the first of the listed kind that meets the condition.
  ghost predicate FirstHeader(headers: seq<ProgramHeader>, k: nat, p: ProgramHeader -> bool)
  {
    k < |headers| && p(headers[k]) && forall j | 0 <= j < k :: !p(headers[j])
  }

  function IsDynamic(): ProgramHeader -> bool { (h: ProgramHeader) => h.kind == 2 }

  // A loaded segment whose file part holds the address.
  function Maps(address: nat): ProgramHeader -> bool
  {
    (h: ProgramHeader) => h.kind == 1 && h.address <= address < h.address + h.fileSize
  }

  lemma {:induction false} FirstDynamicExact(headers: seq<ProgramHeader>)
    ensures FirstDynamic(headers) == None <==> forall k | 0 <= k < |headers| :: headers[k].kind != 2
    ensures forall k: nat | FirstHeader(headers, k, IsDynamic()) :: FirstDynamic(headers) == Some(headers[k])
    ensures FirstDynamic(headers).Some? ==> exists k: nat :: FirstHeader(headers, k, IsDynamic())
  {
    if headers != [] {
      var rest := headers[1..];
      FirstDynamicExact(rest);
      forall k | 1 <= k < |headers| ensures headers[k] == rest[k - 1] {}
      forall k: nat | FirstHeader(headers, k, IsDynamic()) ensures FirstDynamic(headers) == Some(headers[k]) {
        if k > 0 {
          forall j | 0 <= j < k - 1 ensures !IsDynamic()(rest[j]) { assert rest[j] == headers[j + 1]; }
          assert FirstHeader(rest, k - 1, IsDynamic());
        }
      }
      if headers[0].kind == 2 {
        assert FirstHeader(headers, 0, IsDynamic());
      } else if k: nat :| FirstHeader(rest, k, IsDynamic()) {
        forall j | 0 <= j < k + 1 ensures !IsDynamic()(headers[j]) { if j > 0 { assert headers[j] == rest[j - 1]; } }
        assert FirstHeader(headers, k + 1, IsDynamic());
      }
    }
  }

  lemma {:induction false} OffsetExact(headers: seq<ProgramHeader>, address: nat)
    ensures OffsetOf(headers, address) == None <==> forall k | 0 <= k < |headers| :: !Maps(address)(headers[k])
    ensures forall k: nat | FirstHeader(headers, k, Maps(address)) ::
              OffsetOf(headers, address) == Some(headers[k].offset + address - headers[k].address)
    ensures OffsetOf(headers, address).Some? ==> exists k: nat :: FirstHeader(headers, k, Maps(address))
  {
    if headers != [] {
      var rest := headers[1..];
      OffsetExact(rest, address);
      forall k | 1 <= k < |headers| ensures headers[k] == rest[k - 1] {}
      forall k: nat | FirstHeader(headers, k, Maps(address))
        ensures OffsetOf(headers, address) == Some(headers[k].offset + address - headers[k].address)
      {
        if k > 0 {
          forall j | 0 <= j < k - 1 ensures !Maps(address)(rest[j]) { assert rest[j] == headers[j + 1]; }
          assert FirstHeader(rest, k - 1, Maps(address));
        }
      }
      if Maps(address)(headers[0]) {
        assert FirstHeader(headers, 0, Maps(address));
      } else if k: nat :| FirstHeader(rest, k, Maps(address)) {
        forall j | 0 <= j < k + 1 ensures !Maps(address)(headers[j]) { if j > 0 { assert headers[j] == rest[j - 1]; } }
        assert FirstHeader(headers, k + 1, Maps(address));
      }
    }
  }

  // ---------------------------------------------------------------- values of a tag, strings, components

  // The positions of the entries with this tag, in order.
  ghost predicate PositionsOf(tags: seq<Tag>, tag: nat, at: seq<nat>)
  {
    && (forall j, k | 0 <= j < k < |at| :: at[j] < at[k])
    && (forall j | 0 <= j < |at| :: at[j] < |tags| && tags[at[j]].tag == tag)
    && (forall i | 0 <= i < |tags| && tags[i].tag == tag :: i in at)
  }

  // The values of a tag, one for each of its entries, in their order.
  ghost predicate ValuesAre(tags: seq<Tag>, tag: nat, values: seq<nat>)
  {
    exists at: seq<nat> ::
      PositionsOf(tags, tag, at) && |values| == |at| && forall j | 0 <= j < |at| :: values[j] == tags[at[j]].value
  }

  lemma {:induction false} ValuesListed(tags: seq<Tag>, tag: nat)
    ensures ValuesAre(tags, tag, ValuesOf(tags, tag))
  {
    hide ValuesAre;
    if tags == [] {
      NoValuesOf(tag);
    } else {
      ValuesListed(tags[1..], tag);
      ValuesFront(tags, tag, ValuesOf(tags[1..], tag));
    }
  }

  lemma NoValuesOf(tag: nat)
    ensures ValuesAre([], tag, [])
  {
    assert PositionsOf([], tag, []);
  }

  lemma ValuesFront(tags: seq<Tag>, tag: nat, values: seq<nat>)
    requires tags != [] && ValuesAre(tags[1..], tag, values)
    ensures ValuesAre(tags, tag, (if tags[0].tag == tag then [tags[0].value] else []) + values)
  {
    hide PositionsOf;
    var rest := tags[1..];
    var at := PositionsBehind(rest, tag, values);
    var later: seq<nat> := seq(|at|, j requires 0 <= j < |at| => at[j] + 1);
    forall j | 0 <= j < |at| ensures later[j] < |tags| && values[j] == tags[later[j]].value {
      assert tags[at[j] + 1] == rest[at[j]];
    }
    if tags[0].tag == tag {
      PositionsFront(tags, tag, at, [0] + later);
      ValuesAt(tags, tag, [0] + later, [tags[0].value] + values);
    } else {
      PositionsFront(tags, tag, at, [] + later);
      assert [] + later == later && [] + values == values;
      ValuesAt(tags, tag, later, values);
    }
  }

  lemma ValuesAt(tags: seq<Tag>, tag: nat, at: seq<nat>, values: seq<nat>)
    requires PositionsOf(tags, tag, at) && |values| == |at|
    requires forall j | 0 <= j < |at| :: at[j] < |tags| && values[j] == tags[at[j]].value
    ensures ValuesAre(tags, tag, values)
  {
  }

  lemma PositionsBehind(tags: seq<Tag>, tag: nat, values: seq<nat>) returns (at: seq<nat>)
    requires ValuesAre(tags, tag, values)
    ensures PositionsOf(tags, tag, at) && |values| == |at|
    ensures forall j | 0 <= j < |at| :: at[j] < |tags| && values[j] == tags[at[j]].value
  {
    at :| PositionsOf(tags, tag, at) && |values| == |at| && forall j | 0 <= j < |at| :: values[j] == tags[at[j]].value;
  }

  lemma PositionsFront(tags: seq<Tag>, tag: nat, at: seq<nat>, all: seq<nat>)
    requires tags != [] && PositionsOf(tags[1..], tag, at)
    requires all == (if tags[0].tag == tag then [0] else []) + Shifted(at)
    ensures PositionsOf(tags, tag, all)
  {
    var d := if tags[0].tag == tag then 1 else 0;
    forall j | d <= j < |all| ensures all[j] == at[j - d] + 1 && all[j] < |tags| && tags[all[j]].tag == tag {
      assert all[j] == Shifted(at)[j - d];
      assert tags[1..][at[j - d]] == tags[at[j - d] + 1];
    }
    forall j, k | 0 <= j < k < |all| ensures all[j] < all[k] {
      if j >= d { assert at[j - d] < at[k - d]; }
    }
    forall i | 0 <= i < |tags| && tags[i].tag == tag ensures i in all {
      if i > 0 {
        assert tags[1..][i - 1].tag == tag;
        ShiftedHas(at, i - 1);
      }
    }
  }

  ghost function Shifted(at: seq<nat>): (r: seq<nat>)
    ensures |r| == |at| && forall j | 0 <= j < |at| :: r[j] == at[j] + 1
  {
    seq(|at|, j requires 0 <= j < |at| => at[j] + 1)
  }

  lemma ShiftedHas(at: seq<nat>, i: nat)
    requires i in at
    ensures i + 1 in Shifted(at)
  {
    var j :| 0 <= j < |at| && at[j] == i;
    assert Shifted(at)[j] == i + 1;
  }

  lemma {:induction false} PositionsUnique(tags: seq<Tag>, tag: nat, a: seq<nat>, b: seq<nat>, n: nat)
    requires PositionsOf(tags, tag, a) && PositionsOf(tags, tag, b) && n <= |a| && n <= |b|
    ensures a[..n] == b[..n]
    ensures n == |a| ==> n == |b|
    ensures n == |b| ==> n == |a|
  {
    if n > 0 {
      PositionsUnique(tags, tag, a, b, n - 1);
      NextPosition(tags, tag, a, b, n - 1);
      NextPosition(tags, tag, b, a, n - 1);
      assert a[..n] == a[..n - 1] + [a[n - 1]] && b[..n] == b[..n - 1] + [b[n - 1]];
    }
    if n == |a| < |b| { NextPosition(tags, tag, b, a, n); }
    if n == |b| < |a| { NextPosition(tags, tag, a, b, n); }
  }

  // The position after a common beginning stands in the other list too, and not earlier.
  lemma NextPosition(tags: seq<Tag>, tag: nat, a: seq<nat>, b: seq<nat>, n: nat)
    requires PositionsOf(tags, tag, a) && PositionsOf(tags, tag, b) && n < |a| && n <= |b| && a[..n] == b[..n]
    ensures n < |b| && b[n] <= a[n]
  {
    forall i | 0 <= i < n ensures a[i] == b[i] { assert a[..n][i] == b[..n][i]; }
    var j :| 0 <= j < |b| && b[j] == a[n];
  }

  lemma ValuesExact(tags: seq<Tag>, tag: nat, values: seq<nat>)
    ensures ValuesOf(tags, tag) == values <==> ValuesAre(tags, tag, values)
  {
    hide ValuesOf, ValuesAre, PositionsOf;
    ValuesListed(tags, tag);
    if ValuesAre(tags, tag, values) {
      var found := ValuesOf(tags, tag);
      var a := PositionsBehind(tags, tag, values);
      var b := PositionsBehind(tags, tag, found);
      var n := if |a| <= |b| then |a| else |b|;
      PositionsUnique(tags, tag, a, b, n);
      assert a[..n] == a && b[..n] == b;
    }
  }

  // The string at an offset of the table: up to the first NUL, which stands inside the table.
  ghost predicate StringIs(strings: seq<Byte>, offset: nat, text: seq<Byte>)
  {
    && offset + |text| < |strings| && strings[offset + |text|] == 0
    && forall i | 0 <= i < |text| :: strings[offset + i] == text[i] != 0
  }

  lemma NoNulInside(strings: seq<Byte>, offset: nat, text: seq<Byte>, e: nat)
    requires StringIs(strings, offset, text)
    ensures offset <= e < offset + |text| ==> strings[e] != 0
  {
    if offset <= e < offset + |text| { assert strings[offset + (e - offset)] == text[e - offset]; }
  }

  lemma StringExact(strings: seq<Byte>, offset: nat, text: seq<Byte>)
    ensures TextAt(strings, offset) == Some(text) <==> StringIs(strings, offset, text)
  {
    if offset < |strings| {
      var end := IndexOf(strings, 0, offset);
      if end.Some? {
        forall i | offset <= i < end.value ensures strings[i] != 0 { assert strings[offset..end.value][i - offset] == strings[i]; }
        if StringIs(strings, offset, text) {
          NoNulInside(strings, offset, text, end.value);
          assert offset + |text| == end.value;
          assert strings[offset..end.value] == text;
        }
      } else {
        forall i | offset <= i < |strings| ensures strings[i] != 0 { assert strings[offset..][i - offset] == strings[i]; }
      }
    }
  }

  ghost predicate StringsAre(strings: seq<Byte>, offsets: seq<nat>, texts: seq<seq<Byte>>)
  {
    |texts| == |offsets| && forall j | 0 <= j < |offsets| :: StringIs(strings, offsets[j], texts[j])
  }

  lemma {:induction false} StringsExact(strings: seq<Byte>, offsets: seq<nat>, texts: seq<seq<Byte>>)
    ensures TextsAt(strings, offsets) == Some(texts) <==> StringsAre(strings, offsets, texts)
    decreases |offsets|
  {
    hide TextAt, StringIs;
    if offsets == [] {
      assert TextsAt(strings, offsets) == Some([]);
    } else {
      var n := |offsets| - 1;
      forall text ensures TextAt(strings, offsets[n]) == Some(text) <==> StringIs(strings, offsets[n], text) {
        StringExact(strings, offsets[n], text);
      }
      if |texts| == |offsets| {
        StringsExact(strings, offsets[..n], texts[..n]);
        assert texts == texts[..n] + [texts[n]];
        forall j | 0 <= j < n ensures offsets[..n][j] == offsets[j] && texts[..n][j] == texts[j] {}
      }
      if TextsAt(strings, offsets[..n]).Some? {
        StringsExact(strings, offsets[..n], TextsAt(strings, offsets[..n]).value);
      }
    }
  }

  // The components of a search path: what stands between the colons.
  ghost predicate ComponentsAre(text: seq<Byte>, parts: seq<seq<Byte>>)
  {
    parts != [] && Join(parts) == text && forall i | 0 <= i < |parts| :: ':' as int !in parts[i]
  }

  lemma {:induction false} ComponentsListed(text: seq<Byte>)
    ensures ComponentsAre(text, Split(text))
    decreases |text|
  {
    var colon := IndexOf(text, COLON, 0);
    if colon == None {
      assert text[0..] == text;
    } else {
      var k := colon.value;
      ComponentsListed(text[k + 1..]);
      var rest := Split(text[k + 1..]);
      assert Split(text) == [text[..k]] + rest && Split(text)[1..] == rest;
      assert text == text[..k] + [COLON] + text[k + 1..];
      assert text[0..k] == text[..k];
    }
  }

  lemma ComponentsExact(text: seq<Byte>, parts: seq<seq<Byte>>)
    ensures Split(text) == parts <==> ComponentsAre(text, parts)
  {
    ComponentsListed(text);
    if ComponentsAre(text, parts) { SplitJoin(parts); }
  }

  // All components of several search paths, path by path.
  ghost predicate AllComponents(texts: seq<seq<Byte>>, all: seq<seq<Byte>>)
    decreases |texts|
  {
    if texts == [] then all == [] else
    exists front, parts ::
      && all == front + parts && AllComponents(texts[..|texts| - 1], front) && ComponentsAre(texts[|texts| - 1], parts)
  }

  lemma {:induction false} AllComponentsExact(texts: seq<seq<Byte>>, all: seq<seq<Byte>>)
    ensures SplitAll(texts) == all <==> AllComponents(texts, all)
    decreases |texts|
  {
    hide Split, ComponentsAre;
    if texts != [] {
      var n := |texts| - 1;
      forall front ensures SplitAll(texts[..n]) == front <==> AllComponents(texts[..n], front) {
        AllComponentsExact(texts[..n], front);
      }
      forall parts ensures Split(texts[n]) == parts <==> ComponentsAre(texts[n], parts) {
        ComponentsExact(texts[n], parts);
      }
      if SplitAll(texts) == all {
        assert AllComponents(texts[..n], SplitAll(texts[..n])) && ComponentsAre(texts[n], Split(texts[n]));
      }
    }
  }

  // ---------------------------------------------------------------- the whole image

  // The string table: the first address and the first size among the tags, and the first loaded segment
  // that holds the address.
  ghost predicate StringTable(raw: seq<Byte>, headers: seq<ProgramHeader>, tags: seq<Tag>, strings: seq<Byte>)
  {
    exists addresses: seq<nat>, sizes: seq<nat>, k: nat ::
      && ValuesAre(tags, 5, addresses) && ValuesAre(tags, 10, sizes) && addresses != [] && sizes != []
      && FirstHeader(headers, k, Maps(addresses[0]))
      && var start := headers[k].offset + addresses[0] - headers[k].address;
      && start + sizes[0] <= |raw| && strings == raw[start..start + sizes[0]]
  }

  ghost predicate Tagged(tags: seq<Tag>, tag: nat) { exists i :: 0 <= i < |tags| && tags[i].tag == tag }

  // The texts that the entries with this tag point to.
  ghost predicate TextsAre(strings: seq<Byte>, tags: seq<Tag>, tag: nat, texts: seq<seq<Byte>>)
  {
    exists offsets: seq<nat> :: ValuesAre(tags, tag, offsets) && StringsAre(strings, offsets, texts)
  }

  ghost predicate NamesAre(raw: seq<Byte>, headers: seq<ProgramHeader>, tags: seq<Tag>, facts: Facts)
  {
    if Tagged(tags, 5) && Tagged(tags, 10) then
      exists strings, rpaths, runpaths ::
        && StringTable(raw, headers, tags, strings) && TextsAre(strings, tags, 1, facts.needed)
        && TextsAre(strings, tags, 15, rpaths) && AllComponents(rpaths, facts.rpath)
        && TextsAre(strings, tags, 29, runpaths) && AllComponents(runpaths, facts.runpath)
    else
      && !Tagged(tags, 1) && !Tagged(tags, 15) && !Tagged(tags, 29)
      && facts.needed == [] && facts.rpath == [] && facts.runpath == []
  }

  // The image is well-formed and says these facts.
  ghost predicate Says(raw: seq<Byte>, facts: Facts)
  {
    && |raw| >= 64 && raw[..4] == [0x7F, 'E' as int, 'L' as int, 'F' as int] && raw[4] == 2 && raw[5] == 1
    && exists headers :: HeaderTable(raw, headers) && DynamicSays(raw, headers, facts)
  }

  lemma TaggedExact(tags: seq<Tag>, tag: nat)
    ensures Tagged(tags, tag) <==> ValuesOf(tags, tag) != []
  {
    hide ValuesOf;
    ValuesListed(tags, tag);
    var at := PositionsBehind(tags, tag, ValuesOf(tags, tag));
    if at != [] { assert tags[at[0]].tag == tag; }
  }

  lemma TextsExact(strings: seq<Byte>, tags: seq<Tag>, tag: nat, texts: seq<seq<Byte>>)
    ensures TextsAre(strings, tags, tag, texts) <==> TextsAt(strings, ValuesOf(tags, tag)) == Some(texts)
  {
    hide ValuesAre, ValuesOf, StringsAre, TextsAt;
    var values := ValuesOf(tags, tag);
    ValuesListed(tags, tag);
    StringsExact(strings, values, texts);
    forall other: seq<nat> | ValuesAre(tags, tag, other) ensures other == values { ValuesExact(tags, tag, other); }
  }

  lemma StringTableExact(raw: seq<Byte>, headers: seq<ProgramHeader>, tags: seq<Tag>, strings: seq<Byte>)
    requires Tagged(tags, 5) && Tagged(tags, 10)
    ensures ValuesOf(tags, STRTAB) != [] && ValuesOf(tags, STRSZ) != []
    ensures StringTable(raw, headers, tags, strings) <==> StringsFor(raw, headers, tags) == Some(strings)
  {
    hide ValuesAre, ValuesOf, OffsetOf, FirstHeader, Tagged;
    TaggedExact(tags, 5);
    TaggedExact(tags, 10);
    var addresses, sizes := ValuesOf(tags, STRTAB), ValuesOf(tags, STRSZ);
    forall other: seq<nat> ensures ValuesAre(tags, 5, other) <==> other == addresses { ValuesExact(tags, 5, other); }
    forall other: seq<nat> ensures ValuesAre(tags, 10, other) <==> other == sizes { ValuesExact(tags, 10, other); }
    OffsetExact(headers, addresses[0]);
    forall k: nat | FirstHeader(headers, k, Maps(addresses[0])) ensures k < |headers| && headers[k].address <= addresses[0] {
      FirstWithin(headers, k, Maps(addresses[0]));
    }
    if StringsFor(raw, headers, tags) == Some(strings) {
      var k: nat :| FirstHeader(headers, k, Maps(addresses[0]));
      assert ValuesAre(tags, 5, addresses) && ValuesAre(tags, 10, sizes);
    }
  }

  lemma FirstWithin(headers: seq<ProgramHeader>, k: nat, p: ProgramHeader -> bool)
    requires FirstHeader(headers, k, p)
    ensures k < |headers| && p(headers[k])
  {
  }

  lemma NeedsExact(tags: seq<Tag>)
    ensures NeedsStrings(tags) <==> Tagged(tags, 1) || Tagged(tags, 15) || Tagged(tags, 29)
  {
  }

  lemma LinkedExact(raw: seq<Byte>, headers: seq<ProgramHeader>, tags: seq<Tag>, interpreter: Option<seq<Byte>>, facts: Facts)
    ensures Linked(raw, headers, tags, interpreter) == Elf(facts)
       <==> facts.interpreter == interpreter && NamesAre(raw, headers, tags, facts)
  {
    hide StringTable, TextsAre, AllComponents, Tagged, ValuesOf, StringsFor, TextsAt, SplitAll, NeedsStrings;
    TaggedExact(tags, 5);
    TaggedExact(tags, 10);
    NeedsExact(tags);
    if Tagged(tags, 5) && Tagged(tags, 10) {
      forall strings ensures StringTable(raw, headers, tags, strings) <==> StringsFor(raw, headers, tags) == Some(strings) {
        StringTableExact(raw, headers, tags, strings);
      }
      forall strings, tag, texts
        ensures TextsAre(strings, tags, tag, texts) <==> TextsAt(strings, ValuesOf(tags, tag)) == Some(texts)
      {
        TextsExact(strings, tags, tag, texts);
      }
      forall texts, all ensures SplitAll(texts) == all <==> AllComponents(texts, all) { AllComponentsExact(texts, all); }
      NamesFromTable(raw, headers, tags, interpreter, facts);
    }
  }

  lemma NamesFromTable(raw: seq<Byte>, headers: seq<ProgramHeader>, tags: seq<Tag>, interpreter: Option<seq<Byte>>, facts: Facts)
    requires Tagged(tags, 5) && Tagged(tags, 10) && ValuesOf(tags, STRTAB) != [] && ValuesOf(tags, STRSZ) != []
    requires forall strings :: StringTable(raw, headers, tags, strings) <==> StringsFor(raw, headers, tags) == Some(strings)
    requires forall strings, tag, texts ::
               TextsAre(strings, tags, tag, texts) <==> TextsAt(strings, ValuesOf(tags, tag)) == Some(texts)
    requires forall texts, all :: SplitAll(texts) == all <==> AllComponents(texts, all)
    ensures Linked(raw, headers, tags, interpreter) == Elf(facts)
       <==> facts.interpreter == interpreter && NamesAre(raw, headers, tags, facts)
  {
    hide StringTable, TextsAre, AllComponents, Tagged, ValuesOf, StringsFor, TextsAt, SplitAll;
    if Linked(raw, headers, tags, interpreter) == Elf(facts) {
      var strings := StringsFor(raw, headers, tags).value;
      var rpaths := TextsAt(strings, ValuesOf(tags, RPATH)).value;
      var runpaths := TextsAt(strings, ValuesOf(tags, RUNPATH)).value;
      assert StringTable(raw, headers, tags, strings) && TextsAre(strings, tags, 1, facts.needed);
      assert TextsAre(strings, tags, 15, rpaths) && AllComponents(rpaths, facts.rpath);
      assert TextsAre(strings, tags, 29, runpaths) && AllComponents(runpaths, facts.runpath);
    }
    if facts.interpreter == interpreter && NamesAre(raw, headers, tags, facts) {
      var strings, rpaths, runpaths :|
        && StringTable(raw, headers, tags, strings) && TextsAre(strings, tags, 1, facts.needed)
        && TextsAre(strings, tags, 15, rpaths) && AllComponents(rpaths, facts.rpath)
        && TextsAre(strings, tags, 29, runpaths) && AllComponents(runpaths, facts.runpath);
      assert SplitAll(rpaths) == facts.rpath && SplitAll(runpaths) == facts.runpath;
    }
  }

  // The interpreter, and what the first dynamic section says.
  ghost predicate DynamicSays(raw: seq<Byte>, headers: seq<ProgramHeader>, facts: Facts)
  {
    && InterpreterIs(raw, headers, facts.interpreter)
    && if forall k | 0 <= k < |headers| :: headers[k].kind != 2
       then facts.needed == [] && facts.rpath == [] && facts.runpath == []
       else exists k: nat, tags: seq<Tag> ::
         && FirstHeader(headers, k, IsDynamic()) && headers[k].offset + headers[k].fileSize <= |raw|
         && TagTable(raw, headers[k].offset, headers[k].fileSize, tags) && NamesAre(raw, headers, tags, facts)
  }

  lemma DynamicExact(raw: seq<Byte>, headers: seq<ProgramHeader>, facts: Facts)
    ensures WithHeaders(raw, headers) == Elf(facts) <==> DynamicSays(raw, headers, facts)
  {
    hide InterpreterOf, InterpreterIs, FirstDynamic, FirstHeader, TagTable, TagsAt, Linked, NamesAre, IsDynamic;
    forall interpreter ensures InterpreterOf(raw, headers) == Some(interpreter) <==> InterpreterIs(raw, headers, interpreter) {
      InterpreterExact(raw, headers, interpreter);
    }
    FirstDynamicExact(headers);
    forall k: nat | FirstHeader(headers, k, IsDynamic()) ensures k < |headers| { FirstWithin(headers, k, IsDynamic()); }
    if FirstDynamic(headers).Some? {
      var k: nat :| FirstHeader(headers, k, IsDynamic());
      var start, size := headers[k].offset, headers[k].fileSize;
      if start + size <= |raw| {
        TagsOfSection(raw, start, size);
        if size % 16 == 0 && InterpreterOf(raw, headers).Some? {
          LinkedExact(raw, headers, TagsAt(raw, start, size / 16), InterpreterOf(raw, headers).value, facts);
        }
      }
    }
  }

  lemma TagsOfSection(raw: seq<Byte>, start: nat, size: nat)
    requires start + size <= |raw|
    ensures forall tags :: TagTable(raw, start, size, tags) <==> size % 16 == 0 && tags == TagsAt(raw, start, size / 16)
  {
    hide TagTable, TagsAt;
    forall tags ensures TagTable(raw, start, size, tags) <==> size % 16 == 0 && tags == TagsAt(raw, start, size / 16) {
      if size % 16 == 0 {
        TagsListed(raw, start, size / 16);
        if TagTable(raw, start, size, tags) { TagTableUnique(raw, start, size, tags, TagsAt(raw, start, size / 16)); }
      } else if TagTable(raw, start, size, tags) {
        TableWhole(raw, start, size, tags);
      }
    }
  }

  lemma TableWhole(raw: seq<Byte>, start: nat, size: nat, tags: seq<Tag>)
    requires start + size <= |raw| && TagTable(raw, start, size, tags)
    ensures size % 16 == 0
  {
  }

  // The reading of an image is what it says, and only an image that says something is read.
  lemma SaysExact(raw: seq<Byte>, facts: Facts)
    ensures ReadingOf(raw) == Elf(facts) <==> Says(raw, facts)
    ensures ReadingOf(raw) == NotElf <==> !(|raw| >= 4 && raw[..4] == [0x7F, 'E' as int, 'L' as int, 'F' as int])
  {
    hide HeaderTable, HeadersAt, WithHeaders, InterpreterIs, NamesAre, TagTable, FirstHeader, Number;
    if |raw| >= 64 {
      forall headers
        ensures HeaderTable(raw, headers)
           <==> var pos, count := Number(raw, 32, 8), Number(raw, 56, 2);
                && Number(raw, 54, 2) == 56 && count <= 4096 && (count > 0 ==> pos + 56 * count <= |raw|)
                && headers == HeadersAt(raw, pos, count)
      {
        HeaderTableExact(raw, headers);
      }
      forall headers ensures WithHeaders(raw, headers) == Elf(facts) <==> DynamicSays(raw, headers, facts) {
        DynamicExact(raw, headers, facts);
      }
      HeaderNumbers(raw);
    }
    NotElfWith(raw);
  }

  lemma HeaderNumbers(raw: seq<Byte>)
    requires |raw| >= 64
    ensures Number(raw, 32, 8) == Little(raw[32..40]) && Number(raw, 54, 2) == Little(raw[54..56])
    ensures Number(raw, 56, 2) == Little(raw[56..58])
  {
  }

  lemma NotElfWith(raw: seq<Byte>)
    ensures forall headers :: WithHeaders(raw, headers) != NotElf
  {
    hide InterpreterOf, FirstDynamic, TagsAt, ValuesOf, StringsFor, TextsAt, SplitAll;
  }
}
