// The evaluator's own GGUF reader, and its agreement with the converter's reader: where both accept, both
// report the same.
module GgufIdentity {
  import opened Bytes
  import opened Collections
  import opened GgufGrammar
  import opened GgufReader
  import opened GgufCursor

  const IDENTITY_RULES: Rules := Rules(0x10_0000, 0x10_0000, true, false)
  const MAX_IDENTITY_FIELDS: nat := 100_000
  const ARCHITECTURE_KEY: seq<Byte> := Ascii("general.architecture")
  const FILE_TYPE_KEY: seq<Byte> := Ascii("general.file_type")
  const IDENTITY_KEYS: set<seq<Byte>> := {ARCHITECTURE_KEY, FILE_TYPE_KEY}

  lemma IdentityKeysDiffer()
    ensures ARCHITECTURE_KEY != FILE_TYPE_KEY
  {
    assert |ARCHITECTURE_KEY| == 20 && |FILE_TYPE_KEY| == 17;
  }

  datatype Identity = Identity(version: nat, tensorCount: nat, metadataCount: nat,
                               architecture: seq<Byte>, fileType: int)

  // The two interesting fields have a type the reader accepts.
  predicate KindFits(field: Field)
  {
    && (field.key == ARCHITECTURE_KEY ==> field.kind == TEXT_KIND)
    && (field.key == FILE_TYPE_KEY ==> field.kind in {4, 5, 10, 11})
  }

  predicate KindsFit(fields: seq<Field>)
  {
    forall i | 0 <= i < |fields| :: KindFits(fields[i])
  }

  ghost function IdentityOf(f: seq<Byte>, expected: seq<Byte>): Option<Identity>
  {
    match TakePreamble(f)
    case Refused => None
    case Ok(p, a) =>
      if p.fieldCount > MAX_IDENTITY_FIELDS then None else
      match TakeFields(IDENTITY_RULES, f, a, p.fieldCount, {})
      case Refused => None
      case Ok(fields, _) => if Distinct(KeysOf(fields)) then Identify(p, fields, expected) else None
  }

  ghost function Identify(p: Preamble, fields: seq<Field>, expected: seq<Byte>): Option<Identity>
  {
    var found := Selected(fields, IDENTITY_KEYS);
    if !KindsFit(fields) || ARCHITECTURE_KEY !in found || FILE_TYPE_KEY !in found then None
    else if found[ARCHITECTURE_KEY].value != String(expected) then None
    else if !found[FILE_TYPE_KEY].value.Number? then None
    else Some(Identity(p.version, p.tensorCount, p.fieldCount, expected, found[FILE_TYPE_KEY].value.n))
  }

  class IdentityHandle {
    const data: seq<Byte>
    var pos: nat

    constructor (data: seq<Byte>)
      ensures this.data == data && pos == 0
    {
      this.data := data;
      pos := 0;
    }

    // A short read is detected by its length; there is no header ceiling.
    method ReadExact(size: nat) returns (r: Option<seq<Byte>>)
      requires pos <= |data|
      modifies this`pos
      ensures pos <= |data|
      ensures match TakeBytes(data, old(pos), size)
              case Ok(raw, end) => r == Some(raw) && pos == end
              case Refused => r == None
    {
      var stop := if pos + size <= |data| then pos + size else |data|;
      var raw := data[pos..stop];
      pos := stop;
      r := if |raw| != size then None else Some(raw);
    }

    method SkipBytes(size: nat) returns (ok: bool)
      requires pos <= |data|
      modifies this`pos
      ensures pos <= |data|
      ensures ok <==> old(pos) + size <= |data|
      ensures ok ==> pos == old(pos) + size
    {
      if pos + size > |data| { return false; }
      pos := pos + size;
      ok := true;
    }

    method ReadU32() returns (r: Option<nat>)
      requires pos <= |data|
      modifies this`pos
      ensures pos <= |data|
      ensures match TakeU32(data, old(pos))
              case Ok(n, end) => r == Some(n) && pos == end
              case Refused => r == None
    {
      var raw := ReadExact(4);
      r := if raw.Some? then Some(Little(raw.value)) else None;
    }

    method ReadU64() returns (r: Option<nat>)
      requires pos <= |data|
      modifies this`pos
      ensures pos <= |data|
      ensures match TakeU64(data, old(pos))
              case Ok(n, end) => r == Some(n) && pos == end
              case Refused => r == None
    {
      var raw := ReadExact(8);
      r := if raw.Some? then Some(Little(raw.value)) else None;
    }

    method ReadText() returns (r: Option<seq<Byte>>)
      requires pos <= |data|
      modifies this`pos
      ensures pos <= |data|
      ensures match TakeText(IDENTITY_RULES, data, old(pos), true)
              case Ok(raw, end) => r == Some(raw) && pos == end
              case Refused => r == None
      ensures TakeText(IDENTITY_RULES, data, old(pos), true) == TakeText(IDENTITY_RULES, data, old(pos), false)
    {
      var size := ReadU64();
      if size == None || size.value > IDENTITY_RULES.maxText { return None; }
      var raw := ReadExact(size.value);
      if raw == None || !ValidUtf8(raw.value) { return None; }
      r := raw;
    }

    method SkipTexts(count: nat) returns (ok: bool)
      requires pos <= |data|
      modifies this`pos
      ensures pos <= |data|
      ensures match TakeItems(IDENTITY_RULES, data, old(pos), TEXT_KIND, count, false)
              case Ok(_, end) => ok && pos == end
              case Refused => !ok
    {
      hide TakeText;
      var index := 0;
      ghost var got: seq<seq<Byte>> := [];
      ghost var whole := TakeItems(IDENTITY_RULES, data, pos, TEXT_KIND, count, false);
      assert whole == Resume(got, whole) by { assert whole.Ok? ==> got + whole.value == whole.value; }
      while index < count
        invariant 0 <= index <= count && pos <= |data|
        invariant whole == Resume(got, TakeItems(IDENTITY_RULES, data, pos, TEXT_KIND, count - index, false))
      {
        var text := ReadText();
        if text == None { return false; }
        ResumeStep(got, text.value, TakeItems(IDENTITY_RULES, data, pos, TEXT_KIND, count - index - 1, false));
        got := got + [text.value];
        index := index + 1;
      }
      ok := true;
    }

    method SkipValue(kind: nat) returns (ok: bool)
      requires pos <= |data|
      modifies this`pos
      ensures pos <= |data|
      ensures match TakeBody(IDENTITY_RULES, data, old(pos), kind, false)
              case Ok(_, end) => ok && pos == end
              case Refused => !ok
    {
      hide TakeText, TakeItems;
      if Width(kind) > 0 {
        ok := SkipBytes(Width(kind));
        return;
      }
      if kind == TEXT_KIND {
        var text := ReadText();
        return text.Some?;
      }
      if kind != ARRAY_KIND { return false; }
      ok := SkipArray();
    }

    method SkipArray() returns (ok: bool)
      requires pos <= |data|
      modifies this`pos
      ensures pos <= |data|
      ensures match TakeBody(IDENTITY_RULES, data, old(pos), ARRAY_KIND, false)
              case Ok(_, end) => ok && pos == end
              case Refused => !ok
    {
      hide TakeText, TakeItems, TakeU32, TakeU64;
      var element := ReadU32();
      if element == None { return false; }
      var count := ReadU64();
      if count == None { return false; }
      if count.value > IDENTITY_RULES.maxItems || element.value == ARRAY_KIND { return false; }
      if element.value == TEXT_KIND {
        ok := SkipTexts(count.value);
        return;
      }
      if Width(element.value) == 0 { return false; }
      BulkSkip(IDENTITY_RULES, data, pos, element.value, count.value, false);
      ok := SkipBytes(Width(element.value) * count.value);
    }

    // The value of an interesting field, None when its type is refused.
    method ReadFound(key: seq<Byte>, kind: nat) returns (r: Option<Value>)
      requires pos <= |data| && key in IDENTITY_KEYS
      modifies this`pos
      ensures pos <= |data|
      ensures if !KindFits(Field(key, kind, Scalar([]))) then r == None else
              match TakeBody(IDENTITY_RULES, data, old(pos), kind, false)
              case Ok(body, end) => r == Some(DecodeBody(kind, body)) && pos == end
              case Refused => r == None
    {
      hide TakeText, Ascii;
      IdentityKeysDiffer();
      if key == ARCHITECTURE_KEY {
        if kind != TEXT_KIND { return None; }
        var text := ReadText();
        return if text.Some? then Some(String(text.value)) else None;
      }
      if kind == 4 {
        var n := ReadU32();
        r := if n.Some? then Some(Number(n.value)) else None;
      } else if kind == 5 {
        var raw := ReadExact(4);
        r := if raw.Some? then Some(Number(SignedLittle(raw.value))) else None;
      } else if kind == 10 {
        var n := ReadU64();
        r := if n.Some? then Some(Number(n.value)) else None;
      } else if kind == 11 {
        var raw := ReadExact(8);
        r := if raw.Some? then Some(Number(SignedLittle(raw.value))) else None;
      } else {
        r := None;
      }
    }

    // One field after its type was read: kept when it is interesting, skipped otherwise.
    method ReadFieldValue(key: seq<Byte>, kind: nat) returns (ok: bool, value: Option<Value>)
      requires pos <= |data|
      modifies this`pos
      ensures pos <= |data|
      ensures match TakeBody(IDENTITY_RULES, data, old(pos), kind, false)
              case Ok(body, end) =>
                && (ok <==> KindFits(Field(key, kind, body)))
                && (ok ==> pos == end && value == if key in IDENTITY_KEYS then Some(DecodeBody(kind, body)) else None)
              case Refused => !ok
    {
      hide TakeBody, DecodeBody, Ascii;
      if key in IDENTITY_KEYS {
        value := ReadFound(key, kind);
        ok := value.Some?;
      } else {
        value := None;
        ok := SkipValue(kind);
      }
    }

    // The found dictionary, keyed as in the file.
    method ReadMetadata(count: nat) returns (r: Option<map<seq<Byte>, Value>>)
      requires pos <= |data|
      modifies this`pos
      ensures pos <= |data|
      ensures match TakeFields(IDENTITY_RULES, data, old(pos), count, {})
              case Ok(fields, _) =>
                if Distinct(KeysOf(fields)) && KindsFit(fields)
                then r == Some(ValuesOf(Selected(fields, IDENTITY_KEYS)))
                else r == None
              case Refused => r == None
    {
      hide TakeText, TakeBody, DecodeBody, EntryOf, ValuesOf, Distinct, KeySet, KeysOf, Selected, Ascii, KindFits,
           TakeFields, Resume;
      NoValues();
      var found: map<seq<Byte>, Value> := map[];
      var seen: set<seq<Byte>> := {};
      var index := 0;
      ghost var got: seq<Field> := [];
      ghost var whole := TakeFields(IDENTITY_RULES, data, pos, count, {});
      ResumeNothing(whole);
      NoFields(IDENTITY_KEYS);
      while index < count
        invariant 0 <= index <= count && pos <= |data|
        invariant whole == Resume(got, TakeFields(IDENTITY_RULES, data, pos, count - index, {}))
        invariant Distinct(KeysOf(got)) && seen == KeySet(got) && KindsFit(got)
        invariant found == ValuesOf(Selected(got, IDENTITY_KEYS))
      {
        ghost var field := TakeField(IDENTITY_RULES, data, pos, {});
        FieldsStep(IDENTITY_RULES, data, pos, count - index, {});
        ResumeNone(got);
        if field.Ok? { ResumeNext(got, field.value, TakeFields(IDENTITY_RULES, data, field.end, count - index - 1, {})); }
        var key := ReadText();
        if key == None { return None; }
        if key.value in seen {
          if whole.Ok? {
            RepeatedKey(got, whole.value, key.value);
          }
          return None;
        }
        seen := seen + {key.value};
        var kind := ReadU32();
        if kind == None { return None; }
        var ok, value := ReadFieldValue(key.value, kind.value);
        if !ok {
          assert field.Ok? && whole.Ok? ==> whole.value[|got|] == field.value;
          return None;
        }
        if value.Some? {
          found := found[key.value := value.value];
        }
        AddValue(Selected(got, IDENTITY_KEYS), field.value);
        ResumeStep(got, field.value, TakeFields(IDENTITY_RULES, data, pos, count - index - 1, {}));
        AddField(got, field.value, IDENTITY_KEYS);
        got := got + [field.value];
        index := index + 1;
      }
      NoneLeft(IDENTITY_RULES, data, pos, {});
      ResumeEnd(got, pos);
      r := Some(found);
    }
  }

  function ValuesOf(entries: map<seq<Byte>, Entry>): map<seq<Byte>, Value>
  {
    map key | key in entries :: entries[key].value
  }

  lemma NoValues()
    ensures ValuesOf(map[]) == map[]
  {
  }

  lemma AddValue(entries: map<seq<Byte>, Entry>, field: Field)
    ensures ValuesOf(entries[field.key := EntryOf(field)])
         == ValuesOf(entries)[field.key := DecodeBody(field.kind, field.body)]
  {
  }

  method ReadGgufIdentity(file: seq<Byte>, expected: seq<Byte>, supported: set<seq<Byte>>)
    returns (r: Option<Identity>)
    ensures r == if expected in supported then IdentityOf(file, expected) else None
  {
    hide TakeU32, TakeU64, TakeFields, Distinct, KeysOf, Selected, Ascii, KindsFit;
    if expected !in supported { return None; }
    var handle := new IdentityHandle(file);
    var magic := handle.ReadExact(4);
    if magic == None || magic.value != MAGIC { return None; }
    var version := handle.ReadU32();
    if version == None || version.value !in {2, 3} { return None; }
    var tensorCount := handle.ReadU64();
    if tensorCount == None { return None; }
    var metadataCount := handle.ReadU64();
    if metadataCount == None { return None; }
    if metadataCount.value > MAX_IDENTITY_FIELDS { return None; }
    ghost var start := handle.pos;
    var found := handle.ReadMetadata(metadataCount.value);
    if found == None { return None; }
    if ARCHITECTURE_KEY !in found.value || found.value[ARCHITECTURE_KEY] != String(expected) { return None; }
    if FILE_TYPE_KEY !in found.value { return None; }
    FileTypeIsNumber(file, start, metadataCount.value);
    r := Some(Identity(version.value, tensorCount.value, metadataCount.value, expected,
                       found.value[FILE_TYPE_KEY].n));
  }

  lemma FileTypeIsNumber(f: seq<Byte>, pos: nat, count: nat)
    requires pos <= |f|
    ensures match TakeFields(IDENTITY_RULES, f, pos, count, {})
            case Refused => true
            case Ok(fields, _) =>
              Distinct(KeysOf(fields)) && KindsFit(fields) && FILE_TYPE_KEY in Selected(fields, IDENTITY_KEYS)
              ==> Selected(fields, IDENTITY_KEYS)[FILE_TYPE_KEY].value.Number?
  {
    hide TakeFields, Selected, Ascii, GoodFields, KindsFit, Spans, Distinct;
    var r := TakeFields(IDENTITY_RULES, f, pos, count, {});
    if r.Ok? {
      TakeFieldsSound(IDENTITY_RULES, f, pos, count, {});
      if Distinct(KeysOf(r.value)) && KindsFit(r.value) && FILE_TYPE_KEY in Selected(r.value, IDENTITY_KEYS) {
        FileTypeEntry(r.value);
      }
    }
  }

  lemma FileTypeEntry(fields: seq<Field>)
    requires GoodFields(IDENTITY_RULES, fields, {}) && Distinct(KeysOf(fields)) && KindsFit(fields)
    requires FILE_TYPE_KEY in Selected(fields, IDENTITY_KEYS)
    ensures Selected(fields, IDENTITY_KEYS)[FILE_TYPE_KEY].value.Number?
  {
    hide Selected, Ascii, GoodText;
    SelectedMeaning(fields, IDENTITY_KEYS);
    var i :| 0 <= i < |fields| && fields[i].key == FILE_TYPE_KEY;
    assert GoodField(IDENTITY_RULES, fields[i], {}) && KindFits(fields[i]);
  }

  // ---------------------------------------------------------------- agreement

  // Every list of fields that either reader finds is one that the converter finds when nothing is
  // wanted.
  lemma Weaken(rules: Rules, fields: seq<Field>, wanted: set<seq<Byte>>)
    requires rules == CONVERTER_RULES || rules == IDENTITY_RULES
    requires GoodFields(rules, fields, wanted)
    ensures GoodFields(CONVERTER_RULES, fields, {})
  {
    forall i | 0 <= i < |fields| ensures GoodField(CONVERTER_RULES, fields[i], {}) {
      var field := fields[i];
      assert GoodField(rules, field, wanted);
      if field.body.Array? {
        forall j | 0 <= j < |field.body.items|
          ensures GoodItem(CONVERTER_RULES, field.body.element, field.body.items[j], false)
        {
          assert GoodItem(rules, field.body.element, field.body.items[j], field.key in wanted);
        }
      }
    }
  }

  lemma SpansVisible(f: seq<Byte>, pos: nat, end: nat, part: seq<Byte>)
    requires Spans(Visible(f), pos, end, part)
    ensures Spans(f, pos, end, part)
  {
    assert Visible(f)[pos..end] == f[pos..end];
  }

  lemma SamePreamble(f: seq<Byte>)
    requires TakePreamble(Visible(f)).Ok?
    ensures TakePreamble(f) == TakePreamble(Visible(f))
  {
    hide EmitPreamble, Spans;
    var (p, end) := TakePreamble(Visible(f)).Extract();
    TakePreambleExact(Visible(f), p, end);
    SpansVisible(f, 0, end, EmitPreamble(p));
    TakePreambleExact(f, p, end);
  }

  // Whatever fields both readers find from the same position are the same fields.
  lemma SameFields(f: seq<Byte>, pos: nat, count: nat, wanted: set<seq<Byte>>)
    requires pos <= |Visible(f)|
    requires TakeFields(CONVERTER_RULES, Visible(f), pos, count, wanted).Ok?
    requires TakeFields(IDENTITY_RULES, f, pos, count, {}).Ok?
    ensures TakeFields(CONVERTER_RULES, Visible(f), pos, count, wanted)
         == TakeFields(IDENTITY_RULES, f, pos, count, {})
  {
    hide TakeFields, GoodFields, EmitFields, Spans;
    var a := TakeFields(CONVERTER_RULES, Visible(f), pos, count, wanted);
    var b := TakeFields(IDENTITY_RULES, f, pos, count, {});
    TakeFieldsSound(CONVERTER_RULES, Visible(f), pos, count, wanted);
    TakeFieldsSound(IDENTITY_RULES, f, pos, count, {});
    SpansVisible(f, pos, a.end, EmitFields(a.value));
    Weaken(CONVERTER_RULES, a.value, wanted);
    Weaken(IDENTITY_RULES, b.value, {});
    TakeFieldsComplete(CONVERTER_RULES, f, pos, a.value, {}, a.end);
    TakeFieldsComplete(CONVERTER_RULES, f, pos, b.value, {}, b.end);
  }

  // Whenever both readers accept the same bytes they report the same identity.
  lemma ReadersAgree(f: seq<Byte>, wanted: set<seq<Byte>>, details: bool, expected: seq<Byte>)
    requires IDENTITY_KEYS <= wanted
    requires ContractOf(f, wanted, details).Some? && IdentityOf(f, expected).Some?
    ensures var contract, identity := ContractOf(f, wanted, details).value, IdentityOf(f, expected).value;
            && contract.version == identity.version
            && contract.tensorCount == identity.tensorCount
            && contract.metadataCount == identity.metadataCount
            && ARCHITECTURE_KEY in contract.metadata && FILE_TYPE_KEY in contract.metadata
            && contract.metadata[ARCHITECTURE_KEY] == Entry(TEXT_KIND, None, String(identity.architecture))
            && contract.metadata[FILE_TYPE_KEY].value == Number(identity.fileType)
            && contract.metadata[FILE_TYPE_KEY].kind in {4, 5, 10, 11}
  {
    hide TakePreamble, TakeFields, TakeTensors, Selected, Ascii, GoodFields, Spans, AlignmentOf,
         KindsFit, EmitFields, EmitPreamble, KeySet;
    var wanted' := wanted + {ALIGNMENT_KEY};
    SamePreamble(f);
    var (p, a) := TakePreamble(f).Extract();
    TakePreambleExact(Visible(f), p, a);
    SameFields(f, a, p.fieldCount, wanted');
    TakeFieldsSound(IDENTITY_RULES, f, a, p.fieldCount, {});
    SameSelection(TakeFields(IDENTITY_RULES, f, a, p.fieldCount, {}).value, wanted');
  }

  // A larger set of wanted keys selects the same entries for the two interesting keys.
  lemma SameSelection(fields: seq<Field>, wanted: set<seq<Byte>>)
    requires IDENTITY_KEYS <= wanted
    requires GoodFields(IDENTITY_RULES, fields, {}) && Distinct(KeysOf(fields)) && KindsFit(fields)
    requires ARCHITECTURE_KEY in Selected(fields, IDENTITY_KEYS) && FILE_TYPE_KEY in Selected(fields, IDENTITY_KEYS)
    ensures var few, many := Selected(fields, IDENTITY_KEYS), Selected(fields, wanted);
            && ARCHITECTURE_KEY in many && FILE_TYPE_KEY in many
            && few[ARCHITECTURE_KEY] == many[ARCHITECTURE_KEY] && few[FILE_TYPE_KEY] == many[FILE_TYPE_KEY]
            && many[ARCHITECTURE_KEY].kind == TEXT_KIND && many[ARCHITECTURE_KEY].arrayType == None
            && many[FILE_TYPE_KEY].kind in {4, 5, 10, 11}
  {
    hide Selected, Ascii, GoodText, DecodeBody;
    SelectedMeaning(fields, wanted);
    SelectedMeaning(fields, IDENTITY_KEYS);
    var i :| 0 <= i < |fields| && fields[i].key == ARCHITECTURE_KEY;
    var j :| 0 <= j < |fields| && fields[j].key == FILE_TYPE_KEY;
    assert GoodField(IDENTITY_RULES, fields[i], {}) && KindFits(fields[i]);
    assert GoodField(IDENTITY_RULES, fields[j], {}) && KindFits(fields[j]);
  }

  // When the converter finds fields, the second reader's own pass over the same fields succeeds
  // exactly when they meet its stricter rules.
  lemma SecondReaderCondition(f: seq<Byte>, pos: nat, count: nat, wanted: set<seq<Byte>>)
    requires pos <= |Visible(f)|
    requires TakeFields(CONVERTER_RULES, Visible(f), pos, count, wanted).Ok?
    ensures TakeFields(IDENTITY_RULES, f, pos, count, {}).Ok?
       <==> GoodFields(IDENTITY_RULES, TakeFields(CONVERTER_RULES, Visible(f), pos, count, wanted).value, {})
  {
    hide TakeFields, GoodFields, EmitFields, Spans;
    var a := TakeFields(CONVERTER_RULES, Visible(f), pos, count, wanted);
    TakeFieldsSound(CONVERTER_RULES, Visible(f), pos, count, wanted);
    SpansVisible(f, pos, a.end, EmitFields(a.value));
    if GoodFields(IDENTITY_RULES, a.value, {}) {
      TakeFieldsComplete(IDENTITY_RULES, f, pos, a.value, {}, a.end);
      CountOfFields(CONVERTER_RULES, Visible(f), pos, count, wanted);
    }
    if TakeFields(IDENTITY_RULES, f, pos, count, {}).Ok? {
      TakeFieldsSound(IDENTITY_RULES, f, pos, count, {});
      SameFields(f, pos, count, wanted);
    }
  }

  lemma CountOfFields(rules: Rules, f: seq<Byte>, pos: nat, count: nat, wanted: set<seq<Byte>>)
    requires TakeFields(rules, f, pos, count, wanted).Ok?
    ensures |TakeFields(rules, f, pos, count, wanted).value| == count
  {
  }

  // The readers do differ: an empty array of an unknown element type passes the first and not the second.
  lemma EmptyUnknownArrayDiffers(f: seq<Byte>, pos: nat, element: nat)
    requires !KnownElement(element) && element != ARRAY_KIND && element < LIMIT32
    requires Spans(f, pos, pos + 12, U32(element) + U64(0))
    ensures TakeBody(CONVERTER_RULES, f, pos, ARRAY_KIND, true) == Ok(Array(element, []), pos + 12)
    ensures TakeBody(IDENTITY_RULES, f, pos, ARRAY_KIND, true) == Refused
  {
    SpansConcat(f, pos, pos + 12, U32(element), U64(0));
    TakeU32Exact(f, pos, element, pos + 4);
    TakeU64Exact(f, pos + 4, 0, pos + 12);
  }

  // ---------------------------------------------------------------- when the evaluator follows

  // What the evaluator asks of a header: its own limits on every field, integer file type, and the
  // expected architecture as a text.
  ghost predicate MeetsIdentity(fields: seq<Field>, expected: seq<Byte>)
  {
    && GoodFields(IDENTITY_RULES, fields, {}) && KindsFit(fields)
    && (exists i | 0 <= i < |fields| :: fields[i].key == ARCHITECTURE_KEY && fields[i].body == Text(expected))
    && (exists i | 0 <= i < |fields| :: fields[i].key == FILE_TYPE_KEY)
  }

  lemma FieldAt(rules: Rules, fields: seq<Field>, wanted: set<seq<Byte>>, i: nat)
    requires i < |fields| && GoodFields(rules, fields, wanted)
    ensures GoodField(rules, fields[i], wanted)
  {
  }

  lemma IdentifyExact(p: Preamble, fields: seq<Field>, expected: seq<Byte>)
    requires GoodFields(IDENTITY_RULES, fields, {}) && Distinct(KeysOf(fields))
    ensures Identify(p, fields, expected).Some? <==> MeetsIdentity(fields, expected)
  {
    hide Selected, Ascii, GoodFields, GoodText;
    SelectedMeaning(fields, IDENTITY_KEYS);
    if KindsFit(fields) {
      if ARCHITECTURE_KEY in Selected(fields, IDENTITY_KEYS) {
        var i :| 0 <= i < |fields| && fields[i].key == ARCHITECTURE_KEY;
        OnlyField(fields, i);
        assert GoodField(IDENTITY_RULES, fields[i], {}) by { FieldAt(IDENTITY_RULES, fields, {}, i); }
        assert KindFits(fields[i]);
      }
      if FILE_TYPE_KEY in Selected(fields, IDENTITY_KEYS) {
        FileTypeEntry(fields);
      }
    }
  }

  // A file whose header the converter can read is accepted by the evaluator exactly when the header
  // meets the evaluator's own conditions, and is then described by that header.
  lemma EvaluatorExact(f: seq<Byte>, h: Header, wanted: set<seq<Byte>>, expected: seq<Byte>)
    requires Derives(f, h, wanted)
    ensures IdentityOf(f, expected).Some? <==> MeetsIdentity(h.fields, expected)
    ensures IdentityOf(f, expected).Some? ==>
              var r := IdentityOf(f, expected).value;
              && r.version == h.version && r.tensorCount == |h.tensors| && r.metadataCount == |h.fields|
              && r.architecture == expected && FILE_TYPE_KEY in Selected(h.fields, IDENTITY_KEYS)
              && Selected(h.fields, IDENTITY_KEYS)[FILE_TYPE_KEY].value == Number(r.fileType)
  {
    hide TakePreamble, TakeFields, TakeTensors, EmitPreamble, EmitFields, EmitTensors, Selected, Ascii, GoodFields,
         GoodTensors, Spans, KindsFit, MeetsIdentity, Identify;
    TakeHeaderComplete(f, wanted, h);
    SamePreamble(f);
    var (p, a) := TakePreamble(f).Extract();
    TakePreambleExact(Visible(f), p, a);
    SecondReaderCondition(f, a, p.fieldCount, wanted);
    if TakeFields(IDENTITY_RULES, f, a, p.fieldCount, {}).Ok? {
      SameFields(f, a, p.fieldCount, wanted);
      IdentifyExact(p, h.fields, expected);
      IdentityReports(p, h.fields, expected);
    }
    OwnLimits(h.fields, expected);
  }

  lemma OwnLimits(fields: seq<Field>, expected: seq<Byte>)
    ensures MeetsIdentity(fields, expected) ==> GoodFields(IDENTITY_RULES, fields, {})
  {
  }

  lemma IdentityReports(p: Preamble, fields: seq<Field>, expected: seq<Byte>)
    ensures var r := Identify(p, fields, expected);
            r.Some? ==>
              && r.value.version == p.version && r.value.tensorCount == p.tensorCount
              && r.value.metadataCount == p.fieldCount && r.value.architecture == expected
              && FILE_TYPE_KEY in Selected(fields, IDENTITY_KEYS)
              && Selected(fields, IDENTITY_KEYS)[FILE_TYPE_KEY].value == Number(r.value.fileType)
  {
  }

  // The smallest file with the given fields and no tensors, padded for any alignment up to 32.
  function FileWith(fields: seq<Field>): seq<Byte>
  {
    Header(3, fields, []).Emit() + seq(32, _ => 0)
  }

  lemma FileWithDerives(fields: seq<Field>, details: bool)
    requires GoodFields(CONVERTER_RULES, fields, {ALIGNMENT_KEY}) && Distinct(KeysOf(fields)) && |fields| <= MAX_FIELDS
    requires forall i | 0 <= i < |fields| :: fields[i].key != ALIGNMENT_KEY
    requires |Header(3, fields, []).Emit()| <= HEADER_CEILING
    ensures Derives(FileWith(fields), Header(3, fields, []), {ALIGNMENT_KEY})
    ensures ContractOf(FileWith(fields), {}, details).Some?
  {
    hide Ascii, GoodFields, Header.Emit;
    var h := Header(3, fields, []);
    var f := FileWith(fields);
    assert Visible(f)[..|h.Emit()|] == h.Emit();
    assert {} + {ALIGNMENT_KEY} == {ALIGNMENT_KEY};
    RoundUpLeast(|h.Emit()|, 32, 0);
    assert Accepts(f, h, {}, 32);
    ContractExact(f, {}, details);
  }

  // The keys of the two examples: distinct, short and plain.
  lemma ExampleKeys()
    ensures |ARCHITECTURE_KEY| == 20 && |FILE_TYPE_KEY| == 17 && |ALIGNMENT_KEY| == 17 && |Ascii("x")| == 1
    ensures FILE_TYPE_KEY != ALIGNMENT_KEY
  {
    assert FILE_TYPE_KEY[8] == 'f' as int && ALIGNMENT_KEY[8] == 'a' as int;
  }

  lemma AsciiText(text: string)
    requires forall i | 0 <= i < |text| :: text[i] < 128 as char
    ensures ValidUtf8(Ascii(text))
  {
    AsciiIsUtf8(Ascii(text));
  }

  lemma {:induction false} AsciiIsUtf8(s: seq<Byte>)
    requires forall i | 0 <= i < |s| :: s[i] < 0x80
    ensures ValidUtf8(s)
  {
    if s != [] { AsciiIsUtf8(s[1..]); }
  }

  function ArchitectureField(expected: seq<Byte>): Field { Field(ARCHITECTURE_KEY, TEXT_KIND, Text(expected)) }

  function FileTypeField(): Field { Field(FILE_TYPE_KEY, 4, Scalar(U32(0))) }

  function EmptyArrayField(element: nat): Field { Field(Ascii("x"), ARRAY_KIND, Array(element, [])) }

  // One field separates the readers: with the two identity fields both accept the file; with an empty
  // array of an unknown type added, only the converter does.
  lemma ReadersDifferOnAFile(expected: seq<Byte>, element: nat, details: bool)
    requires GoodText(IDENTITY_RULES, expected, true)
    requires !KnownElement(element) && element != ARRAY_KIND && element < LIMIT32
    ensures var plain := [ArchitectureField(expected), FileTypeField()];
            var odd := plain + [EmptyArrayField(element)];
            && ContractOf(FileWith(plain), {}, details).Some? && IdentityOf(FileWith(plain), expected).Some?
            && ContractOf(FileWith(odd), {}, details).Some? && IdentityOf(FileWith(odd), expected) == None
  {
    hide ContractOf, IdentityOf, FileWith, KnownElement, Ascii;
    PlainAccepted(expected, details);
    OddRefused(expected, element, details);
  }

  lemma PlainAccepted(expected: seq<Byte>, details: bool)
    requires GoodText(IDENTITY_RULES, expected, true)
    ensures var f := FileWith([ArchitectureField(expected), FileTypeField()]);
            ContractOf(f, {}, details).Some? && IdentityOf(f, expected).Some?
  {
    hide Ascii, Header.Emit, EmitText, ValidUtf8, ContractOf, IdentityOf, Derives, MeetsIdentity, GoodField;
    ExampleKeys();
    var plain := [ArchitectureField(expected), FileTypeField()];
    PlainMeets(expected);
    ExampleSizes(expected, 13);
    FileWithDerives(plain, details);
    EvaluatorExact(FileWith(plain), Header(3, plain, []), {ALIGNMENT_KEY}, expected);
  }

  lemma PlainMeets(expected: seq<Byte>)
    requires GoodText(IDENTITY_RULES, expected, true)
    ensures var plain := [ArchitectureField(expected), FileTypeField()];
            MeetsIdentity(plain, expected) && GoodFields(CONVERTER_RULES, plain, {ALIGNMENT_KEY})
  {
    hide Ascii, ValidUtf8;
    ExampleKeys();
    AsciiText("general.architecture");
    AsciiText("general.file_type");
    var a, b := ArchitectureField(expected), FileTypeField();
    assert GoodField(IDENTITY_RULES, a, {}) && GoodField(CONVERTER_RULES, a, {ALIGNMENT_KEY});
    assert GoodField(IDENTITY_RULES, b, {}) && GoodField(CONVERTER_RULES, b, {ALIGNMENT_KEY});
    assert [a, b][0] == a && [a, b][1] == b;
  }

  lemma OddRefused(expected: seq<Byte>, element: nat, details: bool)
    requires GoodText(IDENTITY_RULES, expected, true)
    requires !KnownElement(element) && element != ARRAY_KIND && element < LIMIT32
    ensures var f := FileWith([ArchitectureField(expected), FileTypeField()] + [EmptyArrayField(element)]);
            ContractOf(f, {}, details).Some? && IdentityOf(f, expected) == None
  {
    hide Ascii, Header.Emit, EmitText, ValidUtf8, ContractOf, IdentityOf, Derives, KnownElement;
    ExampleKeys();
    AsciiText("general.architecture");
    AsciiText("general.file_type");
    AsciiText("x");
    var odd := [ArchitectureField(expected), FileTypeField()] + [EmptyArrayField(element)];
    ExampleSizes(expected, element);
    FileWithDerives(odd, details);
    EvaluatorExact(FileWith(odd), Header(3, odd, []), {ALIGNMENT_KEY}, expected);
    assert !GoodField(IDENTITY_RULES, odd[2], {});
  }

  lemma FieldSize(field: Field)
    ensures |EmitField(field)| == 12 + |field.key| + |EmitBody(field.body)|
    ensures field.body.Text? ==> |EmitBody(field.body)| == 8 + |field.body.raw|
    ensures field.body.Scalar? ==> |EmitBody(field.body)| == |field.body.bits|
    ensures field.body.Array? && field.body.items == [] ==> |EmitBody(field.body)| == 12
  {
  }

  lemma SizeOfMore(field: Field, rest: seq<Field>)
    ensures |EmitFields([field] + rest)| == |EmitField(field)| + |EmitFields(rest)|
  {
    assert ([field] + rest)[1..] == rest;
  }

  lemma NoFieldsSize()
    ensures EmitFields([]) == []
  {
  }

  lemma HeaderSize(fields: seq<Field>)
    ensures |Header(3, fields, []).Emit()| == 24 + |EmitFields(fields)|
  {
    hide EmitFields;
    assert |MAGIC| == 4;
  }

  lemma ExampleSizes(expected: seq<Byte>, element: nat)
    requires |expected| <= IDENTITY_RULES.maxText
    ensures var plain := [ArchitectureField(expected), FileTypeField()];
            var odd := plain + [EmptyArrayField(element)];
            |Header(3, plain, []).Emit()| <= |Header(3, odd, []).Emit()| <= HEADER_CEILING
  {
    hide Ascii, EmitField, EmitFields, EmitBody, Header.Emit;
    var a, b, c := ArchitectureField(expected), FileTypeField(), EmptyArrayField(element);
    ExampleKeys();
    FieldSize(a);
    FieldSize(b);
    FieldSize(c);
    SizeOfMore(c, []);
    SizeOfMore(b, []);
    SizeOfMore(b, [c]);
    SizeOfMore(a, [b]);
    SizeOfMore(a, [b, c]);
    HeaderSize([a, b]);
    HeaderSize([a, b, c]);
    NoFieldsSize();
    assert [a] + [b, c] == [a, b] + [c] == [a, b, c] && [a] + [b] == [a, b] && [b] + [c] == [b, c];
    assert [b] + [] == [b] && [c] + [] == [c];
  }
}
