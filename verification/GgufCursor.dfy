// The cursor that the converter's reader advances, method by method, proved against the grammar of headers.
module GgufCursor {
  import opened Bytes
  import opened Collections
  import opened GgufGrammar
  import opened GgufReader

  // got, then whatever the rest of the reading gives.
  ghost function Resume<T>(got: seq<T>, rest: Parsed<seq<T>>): Parsed<seq<T>>
  {
    if rest.Ok? then Ok(got + rest.value, rest.end) else Refused
  }

  lemma ResumeStep<T>(got: seq<T>, x: T, rest: Parsed<seq<T>>)
    ensures Resume(got, if rest.Ok? then Ok([x] + rest.value, rest.end) else Refused)
         == Resume(got + [x], rest)
  {
    if rest.Ok? {
      assert got + ([x] + rest.value) == got + [x] + rest.value;
    }
  }

  lemma ResumeNothing<T>(whole: Parsed<seq<T>>)
    ensures Resume([], whole) == whole
  {
    assert whole.Ok? ==> [] + whole.value == whole.value;
  }

  lemma ResumeEnd<T>(got: seq<T>, pos: nat)
    ensures Resume(got, Ok([], pos)) == Ok(got, pos)
  {
    assert got + [] == got;
  }

  lemma ResumeNone<T>(got: seq<T>)
    ensures Resume(got, Refused) == Refused
  {
  }

  // What a reading that goes on finds next.
  lemma ResumeNext<T>(got: seq<T>, x: T, rest: Parsed<seq<T>>)
    ensures var whole := Resume(got, if rest.Ok? then Ok([x] + rest.value, rest.end) else Refused);
            whole.Ok? ==> |whole.value| > |got| && whole.value[..|got|] == got && whole.value[|got|] == x
  {
  }

  // Items of a fixed width take count * width bytes, so they can be skipped in one step.
  lemma {:induction false} BulkSkip(rules: Rules, f: seq<Byte>, pos: nat, element: nat, count: nat, decoded: bool)
    requires Width(element) > 0 && pos <= |f|
    ensures var r := TakeItems(rules, f, pos, element, count, decoded);
            && (r.Ok? <==> pos + count * Width(element) <= |f|)
            && (r.Ok? ==> r.end == pos + count * Width(element))
    decreases count
  {
    if count > 0 {
      assert count * Width(element) == Width(element) + (count - 1) * Width(element);
      if pos + Width(element) <= |f| {
        BulkSkip(rules, f, pos + Width(element), element, count - 1, decoded);
      }
    }
  }

  class Handle {
    const data: seq<Byte>
    var pos: nat

    constructor (data: seq<Byte>)
      ensures this.data == data && pos == 0
    {
      this.data := data;
      pos := 0;
    }

    method Exact(size: nat) returns (r: Option<seq<Byte>>)
      requires pos <= |Visible(data)|
      modifies this`pos
      ensures pos <= |Visible(data)|
      ensures match TakeBytes(Visible(data), old(pos), size)
              case Ok(raw, end) => r == Some(raw) && pos == end
              case Refused => r == None
    {
      if pos + size > |data| { return None; }
      if pos + size > HEADER_CEILING { return None; }
      r := Some(data[pos..pos + size]);
      assert r.value == Visible(data)[pos..pos + size];
      pos := pos + size;
    }

    method Skip(size: nat) returns (ok: bool)
      requires pos <= |Visible(data)|
      modifies this`pos
      ensures pos <= |Visible(data)|
      ensures ok <==> old(pos) + size <= |Visible(data)|
      ensures ok ==> pos == old(pos) + size
    {
      if pos + size > |data| { return false; }
      if pos + size > HEADER_CEILING { return false; }
      pos := pos + size;
      ok := true;
    }

    method ReadU32() returns (r: Option<nat>)
      requires pos <= |Visible(data)|
      modifies this`pos
      ensures pos <= |Visible(data)|
      ensures match TakeU32(Visible(data), old(pos))
              case Ok(n, end) => r == Some(n) && pos == end
              case Refused => r == None
    {
      var raw := Exact(4);
      r := if raw.Some? then Some(Little(raw.value)) else None;
    }

    method ReadU64() returns (r: Option<nat>)
      requires pos <= |Visible(data)|
      modifies this`pos
      ensures pos <= |Visible(data)|
      ensures match TakeU64(Visible(data), old(pos))
              case Ok(n, end) => r == Some(n) && pos == end
              case Refused => r == None
    {
      var raw := Exact(8);
      r := if raw.Some? then Some(Little(raw.value)) else None;
    }

    // Some(None) stands for text that was skipped.
    method ReadText(capture: bool) returns (r: Option<Option<seq<Byte>>>)
      requires pos <= |Visible(data)|
      modifies this`pos
      ensures pos <= |Visible(data)|
      ensures match TakeText(CONVERTER_RULES, Visible(data), old(pos), capture)
              case Ok(raw, end) => r == Some(if capture then Some(raw) else None) && pos == end
              case Refused => r == None
    {
      var size := ReadU64();
      if size == None || size.value > CONVERTER_RULES.maxText { return None; }
      if !capture {
        var ok := Skip(size.value);
        return if ok then Some(None) else None;
      }
      var raw := Exact(size.value);
      if raw == None || !ValidUtf8(raw.value) { return None; }
      r := Some(raw);
    }

    method ReadScalar(kind: nat) returns (r: Option<Value>)
      requires pos <= |Visible(data)|
      modifies this`pos
      ensures pos <= |Visible(data)|
      ensures if Width(kind) == 0 then r == None else
              match TakeBytes(Visible(data), old(pos), Width(kind))
              case Ok(bits, end) => r == Some(DecodeScalar(kind, bits)) && pos == end
              case Refused => r == None
    {
      if Width(kind) == 0 { return None; }
      var bits := Exact(Width(kind));
      r := if bits.Some? then Some(DecodeScalar(kind, bits.value)) else None;
    }

    method ReadItems(element: nat, count: nat, capture: bool) returns (ok: bool, values: seq<Value>)
      requires pos <= |Visible(data)| && element != ARRAY_KIND
      modifies this`pos
      ensures pos <= |Visible(data)|
      ensures match TakeItems(CONVERTER_RULES, Visible(data), old(pos), element, count, capture)
              case Ok(items, end) =>
                ok && pos == end && (capture ==> values == DecodeItems(element, items))
              case Refused => !ok
    {
      hide TakeText, TakeBytes, GoodText, DecodeScalar, Visible;
      values := [];
      var index := 0;
      ghost var got: seq<seq<Byte>> := [];
      ghost var whole := TakeItems(CONVERTER_RULES, Visible(data), pos, element, count, capture);
      assert whole == Resume(got, whole) by { assert whole.Ok? ==> got + whole.value == whole.value; }
      while index < count
        invariant 0 <= index <= count && pos <= |Visible(data)|
        invariant whole == Resume(got, TakeItems(CONVERTER_RULES, Visible(data), pos, element, count - index, capture))
        invariant capture ==> values == DecodeItems(element, got)
      {
        ghost var item := TakeItem(CONVERTER_RULES, Visible(data), pos, element, capture);
        ghost var p := pos;
        if element == TEXT_KIND {
          var text := ReadText(capture);
          if text == None { return false, []; }
          if capture { values := values + [String(text.value.value)]; }
        } else if Width(element) > 0 {
          var scalar := ReadScalar(element);
          if scalar == None { return false, []; }
          if capture { values := values + [scalar.value]; }
        } else {
          return false, [];
        }
        ResumeStep(got, item.value, TakeItems(CONVERTER_RULES, Visible(data), pos, element, count - index - 1, capture));
        got := got + [item.value];
        index := index + 1;
      }
      assert got + [] == got;
      ok := true;
    }

    // A captured or skipped value together with the array element type.
    method ReadValue(kind: nat, capture: bool) returns (r: Option<(Option<Value>, Option<nat>)>)
      requires pos <= |Visible(data)|
      modifies this`pos
      ensures pos <= |Visible(data)|
      ensures match TakeBody(CONVERTER_RULES, Visible(data), old(pos), kind, capture)
              case Ok(body, end) =>
                && pos == end
                && r == Some((if capture then Some(DecodeBody(kind, body)) else None, ArrayType(body)))
              case Refused => r == None
    {
      hide TakeText, TakeItems, GoodText, DecodeScalar, DecodeItems, Visible;
      if Width(kind) > 0 {
        if capture {
          var value := ReadScalar(kind);
          return if value.Some? then Some((value, None)) else None;
        }
        var ok := Skip(Width(kind));
        return if ok then Some((None, None)) else None;
      }
      if kind == TEXT_KIND {
        var text := ReadText(capture);
        if text == None { return None; }
        return Some((if capture then Some(String(text.value.value)) else None, None));
      }
      if kind != ARRAY_KIND { return None; }
      var element := ReadU32();
      if element == None { return None; }
      var count := ReadU64();
      if count == None { return None; }
      if count.value > CONVERTER_RULES.maxItems || element.value == ARRAY_KIND { return None; }
      if Width(element.value) > 0 && !capture {
        BulkSkip(CONVERTER_RULES, Visible(data), pos, element.value, count.value, capture);
        var ok := Skip(count.value * Width(element.value));
        return if ok then Some((None, Some(element.value))) else None;
      }
      var ok, values := ReadItems(element.value, count.value, capture);
      if !ok { return None; }
      r := Some((if capture then Some(List(values)) else None, Some(element.value)));
    }

    method ReadFields(count: nat, wanted: set<seq<Byte>>)
      returns (r: Option<(set<seq<Byte>>, map<seq<Byte>, Entry>)>)
      requires pos <= |Visible(data)|
      modifies this`pos
      ensures pos <= |Visible(data)|
      ensures match TakeFields(CONVERTER_RULES, Visible(data), old(pos), count, wanted)
              case Ok(fields, end) =>
                if Distinct(KeysOf(fields))
                then r == Some((KeySet(fields), Selected(fields, wanted))) && pos == end
                else r == None
              case Refused => r == None
    {
      hide TakeText, TakeBody, GoodText, DecodeBody, Visible, Distinct, KeySet, KeysOf, Selected, TakeFields,
           Resume;
      var keys: set<seq<Byte>> := {};
      var metadata: map<seq<Byte>, Entry> := map[];
      var index := 0;
      ghost var got: seq<Field> := [];
      ghost var whole := TakeFields(CONVERTER_RULES, Visible(data), pos, count, wanted);
      ResumeNothing(whole);
      NoFields(wanted);
      while index < count
        invariant 0 <= index <= count && pos <= |Visible(data)|
        invariant whole == Resume(got, TakeFields(CONVERTER_RULES, Visible(data), pos, count - index, wanted))
        invariant Distinct(KeysOf(got)) && keys == KeySet(got) && metadata == Selected(got, wanted)
      {
        ghost var field := TakeField(CONVERTER_RULES, Visible(data), pos, wanted);
        FieldsStep(CONVERTER_RULES, Visible(data), pos, count - index, wanted);
        ResumeNone(got);
        var key := ReadText(true);
        if key == None { return None; }
        var name := key.value.value;
        if name in keys {
          if whole.Ok? {
            ResumeNext(got, field.value, TakeFields(CONVERTER_RULES, Visible(data), field.end, count - index - 1, wanted));
            RepeatedKey(got, whole.value, name);
          }
          return None;
        }
        var kind := ReadU32();
        if kind == None { return None; }
        var value := ReadValue(kind.value, name in wanted);
        if value == None { return None; }
        keys := keys + {name};
        if name in wanted {
          metadata := metadata[name := Entry(kind.value, value.value.1, value.value.0.value)];
        }
        ResumeStep(got, field.value, TakeFields(CONVERTER_RULES, Visible(data), pos, count - index - 1, wanted));
        AddField(got, field.value, wanted);
        got := got + [field.value];
        index := index + 1;
      }
      NoneLeft(CONVERTER_RULES, Visible(data), pos, wanted);
      ResumeEnd(got, pos);
      r := Some((keys, metadata));
    }

    method ReadPreamble() returns (r: Option<Preamble>)
      requires pos == 0
      modifies this`pos
      ensures pos <= |Visible(data)|
      ensures match TakePreamble(Visible(data))
              case Ok(p, end) => r == Some(p) && pos == end
              case Refused => r == None
    {
      hide TakeU32, TakeU64, Visible;
      var magic := Exact(4);
      if magic == None || magic.value != MAGIC { return None; }
      var version := ReadU32();
      if version == None || version.value !in {2, 3} { return None; }
      var tensorCount := ReadU64();
      if tensorCount == None { return None; }
      var metadataCount := ReadU64();
      if metadataCount == None { return None; }
      r := Some(Preamble(version.value, tensorCount.value, metadataCount.value));
    }

    method ReadDimensions(count: nat) returns (r: Option<seq<nat>>)
      requires pos <= |Visible(data)|
      modifies this`pos
      ensures pos <= |Visible(data)|
      ensures match TakeNumbers(Visible(data), old(pos), count)
              case Ok(values, end) => r == Some(values) && pos == end
              case Refused => r == None
    {
      hide TakeU64, Visible;
      var values: seq<nat> := [];
      var axis := 0;
      ghost var whole := TakeNumbers(Visible(data), pos, count);
      assert whole == Resume(values, whole) by { assert whole.Ok? ==> values + whole.value == whole.value; }
      while axis < count
        invariant 0 <= axis <= count && pos <= |Visible(data)|
        invariant whole == Resume(values, TakeNumbers(Visible(data), pos, count - axis))
      {
        var value := ReadU64();
        if value == None { return None; }
        ResumeStep(values, value.value, TakeNumbers(Visible(data), pos, count - axis - 1));
        values := values + [value.value];
        axis := axis + 1;
      }
      assert values + [] == values;
      r := Some(values);
    }

    method ReadTensorRest(name: seq<Byte>) returns (r: Option<Tensor>)
      requires pos <= |Visible(data)|
      modifies this`pos
      ensures pos <= |Visible(data)|
      ensures match TakeTensorRest(Visible(data), old(pos), name)
              case Ok(tensor, end) => r == Some(tensor) && pos == end
              case Refused => r == None
    {
      hide TakeU32, TakeU64, TakeNumbers, Visible;
      var rank := ReadU32();
      if rank == None || !(1 <= rank.value <= 4) { return None; }
      var dimensions := ReadDimensions(rank.value);
      if dimensions == None { return None; }
      if exists i | 0 <= i < |dimensions.value| :: dimensions.value[i] < 1 { return None; }
      var kind := ReadU32();
      if kind == None { return None; }
      var offset := ReadU64();
      if offset == None { return None; }
      r := Some(Tensor(name, dimensions.value, kind.value, offset.value));
    }

    // The tensor records, and the list of their offsets that the caller checks last.
    method ReadTensors(count: nat, details: bool) returns (r: Option<(seq<Tensor>, seq<nat>)>)
      requires pos <= |Visible(data)|
      modifies this`pos
      ensures pos <= |Visible(data)|
      ensures match TakeTensors(CONVERTER_RULES, Visible(data), old(pos), count)
              case Ok(tensors, end) =>
                if Distinct(NamesOf(tensors))
                then r == Some((if details then tensors else [], OffsetsOf(tensors))) && pos == end
                else r == None
              case Refused => r == None
    {
      hide TakeText, TakeTensorRest, Visible, Distinct, NamesOf, NameSet, OffsetsOf;
      var seen: set<seq<Byte>> := {};
      var records: seq<Tensor> := [];
      var offsets: seq<nat> := [];
      var index := 0;
      ghost var got: seq<Tensor> := [];
      ghost var whole := TakeTensors(CONVERTER_RULES, Visible(data), pos, count);
      assert whole == Resume(got, whole) by { assert whole.Ok? ==> got + whole.value == whole.value; }
      NoTensors();
      while index < count
        invariant 0 <= index <= count && pos <= |Visible(data)|
        invariant whole == Resume(got, TakeTensors(CONVERTER_RULES, Visible(data), pos, count - index))
        invariant Distinct(NamesOf(got)) && seen == NameSet(got)
        invariant offsets == OffsetsOf(got) && records == if details then got else []
      {
        ghost var tensor := TakeTensor(CONVERTER_RULES, Visible(data), pos);
        var text := ReadText(true);
        if text == None { return None; }
        var name := text.value.value;
        if name == [] { return None; }
        if name in seen {
          if whole.Ok? {
            RepeatedName(got, whole.value, name);
          }
          return None;
        }
        seen := seen + {name};
        var rest := ReadTensorRest(name);
        if rest == None { return None; }
        offsets := offsets + [rest.value.offset];
        if details { records := records + [rest.value]; }
        ResumeStep(got, tensor.value, TakeTensors(CONVERTER_RULES, Visible(data), pos, count - index - 1));
        AddTensor(got, tensor.value);
        got := got + [tensor.value];
        index := index + 1;
      }
      assert got + [] == got;
      r := Some((records, offsets));
    }
  }

  // The contract of a file, read in one pass over the cursor.
  method ParseContract(file: seq<Byte>, wanted: set<seq<Byte>>, details: bool) returns (r: Option<Contract>)
    ensures r == ContractOf(file, wanted, details)
  {
    hide TakePreamble, TakeFields, TakeTensors, Derives, EmitPreamble, Distinct, KeysOf, NamesOf, Selected, KeySet,
         Ascii, Visible, RoundUp, AlignmentOf, OffsetsOf;
    VisibleStart(file);
    var handle := new Handle(file);
    var preamble := handle.ReadPreamble();
    if preamble == None { return None; }
    var Preamble(version, tensorCount, metadataCount) := preamble.value;
    if tensorCount > MAX_TENSORS || metadataCount > MAX_FIELDS { return None; }
    var fields := handle.ReadFields(metadataCount, wanted + {ALIGNMENT_KEY});
    if fields == None { return None; }
    var tensors := handle.ReadTensors(tensorCount, details);
    if tensors == None { return None; }
    var headerEnd := handle.pos;
    TakeHeaderSound(file, wanted + {ALIGNMENT_KEY});

    var (keys, metadata) := fields.value;
    var (records, offsets) := tensors.value;
    var declared := AlignmentOf(metadata);
    if declared == None { return None; }
    var alignment := declared.value;
    var dataStart := RoundUp(headerEnd, alignment);
    if dataStart > |file| { return None; }
    OffsetsMeaning(TakeHeader(file, wanted + {ALIGNMENT_KEY}).value.tensors, alignment, dataStart, |file|);
    if exists i | 0 <= i < |offsets| :: offsets[i] % alignment != 0 || dataStart + offsets[i] >= |file| {
      return None;
    }
    r := Some(Contract(version, |file|, tensorCount, metadataCount,
                       keys, metadata, records, alignment, dataStart));
  }

  lemma VisibleStart(file: seq<Byte>)
    ensures 0 <= |Visible(file)| <= |file|
  {
  }

  function OffsetsOf(tensors: seq<Tensor>): seq<nat>
  {
    seq(|tensors|, i requires 0 <= i < |tensors| => tensors[i].offset)
  }

  lemma OffsetsMeaning(tensors: seq<Tensor>, alignment: nat, dataStart: nat, fileBytes: nat)
    requires alignment > 0
    ensures OffsetsFit(tensors, alignment, dataStart, fileBytes)
       <==> var offsets := OffsetsOf(tensors);
            forall i | 0 <= i < |offsets| :: offsets[i] % alignment == 0 && dataStart + offsets[i] < fileBytes
  {
    assert forall i | 0 <= i < |tensors| :: OffsetsOf(tensors)[i] == tensors[i].offset;
  }

  function NameSet(tensors: seq<Tensor>): set<seq<Byte>>
  {
    set i | 0 <= i < |tensors| :: tensors[i].name
  }

  lemma NoTensors()
    ensures Distinct(NamesOf([])) && NameSet([]) == {} && OffsetsOf([]) == []
  {
  }

  lemma RepeatedName(got: seq<Tensor>, all: seq<Tensor>, name: seq<Byte>)
    requires |got| < |all| && got == all[..|got|] && name in NameSet(got) && all[|got|].name == name
    ensures !Distinct(NamesOf(all))
  {
    var i :| 0 <= i < |got| && got[i].name == name;
    assert NamesOf(all)[i] == NamesOf(all)[|got|];
  }

  lemma AddTensor(got: seq<Tensor>, tensor: Tensor)
    requires Distinct(NamesOf(got)) && tensor.name !in NameSet(got)
    ensures var more := got + [tensor];
            && Distinct(NamesOf(more)) && NameSet(more) == NameSet(got) + {tensor.name}
            && OffsetsOf(more) == OffsetsOf(got) + [tensor.offset]
  {
    var more := got + [tensor];
    assert NamesOf(more) == NamesOf(got) + [tensor.name];
    forall name | name in NameSet(got) + {tensor.name} ensures name in NameSet(more) {
      if name in NameSet(got) {
        var i :| 0 <= i < |got| && got[i].name == name;
        assert more[i].name == name;
      } else {
        assert more[|got|].name == name;
      }
    }
    forall i | 0 <= i < |got| ensures got[i].name != tensor.name {
      assert got[i].name in NameSet(got);
    }
  }

  // One step of the field loop, and its end.
  lemma FieldsStep(rules: Rules, f: seq<Byte>, pos: nat, count: nat, wanted: set<seq<Byte>>)
    requires count > 0
    ensures var field := TakeField(rules, f, pos, wanted);
            TakeFields(rules, f, pos, count, wanted)
            == if field.Refused? then Refused else
               var rest := TakeFields(rules, f, field.end, count - 1, wanted);
               if rest.Ok? then Ok([field.value] + rest.value, rest.end) else Refused
  {
  }

  lemma NoneLeft(rules: Rules, f: seq<Byte>, pos: nat, wanted: set<seq<Byte>>)
    ensures TakeFields(rules, f, pos, 0, wanted) == Ok([], pos)
  {
  }

  lemma NoFields(wanted: set<seq<Byte>>)
    ensures Distinct(KeysOf([])) && KeySet([]) == {} && Selected([], wanted) == map[]
  {
  }

  lemma RepeatedKey(got: seq<Field>, all: seq<Field>, key: seq<Byte>)
    requires |got| < |all| && got == all[..|got|] && key in KeySet(got) && all[|got|].key == key
    ensures !Distinct(KeysOf(all))
  {
    var i :| 0 <= i < |got| && got[i].key == key;
    assert KeysOf(all)[i] == KeysOf(all)[|got|];
  }

  lemma AddField(got: seq<Field>, field: Field, wanted: set<seq<Byte>>)
    requires Distinct(KeysOf(got)) && field.key !in KeySet(got)
    ensures var more := got + [field];
            && Distinct(KeysOf(more)) && KeySet(more) == KeySet(got) + {field.key}
            && Selected(more, wanted) == if field.key in wanted then Selected(got, wanted)[field.key := EntryOf(field)]
                                                                else Selected(got, wanted)
  {
    var more := got + [field];
    assert more[..|got|] == got;
    assert KeysOf(more) == KeysOf(got) + [field.key];
    forall key | key in KeySet(got) + {field.key} ensures key in KeySet(more) {
      if key in KeySet(got) {
        var i :| 0 <= i < |got| && got[i].key == key;
        assert more[i].key == key;
      } else {
        assert more[|got|].key == key;
      }
    }
    forall i | 0 <= i < |got| ensures got[i].key != field.key {
      assert got[i].key in KeySet(got);
    }
  }
}
