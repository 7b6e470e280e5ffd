// The limits on GGUF headers in plain numbers.
module GgufLimits {
  import opened Bytes
  import opened Collections
  import opened Utf8
  import opened GgufGrammar
  import opened GgufReader
  import opened GgufCapture
  import opened GgufIdentity

  // The widths of the scalar types: UINT8 0, INT8 1, UINT16 2, INT16 3, UINT32 4, INT32 5, FLOAT32 6, BOOL 7,
  // UINT64 10, INT64 11, FLOAT64 12.
  ghost predicate Wide(kind: nat, width: nat)
  {
    || (width == 1 && (kind == 0 || kind == 1 || kind == 7))
    || (width == 2 && (kind == 2 || kind == 3))
    || (width == 4 && (kind == 4 || kind == 5 || kind == 6))
    || (width == 8 && (kind == 10 || kind == 11 || kind == 12))
  }

  lemma WidthExact(kind: nat, width: nat)
    ensures Wide(kind, width) <==> Width(kind) > 0 && Width(kind) == width
  {
  }

  ghost predicate Encoded(raw: seq<Byte>) { exists t :: AllScalar(t) && Encode(t) == raw }

  ghost predicate ShortText(raw: seq<Byte>, most: nat, decoded: bool)
  {
    |raw| <= most && (decoded ==> Encoded(raw))
  }

  // A field of at most this much text and this many items; a value that is decoded must be text.
  ghost predicate FieldFits(field: Field, mostText: nat, mostItems: nat, decoded: bool)
  {
    && ShortText(field.key, mostText, true) && field.kind < 4_294_967_296
    && match field.body
       case Scalar(bits) => Wide(field.kind, |bits|)
       case Text(raw) => field.kind == 8 && ShortText(raw, mostText, decoded)
       case Array(element, items) =>
         && field.kind == 9 && element != 9 && element < 4_294_967_296 && |items| <= mostItems
         && forall i | 0 <= i < |items| ::
              if element == 8 then ShortText(items[i], mostText, decoded) else Wide(element, |items[i]|)
  }

  lemma TextExact(rules: Rules, raw: seq<Byte>, decoded: bool)
    ensures GoodText(rules, raw, decoded) <==> ShortText(raw, rules.maxText, decoded || rules.decodesSkipped)
  {
    Utf8Exact(raw);
  }

  lemma FieldExact(rules: Rules, field: Field, wanted: set<seq<Byte>>)
    ensures GoodField(rules, field, wanted)
       <==> && FieldFits(field, rules.maxText, rules.maxItems, field.key in wanted || rules.decodesSkipped)
            && (field.body.Array? && field.body.items == [] && !rules.emptyUnknown ==>
                  field.body.element == 8 || exists w :: Wide(field.body.element, w))
  {
    hide ValidUtf8, GoodText, ShortText, Width, Wide;
    var decoded := field.key in wanted;
    forall raw, d ensures GoodText(rules, raw, d) <==> ShortText(raw, rules.maxText, d || rules.decodesSkipped) {
      TextExact(rules, raw, d);
    }
    forall kind: nat, width: nat ensures Wide(kind, width) <==> Width(kind) > 0 && Width(kind) == width {
      WidthExact(kind, width);
    }
    if field.body.Array? {
      var element, items := field.body.element, field.body.items;
      forall i | 0 <= i < |items|
        ensures GoodItem(rules, element, items[i], decoded)
           <==> if element == 8 then ShortText(items[i], rules.maxText, decoded || rules.decodesSkipped)
                else Wide(element, |items[i]|)
      {
      }
      assert Width(element) > 0 ==> Wide(element, Width(element));
    }
  }

  ghost predicate TensorFits(t: Tensor)
  {
    && ShortText(t.name, 16_777_216, true) && t.name != [] && 1 <= |t.dimensions| <= 4
    && (forall i | 0 <= i < |t.dimensions| :: 1 <= t.dimensions[i] < 18_446_744_073_709_551_616)
    && t.kind < 4_294_967_296 && t.offset < 18_446_744_073_709_551_616
  }

  lemma TensorExact(t: Tensor)
    ensures GoodTensor(CONVERTER_RULES, t) <==> TensorFits(t)
  {
    hide GoodText, ShortText;
    TextExact(CONVERTER_RULES, t.name, true);
  }

  // A header within the converter's limits: no key and no tensor name twice.
  ghost predicate HeaderFits(h: Header, wanted: set<seq<Byte>>)
  {
    && (h.version == 2 || h.version == 3) && |h.tensors| <= 100_000 && |h.fields| <= 100_000
    && (forall i | 0 <= i < |h.fields| :: FieldFits(h.fields[i], 16_777_216, 2_000_000, h.fields[i].key in wanted))
    && (forall i, j | 0 <= i < j < |h.fields| :: h.fields[i].key != h.fields[j].key)
    && (forall i | 0 <= i < |h.tensors| :: TensorFits(h.tensors[i]))
    && (forall i, j | 0 <= i < j < |h.tensors| :: h.tensors[i].name != h.tensors[j].name)
  }

  lemma HeaderExact(h: Header, wanted: set<seq<Byte>>)
    ensures h.Good(wanted) <==> HeaderFits(h, wanted)
  {
    hide GoodField, FieldFits, GoodTensor, TensorFits;
    forall i | 0 <= i < |h.fields|
      ensures GoodField(CONVERTER_RULES, h.fields[i], wanted)
         <==> FieldFits(h.fields[i], 16_777_216, 2_000_000, h.fields[i].key in wanted)
    {
      FieldExact(CONVERTER_RULES, h.fields[i], wanted);
    }
    forall i | 0 <= i < |h.tensors| ensures GoodTensor(CONVERTER_RULES, h.tensors[i]) <==> TensorFits(h.tensors[i]) {
      TensorExact(h.tensors[i]);
    }
    forall i, j | 0 <= i < j < |h.fields| ensures KeysOf(h.fields)[i] == h.fields[i].key && KeysOf(h.fields)[j] == h.fields[j].key {}
    forall i, j | 0 <= i < j < |h.tensors|
      ensures NamesOf(h.tensors)[i] == h.tensors[i].name && NamesOf(h.tensors)[j] == h.tensors[j].name {}
  }

  // The file begins with the printed header, which ends within the first 256 MiB.
  lemma DerivesExact(f: seq<Byte>, h: Header, wanted: set<seq<Byte>>)
    ensures Derives(f, h, wanted)
       <==> HeaderFits(h, wanted) && |h.Emit()| <= |f| && |h.Emit()| <= 268_435_456 && f[..|h.Emit()|] == h.Emit()
  {
    hide HeaderFits, Header.Good, Header.Emit;
    HeaderExact(h, wanted);
    if |h.Emit()| <= |f| && |h.Emit()| <= 268_435_456 { assert Visible(f)[..|h.Emit()|] == f[..|h.Emit()|]; }
  }

  // What the evaluator asks of the fields: texts and arrays up to 2^20, every text decoded, no empty array of
  // an unknown type, the expected architecture as a text and a 32-bit or 64-bit integer file type.
  ghost predicate IdentityFields(fields: seq<Field>, expected: seq<Byte>)
  {
    && (forall i | 0 <= i < |fields| :: EvaluatorField(fields[i]))
    && (exists i | 0 <= i < |fields| :: fields[i].key == Ascii("general.architecture") && fields[i].body == Text(expected))
    && (exists i | 0 <= i < |fields| :: fields[i].key == Ascii("general.file_type"))
  }

  ghost predicate EvaluatorField(field: Field)
  {
    && FieldFits(field, 1_048_576, 1_048_576, true)
    && (field.body.Array? && field.body.items == [] ==> field.body.element == 8 || exists w :: Wide(field.body.element, w))
    && (field.key == Ascii("general.architecture") ==> field.kind == 8)
    && (field.key == Ascii("general.file_type") ==> field.kind == 4 || field.kind == 5 || field.kind == 10 || field.kind == 11)
  }

  lemma MeetsExact(fields: seq<Field>, expected: seq<Byte>)
    ensures MeetsIdentity(fields, expected) <==> IdentityFields(fields, expected)
  {
    hide GoodField, FieldFits, Ascii, Wide;
    forall i | 0 <= i < |fields|
      ensures EvaluatorField(fields[i]) <==> GoodField(IDENTITY_RULES, fields[i], {}) && KindFits(fields[i])
    {
      FieldExact(IDENTITY_RULES, fields[i], {});
    }
  }

  // What the evaluator reports of a file that the converter can read, the file type as the field holds it.
  lemma IdentityMeaning(f: seq<Byte>, h: Header, wanted: set<seq<Byte>>, expected: seq<Byte>)
    requires Derives(f, h, wanted)
    ensures IdentityOf(f, expected).Some? <==> IdentityFields(h.fields, expected)
    ensures IdentityOf(f, expected).Some? ==>
              var r := IdentityOf(f, expected).value;
              && r.version == h.version && r.tensorCount == |h.tensors| && r.metadataCount == |h.fields|
              && r.architecture == expected
              && forall i | 0 <= i < |h.fields| && h.fields[i].key == Ascii("general.file_type") ::
                   ValueMeans(h.fields[i].kind, h.fields[i].body, Number(r.fileType))
  {
    hide MeetsIdentity, IdentityFields, Derives, Selected, Ascii, TakeFields, TakePreamble, KindsFit, ValueMeans, GoodFields;
    EvaluatorExact(f, h, wanted, expected);
    MeetsExact(h.fields, expected);
    GoodHeader(f, h, wanted);
    MetadataMeaning(h.fields, IDENTITY_KEYS, wanted);
  }
}
