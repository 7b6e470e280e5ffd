// The converter's GGUF contract reader.
module GgufReader {
  // A cursor over a file that captures wanted values, skips the others, and checks the tensor table
  // against the file size.

  import opened Bytes
  import opened Collections
  import opened GgufGrammar

  const HEADER_CEILING: nat := 256 * 1024 * 1024
  const MAX_TENSORS: nat := 100_000
  const MAX_FIELDS: nat := 100_000
  const CONVERTER_RULES: Rules := Rules(16 * 1024 * 1024, 2_000_000, false, true)
  const ALIGNMENT_KEY: seq<Byte> := Ascii("general.alignment")

  // Every read stops at the file end and at the header ceiling.
  function Visible(f: seq<Byte>): seq<Byte>
  {
    if |f| <= HEADER_CEILING then f else f[..HEADER_CEILING]
  }

  // ---------------------------------------------------------------- headers as derivations

  datatype Header = Header(version: nat, fields: seq<Field>, tensors: seq<Tensor>)
  {
    function Preamble(): Preamble { GgufGrammar.Preamble(version, |tensors|, |fields|) }

    function Emit(): seq<Byte>
    {
      EmitPreamble(Preamble()) + (EmitFields(fields) + EmitTensors(tensors))
    }

    ghost predicate Good(wanted: set<seq<Byte>>)
    {
      && version in {2, 3}
      && |tensors| <= MAX_TENSORS && |fields| <= MAX_FIELDS
      && GoodFields(CONVERTER_RULES, fields, wanted) && Distinct(KeysOf(fields))
      && GoodTensors(CONVERTER_RULES, tensors) && Distinct(NamesOf(tensors))
    }
  }

  function KeysOf(fields: seq<Field>): seq<seq<Byte>>
  {
    seq(|fields|, i requires 0 <= i < |fields| => fields[i].key)
  }

  function NamesOf(tensors: seq<Tensor>): seq<seq<Byte>>
  {
    seq(|tensors|, i requires 0 <= i < |tensors| => tensors[i].name)
  }

  // The file begins with the printed form of h, all of it below the ceiling.
  ghost predicate Derives(f: seq<Byte>, h: Header, wanted: set<seq<Byte>>)
  {
    h.Good(wanted) && Spans(Visible(f), 0, |h.Emit()|, h.Emit())
  }

  ghost function TakeHeader(f: seq<Byte>, wanted: set<seq<Byte>>): Parsed<Header>
  {
    var g := Visible(f);
    var (p, a) :- TakePreamble(g);
    if p.tensorCount > MAX_TENSORS || p.fieldCount > MAX_FIELDS then Refused else
    var (fields, b) :- TakeFields(CONVERTER_RULES, g, a, p.fieldCount, wanted);
    if !Distinct(KeysOf(fields)) then Refused else
    var (tensors, c) :- TakeTensors(CONVERTER_RULES, g, b, p.tensorCount);
    if !Distinct(NamesOf(tensors)) then Refused else
    Ok(Header(p.version, fields, tensors), c)
  }

  // The recursive-descent reading of a file is its one derivation, and there is none when it fails.
  lemma TakeHeaderExact(f: seq<Byte>, wanted: set<seq<Byte>>, h: Header)
    ensures TakeHeader(f, wanted) == Ok(h, |h.Emit()|) <==> Derives(f, h, wanted)
    ensures TakeHeader(f, wanted).Ok? ==>
              var r := TakeHeader(f, wanted); r.end == |r.value.Emit()|
  {
    TakeHeaderSound(f, wanted);
    if Derives(f, h, wanted) {
      TakeHeaderComplete(f, wanted, h);
    }
  }

  lemma TakeHeaderSound(f: seq<Byte>, wanted: set<seq<Byte>>)
    ensures var r := TakeHeader(f, wanted);
            r.Ok? ==> Derives(f, r.value, wanted) && r.end == |r.value.Emit()|
  {
    hide EmitPreamble, EmitFields, EmitTensors, TakeFields, TakeTensors, TakePreamble,
         GoodFields, GoodTensors, Distinct, Spans;
    var r := TakeHeader(f, wanted);
    if r.Ok? {
      var g := Visible(f);
      var h := r.value;
      var (p, a) := TakePreamble(g).Extract();
      TakePreambleExact(g, p, a);
      TakeFieldsSound(CONVERTER_RULES, g, a, p.fieldCount, wanted);
      var b := TakeFields(CONVERTER_RULES, g, a, p.fieldCount, wanted).end;
      TakeTensorsSound(CONVERTER_RULES, g, b, p.tensorCount);
      assert h.Preamble() == p;
      SpansConcat(g, a, r.end, EmitFields(h.fields), EmitTensors(h.tensors));
      SpansConcat(g, 0, r.end, EmitPreamble(p), EmitFields(h.fields) + EmitTensors(h.tensors));
    }
  }

  lemma TakeHeaderComplete(f: seq<Byte>, wanted: set<seq<Byte>>, h: Header)
    requires Derives(f, h, wanted)
    ensures TakeHeader(f, wanted) == Ok(h, |h.Emit()|)
  {
    hide EmitPreamble, EmitFields, EmitTensors, TakeFields, TakeTensors, TakePreamble,
         GoodFields, GoodTensors, Distinct, Spans;
    var g := Visible(f);
    var a := |EmitPreamble(h.Preamble())|;
    var b := a + |EmitFields(h.fields)|;
    var end := |h.Emit()|;
    SpansConcat(g, 0, end, EmitPreamble(h.Preamble()), EmitFields(h.fields) + EmitTensors(h.tensors));
    SpansConcat(g, a, end, EmitFields(h.fields), EmitTensors(h.tensors));
    TakePreambleExact(g, h.Preamble(), a);
    TakeFieldsComplete(CONVERTER_RULES, g, a, h.fields, wanted, b);
    TakeTensorsComplete(CONVERTER_RULES, g, b, h.tensors, end);
  }

  // No file has two derivations.
  lemma DerivationUnique(f: seq<Byte>, wanted: set<seq<Byte>>, h: Header, h': Header)
    requires Derives(f, h, wanted) && Derives(f, h', wanted)
    ensures h == h'
  {
    TakeHeaderComplete(f, wanted, h);
    TakeHeaderComplete(f, wanted, h');
  }

  // A file made by printing a well-formed header and appending any tensor data reads back as that
  // header, whatever follows it.
  lemma HeaderRoundTrip(h: Header, wanted: set<seq<Byte>>, data: seq<Byte>)
    requires h.Good(wanted) && |h.Emit()| <= HEADER_CEILING
    ensures TakeHeader(h.Emit() + data, wanted) == Ok(h, |h.Emit()|)
  {
    var f := h.Emit() + data;
    assert Visible(f)[..|h.Emit()|] == h.Emit();
    assert Derives(f, h, wanted);
    TakeHeaderComplete(f, wanted, h);
  }

  // ---------------------------------------------------------------- captured values

  // Floats are kept as their bits; text as its bytes.
  datatype Value =
    | Number(n: int) | Flag(b: bool) | Float(bits: seq<Byte>)
    | String(raw: seq<Byte>) | List(items: seq<Value>)

  function DecodeScalar(kind: nat, bits: seq<Byte>): Value
  {
    if kind == 7 then Flag(Little(bits) != 0)
    else if kind in {6, 12} then Float(bits)
    else if kind in {1, 3, 5, 11} then Number(SignedLittle(bits))
    else Number(Little(bits))
  }

  function DecodeItem(element: nat, item: seq<Byte>): Value
  {
    if element == TEXT_KIND then String(item) else DecodeScalar(element, item)
  }

  function DecodeItems(element: nat, items: seq<seq<Byte>>): seq<Value>
  {
    seq(|items|, i requires 0 <= i < |items| => DecodeItem(element, items[i]))
  }

  function DecodeBody(kind: nat, body: Body): Value
  {
    match body
    case Scalar(bits) => DecodeScalar(kind, bits)
    case Text(raw) => String(raw)
    case Array(element, items) => List(DecodeItems(element, items))
  }

  function ArrayType(body: Body): Option<nat>
  {
    if body.Array? then Some(body.element) else None
  }

  datatype Entry = Entry(kind: nat, arrayType: Option<nat>, value: Value)

  function EntryOf(field: Field): Entry
  {
    Entry(field.kind, ArrayType(field.body), DecodeBody(field.kind, field.body))
  }

  // The metadata dictionary after the fields were read in order.
  function Selected(fields: seq<Field>, wanted: set<seq<Byte>>): map<seq<Byte>, Entry>
  {
    if fields == [] then map[] else
    var field := fields[|fields| - 1];
    var before := Selected(fields[..|fields| - 1], wanted);
    if field.key in wanted then before[field.key := EntryOf(field)] else before
  }

  // The dictionary holds exactly the wanted fields of the file, each with its own value.
  lemma {:induction false} SelectedMeaning(fields: seq<Field>, wanted: set<seq<Byte>>)
    requires Distinct(KeysOf(fields))
    ensures forall i | 0 <= i < |fields| && fields[i].key in wanted ::
              fields[i].key in Selected(fields, wanted) &&
              Selected(fields, wanted)[fields[i].key] == EntryOf(fields[i])
    ensures forall key | key in Selected(fields, wanted) ::
              key in wanted && exists i | 0 <= i < |fields| :: fields[i].key == key
    decreases |fields|
  {
    hide EntryOf;
    if fields != [] {
      var n := |fields| - 1;
      var before := fields[..n];
      assert forall i | 0 <= i < n :: KeysOf(fields)[i] == KeysOf(before)[i] == before[i].key;
      SelectedMeaning(before, wanted);
      assert forall i | 0 <= i < n :: fields[i].key != fields[n].key by {
        assert forall i | 0 <= i < n :: KeysOf(fields)[i] != KeysOf(fields)[n];
      }
      forall key | key in Selected(fields, wanted)
        ensures key in wanted && exists i | 0 <= i < |fields| :: fields[i].key == key
      {
        if key != fields[n].key {
          var i :| 0 <= i < n && before[i].key == key;
          assert fields[i].key == key;
        }
      }
    }
  }

  // ---------------------------------------------------------------- alignment and data layout

  // Python's & on two non-negative integers.
  function BitAnd(a: nat, b: nat): nat
  {
    if a == 0 || b == 0 then 0 else (if a % 2 == 1 && b % 2 == 1 then 1 else 0) + 2 * BitAnd(a / 2, b / 2)
  }

  predicate PowerOfTwo(n: nat)
  {
    n == 1 || (n > 1 && n % 2 == 0 && PowerOfTwo(n / 2))
  }

  lemma {:induction false} BitAndSelf(n: nat)
    ensures BitAnd(n, n) == n
  {
    if n > 0 { BitAndSelf(n / 2); }
  }

  // n & (n - 1) is zero exactly for the powers of two.
  lemma {:induction false} PowerOfTwoTest(n: nat)
    requires n > 0
    ensures BitAnd(n, n - 1) == 0 <==> PowerOfTwo(n)
  {
    if n > 1 {
      if n % 2 == 0 {
        assert (n - 1) / 2 == n / 2 - 1 && (n - 1) % 2 == 1;
        PowerOfTwoTest(n / 2);
      } else {
        assert (n - 1) / 2 == n / 2 && n % 2 == 1;
        BitAndSelf(n / 2);
      }
    }
  }

  function RoundUp(n: nat, alignment: nat): nat
    requires alignment > 0
  {
    (n + alignment - 1) / alignment * alignment
  }

  // data_start is the least multiple of the alignment at or after the header end.
  lemma RoundUpLeast(n: nat, alignment: nat, k: nat)
    requires alignment > 0
    ensures RoundUp(n, alignment) % alignment == 0
    ensures n <= RoundUp(n, alignment) < n + alignment
    ensures n <= k * alignment ==> RoundUp(n, alignment) <= k * alignment
  {
    var q := (n + alignment - 1) / alignment;
    assert n + alignment - 1 == q * alignment + (n + alignment - 1) % alignment;
    MultipleOf(q, alignment);
    if n <= k * alignment {
      MultiplesOrdered(k, q, alignment);
    }
  }

  lemma MultiplesOrdered(k: nat, q: nat, alignment: nat)
    requires alignment > 0 && (q - 1) * alignment < k * alignment
    ensures q * alignment <= k * alignment
  {
    ScaleMonotone(k, q - 1, alignment);
    ScaleMonotone(q, k, alignment);
  }

  lemma ScaleMonotone(x: int, y: int, scale: nat)
    ensures x <= y ==> x * scale <= y * scale
  {
    if x <= y {
      assert (y - x) * scale >= 0;
    }
  }

  lemma MultipleOf(q: nat, alignment: nat)
    requires alignment > 0
    ensures (q * alignment) % alignment == 0
  {
    var n := q * alignment;
    var d, r := n / alignment, n % alignment;
    assert (q - d) * alignment == r;
    ScaleMonotone(1, q - d, alignment);
    ScaleMonotone(q - d, -1, alignment);
  }

  function AlignmentOf(metadata: map<seq<Byte>, Entry>): (r: Option<nat>)
    ensures r.Some? ==> 1 <= r.value <= 4096
  {
    if ALIGNMENT_KEY !in metadata then Some(32) else
    var entry := metadata[ALIGNMENT_KEY];
    if entry.kind != 4 || entry.arrayType != None || !entry.value.Number? then None else
    var n := entry.value.n;
    if n < 1 || n > 4096 || BitAnd(n, n - 1) != 0 then None else Some(n)
  }

  datatype Contract = Contract(
    version: nat, fileBytes: nat, tensorCount: nat, metadataCount: nat,
    metadataKeys: set<seq<Byte>>, metadata: map<seq<Byte>, Entry>,
    tensors: seq<Tensor>, alignment: nat, dataStart: nat)

  predicate OffsetsFit(tensors: seq<Tensor>, alignment: nat, dataStart: nat, fileBytes: nat)
    requires alignment > 0
  {
    forall i | 0 <= i < |tensors| ::
      tensors[i].offset % alignment == 0 && dataStart + tensors[i].offset < fileBytes
  }

  function KeySet(fields: seq<Field>): set<seq<Byte>>
  {
    set i | 0 <= i < |fields| :: fields[i].key
  }

  ghost function Summary(f: seq<Byte>, h: Header, wanted: set<seq<Byte>>, details: bool): Option<Contract>
  {
    var metadata := Selected(h.fields, wanted + {ALIGNMENT_KEY});
    var alignment := AlignmentOf(metadata);
    if alignment == None then None else
    var dataStart := RoundUp(|h.Emit()|, alignment.value);
    if dataStart > |f| || !OffsetsFit(h.tensors, alignment.value, dataStart, |f|) then None else
    Some(Contract(h.version, |f|, |h.tensors|, |h.fields|, KeySet(h.fields), metadata,
                  if details then h.tensors else [], alignment.value, dataStart))
  }

  ghost function ContractOf(f: seq<Byte>, wanted: set<seq<Byte>>, details: bool): Option<Contract>
  {
    match TakeHeader(f, wanted + {ALIGNMENT_KEY})
    case Refused => None
    case Ok(h, _) => Summary(f, h, wanted, details)
  }

  // ---------------------------------------------------------------- what acceptance means

  // The alignment a header declares: its general.alignment field, a UINT32 power of two up to 4096,
  // or 32 when there is none.
  ghost predicate Declares(h: Header, alignment: nat)
  {
    (&& (forall i | 0 <= i < |h.fields| :: h.fields[i].key != ALIGNMENT_KEY)
     && alignment == 32)
    ||
    (exists i | 0 <= i < |h.fields| ::
       && h.fields[i].key == ALIGNMENT_KEY && h.fields[i].kind == 4
       && h.fields[i].body.Scalar? && Little(h.fields[i].body.bits) == alignment
       && alignment <= 4096 && PowerOfTwo(alignment))
  }

  lemma AlignmentExact(h: Header, wanted: set<seq<Byte>>, alignment: nat)
    requires ALIGNMENT_KEY in wanted && h.Good(wanted)
    ensures AlignmentOf(Selected(h.fields, wanted)) == Some(alignment) <==> Declares(h, alignment)
  {
    hide PowerOfTwo, BitAnd, Selected, GoodTensors, GoodText, DecodeItems, Ascii, EntryOf;
    var metadata := Selected(h.fields, wanted);
    SelectedMeaning(h.fields, wanted);
    if alignment > 0 { PowerOfTwoTest(alignment); }
    if ALIGNMENT_KEY in metadata {
      var i :| 0 <= i < |h.fields| && h.fields[i].key == ALIGNMENT_KEY;
      assert GoodField(CONVERTER_RULES, h.fields[i], wanted);
      OnlyField(h.fields, i);
      assert metadata[ALIGNMENT_KEY] == EntryOf(h.fields[i]);
      UInt32Entry(h.fields[i], wanted);
      PowerOfTwoPositive(alignment);
    }
  }

  lemma OnlyField(fields: seq<Field>, i: nat)
    requires Distinct(KeysOf(fields)) && i < |fields|
    ensures forall j | 0 <= j < |fields| && j != i :: fields[j].key != fields[i].key
  {
    forall j | 0 <= j < |fields| && j != i
      ensures fields[j].key != fields[i].key
    {
      assert KeysOf(fields)[if i < j then i else j] != KeysOf(fields)[if i < j then j else i];
    }
  }

  lemma UInt32Entry(field: Field, wanted: set<seq<Byte>>)
    requires GoodField(CONVERTER_RULES, field, wanted)
    ensures var entry := EntryOf(field);
            entry.kind == field.kind &&
            (entry.kind == 4 && entry.arrayType == None && entry.value.Number?
             <==> field.kind == 4 && field.body.Scalar?) &&
            (field.kind == 4 ==> field.body.Scalar? && entry.value == Number(Little(field.body.bits)))
  {
  }

  lemma PowerOfTwoPositive(n: nat)
    ensures PowerOfTwo(n) ==> n >= 1
  {
  }

  // h is the derivation of the file, its alignment is valid, and all tensor data starts inside it.
  ghost predicate Accepts(f: seq<Byte>, h: Header, wanted: set<seq<Byte>>, alignment: nat)
  {
    && Derives(f, h, wanted + {ALIGNMENT_KEY}) && Declares(h, alignment) && alignment > 0
    && RoundUp(|h.Emit()|, alignment) <= |f|
    && OffsetsFit(h.tensors, alignment, RoundUp(|h.Emit()|, alignment), |f|)
  }

  // The reader accepts exactly the files that begin with a derivation, and reports that derivation.
  lemma ContractExact(f: seq<Byte>, wanted: set<seq<Byte>>, details: bool)
    ensures ContractOf(f, wanted, details).Some? <==> exists h, a: nat :: Accepts(f, h, wanted, a)
    ensures forall h, a: nat | Accepts(f, h, wanted, a) ::
              ContractOf(f, wanted, details)
              == Some(Contract(h.version, |f|, |h.tensors|, |h.fields|, KeySet(h.fields),
                               Selected(h.fields, wanted + {ALIGNMENT_KEY}),
                               if details then h.tensors else [], a, RoundUp(|h.Emit()|, a)))
  {
    hide PowerOfTwo, BitAnd, Selected, KeySet, Ascii, RoundUp, OffsetsFit, Declares, AlignmentOf;
    var wanted' := wanted + {ALIGNMENT_KEY};
    forall h, a: nat | Accepts(f, h, wanted, a)
      ensures ContractOf(f, wanted, details)
              == Some(Contract(h.version, |f|, |h.tensors|, |h.fields|, KeySet(h.fields),
                               Selected(h.fields, wanted'),
                               if details then h.tensors else [], a, RoundUp(|h.Emit()|, a)))
    {
      TakeHeaderComplete(f, wanted', h);
      AlignmentExact(h, wanted', a);
    }
    if ContractOf(f, wanted, details).Some? {
      var h := TakeHeader(f, wanted').value;
      var a := ContractOf(f, wanted, details).value.alignment;
      TakeHeaderSound(f, wanted');
      AlignmentExact(h, wanted', a);
      DeclaredPositive(h, a);
      assert Accepts(f, h, wanted, a);
    }
  }

  lemma DeclaredPositive(h: Header, alignment: nat)
    ensures Declares(h, alignment) ==> alignment > 0
  {
    PowerOfTwoPositive(alignment);
  }

  // ---------------------------------------------------------------- capture

  // Capturing a value never moves the cursor differently: whenever a value is read with capture it
  // is read without capture too, over the same bytes and with the same array type.
  lemma CaptureKeepsCursor(rules: Rules, f: seq<Byte>, pos: nat, kind: nat)
    requires rules.Fits() && pos <= |f|
    ensures TakeBody(rules, f, pos, kind, true).Ok? ==>
              TakeBody(rules, f, pos, kind, false) == TakeBody(rules, f, pos, kind, true)
  {
    var r := TakeBody(rules, f, pos, kind, true);
    if r.Ok? {
      TakeBodySound(rules, f, pos, kind, true);
      CaptureOnlyNarrows(rules, kind, r.value);
      TakeBodyComplete(rules, f, pos, kind, r.value, false, r.end);
    }
  }

  lemma CaptureOnlyNarrows(rules: Rules, kind: nat, body: Body)
    requires GoodBody(rules, kind, body, true)
    ensures GoodBody(rules, kind, body, false)
  {
    if body.Array? {
      forall i | 0 <= i < |body.items| ensures GoodItem(rules, body.element, body.items[i], false) {
        assert GoodItem(rules, body.element, body.items[i], true);
      }
    }
  }

  // So the choice of wanted keys can refuse a file but never changes which header is found in it.
  lemma WantedKeysDoNotMatter(f: seq<Byte>, wanted: set<seq<Byte>>, wanted': set<seq<Byte>>)
    requires TakeHeader(f, wanted).Ok? && TakeHeader(f, wanted').Ok?
    ensures TakeHeader(f, wanted) == TakeHeader(f, wanted')
  {
    TakeHeaderSound(f, wanted);
    TakeHeaderSound(f, wanted');
    var h, h' := TakeHeader(f, wanted).value, TakeHeader(f, wanted').value;
    ForgetCapture(f, h, wanted);
    ForgetCapture(f, h', wanted');
    DerivationUnique(f, {}, h, h');
  }

  lemma ForgetCapture(f: seq<Byte>, h: Header, wanted: set<seq<Byte>>)
    requires Derives(f, h, wanted)
    ensures Derives(f, h, {})
  {
    hide Spans, GoodBody, GoodText;
    forall i | 0 <= i < |h.fields| ensures GoodField(CONVERTER_RULES, h.fields[i], {}) {
      assert GoodField(CONVERTER_RULES, h.fields[i], wanted);
      if h.fields[i].key in wanted {
        CaptureOnlyNarrows(CONVERTER_RULES, h.fields[i].kind, h.fields[i].body);
      }
    }
  }
}
