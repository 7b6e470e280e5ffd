// The grammar of GGUF headers.
module GgufGrammar {
  // A derivation keeps the raw bytes of every scalar and text, so printing a derivation (the Emit
  // functions) gives back the exact span of the file it was read from. The Take functions state what
  // a reader that follows given Rules does; the lemmas of this module say that it finds every derivation
  // and nothing else.

  import opened Bytes
  import opened Collections

  datatype Parsed<+T> = Ok(value: T, end: nat) | Refused {
    predicate IsFailure() { Refused? }
    function PropagateFailure<U>(): Parsed<U> requires Refused? { Refused }
    function Extract(): (T, nat) requires Ok? { (value, end) }
  }

  const TEXT_KIND: nat := 8
  const ARRAY_KIND: nat := 9

  // Byte width of a scalar value type; 0 for every other number.
  function Width(kind: nat): (w: nat)
    ensures w <= 8
  {
    if kind in {0, 1, 7} then 1
    else if kind in {2, 3} then 2
    else if kind in {4, 5, 6} then 4
    else if kind in {10, 11, 12} then 8
    else 0
  }

  predicate KnownElement(kind: nat) { Width(kind) > 0 || kind == TEXT_KIND }

  datatype Body =
    | Scalar(bits: seq<Byte>)
    | Text(raw: seq<Byte>)
    | Array(element: nat, items: seq<seq<Byte>>)

  datatype Field = Field(key: seq<Byte>, kind: nat, body: Body)
  datatype Tensor = Tensor(name: seq<Byte>, dimensions: seq<nat>, kind: nat, offset: nat)
  datatype Preamble = Preamble(version: nat, tensorCount: nat, fieldCount: nat)

  // Where the two readers of the repository differ: text and array ceilings, whether the text of an
  // uninteresting field is decoded, and whether an empty array of an unknown type passes.
  datatype Rules = Rules(maxText: nat, maxItems: nat, decodesSkipped: bool, emptyUnknown: bool)
  {
    predicate Fits() { maxText < LIMIT64 && maxItems < LIMIT64 }
  }

  // ---------------------------------------------------------------- printing a derivation

  function EmitText(raw: seq<Byte>): seq<Byte>
  {
    U64(|raw|) + raw
  }

  function EmitItem(element: nat, item: seq<Byte>): seq<Byte>
  {
    if element == TEXT_KIND then EmitText(item) else item
  }

  function EmitItems(element: nat, items: seq<seq<Byte>>): seq<Byte>
  {
    if items == [] then [] else EmitItem(element, items[0]) + EmitItems(element, items[1..])
  }

  function EmitBody(body: Body): seq<Byte>
  {
    match body
    case Scalar(bits) => bits
    case Text(raw) => EmitText(raw)
    case Array(element, items) => U32(element) + (U64(|items|) + EmitItems(element, items))
  }

  function EmitField(field: Field): seq<Byte>
  {
    EmitText(field.key) + (U32(field.kind) + EmitBody(field.body))
  }

  function EmitFields(fields: seq<Field>): seq<Byte>
  {
    if fields == [] then [] else EmitField(fields[0]) + EmitFields(fields[1..])
  }

  function EmitNumbers(values: seq<nat>): seq<Byte>
  {
    if values == [] then [] else U64(values[0]) + EmitNumbers(values[1..])
  }

  function EmitTensor(tensor: Tensor): seq<Byte>
  {
    EmitText(tensor.name)
    + (U32(|tensor.dimensions|)
       + (EmitNumbers(tensor.dimensions) + (U32(tensor.kind) + U64(tensor.offset))))
  }

  function EmitTensors(tensors: seq<Tensor>): seq<Byte>
  {
    if tensors == [] then [] else EmitTensor(tensors[0]) + EmitTensors(tensors[1..])
  }

  const MAGIC: seq<Byte> := Ascii("GGUF")

  function EmitPreamble(p: Preamble): seq<Byte>
  {
    MAGIC + (U32(p.version) + (U64(p.tensorCount) + U64(p.fieldCount)))
  }

  // ---------------------------------------------------------------- well-formed derivations

  predicate GoodText(rules: Rules, raw: seq<Byte>, decoded: bool)
  {
    |raw| <= rules.maxText && (decoded || rules.decodesSkipped ==> ValidUtf8(raw))
  }

  predicate GoodItem(rules: Rules, element: nat, item: seq<Byte>, decoded: bool)
  {
    if element == TEXT_KIND then GoodText(rules, item, decoded)
    else Width(element) > 0 && |item| == Width(element)
  }

  predicate GoodBody(rules: Rules, kind: nat, body: Body, decoded: bool)
  {
    match body
    case Scalar(bits) => Width(kind) > 0 && |bits| == Width(kind)
    case Text(raw) => kind == TEXT_KIND && GoodText(rules, raw, decoded)
    case Array(element, items) =>
      && kind == ARRAY_KIND && element != ARRAY_KIND && element < LIMIT32
      && |items| <= rules.maxItems
      && (forall i | 0 <= i < |items| :: GoodItem(rules, element, items[i], decoded))
      && (items == [] && !rules.emptyUnknown ==> KnownElement(element))
  }

  predicate GoodField(rules: Rules, field: Field, wanted: set<seq<Byte>>)
  {
    && GoodText(rules, field.key, true) && field.kind < LIMIT32
    && GoodBody(rules, field.kind, field.body, field.key in wanted)
  }

  predicate GoodFields(rules: Rules, fields: seq<Field>, wanted: set<seq<Byte>>)
  {
    forall i | 0 <= i < |fields| :: GoodField(rules, fields[i], wanted)
  }

  predicate GoodTensor(rules: Rules, tensor: Tensor)
  {
    && GoodText(rules, tensor.name, true) && tensor.name != []
    && 1 <= |tensor.dimensions| <= 4
    && (forall i | 0 <= i < |tensor.dimensions| :: 1 <= tensor.dimensions[i] < LIMIT64)
    && tensor.kind < LIMIT32 && tensor.offset < LIMIT64
  }

  predicate GoodTensors(rules: Rules, tensors: seq<Tensor>)
  {
    forall i | 0 <= i < |tensors| :: GoodTensor(rules, tensors[i])
  }

  // ---------------------------------------------------------------- reading

  function TakeBytes(f: seq<Byte>, pos: nat, size: nat): Parsed<seq<Byte>>
  {
    if pos + size <= |f| then Ok(f[pos..pos + size], pos + size) else Refused
  }

  function TakeU32(f: seq<Byte>, pos: nat): (r: Parsed<nat>)
    ensures r.Ok? ==> r.end == pos + 4 <= |f|
  {
    var (raw, p) :- TakeBytes(f, pos, 4);
    Ok(Little(raw), p)
  }

  function TakeU64(f: seq<Byte>, pos: nat): (r: Parsed<nat>)
    ensures r.Ok? ==> r.end == pos + 8 <= |f|
  {
    var (raw, p) :- TakeBytes(f, pos, 8);
    Ok(Little(raw), p)
  }

  function TakeText(rules: Rules, f: seq<Byte>, pos: nat, decoded: bool): (r: Parsed<seq<Byte>>)
    ensures r.Ok? ==> pos + 8 <= r.end <= |f|
  {
    var (size, p) :- TakeU64(f, pos);
    if size > rules.maxText then Refused else
    var (raw, q) :- TakeBytes(f, p, size);
    if GoodText(rules, raw, decoded) then Ok(raw, q) else Refused
  }

  function TakeItem(rules: Rules, f: seq<Byte>, pos: nat, element: nat, decoded: bool): Parsed<seq<Byte>>
  {
    if element == TEXT_KIND then TakeText(rules, f, pos, decoded)
    else if Width(element) > 0 then TakeBytes(f, pos, Width(element))
    else Refused
  }

  function TakeItems(rules: Rules, f: seq<Byte>, pos: nat, element: nat, count: nat, decoded: bool)
    : (r: Parsed<seq<seq<Byte>>>)
    ensures r.Ok? ==> |r.value| == count
    decreases count
  {
    if count == 0 then Ok([], pos) else
    var (item, p) :- TakeItem(rules, f, pos, element, decoded);
    var (rest, q) :- TakeItems(rules, f, p, element, count - 1, decoded);
    Ok([item] + rest, q)
  }

  function TakeBody(rules: Rules, f: seq<Byte>, pos: nat, kind: nat, decoded: bool): Parsed<Body>
  {
    if Width(kind) > 0 then
      var (bits, p) :- TakeBytes(f, pos, Width(kind));
      Ok(Scalar(bits), p)
    else if kind == TEXT_KIND then
      var (raw, p) :- TakeText(rules, f, pos, decoded);
      Ok(Text(raw), p)
    else if kind != ARRAY_KIND then Refused
    else
      var (element, p) :- TakeU32(f, pos);
      var (count, q) :- TakeU64(f, p);
      if count > rules.maxItems || element == ARRAY_KIND then Refused
      else if !rules.emptyUnknown && !KnownElement(element) then Refused
      else
        var (items, end) :- TakeItems(rules, f, q, element, count, decoded);
        Ok(Array(element, items), end)
  }

  function TakeField(rules: Rules, f: seq<Byte>, pos: nat, wanted: set<seq<Byte>>): Parsed<Field>
  {
    var (key, p) :- TakeText(rules, f, pos, true);
    var (kind, q) :- TakeU32(f, p);
    var (body, end) :- TakeBody(rules, f, q, kind, key in wanted);
    Ok(Field(key, kind, body), end)
  }

  function TakeFields(rules: Rules, f: seq<Byte>, pos: nat, count: nat, wanted: set<seq<Byte>>)
    : (r: Parsed<seq<Field>>)
    ensures r.Ok? ==> |r.value| == count
    decreases count
  {
    if count == 0 then Ok([], pos) else
    var (field, p) :- TakeField(rules, f, pos, wanted);
    var (rest, q) :- TakeFields(rules, f, p, count - 1, wanted);
    Ok([field] + rest, q)
  }

  function TakeNumbers(f: seq<Byte>, pos: nat, count: nat): (r: Parsed<seq<nat>>)
    ensures r.Ok? ==> |r.value| == count
    decreases count
  {
    if count == 0 then Ok([], pos) else
    var (value, p) :- TakeU64(f, pos);
    var (rest, q) :- TakeNumbers(f, p, count - 1);
    Ok([value] + rest, q)
  }

  function TakeTensor(rules: Rules, f: seq<Byte>, pos: nat): Parsed<Tensor>
  {
    var (name, p) :- TakeText(rules, f, pos, true);
    if name == [] then Refused else TakeTensorRest(f, p, name)
  }

  // Everything after the name of a tensor record.
  function TakeTensorRest(f: seq<Byte>, p: nat, name: seq<Byte>): (r: Parsed<Tensor>)
    ensures r.Ok? ==> r.value.name == name
  {
    var (rank, q) :- TakeU32(f, p);
    if !(1 <= rank <= 4) then Refused else
    var (dimensions, r) :- TakeNumbers(f, q, rank);
    if exists i | 0 <= i < |dimensions| :: dimensions[i] < 1 then Refused else
    var (kind, s) :- TakeU32(f, r);
    var (offset, end) :- TakeU64(f, s);
    Ok(Tensor(name, dimensions, kind, offset), end)
  }

  function TakeTensors(rules: Rules, f: seq<Byte>, pos: nat, count: nat): (r: Parsed<seq<Tensor>>)
    ensures r.Ok? ==> |r.value| == count
    decreases count
  {
    if count == 0 then Ok([], pos) else
    var (tensor, p) :- TakeTensor(rules, f, pos);
    var (rest, q) :- TakeTensors(rules, f, p, count - 1);
    Ok([tensor] + rest, q)
  }

  function TakePreamble(f: seq<Byte>): Parsed<Preamble>
  {
    var (magic, p) :- TakeBytes(f, 0, 4);
    if magic != MAGIC then Refused else
    var (version, q) :- TakeU32(f, p);
    if version !in {2, 3} then Refused else
    var (tensorCount, r) :- TakeU64(f, q);
    var (fieldCount, s) :- TakeU64(f, r);
    Ok(Preamble(version, tensorCount, fieldCount), s)
  }

  // ---------------------------------------------------------------- reading is exactly the grammar

  lemma TakeU32Exact(f: seq<Byte>, pos: nat, n: nat, end: nat)
    ensures TakeU32(f, pos) == Ok(n, end) <==> n < LIMIT32 && Spans(f, pos, end, U32(n))
  {
    if pos + 4 <= |f| {
      FixedWidthInverse(f[pos..pos + 4]);
    }
  }

  lemma TakeU64Exact(f: seq<Byte>, pos: nat, n: nat, end: nat)
    ensures TakeU64(f, pos) == Ok(n, end) <==> n < LIMIT64 && Spans(f, pos, end, U64(n))
  {
    if pos + 8 <= |f| {
      FixedWidthInverse(f[pos..pos + 8]);
    }
  }

  lemma TakeTextExact(rules: Rules, f: seq<Byte>, pos: nat, decoded: bool, raw: seq<Byte>, end: nat)
    requires rules.Fits()
    ensures TakeText(rules, f, pos, decoded) == Ok(raw, end)
       <==> GoodText(rules, raw, decoded) && Spans(f, pos, end, EmitText(raw))
  {
    if |raw| <= rules.maxText {
      TakeU64Exact(f, pos, |raw|, pos + 8);
      SpansConcat(f, pos, end, U64(|raw|), raw);
    }
  }

  lemma TakeItemExact(rules: Rules, f: seq<Byte>, pos: nat, element: nat, decoded: bool,
                      item: seq<Byte>, end: nat)
    requires rules.Fits()
    ensures TakeItem(rules, f, pos, element, decoded) == Ok(item, end)
       <==> GoodItem(rules, element, item, decoded) && Spans(f, pos, end, EmitItem(element, item))
  {
    hide U64;
    TakeTextExact(rules, f, pos, decoded, item, end);
  }

  lemma {:induction false} TakeItemsSound(rules: Rules, f: seq<Byte>, pos: nat, element: nat, count: nat,
                                          decoded: bool)
    requires rules.Fits() && pos <= |f|
    ensures var r := TakeItems(rules, f, pos, element, count, decoded);
            r.Ok? ==> && (forall i | 0 <= i < count :: GoodItem(rules, element, r.value[i], decoded))
                      && Spans(f, pos, r.end, EmitItems(element, r.value))
    decreases count
  {
    hide EmitItem, TakeItem, GoodItem, Spans;
    var r := TakeItems(rules, f, pos, element, count, decoded);
    if count > 0 && r.Ok? {
      var (item, p) := TakeItem(rules, f, pos, element, decoded).Extract();
      TakeItemExact(rules, f, pos, element, decoded, item, p);
      TakeItemsSound(rules, f, p, element, count - 1, decoded);
      assert r.value[1..] == TakeItems(rules, f, p, element, count - 1, decoded).value;
      SpansConcat(f, pos, r.end, EmitItem(element, item), EmitItems(element, r.value[1..]));
    }
  }

  lemma {:induction false} TakeItemsComplete(rules: Rules, f: seq<Byte>, pos: nat, element: nat, decoded: bool,
                                             items: seq<seq<Byte>>, end: nat)
    requires rules.Fits() && pos <= |f|
    requires forall i | 0 <= i < |items| :: GoodItem(rules, element, items[i], decoded)
    requires Spans(f, pos, end, EmitItems(element, items))
    ensures TakeItems(rules, f, pos, element, |items|, decoded) == Ok(items, end)
    decreases |items|
  {
    hide EmitItem, TakeItem, GoodItem;
    if items != [] {
      var mid := pos + |EmitItem(element, items[0])|;
      SpansConcat(f, pos, end, EmitItem(element, items[0]), EmitItems(element, items[1..]));
      TakeItemExact(rules, f, pos, element, decoded, items[0], mid);
      TakeItemsComplete(rules, f, mid, element, decoded, items[1..], end);
      assert items == [items[0]] + items[1..];
    }
  }

  lemma TakeBodySound(rules: Rules, f: seq<Byte>, pos: nat, kind: nat, decoded: bool)
    requires rules.Fits() && pos <= |f|
    ensures var r := TakeBody(rules, f, pos, kind, decoded);
            r.Ok? ==> GoodBody(rules, kind, r.value, decoded) && Spans(f, pos, r.end, EmitBody(r.value))
  {
    hide U32, U64, EmitText, EmitItems, TakeText, TakeItems, GoodItem, GoodText, TakeU32, TakeU64;
    var r := TakeBody(rules, f, pos, kind, decoded);
    if r.Ok? {
      match r.value
      case Scalar(_) =>
      case Text(raw) => TakeTextExact(rules, f, pos, decoded, raw, r.end);
      case Array(_, _) => TakeArraySound(rules, f, pos, kind, decoded);
    }
  }

  lemma TakeArraySound(rules: Rules, f: seq<Byte>, pos: nat, kind: nat, decoded: bool)
    requires rules.Fits() && pos <= |f|
    requires TakeBody(rules, f, pos, kind, decoded).Ok? && TakeBody(rules, f, pos, kind, decoded).value.Array?
    ensures var r := TakeBody(rules, f, pos, kind, decoded);
            GoodBody(rules, kind, r.value, decoded) && Spans(f, pos, r.end, EmitBody(r.value))
  {
    hide U32, U64, EmitText, EmitItems, TakeText, TakeItems, GoodItem, GoodText, Spans, TakeU32, TakeU64;
    var r := TakeBody(rules, f, pos, kind, decoded);
    var Array(element, items) := r.value;
    TakeU32Exact(f, pos, element, pos + 4);
    TakeU64Exact(f, pos + 4, |items|, pos + 12);
    TakeItemsSound(rules, f, pos + 12, element, |items|, decoded);
    SpansConcat(f, pos + 4, r.end, U64(|items|), EmitItems(element, items));
    SpansConcat(f, pos, r.end, U32(element), U64(|items|) + EmitItems(element, items));
  }

  lemma TakeBodyComplete(rules: Rules, f: seq<Byte>, pos: nat, kind: nat, body: Body, decoded: bool, end: nat)
    requires rules.Fits() && pos <= |f|
    requires GoodBody(rules, kind, body, decoded) && Spans(f, pos, end, EmitBody(body))
    ensures TakeBody(rules, f, pos, kind, decoded) == Ok(body, end)
  {
    match body
    case Scalar(_) =>
    case Text(raw) => TakeTextExact(rules, f, pos, decoded, raw, end);
    case Array(element, items) =>
      TakeArrayComplete(rules, f, pos, element, items, decoded, end);
  }

  lemma TakeArrayComplete(rules: Rules, f: seq<Byte>, pos: nat, element: nat, items: seq<seq<Byte>>, decoded: bool, end: nat)
    requires rules.Fits() && pos <= |f|
    requires GoodBody(rules, ARRAY_KIND, Array(element, items), decoded)
    requires Spans(f, pos, end, EmitBody(Array(element, items)))
    ensures TakeBody(rules, f, pos, ARRAY_KIND, decoded) == Ok(Array(element, items), end)
  {
    hide U32, U64, EmitText, EmitItems, TakeText, TakeItems, GoodText, Spans, TakeU32, TakeU64;
    assert items != [] ==> GoodItem(rules, element, items[0], decoded);
    SpansConcat(f, pos, end, U32(element), U64(|items|) + EmitItems(element, items));
    SpansConcat(f, pos + 4, end, U64(|items|), EmitItems(element, items));
    TakeU32Exact(f, pos, element, pos + 4);
    TakeU64Exact(f, pos + 4, |items|, pos + 12);
    SpanEnd(f, pos + 4, pos + 12, U64(|items|));
    TakeItemsComplete(rules, f, pos + 12, element, decoded, items, end);
  }

  lemma SpanEnd(f: seq<Byte>, pos: nat, end: nat, part: seq<Byte>)
    requires Spans(f, pos, end, part)
    ensures end <= |f|
  {
  }

  lemma TakeFieldSound(rules: Rules, f: seq<Byte>, pos: nat, wanted: set<seq<Byte>>)
    requires rules.Fits() && pos <= |f|
    ensures var r := TakeField(rules, f, pos, wanted);
            r.Ok? ==> GoodField(rules, r.value, wanted) && Spans(f, pos, r.end, EmitField(r.value))
  {
    hide U32, EmitText, EmitBody, TakeText, TakeU32, TakeBody, GoodText, GoodBody, Spans;
    var r := TakeField(rules, f, pos, wanted);
    if r.Ok? {
      var Field(key, kind, body) := r.value;
      var p := TakeText(rules, f, pos, true).end;
      TakeTextExact(rules, f, pos, true, key, p);
      TakeU32Exact(f, p, kind, p + 4);
      TakeBodySound(rules, f, p + 4, kind, key in wanted);
      SpansConcat(f, p, r.end, U32(kind), EmitBody(body));
      SpansConcat(f, pos, r.end, EmitText(key), U32(kind) + EmitBody(body));
    }
  }

  lemma TakeFieldComplete(rules: Rules, f: seq<Byte>, pos: nat, field: Field, wanted: set<seq<Byte>>, end: nat)
    requires rules.Fits() && pos <= |f|
    requires GoodField(rules, field, wanted) && Spans(f, pos, end, EmitField(field))
    ensures TakeField(rules, f, pos, wanted) == Ok(field, end)
  {
    hide U32, EmitText, EmitBody, TakeText, TakeBody, GoodText, GoodBody;
    var Field(key, kind, body) := field;
    var p := pos + |EmitText(key)|;
    SpansConcat(f, pos, end, EmitText(key), U32(kind) + EmitBody(body));
    SpansConcat(f, p, end, U32(kind), EmitBody(body));
    TakeTextExact(rules, f, pos, true, key, p);
    TakeU32Exact(f, p, kind, p + 4);
    TakeBodyComplete(rules, f, p + 4, kind, body, key in wanted, end);
  }

  lemma {:induction false} TakeFieldsSound(rules: Rules, f: seq<Byte>, pos: nat, count: nat, wanted: set<seq<Byte>>)
    requires rules.Fits() && pos <= |f|
    ensures var r := TakeFields(rules, f, pos, count, wanted);
            r.Ok? ==> GoodFields(rules, r.value, wanted) && Spans(f, pos, r.end, EmitFields(r.value))
    decreases count
  {
    hide EmitField, TakeField, GoodField, Spans;
    var r := TakeFields(rules, f, pos, count, wanted);
    if count > 0 && r.Ok? {
      var (field, p) := TakeField(rules, f, pos, wanted).Extract();
      TakeFieldSound(rules, f, pos, wanted);
      TakeFieldsSound(rules, f, p, count - 1, wanted);
      assert r.value[1..] == TakeFields(rules, f, p, count - 1, wanted).value;
      SpansConcat(f, pos, r.end, EmitField(field), EmitFields(r.value[1..]));
    }
  }

  lemma {:induction false} TakeFieldsComplete(rules: Rules, f: seq<Byte>, pos: nat, fields: seq<Field>,
                                              wanted: set<seq<Byte>>, end: nat)
    requires rules.Fits() && pos <= |f|
    requires GoodFields(rules, fields, wanted) && Spans(f, pos, end, EmitFields(fields))
    ensures TakeFields(rules, f, pos, |fields|, wanted) == Ok(fields, end)
    decreases |fields|
  {
    hide EmitField, TakeField, GoodField;
    if fields != [] {
      var mid := pos + |EmitField(fields[0])|;
      SpansConcat(f, pos, end, EmitField(fields[0]), EmitFields(fields[1..]));
      TakeFieldComplete(rules, f, pos, fields[0], wanted, mid);
      TakeFieldsComplete(rules, f, mid, fields[1..], wanted, end);
      assert fields == [fields[0]] + fields[1..];
    }
  }

  lemma {:induction false} TakeNumbersSound(f: seq<Byte>, pos: nat, count: nat)
    requires pos <= |f|
    ensures var r := TakeNumbers(f, pos, count);
            r.Ok? ==> && (forall i | 0 <= i < count :: r.value[i] < LIMIT64)
                      && Spans(f, pos, r.end, EmitNumbers(r.value))
    decreases count
  {
    hide U64, TakeU64, Spans;
    var r := TakeNumbers(f, pos, count);
    if count > 0 && r.Ok? {
      var (value, p) := TakeU64(f, pos).Extract();
      TakeU64Exact(f, pos, value, p);
      TakeNumbersSound(f, p, count - 1);
      assert r.value[1..] == TakeNumbers(f, p, count - 1).value;
      SpansConcat(f, pos, r.end, U64(value), EmitNumbers(r.value[1..]));
    }
  }

  lemma {:induction false} TakeNumbersComplete(f: seq<Byte>, pos: nat, values: seq<nat>, end: nat)
    requires pos <= |f|
    requires forall i | 0 <= i < |values| :: values[i] < LIMIT64
    requires Spans(f, pos, end, EmitNumbers(values))
    ensures TakeNumbers(f, pos, |values|) == Ok(values, end)
    decreases |values|
  {
    hide U64, TakeU64;
    if values != [] {
      SpansConcat(f, pos, end, U64(values[0]), EmitNumbers(values[1..]));
      TakeU64Exact(f, pos, values[0], pos + 8);
      TakeNumbersComplete(f, pos + 8, values[1..], end);
      assert values == [values[0]] + values[1..];
    }
  }

  lemma TakeTensorSound(rules: Rules, f: seq<Byte>, pos: nat)
    requires rules.Fits() && pos <= |f|
    ensures var r := TakeTensor(rules, f, pos);
            r.Ok? ==> GoodTensor(rules, r.value) && Spans(f, pos, r.end, EmitTensor(r.value))
  {
    hide U32, U64, EmitText, EmitNumbers, TakeText, TakeU32, TakeU64, TakeNumbers, GoodText, Spans;
    var r := TakeTensor(rules, f, pos);
    if r.Ok? {
      var Tensor(name, dimensions, kind, offset) := r.value;
      var p := TakeText(rules, f, pos, true).end;
      TakeTextExact(rules, f, pos, true, name, p);
      TakeU32Exact(f, p, |dimensions|, p + 4);
      TakeNumbersSound(f, p + 4, |dimensions|);
      var q := TakeNumbers(f, p + 4, |dimensions|).end;
      TakeU32Exact(f, q, kind, q + 4);
      TakeU64Exact(f, q + 4, offset, r.end);
      var tail := U32(kind) + U64(offset);
      SpansConcat(f, q, r.end, U32(kind), U64(offset));
      SpansConcat(f, p + 4, r.end, EmitNumbers(dimensions), tail);
      SpansConcat(f, p, r.end, U32(|dimensions|), EmitNumbers(dimensions) + tail);
      SpansConcat(f, pos, r.end, EmitText(name), U32(|dimensions|) + (EmitNumbers(dimensions) + tail));
    }
  }

  lemma TakeTensorComplete(rules: Rules, f: seq<Byte>, pos: nat, tensor: Tensor, end: nat)
    requires rules.Fits() && pos <= |f|
    requires GoodTensor(rules, tensor) && Spans(f, pos, end, EmitTensor(tensor))
    ensures TakeTensor(rules, f, pos) == Ok(tensor, end)
  {
    hide U32, U64, EmitText, EmitNumbers, TakeText, TakeU32, TakeU64, TakeNumbers, GoodText;
    var Tensor(name, dimensions, kind, offset) := tensor;
    var tail := U32(kind) + U64(offset);
    var p := pos + |EmitText(name)|;
    var q := p + 4 + |EmitNumbers(dimensions)|;
    SpansConcat(f, pos, end, EmitText(name), U32(|dimensions|) + (EmitNumbers(dimensions) + tail));
    SpansConcat(f, p, end, U32(|dimensions|), EmitNumbers(dimensions) + tail);
    SpansConcat(f, p + 4, end, EmitNumbers(dimensions), tail);
    SpansConcat(f, q, end, U32(kind), U64(offset));
    TakeTextExact(rules, f, pos, true, name, p);
    TakeU32Exact(f, p, |dimensions|, p + 4);
    TakeNumbersComplete(f, p + 4, dimensions, q);
    TakeU32Exact(f, q, kind, q + 4);
    TakeU64Exact(f, q + 4, offset, end);
  }

  lemma {:induction false} TakeTensorsSound(rules: Rules, f: seq<Byte>, pos: nat, count: nat)
    requires rules.Fits() && pos <= |f|
    ensures var r := TakeTensors(rules, f, pos, count);
            r.Ok? ==> GoodTensors(rules, r.value) && Spans(f, pos, r.end, EmitTensors(r.value))
    decreases count
  {
    hide EmitTensor, TakeTensor, GoodTensor, Spans;
    var r := TakeTensors(rules, f, pos, count);
    if count > 0 && r.Ok? {
      var (tensor, p) := TakeTensor(rules, f, pos).Extract();
      TakeTensorSound(rules, f, pos);
      TakeTensorsSound(rules, f, p, count - 1);
      assert r.value[1..] == TakeTensors(rules, f, p, count - 1).value;
      SpansConcat(f, pos, r.end, EmitTensor(tensor), EmitTensors(r.value[1..]));
    }
  }

  lemma {:induction false} TakeTensorsComplete(rules: Rules, f: seq<Byte>, pos: nat, tensors: seq<Tensor>, end: nat)
    requires rules.Fits() && pos <= |f|
    requires GoodTensors(rules, tensors) && Spans(f, pos, end, EmitTensors(tensors))
    ensures TakeTensors(rules, f, pos, |tensors|) == Ok(tensors, end)
    decreases |tensors|
  {
    hide EmitTensor, TakeTensor, GoodTensor;
    if tensors != [] {
      var mid := pos + |EmitTensor(tensors[0])|;
      SpansConcat(f, pos, end, EmitTensor(tensors[0]), EmitTensors(tensors[1..]));
      TakeTensorComplete(rules, f, pos, tensors[0], mid);
      TakeTensorsComplete(rules, f, mid, tensors[1..], end);
      assert tensors == [tensors[0]] + tensors[1..];
    }
  }

  lemma TakePreambleExact(f: seq<Byte>, p: Preamble, end: nat)
    ensures TakePreamble(f) == Ok(p, end)
       <==> && p.version in {2, 3} && p.tensorCount < LIMIT64 && p.fieldCount < LIMIT64
            && Spans(f, 0, end, EmitPreamble(p))
  {
    hide U32, U64;
    var counts := U64(p.tensorCount) + U64(p.fieldCount);
    SpansConcat(f, 0, end, MAGIC, U32(p.version) + counts);
    SpansConcat(f, 4, end, U32(p.version), counts);
    SpansConcat(f, 8, end, U64(p.tensorCount), U64(p.fieldCount));
    TakeU32Exact(f, 4, p.version, 8);
    TakeU64Exact(f, 8, p.tensorCount, 16);
    TakeU64Exact(f, 16, p.fieldCount, 24);
  }
}
