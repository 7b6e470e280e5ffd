// What the captured values of a GGUF header are.
module GgufCapture {
  import opened Bytes
  import opened Collections
  import opened GgufGrammar
  import opened GgufReader

  // ---------------------------------------------------------------- numbers in bytes

  // The first byte is the least significant one.
  lemma LittleOne(b: Byte)
    ensures Little([b]) == b
  {
    assert Little([]) == 0;
  }

  lemma {:induction false} LittleAppend(a: seq<Byte>, b: seq<Byte>)
    ensures Little(a + b) == Little(a) + Pow256(|a|) * Little(b)
  {
    if a == [] {
      assert a + b == b;
    } else {
      LittleAppend(a[1..], b);
      assert (a + b)[1..] == a[1..] + b;
      ScaleSum(Little(a[1..]), Pow256(|a[1..]|) * Little(b));
      ScaleTwice(Pow256(|a[1..]|), Little(b));
    }
  }

  lemma ScaleSum(x: int, y: int)
    ensures 256 * (x + y) == 256 * x + 256 * y
  {
  }

  lemma ScaleTwice(x: int, y: int)
    ensures 256 * (x * y) == (256 * x) * y
  {
  }

  // Two's complement: the number congruent to the unsigned one in the signed range of the width.
  ghost predicate TwosComplement(bits: seq<Byte>, n: int)
  {
    && 2 * n < Pow256(|bits|) && 2 * n + Pow256(|bits|) >= 0
    && (n == Little(bits) || n == Little(bits) - Pow256(|bits|))
  }

  lemma SignedExact(bits: seq<Byte>, n: int)
    requires bits != []
    ensures SignedLittle(bits) == n <==> TwosComplement(bits, n)
  {
  }

  // ---------------------------------------------------------------- one value

  // The meaning of the scalar bits of each kind: unsigned, signed, float, bool.
  ghost predicate ScalarMeans(kind: nat, bits: seq<Byte>, v: Value)
  {
    && (kind == 0 || kind == 2 || kind == 4 || kind == 10 ==> v == Number(Little(bits)))
    && (kind == 1 || kind == 3 || kind == 5 || kind == 11 ==> v.Number? && TwosComplement(bits, v.n))
    && (kind == 6 || kind == 12 ==> v == Float(bits))
    && (kind == 7 ==> v.Flag? && (v.b <==> exists i :: 0 <= i < |bits| && bits[i] != 0))
  }

  lemma {:induction false} NonzeroByte(bits: seq<Byte>)
    ensures Little(bits) != 0 <==> exists i :: 0 <= i < |bits| && bits[i] != 0
  {
    if bits != [] {
      NonzeroByte(bits[1..]);
      if i :| 0 <= i < |bits[1..]| && bits[1..][i] != 0 { assert bits[i + 1] != 0; }
      if i :| 1 <= i < |bits| && bits[i] != 0 { assert bits[1..][i - 1] != 0; }
    }
  }

  lemma ScalarMeaning(kind: nat, bits: seq<Byte>)
    requires Width(kind) > 0 && |bits| == Width(kind)
    ensures ScalarMeans(kind, bits, DecodeScalar(kind, bits))
  {
    hide Little, Pow256, SignedLittle;
    NonzeroByte(bits);
    SignedExact(bits, SignedLittle(bits));
  }

  // A captured array has one element for each element of the file, in order.
  ghost predicate ValueMeans(kind: nat, body: Body, v: Value)
  {
    match body
    case Scalar(bits) => ScalarMeans(kind, bits, v)
    case Text(raw) => v == String(raw)
    case Array(element, items) =>
      && v.List? && |v.items| == |items|
      && forall k | 0 <= k < |items| ::
           if element == 8 then v.items[k] == String(items[k]) else ScalarMeans(element, items[k], v.items[k])
  }

  lemma ValueMeaning(rules: Rules, kind: nat, body: Body, decoded: bool)
    requires GoodBody(rules, kind, body, decoded)
    ensures ValueMeans(kind, body, DecodeBody(kind, body))
  {
    hide ScalarMeans, DecodeScalar, GoodText;
    match body
    case Scalar(bits) => ScalarMeaning(kind, bits);
    case Text(_) =>
    case Array(element, items) =>
      forall k | 0 <= k < |items|
        ensures if element == 8 then DecodeItems(element, items)[k] == String(items[k])
                else ScalarMeans(element, items[k], DecodeItems(element, items)[k])
      {
        assert GoodItem(rules, element, items[k], decoded);
        if element != 8 { ScalarMeaning(element, items[k]); }
      }
  }

  // ---------------------------------------------------------------- the whole dictionary

  // The metadata of a contract: the wanted fields of the file and nothing else, each with its type, the
  // element type of an array, and its value.
  ghost predicate MetadataMeans(fields: seq<Field>, wanted: set<seq<Byte>>, metadata: map<seq<Byte>, Entry>)
  {
    && (forall key :: key in metadata <==> key in wanted && exists i | 0 <= i < |fields| :: fields[i].key == key)
    && forall i | 0 <= i < |fields| && fields[i].key in wanted ::
         && fields[i].key in metadata
         && var entry := metadata[fields[i].key];
         && entry.kind == fields[i].kind
         && (entry.arrayType == if fields[i].body.Array? then Some(fields[i].body.element) else None)
         && ValueMeans(fields[i].kind, fields[i].body, entry.value)
  }

  lemma MetadataMeaning(fields: seq<Field>, wanted: set<seq<Byte>>, known: set<seq<Byte>>)
    requires GoodFields(CONVERTER_RULES, fields, known) && Distinct(KeysOf(fields))
    ensures MetadataMeans(fields, wanted, Selected(fields, wanted))
  {
    hide ValueMeans, Selected, DecodeBody, GoodBody;
    SelectedMeaning(fields, wanted);
    forall i | 0 <= i < |fields| && fields[i].key in wanted
      ensures ValueMeans(fields[i].kind, fields[i].body, EntryOf(fields[i]).value)
    {
      assert GoodField(CONVERTER_RULES, fields[i], known);
      ValueMeaning(CONVERTER_RULES, fields[i].kind, fields[i].body, fields[i].key in known);
    }
    forall key ensures key in Selected(fields, wanted) <==> key in wanted && exists i | 0 <= i < |fields| :: fields[i].key == key {
    }
  }

  // ---------------------------------------------------------------- the whole contract

  ghost function TwoTo(k: nat): (n: nat)
    ensures n > 0
  {
    if k == 0 then 1 else 2 * TwoTo(k - 1)
  }

  ghost predicate IsPower(n: nat) { exists k: nat :: n == TwoTo(k) }

  lemma {:induction false} PowersOfTwo(n: nat)
    ensures PowerOfTwo(n) <==> IsPower(n)
  {
    hide IsPower;
    if n > 1 && n % 2 == 0 {
      PowersOfTwo(n / 2);
      Doubled(n / 2);
      assert 2 * (n / 2) == n;
    } else if n == 1 {
      IsPowerAt(n, 0);
    } else {
      OddIsNone(n);
    }
  }

  lemma IsPowerAt(n: nat, k: nat)
    requires n == TwoTo(k)
    ensures IsPower(n)
  {
  }

  lemma Doubled(n: nat)
    requires n > 0
    ensures IsPower(2 * n) <==> IsPower(n)
  {
    if k: nat :| n == TwoTo(k) { IsPowerAt(2 * n, k + 1); }
    if k: nat :| 2 * n == TwoTo(k) { IsPowerAt(n, k - 1); }
  }

  lemma OddIsNone(n: nat)
    requires n == 0 || (n > 1 && n % 2 == 1)
    ensures !IsPower(n)
  {
    forall k: nat ensures n != TwoTo(k) { EvenOrOne(k); }
  }

  lemma {:induction false} EvenOrOne(k: nat)
    ensures TwoTo(k) == 1 || TwoTo(k) % 2 == 0
  {
    if k > 0 { Even(TwoTo(k - 1), TwoTo(k)); }
  }

  lemma {:induction false} Even(half: nat, n: nat)
    requires n == 2 * half
    ensures n % 2 == 0
  {
  }

  ghost predicate AlignedTo(fields: seq<Field>, alignment: nat)
  {
    if forall i | 0 <= i < |fields| :: fields[i].key != Ascii("general.alignment") then alignment == 32
    else exists i | 0 <= i < |fields| ::
      && fields[i].key == Ascii("general.alignment") && fields[i].kind == 4 && fields[i].body.Scalar?
      && Little(fields[i].body.bits) == alignment <= 4096 && IsPower(alignment)
  }

  lemma AlignedExact(h: Header, alignment: nat)
    ensures Declares(h, alignment) <==> AlignedTo(h.fields, alignment)
  {
    hide PowerOfTwo, IsPower, Ascii, Little;
    PowersOfTwo(alignment);
  }

  // The least multiple of the alignment that is not below the header end.
  ghost predicate Starts(headerEnd: nat, alignment: nat, dataStart: nat)
    requires alignment > 0
  {
    dataStart % alignment == 0 && headerEnd <= dataStart < headerEnd + alignment
  }

  // A contract describes the file: the header it begins with, the alignment and the place of the data.
  ghost predicate Describes(f: seq<Byte>, h: Header, wanted: set<seq<Byte>>, details: bool, c: Contract)
  {
    && c.version == h.version && c.fileBytes == |f|
    && c.tensorCount == |h.tensors| && c.metadataCount == |h.fields|
    && (forall key :: key in c.metadataKeys <==> exists i | 0 <= i < |h.fields| :: h.fields[i].key == key)
    && MetadataMeans(h.fields, wanted + {Ascii("general.alignment")}, c.metadata)
    && c.tensors == (if details then h.tensors else [])
    && AlignedTo(h.fields, c.alignment) && c.alignment > 0
    && Starts(|h.Emit()|, c.alignment, c.dataStart) && c.dataStart <= |f|
    && forall i | 0 <= i < |h.tensors| ::
         h.tensors[i].offset % c.alignment == 0 && c.dataStart + h.tensors[i].offset < |f|
  }

  // Every accepted file is described by its contract.
  lemma ContractDescribes(f: seq<Byte>, wanted: set<seq<Byte>>, details: bool)
    requires ContractOf(f, wanted, details).Some?
    ensures exists h :: Derives(f, h, wanted + {Ascii("general.alignment")})
                     && Describes(f, h, wanted, details, ContractOf(f, wanted, details).value)
  {
    hide PowerOfTwo, BitAnd, Selected, Ascii, RoundUp, Declares, AlignmentOf, MetadataMeans, AlignedTo, TakeHeader, Derives,
         Distinct, Header.Emit, GoodFields;
    ContractExact(f, wanted, details);
    var h, a: nat :| Accepts(f, h, wanted, a);
    GoodHeader(f, h, wanted + {ALIGNMENT_KEY});
    MetadataMeaning(h.fields, wanted + {ALIGNMENT_KEY}, wanted + {ALIGNMENT_KEY});
    AlignedExact(h, a);
    RoundUpLeast(|h.Emit()|, a, 0);
  }

  lemma GoodHeader(f: seq<Byte>, h: Header, wanted: set<seq<Byte>>)
    requires Derives(f, h, wanted)
    ensures GoodFields(CONVERTER_RULES, h.fields, wanted) && Distinct(KeysOf(h.fields))
  {
  }

  // And a file is accepted whenever a header it begins with has a valid alignment and its data inside.
  lemma DescribedIsAccepted(f: seq<Byte>, h: Header, wanted: set<seq<Byte>>, details: bool, alignment: nat, dataStart: nat)
    requires Derives(f, h, wanted + {Ascii("general.alignment")}) && AlignedTo(h.fields, alignment) && alignment > 0
    requires Starts(|h.Emit()|, alignment, dataStart) && dataStart <= |f|
    requires forall i | 0 <= i < |h.tensors| :: h.tensors[i].offset % alignment == 0 && dataStart + h.tensors[i].offset < |f|
    ensures ContractOf(f, wanted, details).Some?
    ensures Describes(f, h, wanted, details, ContractOf(f, wanted, details).value)
    ensures ContractOf(f, wanted, details).value.dataStart == dataStart
  {
    hide PowerOfTwo, BitAnd, Selected, Ascii, Declares, AlignmentOf, MetadataMeans, AlignedTo, TakeHeader, Derives,
         Distinct, Header.Emit, GoodFields;
    AlignedExact(h, alignment);
    StartUnique(|h.Emit()|, alignment, dataStart);
    ContractExact(f, wanted, details);
    assert Accepts(f, h, wanted, alignment);
    GoodHeader(f, h, wanted + {ALIGNMENT_KEY});
    MetadataMeaning(h.fields, wanted + {ALIGNMENT_KEY}, wanted + {ALIGNMENT_KEY});
  }

  lemma StartUnique(n: nat, alignment: nat, dataStart: nat)
    requires alignment > 0 && Starts(n, alignment, dataStart)
    ensures RoundUp(n, alignment) == dataStart
  {
    hide RoundUp;
    RoundUpLeast(n, alignment, 0);
    OneMultiple(dataStart, RoundUp(n, alignment), alignment);
    OneMultiple(RoundUp(n, alignment), dataStart, alignment);
  }

  // Of two multiples less than one step apart neither is larger.
  lemma OneMultiple(x: nat, y: nat, step: nat)
    requires step > 0 && x % step == 0 && y % step == 0 && x < y + step
    ensures x <= y
  {
    var p, q := x / step, y / step;
    Divides(x, step);
    Divides(y, step);
    if p > q {
      ScaleMonotone(q + 1, p, step);
      NextMultiple(q, step);
    } else {
      ScaleMonotone(p, q, step);
    }
  }

  lemma Divides(x: nat, step: nat)
    requires step > 0 && x % step == 0
    ensures x == (x / step) * step
  {
  }

  lemma NextMultiple(q: nat, step: nat)
    ensures (q + 1) * step == q * step + step
  {
  }

  // ---------------------------------------------------------------- the standard, byte by byte

  lemma SmallNumbers(n: nat)
    requires n < 256
    ensures U32(n) == [n, 0, 0, 0] && U64(n) == [n, 0, 0, 0, 0, 0, 0, 0]
  {
    hide Pow256, ToLittle;
    WidthLimits();
    SmallLittle(n, 4);
    SmallLittle(n, 8);
    assert [n] + seq(3, _ => 0) == [n, 0, 0, 0];
    assert [n] + seq(7, _ => 0) == [n, 0, 0, 0, 0, 0, 0, 0];
  }

  lemma SmallLittle(n: nat, width: nat)
    requires n < 256 && width > 0 && n < Pow256(width)
    ensures ToLittle(n, width) == [n] + seq(width - 1, _ => 0)
  {
    Zeros(width - 1);
  }

  lemma {:induction false} Zeros(width: nat)
    ensures 0 < Pow256(width) && ToLittle(0, width) == seq(width, _ => 0)
  {
    if width > 0 { Zeros(width - 1); }
  }

  lemma Letters()
    ensures Ascii("GGUF") == [71, 71, 85, 70] && Ascii("a") == [97] && Ascii("t") == [116]
  {
  }

  // One small file written out: magic, version 3, one tensor, one field; key "a" with UINT32 7; tensor "t"
  // with dimensions 2 and 1, type F32, offset 32.
  lemma PrintedExample()
    ensures Header(3, [Field([97], 4, Scalar([7, 0, 0, 0]))], [Tensor([116], [2, 1], 0, 32)]).Emit()
         == [71, 71, 85, 70] + ([3, 0, 0, 0] + ([1, 0, 0, 0, 0, 0, 0, 0] + [1, 0, 0, 0, 0, 0, 0, 0]))
            + ([1, 0, 0, 0, 0, 0, 0, 0] + [97] + ([4, 0, 0, 0] + [7, 0, 0, 0])
               + ([1, 0, 0, 0, 0, 0, 0, 0] + [116]
                  + ([2, 0, 0, 0] + ([2, 0, 0, 0, 0, 0, 0, 0] + [1, 0, 0, 0, 0, 0, 0, 0]
                                     + ([0, 0, 0, 0] + [32, 0, 0, 0, 0, 0, 0, 0])))))
  {
    hide U32, U64, Ascii;
    var field, tensor := Field([97], 4, Scalar([7, 0, 0, 0])), Tensor([116], [2, 1], 0, 32);
    Letters();
    SmallNumbers(0);
    SmallNumbers(1);
    SmallNumbers(2);
    SmallNumbers(3);
    SmallNumbers(4);
    SmallNumbers(32);
    OneField(field);
    OneTensor(tensor);
    TwoNumbers(2, 1);
  }

  // A text, an array of two texts and an array of two UINT16 numbers.
  lemma PrintedBodies()
    ensures EmitBody(Text([97])) == [1, 0, 0, 0, 0, 0, 0, 0] + [97]
    ensures EmitBody(Array(8, [[97], [116]]))
         == [8, 0, 0, 0] + ([2, 0, 0, 0, 0, 0, 0, 0] + ([1, 0, 0, 0, 0, 0, 0, 0] + [97] + ([1, 0, 0, 0, 0, 0, 0, 0] + [116])))
    ensures EmitBody(Array(2, [[7, 1], [9, 0]])) == [2, 0, 0, 0] + ([2, 0, 0, 0, 0, 0, 0, 0] + ([7, 1] + [9, 0]))
  {
    hide U32, U64;
    SmallNumbers(1);
    SmallNumbers(2);
    SmallNumbers(8);
    TwoItems(8, [97], [116]);
    TwoItems(2, [7, 1], [9, 0]);
  }

  lemma TwoItems(element: nat, a: seq<Byte>, b: seq<Byte>)
    ensures EmitItems(element, [a, b]) == EmitItem(element, a) + EmitItem(element, b)
  {
    hide EmitItem;
    assert [a, b][1..] == [b] && [b][1..] == [];
    assert EmitItems(element, [b]) == EmitItem(element, b) + [] == EmitItem(element, b);
  }

  lemma OneField(field: Field)
    ensures EmitFields([field]) == EmitField(field)
  {
    hide EmitField;
    assert [field][1..] == [];
    assert EmitField(field) + [] == EmitField(field);
  }

  lemma OneTensor(tensor: Tensor)
    ensures EmitTensors([tensor]) == EmitTensor(tensor)
  {
    hide EmitTensor;
    assert [tensor][1..] == [];
    assert EmitTensor(tensor) + [] == EmitTensor(tensor);
  }

  lemma TwoNumbers(a: nat, b: nat)
    ensures EmitNumbers([a, b]) == U64(a) + U64(b)
  {
    hide U64;
    assert [a, b][1..] == [b] && [b][1..] == [];
    assert EmitNumbers([b]) == U64(b) + [] == U64(b);
  }
}
