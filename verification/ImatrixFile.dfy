// Which files are importance matrices of a recipe.
module ImatrixFile {
  import opened Bytes
  import opened Collections
  import opened GgufGrammar
  import opened GgufReader
  import opened GgufCapture
  import opened Intervals
  import opened Imatrix

  // ---------------------------------------------------------------- the four fields

  ghost function FourKeys(): set<seq<Byte>>
  {
    {Ascii("general.type"), Ascii("imatrix.datasets"), Ascii("imatrix.chunk_count"), Ascii("imatrix.chunk_size")}
  }

  lemma FourKeysDiffer()
    ensures |Ascii("general.type")| == 12 && |Ascii("imatrix.datasets")| == 16
    ensures |Ascii("imatrix.chunk_count")| == 19 && |Ascii("imatrix.chunk_size")| == 18
    ensures |Ascii("general.alignment")| == 17
  {
  }

  // The fields of a header are the four of the recipe: text "imatrix", a list with the one corpus name, and
  // the two numbers.
  ghost predicate RecipeField(field: Field, recipe: Recipe)
  {
    || (field.key == Ascii("general.type") && field.kind == 8 && field.body == Text(Ascii("imatrix")))
    || (field.key == Ascii("imatrix.datasets") && field.kind == 9 && field.body == Array(8, [recipe.corpus]))
    || (field.key == Ascii("imatrix.chunk_count") && field.kind == 4 && field.body.Scalar?
        && Little(field.body.bits) == recipe.chunks)
    || (field.key == Ascii("imatrix.chunk_size") && field.kind == 4 && field.body.Scalar?
        && Little(field.body.bits) == recipe.tokens)
  }

  ghost predicate RecipeFields(fields: seq<Field>, recipe: Recipe)
  {
    && (forall i | 0 <= i < |fields| :: RecipeField(fields[i], recipe))
    && forall key | key in FourKeys() :: HasKey(fields, key)
  }

  ghost predicate HasKey(fields: seq<Field>, key: seq<Byte>) { exists i | 0 <= i < |fields| :: fields[i].key == key }

  ghost function Required(key: seq<Byte>, recipe: Recipe): Entry
  {
    if key == TYPE_KEY then Entry(TEXT_KIND, None, String(Ascii("imatrix")))
    else if key == DATASETS_KEY then Entry(ARRAY_KIND, Some(TEXT_KIND), List([String(recipe.corpus)]))
    else if key == CHUNK_COUNT_KEY then Entry(4, None, Number(recipe.chunks))
    else Entry(4, None, Number(recipe.tokens))
  }

  lemma EntryIsField(field: Field, recipe: Recipe, known: set<seq<Byte>>)
    requires GoodField(CONVERTER_RULES, field, known)
    ensures RecipeField(field, recipe) <==> field.key in IMATRIX_KEYS && EntryOf(field) == Required(field.key, recipe)
  {
    hide Ascii, GoodText, Little;
    FourKeysDiffer();
    if field.body.Array? { ItemsAre(field.body.element, field.body.items, recipe.corpus); }
  }

  lemma ItemsAre(element: nat, items: seq<seq<Byte>>, corpus: seq<Byte>)
    ensures element == 8 ==> (DecodeItems(element, items) == [String(corpus)] <==> items == [corpus])
  {
    if element == 8 && DecodeItems(element, items) == [String(corpus)] {
      assert DecodeItems(element, items)[0] == String(corpus);
    }
  }

  lemma MetadataExact(h: Header, c: Contract, recipe: Recipe, known: set<seq<Byte>>)
    requires GoodFields(CONVERTER_RULES, h.fields, known) && Distinct(KeysOf(h.fields))
    requires c.metadata == Selected(h.fields, IMATRIX_KEYS + {ALIGNMENT_KEY}) && c.metadataKeys == KeySet(h.fields)
    requires c.version == h.version
    ensures MetadataOk(c, recipe) <==> h.version == 3 && RecipeFields(h.fields, recipe)
  {
    hide Ascii, Selected, GoodField, EntryOf, RecipeField, MetadataOk, Distinct, Required, Requires;
    RequiredExact(c, recipe);
    assert FourKeys() == IMATRIX_KEYS;
    SelectedMeaning(h.fields, IMATRIX_KEYS + {ALIGNMENT_KEY});
    assert forall key :: key in KeySet(h.fields) <==> HasKey(h.fields, key);
    if h.version == 3 && RecipeFields(h.fields, recipe) { RecipeRequired(h.fields, c, recipe, known); }
    if MetadataOk(c, recipe) { RequiredRecipe(h.fields, c, recipe, known); }
  }

  lemma RecipeRequired(fields: seq<Field>, c: Contract, recipe: Recipe, known: set<seq<Byte>>)
    requires GoodFields(CONVERTER_RULES, fields, known) && Distinct(KeysOf(fields))
    requires c.metadata == Selected(fields, IMATRIX_KEYS + {ALIGNMENT_KEY}) && RecipeFields(fields, recipe)
    ensures forall key | key in IMATRIX_KEYS :: Requires(c.metadata, key, Required(key, recipe))
    ensures forall i | 0 <= i < |fields| :: fields[i].key in IMATRIX_KEYS
  {
    hide Ascii, Selected, GoodField, EntryOf, RecipeField, Distinct, Required;
    SelectedMeaning(fields, IMATRIX_KEYS + {ALIGNMENT_KEY});
    forall i | 0 <= i < |fields| ensures fields[i].key in IMATRIX_KEYS && EntryOf(fields[i]) == Required(fields[i].key, recipe) {
      EntryIsField(fields[i], recipe, known);
    }
    forall key | key in IMATRIX_KEYS ensures Requires(c.metadata, key, Required(key, recipe)) {
      assert key in FourKeys();
      assert HasKey(fields, key);
    }
  }

  lemma RequiredRecipe(fields: seq<Field>, c: Contract, recipe: Recipe, known: set<seq<Byte>>)
    requires GoodFields(CONVERTER_RULES, fields, known) && Distinct(KeysOf(fields))
    requires c.metadata == Selected(fields, IMATRIX_KEYS + {ALIGNMENT_KEY})
    requires KeySet(fields) == IMATRIX_KEYS
    requires forall key | key in IMATRIX_KEYS :: Requires(c.metadata, key, Required(key, recipe))
    ensures forall i | 0 <= i < |fields| :: RecipeField(fields[i], recipe)
  {
    hide Ascii, Selected, GoodField, EntryOf, RecipeField, Distinct, Required;
    SelectedMeaning(fields, IMATRIX_KEYS + {ALIGNMENT_KEY});
    forall i | 0 <= i < |fields| ensures RecipeField(fields[i], recipe) {
      assert fields[i].key in KeySet(fields);
      assert Requires(c.metadata, fields[i].key, Required(fields[i].key, recipe));
      EntryIsField(fields[i], recipe, known);
    }
  }

  lemma RequiredExact(c: Contract, recipe: Recipe)
    ensures MetadataOk(c, recipe)
       <==> c.version == 3 && c.metadataKeys == IMATRIX_KEYS
            && forall key | key in IMATRIX_KEYS :: Requires(c.metadata, key, Required(key, recipe))
  {
    hide Ascii;
    FourKeysDiffer();
  }

  // ---------------------------------------------------------------- names and shapes

  // The two names of an entry.
  ghost predicate SumsName(name: seq<Byte>, base: seq<Byte>) { name == base + Ascii(".in_sum2") }
  ghost predicate CountsName(name: seq<Byte>, base: seq<Byte>) { name == base + Ascii(".counts") }

  lemma NameExact(name: seq<Byte>, base: seq<Byte>)
    ensures SlotOf(name) == Some(Slot(base, Sums)) <==> SumsName(name, base)
    ensures SlotOf(name) == Some(Slot(base, Counts)) <==> CountsName(name, base)
  {
    SuffixEnds();
    hide Ascii;
    if SumsName(name, base) { assert name[|base|..] == SUMS_SUFFIX && name[..|base|] == base; }
    if CountsName(name, base) {
      assert name[|base|..] == COUNTS_SUFFIX && name[..|base|] == base;
      assert name[|name| - 1] == COUNTS_SUFFIX[6];
      LastByte(name);
    }
    if SlotOf(name).Some? { SlotJoins(name); }
  }

  lemma LastByte(name: seq<Byte>)
    ensures EndsWith(name, SUMS_SUFFIX) ==> name[|name| - 1] == 50
  {
    SuffixEnds();
    hide Ascii;
    if EndsWith(name, SUMS_SUFFIX) { assert name[|name| - 1] == name[|name| - 8..][7]; }
  }

  lemma SuffixEnds()
    ensures |SUMS_SUFFIX| == 8 && |COUNTS_SUFFIX| == 7 && SUMS_SUFFIX[7] == 50 && COUNTS_SUFFIX[6] == 115
  {
  }

  // A vector with one count, or a matrix with one count for each of several experts; all 32-bit floats.
  ghost predicate ShapesMatch(sums: Tensor, counts: Tensor)
  {
    && sums.kind == 0 && counts.kind == 0
    && ((exists n :: sums.dimensions == [n] && counts.dimensions == [1])
        || (exists n, m :: m > 1 && sums.dimensions == [n, m] && counts.dimensions == [1, m]))
  }

  lemma ShapesExact(sums: Tensor, counts: Tensor)
    ensures PairShape(sums, counts) <==> ShapesMatch(sums, counts)
  {
    var d, e := sums.dimensions, counts.dimensions;
    if |d| == 1 { assert d == [d[0]]; }
    if |d| == 2 && |e| == 2 {
      assert d == [d[0], d[1]] && e == [e[0], e[1]];
      if e[0] == 1 && e[1] > 1 && d[1] == e[1] { assert e[1] > 1 && d == [d[0], e[1]] && e == [1, e[1]]; }
    }
  }

  // The number of values in a tensor of one or two dimensions.
  ghost function Size(t: Tensor): nat
  {
    if |t.dimensions| == 1 then t.dimensions[0] else if |t.dimensions| == 2 then t.dimensions[0] * t.dimensions[1] else 0
  }

  lemma SizeExact(t: Tensor)
    requires 1 <= |t.dimensions| <= 2
    ensures Elements(t.dimensions) == Size(t)
  {
    var d := t.dimensions;
    assert Elements(d[|d| - 1..]) == d[|d| - 1] * Elements([]);
    if |d| == 2 { assert d[1..] == [d[1]]; }
  }

  // ---------------------------------------------------------------- values and places

  // Value k of a tensor: a finite number, not negative for sums, positive and whole for counts.
  ghost predicate GoodValue(f: seq<Byte>, t: Tensor, dataStart: nat, k: nat, sums: bool, decode: Decoder)
    requires dataStart + t.offset + 4 * k + 4 <= |f|
  {
    var x := decode(f[dataStart + t.offset + 4 * k..dataStart + t.offset + 4 * k + 4]);
    x.Finite? && if sums then x.v >= 0.0 else x.v > 0.0 && x.v.Floor as real == x.v
  }

  // The data is aligned, inside the file, and all of its values are good.
  ghost predicate Placed(f: seq<Byte>, t: Tensor, dataStart: nat, sums: bool, decode: Decoder)
  {
    && t.offset % 32 == 0 && dataStart + t.offset + 4 * Size(t) <= |f|
    && forall k: nat | k < Size(t) :: GoodValue(f, t, dataStart, k, sums, decode)
  }

  lemma DataValue(f: seq<Byte>, c: Contract, t: Tensor, decode: Decoder)
    requires 1 <= |t.dimensions| <= 2 && c.fileBytes == |f| && RangeOf(c.dataStart, t).1 <= c.fileBytes
    ensures |DataOf(f, c, t, decode)| == Size(t)
    ensures forall k: nat | k < Size(t) ::
              DataOf(f, c, t, decode)[k] == decode(f[c.dataStart + t.offset + 4 * k..c.dataStart + t.offset + 4 * k + 4])
  {
    hide Elements;
    SizeExact(t);
    var (a, b) := RangeOf(c.dataStart, t);
    forall k: nat | k < Size(t)
      ensures DataOf(f, c, t, decode)[k] == decode(f[c.dataStart + t.offset + 4 * k..c.dataStart + t.offset + 4 * k + 4])
    {
      SliceOfSlice(f, a, b, 4 * k, 4 * k + 4);
    }
  }

  lemma PlacedExact(f: seq<Byte>, c: Contract, part: Part, t: Tensor, decode: Decoder)
    requires 1 <= |t.dimensions| <= 2 && c.fileBytes == |f| && c.alignment == 32
    ensures DataOk(f, c, part, t, decode) <==> Placed(f, t, c.dataStart, part == Sums, decode)
  {
    hide Elements, DataOf;
    SizeExact(t);
    if RangeOf(c.dataStart, t).1 <= c.fileBytes {
      DataValue(f, c, t, decode);
      var values, sums := DataOf(f, c, t, decode), part == Sums;
      if ValuesOk(part, values) {
        forall k: nat | k < Size(t) ensures GoodValue(f, t, c.dataStart, k, sums, decode) {
          assert if part == Sums then ValidSum(values[k]) else ValidCount(values[k]);
        }
      }
      if Placed(f, t, c.dataStart, sums, decode) {
        forall i | 0 <= i < |values| ensures if part == Sums then ValidSum(values[i]) else ValidCount(values[i]) {
          assert GoodValue(f, t, c.dataStart, i, sums, decode);
        }
      }
    }
  }

  lemma PairExact(f: seq<Byte>, c: Contract, sums: Tensor, counts: Tensor, decode: Decoder)
    requires c.fileBytes == |f| && c.alignment == 32
    ensures PairOk(f, c, sums, counts, decode)
       <==> ShapesMatch(sums, counts) && Placed(f, sums, c.dataStart, true, decode) && Placed(f, counts, c.dataStart, false, decode)
  {
    hide DataOk, Placed;
    ShapesExact(sums, counts);
    if PairShape(sums, counts) {
      PlacedExact(f, c, Sums, sums, decode);
      PlacedExact(f, c, Counts, counts, decode);
    }
  }

  // ---------------------------------------------------------------- the table

  ghost predicate Both(sums: Tensor, counts: Tensor, base: seq<Byte>)
  {
    SumsName(sums.name, base) && CountsName(counts.name, base)
  }

  ghost predicate Fellows(a: Tensor, b: Tensor, base: seq<Byte>) { Both(a, b, base) || Both(b, a, base) }

  // Every tensor is the sums or the counts of an entry that has both.
  ghost predicate AllNamed(tensors: seq<Tensor>)
  {
    forall i | 0 <= i < |tensors| :: HasFellow(tensors, i)
  }

  ghost predicate HasFellow(tensors: seq<Tensor>, i: nat)
    requires i < |tensors|
  {
    exists base, j :: 0 <= j < |tensors| && Fellows(tensors[i], tensors[j], base)
  }

  lemma PairedNamed(tensors: seq<Tensor>)
    requires Paired(tensors)
    ensures AllNamed(tensors)
  {
    hide SlotOf, SumsName, CountsName, Paired;
    forall i | 0 <= i < |tensors| ensures HasFellow(tensors, i) {
      var j := PartnerIndex(tensors, i);
      var base := SlotOf(tensors[i].name).value.base;
      NameExact(tensors[i].name, base);
      NameExact(tensors[j].name, base);
      assert Fellows(tensors[i], tensors[j], base);
    }
  }

  lemma FellowOf(tensors: seq<Tensor>, i: nat) returns (base: seq<Byte>, j: nat)
    requires AllNamed(tensors) && i < |tensors|
    ensures j < |tensors| && Fellows(tensors[i], tensors[j], base)
  {
    hide Fellows;
    assert HasFellow(tensors, i);
    base, j :| 0 <= j < |tensors| && Fellows(tensors[i], tensors[j], base);
  }

  lemma NamedPaired(tensors: seq<Tensor>)
    requires AllNamed(tensors)
    ensures Paired(tensors)
  {
    hide SlotOf, SumsName, CountsName, AllNamed;
    forall i | 0 <= i < |tensors|
      ensures SlotOf(tensors[i].name).Some? && HasSlot(tensors, Partner(SlotOf(tensors[i].name).value))
    {
      var base, j := FellowOf(tensors, i);
      NameExact(tensors[i].name, base);
      NameExact(tensors[j].name, base);
      assert SlotOf(tensors[j].name) == Some(Partner(SlotOf(tensors[i].name).value));
    }
  }

  ghost predicate EntriesFit(f: seq<Byte>, tensors: seq<Tensor>, dataStart: nat, decode: Decoder)
  {
    forall i, j, base | 0 <= i < |tensors| && 0 <= j < |tensors| && Both(tensors[i], tensors[j], base) ::
      && ShapesMatch(tensors[i], tensors[j])
      && Placed(f, tensors[i], dataStart, true, decode) && Placed(f, tensors[j], dataStart, false, decode)
  }

  lemma EntryFits(f: seq<Byte>, t: seq<Tensor>, dataStart: nat, decode: Decoder, i: nat, j: nat, base: seq<Byte>)
    requires EntriesFit(f, t, dataStart, decode) && i < |t| && j < |t| && Both(t[i], t[j], base)
    ensures 1 <= |t[i].dimensions| <= 2 && Placed(f, t[i], dataStart, true, decode)
    ensures 1 <= |t[j].dimensions| <= 2 && Placed(f, t[j], dataStart, false, decode)
  {
    hide Both, Placed;
    assert ShapesMatch(t[i], t[j]);
  }

  lemma EntriesExact(f: seq<Byte>, c: Contract, decode: Decoder)
    requires c.fileBytes == |f| && c.alignment == 32
    ensures MatchedPairsOk(f, c, decode) <==> EntriesFit(f, c.tensors, c.dataStart, decode)
  {
    hide SlotOf, SumsName, CountsName, PairOk, ShapesMatch, Placed;
    var t := c.tensors;
    forall name, base
      ensures SlotOf(name) == Some(Slot(base, Sums)) <==> SumsName(name, base)
      ensures SlotOf(name) == Some(Slot(base, Counts)) <==> CountsName(name, base)
    {
      NameExact(name, base);
    }
    forall i, j | 0 <= i < |t| && 0 <= j < |t|
      ensures PairOk(f, c, t[i], t[j], decode)
         <==> && ShapesMatch(t[i], t[j])
              && Placed(f, t[i], c.dataStart, true, decode) && Placed(f, t[j], c.dataStart, false, decode)
    {
      PairExact(f, c, t[i], t[j], decode);
    }
    if EntriesFit(f, t, c.dataStart, decode) {
      forall i, j | && 0 <= i < |t| && 0 <= j < |t| && SlotOf(t[i].name).Some? && SlotOf(t[i].name).value.part == Sums
                    && SlotOf(t[j].name) == Some(Partner(SlotOf(t[i].name).value))
        ensures PairOk(f, c, t[i], t[j], decode)
      {
        assert Both(t[i], t[j], SlotOf(t[i].name).value.base);
      }
    }
  }

  // v stands among the counts.
  ghost predicate Counted(f: seq<Byte>, tensors: seq<Tensor>, dataStart: nat, decode: Decoder, v: real)
  {
    exists i, base, k: nat ::
      && 0 <= i < |tensors| && CountsName(tensors[i].name, base) && k < Size(tensors[i])
      && ValueIs(f, tensors[i], dataStart, k, decode, v)
  }

  ghost predicate ValueIs(f: seq<Byte>, t: Tensor, dataStart: nat, k: nat, decode: Decoder, v: real)
  {
    var a := dataStart + t.offset + 4 * k;
    a + 4 <= |f| && decode(f[a..a + 4]) == Finite(v)
  }

  // The whole number of chunks in the largest count is that of the recipe.
  ghost predicate ChunksFit(f: seq<Byte>, tensors: seq<Tensor>, dataStart: nat, recipe: Recipe, decode: Decoder)
    requires recipe.tokens > 0
  {
    exists m ::
      && Counted(f, tensors, dataStart, decode, m) && (forall v | Counted(f, tensors, dataStart, decode, v) :: v <= m)
      && m.Floor / recipe.tokens == recipe.chunks
  }

  lemma CountsFitEntries(f: seq<Byte>, c: Contract, decode: Decoder, i: nat, base: seq<Byte>)
    requires AllNamed(c.tensors) && EntriesFit(f, c.tensors, c.dataStart, decode)
    requires i < |c.tensors| && CountsName(c.tensors[i].name, base)
    ensures 1 <= |c.tensors[i].dimensions| <= 2 && Placed(f, c.tensors[i], c.dataStart, false, decode)
  {
    hide Placed, SumsName, CountsName, AllNamed, EntriesFit, SlotOf;
    var t := c.tensors;
    var base', j := FellowOf(t, i);
    NameExact(t[i].name, base);
    NameExact(t[i].name, base');
    assert Both(t[j], t[i], base');
    EntryFits(f, t, c.dataStart, decode, j, i, base');
  }

  lemma CountedExact(f: seq<Byte>, c: Contract, decode: Decoder, v: real)
    requires c.fileBytes == |f| && AllNamed(c.tensors) && EntriesFit(f, c.tensors, c.dataStart, decode)
    ensures HasCount(f, c, decode, v) <==> Counted(f, c.tensors, c.dataStart, decode, v)
  {
    hide SlotOf, CountsName, AllNamed, EntriesFit, DataOf, Elements, Reals, Size, ValueIs;
    var t := c.tensors;
    forall i, base | 0 <= i < |t| ensures SlotOf(t[i].name) == Some(Slot(base, Counts)) <==> CountsName(t[i].name, base) {
      NameExact(t[i].name, base);
    }
    forall i, base | 0 <= i < |t| && CountsName(t[i].name, base)
      ensures v in Reals(DataOf(f, c, t[i], decode))
         <==> exists k: nat :: k < Size(t[i]) && ValueIs(f, t[i], c.dataStart, k, decode, v)
    {
      CountsFitEntries(f, c, decode, i, base);
      RealsExact(f, c, t[i], decode, v);
    }
    if HasCount(f, c, decode, v) {
      var i :| && 0 <= i < |t| && SlotOf(t[i].name).Some? && SlotOf(t[i].name).value.part == Counts
               && v in Reals(DataOf(f, c, t[i], decode));
      var base := SlotOf(t[i].name).value.base;
      assert CountsName(t[i].name, base);
      var k: nat :| k < Size(t[i]) && ValueIs(f, t[i], c.dataStart, k, decode, v);
    }
    if Counted(f, t, c.dataStart, decode, v) {
      var i, base, k: nat :| && 0 <= i < |t| && CountsName(t[i].name, base) && k < Size(t[i])
                             && ValueIs(f, t[i], c.dataStart, k, decode, v);
      assert SlotOf(t[i].name) == Some(Slot(base, Counts));
      assert v in Reals(DataOf(f, c, t[i], decode));
    }
  }

  lemma RealsExact(f: seq<Byte>, c: Contract, t: Tensor, decode: Decoder, v: real)
    requires c.fileBytes == |f| && 1 <= |t.dimensions| <= 2 && Placed(f, t, c.dataStart, false, decode)
    ensures v in Reals(DataOf(f, c, t, decode))
       <==> exists k: nat :: k < Size(t) && ValueIs(f, t, c.dataStart, k, decode, v)
  {
    hide Elements, DataOf;
    SizeExact(t);
    DataValue(f, c, t, decode);
    var values := DataOf(f, c, t, decode);
    forall k: nat | k < Size(t) ensures values[k].Finite? {
      assert GoodValue(f, t, c.dataStart, k, false, decode);
    }
    if v in Reals(values) {
      var k: nat :| k < |values| && Reals(values)[k] == v;
      assert ValueIs(f, t, c.dataStart, k, decode, v);
    }
    if k: nat :| k < Size(t) && ValueIs(f, t, c.dataStart, k, decode, v) { assert Reals(values)[k] == v; }
  }

  // No byte of the file belongs to two tensors.
  ghost predicate NoSharedByte(tensors: seq<Tensor>, dataStart: nat)
  {
    forall i, j, p | 0 <= i < j < |tensors| && Owns(tensors[i], dataStart, p) :: !Owns(tensors[j], dataStart, p)
  }

  ghost predicate Owns(t: Tensor, dataStart: nat, p: int)
  {
    dataStart + t.offset <= p < dataStart + t.offset + 4 * Size(t)
  }

  lemma ApartExact(f: seq<Byte>, c: Contract)
    requires Read(f, c) && forall i | 0 <= i < |c.tensors| :: 1 <= |c.tensors[i].dimensions| <= 2
    ensures Disjoint(RangesOf(c.dataStart, c.tensors)) <==> NoSharedByte(c.tensors, c.dataStart)
  {
    hide Elements, Size;
    var t, r := c.tensors, RangesOf(c.dataStart, c.tensors);
    forall i | 0 <= i < |t|
      ensures r[i] == (c.dataStart + t[i].offset, c.dataStart + t[i].offset + 4 * Size(t[i])) && Size(t[i]) >= 1
    {
      SizeExact(t[i]);
    }
    if NoSharedByte(t, c.dataStart) {
      forall i, j | 0 <= i < j < |r| ensures Apart(r[i], r[j]) {
        assert Owns(t[i], c.dataStart, r[i].0) && Owns(t[j], c.dataStart, r[j].0);
        if !Apart(r[i], r[j]) { Common(t[i], t[j], c.dataStart); }
      }
    }
    if Disjoint(r) {
      forall i, j, p | 0 <= i < j < |t| && Owns(t[i], c.dataStart, p) ensures !Owns(t[j], c.dataStart, p) {
        assert Apart(r[i], r[j]);
      }
    }
  }

  lemma Common(a: Tensor, b: Tensor, dataStart: nat)
    requires Size(a) >= 1 && Size(b) >= 1
    requires a.offset < b.offset + 4 * Size(b) && b.offset < a.offset + 4 * Size(a)
    ensures exists p :: Owns(a, dataStart, p) && Owns(b, dataStart, p)
  {
    hide Size;
    var p := dataStart + if a.offset < b.offset then b.offset else a.offset;
    assert Owns(a, dataStart, p) && Owns(b, dataStart, p);
  }

  ghost predicate Table(f: seq<Byte>, tensors: seq<Tensor>, dataStart: nat, recipe: Recipe, decode: Decoder)
    requires recipe.tokens > 0
  {
    && tensors != [] && AllNamed(tensors) && EntriesFit(f, tensors, dataStart, decode)
    && ChunksFit(f, tensors, dataStart, recipe, decode) && NoSharedByte(tensors, dataStart)
  }

  lemma TableExact(f: seq<Byte>, c: Contract, recipe: Recipe, decode: Decoder)
    requires recipe.tokens > 0 && Read(f, c) && c.alignment == 32
    ensures LayoutOk(f, c, recipe, decode) <==> Table(f, c.tensors, c.dataStart, recipe, decode)
  {
    hide Paired, AllNamed, MatchedPairsOk, EntriesFit, HasCount, Counted, Disjoint, NoSharedByte, Distinct, Elements, RangesOf;
    if Paired(c.tensors) { PairedNamed(c.tensors); }
    if AllNamed(c.tensors) { NamedPaired(c.tensors); }
    EntriesExact(f, c, decode);
    if AllNamed(c.tensors) && EntriesFit(f, c.tensors, c.dataStart, decode) {
      forall v ensures HasCount(f, c, decode, v) <==> Counted(f, c.tensors, c.dataStart, decode, v) {
        CountedExact(f, c, decode, v);
      }
      forall i | 0 <= i < |c.tensors| ensures 1 <= |c.tensors[i].dimensions| <= 2 {
        FewDimensions(f, c.tensors, c.dataStart, decode, i);
      }
      ApartExact(f, c);
      LargestExact(f, c, recipe, decode);
    }
  }

  lemma FewDimensions(f: seq<Byte>, t: seq<Tensor>, dataStart: nat, decode: Decoder, i: nat)
    requires AllNamed(t) && EntriesFit(f, t, dataStart, decode) && i < |t|
    ensures 1 <= |t[i].dimensions| <= 2
  {
    hide Both, Placed, AllNamed, EntriesFit;
    var base, j := FellowOf(t, i);
    if Both(t[i], t[j], base) {
      EntryFits(f, t, dataStart, decode, i, j, base);
    } else {
      EntryFits(f, t, dataStart, decode, j, i, base);
    }
  }

  lemma LargestExact(f: seq<Byte>, c: Contract, recipe: Recipe, decode: Decoder)
    requires recipe.tokens > 0
    requires forall v :: HasCount(f, c, decode, v) <==> Counted(f, c.tensors, c.dataStart, decode, v)
    ensures (exists m :: LargestCount(f, c, decode, m) && m.Floor / recipe.tokens == recipe.chunks)
       <==> ChunksFit(f, c.tensors, c.dataStart, recipe, decode)
  {
    hide HasCount, Counted;
    if m :| LargestCount(f, c, decode, m) && m.Floor / recipe.tokens == recipe.chunks {
      assert Counted(f, c.tensors, c.dataStart, decode, m);
    }
    if ChunksFit(f, c.tensors, c.dataStart, recipe, decode) {
      var m :| && Counted(f, c.tensors, c.dataStart, decode, m)
               && (forall v | Counted(f, c.tensors, c.dataStart, decode, v) :: v <= m)
               && m.Floor / recipe.tokens == recipe.chunks;
      assert LargestCount(f, c, decode, m);
    }
  }

  // ---------------------------------------------------------------- the whole file

  // A file of the recipe: it begins with a printed header of version 3 whose fields are the four of the
  // recipe, the data starts at the next multiple of 32, and the tensors make up the table.
  ghost predicate RecipeFile(f: seq<Byte>, h: Header, dataStart: nat, recipe: Recipe, decode: Decoder)
    requires recipe.tokens > 0
  {
    && Derives(f, h, FourKeys() + {Ascii("general.alignment")}) && h.version == 3 && RecipeFields(h.fields, recipe)
    && Starts(|h.Emit()|, 32, dataStart) && dataStart <= |f|
    && Table(f, h.tensors, dataStart, recipe, decode)
  }

  ghost predicate Validates(f: seq<Byte>, recipe: Recipe, decode: Decoder)
    requires recipe.tokens > 0
  {
    var parsed := ContractOf(f, IMATRIX_KEYS, true);
    && parsed.Some? && parsed.value.alignment > 0
    && MetadataOk(parsed.value, recipe) && LayoutOk(f, parsed.value, recipe, decode)
  }

  // No recipe header declares an alignment.
  lemma RecipeAligned(fields: seq<Field>, recipe: Recipe, alignment: nat)
    requires RecipeFields(fields, recipe)
    ensures AlignedTo(fields, alignment) <==> alignment == 32
  {
    hide Ascii;
    FourKeysDiffer();
    forall i | 0 <= i < |fields| ensures fields[i].key != Ascii("general.alignment") {
      assert RecipeField(fields[i], recipe);
    }
  }

  // The tensors of a table start inside the file, at multiples of 32.
  lemma TableStarts(f: seq<Byte>, t: seq<Tensor>, dataStart: nat, decode: Decoder, i: nat)
    requires AllNamed(t) && EntriesFit(f, t, dataStart, decode) && i < |t| && Elements(t[i].dimensions) >= 1
    ensures t[i].offset % 32 == 0 && dataStart + t[i].offset < |f|
  {
    hide Both, Elements, AllNamed, EntriesFit;
    FewDimensions(f, t, dataStart, decode, i);
    SizeExact(t[i]);
    var base, j := FellowOf(t, i);
    if Both(t[i], t[j], base) {
      EntryFits(f, t, dataStart, decode, i, j, base);
    } else {
      EntryFits(f, t, dataStart, decode, j, i, base);
    }
  }

  lemma ElementsOf(f: seq<Byte>, h: Header, wanted: set<seq<Byte>>, i: nat)
    requires Derives(f, h, wanted) && i < |h.tensors|
    ensures Elements(h.tensors[i].dimensions) >= 1
  {
    hide Elements;
    assert GoodTensor(CONVERTER_RULES, h.tensors[i]);
    ElementsPositive(h.tensors[i].dimensions);
  }

  lemma ValidatedIsRecipe(f: seq<Byte>, recipe: Recipe, decode: Decoder) returns (h: Header, dataStart: nat)
    requires recipe.tokens > 0 && Validates(f, recipe, decode)
    ensures RecipeFile(f, h, dataStart, recipe, decode)
  {
    hide PowerOfTwo, BitAnd, Selected, Ascii, RoundUp, Declares, AlignmentOf, AlignedTo, TakeHeader, Derives, Distinct,
         Header.Emit, GoodFields, KeySet, MetadataOk, LayoutOk, Table, RecipeFields, ContractOf, OffsetsFit;
    var c := ContractOf(f, IMATRIX_KEYS, true).value;
    ContractExact(f, IMATRIX_KEYS, true);
    var a: nat;
    h, a :| Accepts(f, h, IMATRIX_KEYS, a);
    dataStart := c.dataStart;
    assert FourKeys() == IMATRIX_KEYS && ALIGNMENT_KEY == Ascii("general.alignment");
    GoodHeader(f, h, IMATRIX_KEYS + {ALIGNMENT_KEY});
    MetadataExact(h, c, recipe, IMATRIX_KEYS + {ALIGNMENT_KEY});
    AlignedExact(h, a);
    RecipeAligned(h.fields, recipe, a);
    RoundUpLeast(|h.Emit()|, a, 0);
    ContractRead(f, IMATRIX_KEYS);
    TableExact(f, c, recipe, decode);
  }

  lemma RecipeIsValidated(f: seq<Byte>, h: Header, dataStart: nat, recipe: Recipe, decode: Decoder)
    requires recipe.tokens > 0 && RecipeFile(f, h, dataStart, recipe, decode)
    ensures Validates(f, recipe, decode)
  {
    hide PowerOfTwo, BitAnd, Selected, Ascii, RoundUp, Declares, AlignmentOf, AlignedTo, TakeHeader, Derives, Distinct,
         Header.Emit, GoodFields, KeySet, MetadataOk, LayoutOk, RecipeFields, ContractOf, AllNamed, EntriesFit, ChunksFit,
         NoSharedByte, Elements;
    assert FourKeys() == IMATRIX_KEYS && ALIGNMENT_KEY == Ascii("general.alignment");
    var known := IMATRIX_KEYS + {ALIGNMENT_KEY};
    RecipeAligned(h.fields, recipe, 32);
    AlignedExact(h, 32);
    StartUnique(|h.Emit()|, 32, dataStart);
    forall i | 0 <= i < |h.tensors| ensures h.tensors[i].offset % 32 == 0 && dataStart + h.tensors[i].offset < |f| {
      ElementsOf(f, h, known, i);
      TableStarts(f, h.tensors, dataStart, decode, i);
    }
    ContractExact(f, IMATRIX_KEYS, true);
    assert Accepts(f, h, IMATRIX_KEYS, 32);
    var c := ContractOf(f, IMATRIX_KEYS, true).value;
    GoodHeader(f, h, known);
    MetadataExact(h, c, recipe, known);
    ContractRead(f, IMATRIX_KEYS);
    TableExact(f, c, recipe, decode);
  }

  // The validator accepts exactly the files of the recipe.
  lemma AcceptedExact(f: seq<Byte>, recipe: Recipe, decode: Decoder)
    requires recipe.tokens > 0
    ensures Validates(f, recipe, decode) <==> exists h, dataStart :: RecipeFile(f, h, dataStart, recipe, decode)
  {
    hide Validates, RecipeFile;
    if Validates(f, recipe, decode) { var h, dataStart := ValidatedIsRecipe(f, recipe, decode); }
    if h, dataStart :| RecipeFile(f, h, dataStart, recipe, decode) { RecipeIsValidated(f, h, dataStart, recipe, decode); }
  }
}
