// The importance-matrix validator: tensor pairs, shapes, values and layout.
module Imatrix {
  import opened Bytes
  import opened Collections
  import opened Ordering
  import opened Intervals
  import opened GgufGrammar
  import opened GgufReader
  import opened GgufCursor

  // ---------------------------------------------------------------- names

  datatype Part = Sums | Counts
  datatype Slot = Slot(base: seq<Byte>, part: Part)

  const SUMS_SUFFIX: seq<Byte> := Ascii(".in_sum2")
  const COUNTS_SUFFIX: seq<Byte> := Ascii(".counts")

  predicate EndsWith(name: seq<Byte>, suffix: seq<Byte>)
  {
    |suffix| <= |name| && name[|name| - |suffix|..] == suffix
  }

  function SlotOf(name: seq<Byte>): Option<Slot>
  {
    if EndsWith(name, SUMS_SUFFIX) then Some(Slot(name[..|name| - |SUMS_SUFFIX|], Sums))
    else if EndsWith(name, COUNTS_SUFFIX) then Some(Slot(name[..|name| - |COUNTS_SUFFIX|], Counts))
    else None
  }

  lemma SlotJoins(name: seq<Byte>)
    requires SlotOf(name).Some?
    ensures name == SlotOf(name).value.base + if SlotOf(name).value.part == Sums then SUMS_SUFFIX else COUNTS_SUFFIX
  {
    hide Ascii;
    var n := |SlotOf(name).value.base|;
    assert name == name[..n] + name[n..];
  }

  lemma SlotInjective(a: seq<Byte>, b: seq<Byte>)
    requires SlotOf(a).Some? && SlotOf(a) == SlotOf(b)
    ensures a == b
  {
    hide SlotOf;
    SlotJoins(a);
    SlotJoins(b);
  }

  ghost predicate Slotted(tensors: seq<Tensor>)
  {
    forall i | 0 <= i < |tensors| :: SlotOf(tensors[i].name).Some?
  }

  // ---------------------------------------------------------------- grouping into pairs

  // The base names in order of first appearance, and the tensor in each slot.
  function Bases(tensors: seq<Tensor>): seq<seq<Byte>>
  {
    if tensors == [] then [] else
    var last := tensors[|tensors| - 1];
    var before := Bases(tensors[..|tensors| - 1]);
    if SlotOf(last.name).Some? && SlotOf(last.name).value.base !in before
    then before + [SlotOf(last.name).value.base] else before
  }

  function Cells(tensors: seq<Tensor>): map<Slot, Tensor>
  {
    if tensors == [] then map[] else
    var last := tensors[|tensors| - 1];
    var before := Cells(tensors[..|tensors| - 1]);
    if SlotOf(last.name).Some? then before[SlotOf(last.name).value := last] else before
  }

  lemma {:induction false} BasesMeaning(tensors: seq<Tensor>)
    requires Slotted(tensors)
    ensures Distinct(Bases(tensors))
    ensures forall i | 0 <= i < |tensors| :: SlotOf(tensors[i].name).value.base in Bases(tensors)
    ensures forall b | b in Bases(tensors) :: HasBase(tensors, b)
  {
    hide SlotOf, HasBase;
    if tensors != [] {
      var n := |tensors| - 1;
      BasesMeaning(tensors[..n]);
      forall b | b in Bases(tensors) ensures HasBase(tensors, b) {
        BaseLater(tensors, b);
      }
    }
  }

  ghost predicate HasBase(tensors: seq<Tensor>, b: seq<Byte>)
    requires Slotted(tensors)
  {
    exists i | 0 <= i < |tensors| :: SlotOf(tensors[i].name).value.base == b
  }

  lemma BaseLater(tensors: seq<Tensor>, b: seq<Byte>)
    requires tensors != [] && Slotted(tensors)
    requires HasBase(tensors[..|tensors| - 1], b) || SlotOf(tensors[|tensors| - 1].name).value.base == b
    ensures HasBase(tensors, b)
  {
    hide SlotOf;
    var before := tensors[..|tensors| - 1];
    if HasBase(before, b) {
      var i :| 0 <= i < |before| && SlotOf(before[i].name).value.base == b;
      assert before[i] == tensors[i];
    }
  }

  lemma {:induction false} CellsMeaning(tensors: seq<Tensor>)
    requires Slotted(tensors) && Distinct(NamesOf(tensors))
    ensures forall i | 0 <= i < |tensors| ::
              SlotOf(tensors[i].name).value in Cells(tensors) &&
              Cells(tensors)[SlotOf(tensors[i].name).value] == tensors[i]
    ensures forall slot | slot in Cells(tensors) :: HasCell(tensors, slot, Cells(tensors)[slot])
  {
    hide SlotOf, HasCell;
    if tensors != [] {
      var n := |tensors| - 1;
      var before := tensors[..n];
      assert forall i | 0 <= i < n :: NamesOf(before)[i] == NamesOf(tensors)[i] == before[i].name;
      CellsMeaning(before);
      forall i | 0 <= i < n ensures SlotOf(tensors[i].name) != SlotOf(tensors[n].name) {
        assert NamesOf(tensors)[i] != NamesOf(tensors)[n];
        if SlotOf(tensors[i].name) == SlotOf(tensors[n].name) {
          SlotInjective(tensors[i].name, tensors[n].name);
        }
      }
      forall slot | slot in Cells(tensors) ensures HasCell(tensors, slot, Cells(tensors)[slot]) {
        CellLater(tensors, slot, Cells(tensors)[slot]);
      }
    }
  }

  // The tensor is one of the list, and its name has this slot.
  ghost predicate HasCell(tensors: seq<Tensor>, slot: Slot, tensor: Tensor)
  {
    exists i | 0 <= i < |tensors| :: tensors[i] == tensor && SlotOf(tensors[i].name) == Some(slot)
  }

  lemma CellLater(tensors: seq<Tensor>, slot: Slot, tensor: Tensor)
    requires tensors != []
    requires HasCell(tensors[..|tensors| - 1], slot, tensor)
          || (tensors[|tensors| - 1] == tensor && SlotOf(tensor.name) == Some(slot))
    ensures HasCell(tensors, slot, tensor)
  {
    hide SlotOf;
    var before := tensors[..|tensors| - 1];
    if HasCell(before, slot, tensor) {
      var i :| 0 <= i < |before| && before[i] == tensor && SlotOf(before[i].name) == Some(slot);
      assert tensors[i] == before[i];
    }
  }

  // How the last tensor changes the grouping.
  lemma GroupStep(tensors: seq<Tensor>)
    ensures tensors == [] ==> Bases(tensors) == [] && Cells(tensors) == map[]
    ensures tensors != [] ==>
              var last, before := tensors[|tensors| - 1], tensors[..|tensors| - 1];
              var slot := SlotOf(last.name);
              slot.Some? ==>
                && Bases(tensors) == Bases(before) + (if slot.value.base !in Bases(before) then [slot.value.base] else [])
                && Cells(tensors) == Cells(before)[slot.value := last]
  {
    hide SlotOf;
  }

  method GroupTensors(tensors: seq<Tensor>) returns (r: Option<(seq<seq<Byte>>, map<Slot, Tensor>)>)
    ensures r.Some? <==> Slotted(tensors)
    ensures r.Some? ==> r.value == (Bases(tensors), Cells(tensors))
  {
    hide SlotOf, Bases, Cells;
    GroupStep(tensors[..0]);
    var order: seq<seq<Byte>> := [];
    var cells: map<Slot, Tensor> := map[];
    for index := 0 to |tensors|
      invariant Slotted(tensors[..index])
      invariant order == Bases(tensors[..index]) && cells == Cells(tensors[..index])
    {
      assert tensors[..index + 1][..index] == tensors[..index];
      GroupStep(tensors[..index + 1]);
      var slot := SlotOf(tensors[index].name);
      if slot == None { return None; }
      if slot.value.base !in order { order := order + [slot.value.base]; }
      cells := cells[slot.value := tensors[index]];
    }
    assert tensors[..|tensors|] == tensors;
    r := Some((order, cells));
  }

  // ---------------------------------------------------------------- perfect matching

  // Every tensor has a partner with the same base name and the other suffix.
  ghost predicate Paired(tensors: seq<Tensor>)
  {
    && Slotted(tensors)
    && forall i | 0 <= i < |tensors| ::
         HasSlot(tensors, Partner(SlotOf(tensors[i].name).value))
  }

  ghost predicate HasSlot(tensors: seq<Tensor>, slot: Slot)
  {
    exists i | 0 <= i < |tensors| :: SlotOf(tensors[i].name) == Some(slot)
  }

  predicate Complete(order: seq<seq<Byte>>, cells: map<Slot, Tensor>)
  {
    forall b | b in order :: Slot(b, Sums) in cells && Slot(b, Counts) in cells
  }

  function Partner(slot: Slot): Slot
  {
    Slot(slot.base, if slot.part == Sums then Counts else Sums)
  }

  lemma SlotInCells(tensors: seq<Tensor>, slot: Slot)
    requires Slotted(tensors) && Distinct(NamesOf(tensors))
    ensures slot in Cells(tensors) <==> HasSlot(tensors, slot)
  {
    hide SlotOf, Cells;
    CellsMeaning(tensors);
  }

  lemma CompleteExact(tensors: seq<Tensor>)
    requires Slotted(tensors) && Distinct(NamesOf(tensors))
    ensures Complete(Bases(tensors), Cells(tensors)) <==> Paired(tensors)
  {
    hide SlotOf, Bases, Cells, HasSlot, Distinct;
    BasesMeaning(tensors);
    if Complete(Bases(tensors), Cells(tensors)) {
      forall i | 0 <= i < |tensors| ensures HasSlot(tensors, Partner(SlotOf(tensors[i].name).value)) {
        var slot := SlotOf(tensors[i].name).value;
        assert slot.base in Bases(tensors);
        SlotInCells(tensors, Partner(slot));
      }
    }
    if Paired(tensors) {
      forall b | b in Bases(tensors)
        ensures Slot(b, Sums) in Cells(tensors) && Slot(b, Counts) in Cells(tensors)
      {
        var i :| 0 <= i < |tensors| && SlotOf(tensors[i].name).value.base == b;
        var slot := SlotOf(tensors[i].name).value;
        assert HasSlot(tensors, Partner(slot));
        assert HasSlot(tensors, slot) by { HasOwnSlot(tensors, i); }
        SlotInCells(tensors, slot);
        SlotInCells(tensors, Partner(slot));
      }
    }
  }

  lemma HasOwnSlot(tensors: seq<Tensor>, i: nat)
    requires Slotted(tensors) && i < |tensors|
    ensures HasSlot(tensors, SlotOf(tensors[i].name).value)
  {
  }

  // The tensors pair by pair.
  function Listing(order: seq<seq<Byte>>, cells: map<Slot, Tensor>): (r: seq<Tensor>)
    requires Complete(order, cells)
    ensures |r| == 2 * |order|
  {
    if order == [] then [] else
    var b := order[|order| - 1];
    Listing(order[..|order| - 1], cells) + [cells[Slot(b, Sums)], cells[Slot(b, Counts)]]
  }

  lemma {:induction false} ListingAt(order: seq<seq<Byte>>, cells: map<Slot, Tensor>, i: nat)
    requires Complete(order, cells) && i < |order|
    ensures Listing(order, cells)[2 * i] == cells[Slot(order[i], Sums)]
    ensures Listing(order, cells)[2 * i + 1] == cells[Slot(order[i], Counts)]
  {
    if i < |order| - 1 { ListingAt(order[..|order| - 1], cells, i); }
  }

  // Where the tensor of a cell stands in the table.
  lemma CellAt(tensors: seq<Tensor>, slot: Slot) returns (i: nat)
    requires Slotted(tensors) && Distinct(NamesOf(tensors)) && slot in Cells(tensors)
    ensures i < |tensors| && tensors[i] == Cells(tensors)[slot] && SlotOf(tensors[i].name) == Some(slot)
  {
    hide SlotOf, Cells;
    CellsMeaning(tensors);
    i :| 0 <= i < |tensors| && tensors[i] == Cells(tensors)[slot] && SlotOf(tensors[i].name) == Some(slot);
  }

  lemma OwnCell(tensors: seq<Tensor>, i: nat)
    requires Slotted(tensors) && Distinct(NamesOf(tensors)) && i < |tensors|
    ensures var slot := SlotOf(tensors[i].name).value;
            slot in Cells(tensors) && Cells(tensors)[slot] == tensors[i]
  {
    hide SlotOf, Cells;
    CellsMeaning(tensors);
  }

  lemma ListingMember(tensors: seq<Tensor>, k: nat)
    requires Slotted(tensors) && Distinct(NamesOf(tensors))
    requires Complete(Bases(tensors), Cells(tensors)) && k < 2 * |Bases(tensors)|
    ensures var t := Listing(Bases(tensors), Cells(tensors))[k];
            && t in tensors
            && SlotOf(t.name) == Some(Slot(Bases(tensors)[k / 2], if k % 2 == 0 then Sums else Counts))
  {
    hide SlotOf, Bases, Cells, Listing, Distinct, NamesOf, Slotted;
    var order := Bases(tensors);
    ListingAt(order, Cells(tensors), k / 2);
    assert order[k / 2] in order;
    var i := CellAt(tensors, Slot(order[k / 2], Sums));
    var j := CellAt(tensors, Slot(order[k / 2], Counts));
  }

  lemma ListingCovers(tensors: seq<Tensor>, i: nat)
    requires Slotted(tensors) && Distinct(NamesOf(tensors)) && i < |tensors|
    requires Complete(Bases(tensors), Cells(tensors))
    ensures tensors[i] in Listing(Bases(tensors), Cells(tensors))
  {
    hide SlotOf, Bases, Cells, Listing, Distinct, NamesOf;
    var order := Bases(tensors);
    var slot := SlotOf(tensors[i].name).value;
    assert slot.base in order by { BasesMeaning(tensors); }
    OwnCell(tensors, i);
    var j :| 0 <= j < |order| && order[j] == slot.base;
    ListingAt(order, Cells(tensors), j);
    var listing := Listing(order, Cells(tensors));
    assert slot == Slot(order[j], slot.part);
    assert tensors[i] == listing[if slot.part == Sums then 2 * j else 2 * j + 1];
  }

  // A paired table is a perfect matching: listed pair by pair it is the same table, so it has
  // exactly two tensors for each base name.
  lemma ListingPermutes(tensors: seq<Tensor>)
    requires Paired(tensors) && Distinct(NamesOf(tensors))
    ensures Complete(Bases(tensors), Cells(tensors))
    ensures multiset(Listing(Bases(tensors), Cells(tensors))) == multiset(tensors)
    ensures |tensors| == 2 * |Bases(tensors)|
  {
    hide SlotOf, Bases, Cells, Listing, Paired, Complete;
    PairedSlotted(tensors);
    CompleteExact(tensors);
    BasesMeaning(tensors);
    var order := Bases(tensors);
    var listing := Listing(order, Cells(tensors));
    forall i, j | 0 <= i < j < |listing| ensures listing[i] != listing[j] {
      ListingMember(tensors, i);
      ListingMember(tensors, j);
      assert i / 2 == j / 2 ==> i % 2 != j % 2;
    }
    forall t ensures t in listing <==> t in tensors {
      if t in listing {
        var k :| 0 <= k < |listing| && listing[k] == t;
        ListingMember(tensors, k);
      }
      if t in tensors {
        var i :| 0 <= i < |tensors| && tensors[i] == t;
        ListingCovers(tensors, i);
      }
    }
    NamesDistinguish(tensors);
    SameMembersPermute(listing, tensors);
    SameLength(listing, tensors);
  }

  lemma PairedSlotted(tensors: seq<Tensor>)
    requires Paired(tensors)
    ensures Slotted(tensors)
  {
  }

  lemma NamesDistinguish(tensors: seq<Tensor>)
    requires Distinct(NamesOf(tensors))
    ensures Distinct(tensors)
  {
    forall i, j | 0 <= i < j < |tensors| ensures tensors[i] != tensors[j] {
      assert NamesOf(tensors)[i] != NamesOf(tensors)[j];
    }
  }

  // ---------------------------------------------------------------- shapes, values and layout

  // A 32-bit float as its finite value; unpacking the four bytes is a parameter.
  datatype F32 = NonFinite | Finite(v: real)
  type Decoder = seq<Byte> -> F32

  function Elements(dimensions: seq<nat>): nat
  {
    if dimensions == [] then 1 else dimensions[0] * Elements(dimensions[1..])
  }

  lemma {:induction false} ElementsPositive(dimensions: seq<nat>)
    requires forall i | 0 <= i < |dimensions| :: dimensions[i] >= 1
    ensures Elements(dimensions) >= 1
  {
    if dimensions != [] {
      ElementsPositive(dimensions[1..]);
      assert dimensions[0] * Elements(dimensions[1..]) >= 1 * Elements(dimensions[1..]) by {
        ScaleMonotone(1, dimensions[0], Elements(dimensions[1..]));
      }
    }
  }

  // The data bytes of a tensor in the file.
  function RangeOf(dataStart: nat, t: Tensor): Range
  {
    (dataStart + t.offset, dataStart + t.offset + Elements(t.dimensions) * 4)
  }

  predicate DenseShape(sums: Tensor, counts: Tensor)
  {
    |sums.dimensions| == 1 && counts.dimensions == [1]
  }

  predicate ExpertShape(sums: Tensor, counts: Tensor)
  {
    && |sums.dimensions| == 2 && |counts.dimensions| == 2
    && counts.dimensions[0] == 1 && counts.dimensions[1] > 1
    && sums.dimensions[1] == counts.dimensions[1]
  }

  predicate PairShape(sums: Tensor, counts: Tensor)
  {
    && sums.kind == 0 && counts.kind == 0
    && (DenseShape(sums, counts) || ExpertShape(sums, counts))
  }

  function Floats(raw: seq<Byte>, decode: Decoder): seq<F32>
  {
    seq(|raw| / 4, i requires 0 <= i < |raw| / 4 => decode(raw[4 * i..4 * i + 4]))
  }

  predicate ValidSum(value: F32) { value.Finite? && value.v >= 0.0 }

  predicate ValidCount(value: F32)
  {
    value.Finite? && value.v > 0.0 && value.v.Floor as real == value.v
  }

  function DataOf(f: seq<Byte>, c: Contract, t: Tensor, decode: Decoder): seq<F32>
  {
    var range := RangeOf(c.dataStart, t);
    if range.1 <= |f| then Floats(f[range.0..range.1], decode) else []
  }

  predicate ValuesOk(part: Part, values: seq<F32>)
  {
    forall i | 0 <= i < |values| :: if part == Sums then ValidSum(values[i]) else ValidCount(values[i])
  }

  predicate DataOk(f: seq<Byte>, c: Contract, part: Part, t: Tensor, decode: Decoder)
    requires c.alignment > 0
  {
    && t.offset % c.alignment == 0
    && RangeOf(c.dataStart, t).1 <= c.fileBytes
    && ValuesOk(part, DataOf(f, c, t, decode))
  }

  predicate PairOk(f: seq<Byte>, c: Contract, sums: Tensor, counts: Tensor, decode: Decoder)
    requires c.alignment > 0
  {
    && PairShape(sums, counts)
    && DataOk(f, c, Sums, sums, decode) && DataOk(f, c, Counts, counts, decode)
  }

  // Checks one tensor of a pair; the values of a counts tensor come back for the final maximum.
  method CheckData(f: seq<Byte>, c: Contract, part: Part, t: Tensor, decode: Decoder)
    returns (r: Option<(Range, seq<real>)>)
    requires c.alignment > 0 && c.fileBytes == |f|
    ensures r.Some? <==> DataOk(f, c, part, t, decode)
    ensures r.Some? ==> r.value.0 == RangeOf(c.dataStart, t)
    ensures r.Some? ==> r.value.1 == if part == Sums then [] else Reals(DataOf(f, c, t, decode))
  {
    hide Floats, ValidCount, ValidSum;
    var elements := Elements(t.dimensions);
    if t.offset % c.alignment != 0 { return None; }
    if c.dataStart + t.offset + elements * 4 > c.fileBytes { return None; }
    var start := c.dataStart + t.offset;
    var values := Floats(f[start..start + elements * 4], decode);
    assert values == DataOf(f, c, t, decode);
    var counts: seq<real> := [];
    if part == Sums {
      if exists i | 0 <= i < |values| :: !ValidSum(values[i]) { return None; }
    } else {
      for index := 0 to |values|
        invariant forall i | 0 <= i < index :: ValidCount(values[i])
        invariant counts == Reals(values[..index])
      {
        if !ValidCount(values[index]) { return None; }
        counts := counts + [if values[index].Finite? then values[index].v else 0.0];
        assert values[..index + 1] == values[..index] + [values[index]];
      }
      assert values[..|values|] == values;
    }
    r := Some(((start, start + elements * 4), counts));
  }

  function Reals(values: seq<F32>): seq<real>
  {
    seq(|values|, i requires 0 <= i < |values| => if values[i].Finite? then values[i].v else 0.0)
  }

  // The ranges and counts that the pair loop collects, in its order.
  function RangesOf(dataStart: nat, listing: seq<Tensor>): seq<Range>
  {
    seq(|listing|, i requires 0 <= i < |listing| => RangeOf(dataStart, listing[i]))
  }

  function CountsOf(f: seq<Byte>, c: Contract, order: seq<seq<Byte>>, cells: map<Slot, Tensor>, decode: Decoder)
    : seq<real>
    requires Complete(order, cells)
  {
    if order == [] then [] else
    var b := order[|order| - 1];
    CountsOf(f, c, order[..|order| - 1], cells, decode) + Reals(DataOf(f, c, cells[Slot(b, Counts)], decode))
  }

  predicate PairsOk(f: seq<Byte>, c: Contract, order: seq<seq<Byte>>, cells: map<Slot, Tensor>, decode: Decoder)
    requires Complete(order, cells) && c.alignment > 0
  {
    forall i | 0 <= i < |order| ::
      var b := order[i];
      assert b in order;
      PairOk(f, c, cells[Slot(b, Sums)], cells[Slot(b, Counts)], decode)
  }

  method CheckPairs(f: seq<Byte>, c: Contract, order: seq<seq<Byte>>, cells: map<Slot, Tensor>, decode: Decoder)
    returns (r: Option<(seq<Range>, seq<real>)>)
    requires Complete(order, cells) && c.alignment > 0 && c.fileBytes == |f|
    ensures r.Some? <==> PairsOk(f, c, order, cells, decode)
    ensures r.Some? ==> r.value == (RangesOf(c.dataStart, Listing(order, cells)), CountsOf(f, c, order, cells, decode))
  {
    hide PairShape, DataOk, DataOf, Reals, RangeOf;
    var ranges: seq<Range> := [];
    var validated: seq<real> := [];
    for index := 0 to |order|
      invariant Complete(order[..index], cells)
      invariant PairsOk(f, c, order[..index], cells, decode)
      invariant ranges == RangesOf(c.dataStart, Listing(order[..index], cells))
      invariant validated == CountsOf(f, c, order[..index], cells, decode)
    {
      assert order[..index + 1][..index] == order[..index];
      var b := order[index];
      assert b in order;
      var sums, counts := cells[Slot(b, Sums)], cells[Slot(b, Counts)];
      if !PairShape(sums, counts) { return None; }
      var first := CheckData(f, c, Sums, sums, decode);
      if first == None { return None; }
      var second := CheckData(f, c, Counts, counts, decode);
      if second == None { return None; }
      ranges := ranges + [first.value.0, second.value.0];
      validated := validated + second.value.1;
    }
    assert order[..|order|] == order;
    r := Some((ranges, validated));
  }

  method MaxOf(values: seq<real>) returns (m: real)
    requires values != []
    ensures m in values && forall v | v in values :: v <= m
  {
    m := values[0];
    for i := 1 to |values|
      invariant m in values && forall j | 0 <= j < i :: values[j] <= m
    {
      if values[i] > m { m := values[i]; }
    }
  }

  // ---------------------------------------------------------------- the whole validator

  const TYPE_KEY: seq<Byte> := Ascii("general.type")
  const DATASETS_KEY: seq<Byte> := Ascii("imatrix.datasets")
  const CHUNK_COUNT_KEY: seq<Byte> := Ascii("imatrix.chunk_count")
  const CHUNK_SIZE_KEY: seq<Byte> := Ascii("imatrix.chunk_size")
  const IMATRIX_KEYS: set<seq<Byte>> := {TYPE_KEY, DATASETS_KEY, CHUNK_COUNT_KEY, CHUNK_SIZE_KEY}

  // The pinned recipe: corpus file name, number of chunks and tokens per chunk.
  datatype Recipe = Recipe(corpus: seq<Byte>, chunks: nat, tokens: nat)

  predicate Requires(metadata: map<seq<Byte>, Entry>, key: seq<Byte>, entry: Entry)
  {
    key in metadata && metadata[key] == entry
  }

  predicate MetadataOk(c: Contract, recipe: Recipe)
  {
    && c.version == 3 && c.metadataKeys == IMATRIX_KEYS
    && Requires(c.metadata, TYPE_KEY, Entry(TEXT_KIND, None, String(Ascii("imatrix"))))
    && Requires(c.metadata, DATASETS_KEY, Entry(ARRAY_KIND, Some(TEXT_KIND), List([String(recipe.corpus)])))
    && Requires(c.metadata, CHUNK_COUNT_KEY, Entry(4, None, Number(recipe.chunks)))
    && Requires(c.metadata, CHUNK_SIZE_KEY, Entry(4, None, Number(recipe.tokens)))
  }

  // m is a value of some counts tensor.
  ghost predicate HasCount(f: seq<Byte>, c: Contract, decode: Decoder, m: real)
  {
    exists i | 0 <= i < |c.tensors| ::
      && SlotOf(c.tensors[i].name).Some? && SlotOf(c.tensors[i].name).value.part == Counts
      && m in Reals(DataOf(f, c, c.tensors[i], decode))
  }

  ghost predicate LargestCount(f: seq<Byte>, c: Contract, decode: Decoder, m: real)
  {
    HasCount(f, c, decode, m) && forall v | HasCount(f, c, decode, v) :: v <= m
  }

  ghost predicate MatchedPairsOk(f: seq<Byte>, c: Contract, decode: Decoder)
    requires c.alignment > 0
  {
    forall i, j | && 0 <= i < |c.tensors| && 0 <= j < |c.tensors| && SlotOf(c.tensors[i].name).Some?
                  && SlotOf(c.tensors[i].name).value.part == Sums
                  && SlotOf(c.tensors[j].name) == Some(Partner(SlotOf(c.tensors[i].name).value)) ::
      PairOk(f, c, c.tensors[i], c.tensors[j], decode)
  }

  // Everything the validator promises about an accepted table, in terms of the table alone.
  ghost predicate LayoutOk(f: seq<Byte>, c: Contract, recipe: Recipe, decode: Decoder)
    requires c.alignment > 0 && recipe.tokens > 0
  {
    && c.tensors != [] && Paired(c.tensors)
    && MatchedPairsOk(f, c, decode)
    && (exists m :: LargestCount(f, c, decode, m) && m.Floor / recipe.tokens == recipe.chunks)
    && Disjoint(RangesOf(c.dataStart, c.tensors))
  }

  // What the contract reader guarantees about the table it hands over.
  ghost predicate Read(f: seq<Byte>, c: Contract)
  {
    && c.alignment > 0 && c.fileBytes == |f| && c.dataStart <= |f| && c.tensorCount == |c.tensors|
    && Distinct(NamesOf(c.tensors))
    && forall i | 0 <= i < |c.tensors| :: Elements(c.tensors[i].dimensions) >= 1
  }

  lemma ContractRead(f: seq<Byte>, wanted: set<seq<Byte>>)
    ensures ContractOf(f, wanted, true).Some? ==> Read(f, ContractOf(f, wanted, true).value)
  {
    hide TakeFields, TakeTensors, TakePreamble, Selected, KeySet, Ascii, AlignmentOf, RoundUp, Elements, Distinct,
         KeysOf, NamesOf, Spans, EmitFields, EmitTensors, EmitPreamble;
    var r := ContractOf(f, wanted, true);
    if r.Some? {
      TakeHeaderSound(f, wanted + {ALIGNMENT_KEY});
      var c := r.value;
      forall i | 0 <= i < |c.tensors| ensures Elements(c.tensors[i].dimensions) >= 1 {
        assert GoodTensor(CONVERTER_RULES, c.tensors[i]);
        ElementsPositive(c.tensors[i].dimensions);
      }
    }
  }

  lemma PairsExact(f: seq<Byte>, c: Contract, decode: Decoder)
    requires Read(f, c) && Paired(c.tensors) && Complete(Bases(c.tensors), Cells(c.tensors))
    ensures PairsOk(f, c, Bases(c.tensors), Cells(c.tensors), decode) <==> MatchedPairsOk(f, c, decode)
  {
    hide SlotOf, Bases, Cells, PairOk, Distinct, NamesOf, Elements, Paired;
    PairedSlotted(c.tensors);
    if PairsOk(f, c, Bases(c.tensors), Cells(c.tensors), decode) {
      var t := c.tensors;
      forall i, j | && 0 <= i < |t| && 0 <= j < |t| && SlotOf(t[i].name).Some?
                    && SlotOf(t[i].name).value.part == Sums
                    && SlotOf(t[j].name) == Some(Partner(SlotOf(t[i].name).value))
        ensures PairOk(f, c, t[i], t[j], decode)
      {
        MatchedIsListed(f, c, decode, i, j);
      }
    }
    if MatchedPairsOk(f, c, decode) {
      ListedIsMatched(f, c, decode);
    }
  }

  lemma MatchedIsListed(f: seq<Byte>, c: Contract, decode: Decoder, i: nat, j: nat)
    requires Read(f, c) && Slotted(c.tensors) && Complete(Bases(c.tensors), Cells(c.tensors))
    requires PairsOk(f, c, Bases(c.tensors), Cells(c.tensors), decode)
    requires i < |c.tensors| && j < |c.tensors|
    requires SlotOf(c.tensors[i].name).value.part == Sums
    requires SlotOf(c.tensors[j].name) == Some(Partner(SlotOf(c.tensors[i].name).value))
    ensures PairOk(f, c, c.tensors[i], c.tensors[j], decode)
  {
    hide SlotOf, Bases, Cells, PairOk, Distinct, NamesOf, Elements;
    var t := c.tensors;
    var b := SlotOf(t[i].name).value.base;
    OwnCell(t, i);
    OwnCell(t, j);
    assert b in Bases(t) by { BasesMeaning(t); }
    var k :| 0 <= k < |Bases(t)| && Bases(t)[k] == b;
    assert SlotOf(t[i].name).value == Slot(b, Sums);
  }

  lemma ListedIsMatched(f: seq<Byte>, c: Contract, decode: Decoder)
    requires Read(f, c) && Slotted(c.tensors) && Complete(Bases(c.tensors), Cells(c.tensors))
    requires MatchedPairsOk(f, c, decode)
    ensures PairsOk(f, c, Bases(c.tensors), Cells(c.tensors), decode)
  {
    hide SlotOf, Bases, Cells, PairOk, Distinct, NamesOf, Elements;
    var t := c.tensors;
    var order, cells := Bases(t), Cells(t);
    forall k | 0 <= k < |order|
      ensures Slot(order[k], Sums) in cells && Slot(order[k], Counts) in cells
      ensures PairOk(f, c, cells[Slot(order[k], Sums)], cells[Slot(order[k], Counts)], decode)
    {
      assert order[k] in order;
      var i := CellAt(t, Slot(order[k], Sums));
      var j := CellAt(t, Slot(order[k], Counts));
      assert SlotOf(t[i].name) == Some(Slot(order[k], Sums));
      assert SlotOf(t[j].name) == Some(Partner(Slot(order[k], Sums)));
    }
  }

  lemma {:induction false} CountsMember(f: seq<Byte>, c: Contract, order: seq<seq<Byte>>, cells: map<Slot, Tensor>,
                                        decode: Decoder, v: real)
    requires Complete(order, cells)
    ensures v in CountsOf(f, c, order, cells, decode)
       <==> exists b | b in order :: v in Reals(DataOf(f, c, cells[Slot(b, Counts)], decode))
  {
    hide Reals, DataOf;
    if order != [] {
      var n := |order| - 1;
      CountsMember(f, c, order[..n], cells, decode, v);
      assert forall b :: b in order <==> b in order[..n] || b == order[n];
    }
  }

  lemma CountsExact(f: seq<Byte>, c: Contract, decode: Decoder, v: real)
    requires Read(f, c) && Paired(c.tensors) && Complete(Bases(c.tensors), Cells(c.tensors))
    ensures v in CountsOf(f, c, Bases(c.tensors), Cells(c.tensors), decode) <==> HasCount(f, c, decode, v)
  {
    hide SlotOf, Bases, Cells, Reals, DataOf, Distinct, NamesOf, Elements;
    var t := c.tensors;
    CountsMember(f, c, Bases(t), Cells(t), decode, v);
    if v in CountsOf(f, c, Bases(t), Cells(t), decode) {
      var b :| b in Bases(t) && v in Reals(DataOf(f, c, Cells(t)[Slot(b, Counts)], decode));
      var i := CellAt(t, Slot(b, Counts));
    }
    if HasCount(f, c, decode, v) {
      var i :| && 0 <= i < |t| && SlotOf(t[i].name).Some? && SlotOf(t[i].name).value.part == Counts
               && v in Reals(DataOf(f, c, t[i], decode));
      OwnCell(t, i);
      assert SlotOf(t[i].name).value.base in Bases(t) by { BasesMeaning(t); }
    }
  }

  // Every listed pair contributes a count.
  lemma ListedCount(f: seq<Byte>, c: Contract, order: seq<seq<Byte>>, cells: map<Slot, Tensor>, decode: Decoder, k: nat)
    requires Complete(order, cells) && c.alignment > 0 && c.fileBytes == |f| && k < |order|
    requires PairsOk(f, c, order, cells, decode) && Elements(cells[Slot(order[k], Counts)].dimensions) >= 1
    ensures CountsOf(f, c, order, cells, decode) != []
  {
    hide PairShape, ValuesOk, Elements;
    var counts := cells[Slot(order[k], Counts)];
    assert PairOk(f, c, cells[Slot(order[k], Sums)], counts, decode);
    var values := Reals(DataOf(f, c, counts, decode));
    assert |values| >= 1;
    CountsMember(f, c, order, cells, decode, values[0]);
  }

  lemma SomeCount(f: seq<Byte>, c: Contract, decode: Decoder) returns (v: real)
    requires Read(f, c) && Paired(c.tensors) && Complete(Bases(c.tensors), Cells(c.tensors)) && c.tensors != []
    requires PairsOk(f, c, Bases(c.tensors), Cells(c.tensors), decode)
    ensures v in CountsOf(f, c, Bases(c.tensors), Cells(c.tensors), decode)
  {
    hide SlotOf, Bases, Cells, Distinct, NamesOf, Elements, PairsOk, CountsOf, Paired;
    var t := c.tensors;
    PairedSlotted(t);
    var b := SlotOf(t[0].name).value.base;
    BasesMeaning(t);
    assert b in Bases(t);
    var k :| 0 <= k < |Bases(t)| && Bases(t)[k] == b;
    var i := CellAt(t, Slot(b, Counts));
    ListedCount(f, c, Bases(t), Cells(t), decode, k);
    v := CountsOf(f, c, Bases(t), Cells(t), decode)[0];
  }

  lemma DisjointByMembers(dataStart: nat, s: seq<Tensor>)
    requires Distinct(s)
    ensures Disjoint(RangesOf(dataStart, s))
       <==> forall x, y | x in s && y in s && x != y :: Apart(RangeOf(dataStart, x), RangeOf(dataStart, y))
  {
    hide RangeOf;
    var r := RangesOf(dataStart, s);
    if Disjoint(r) {
      forall x, y | x in s && y in s && x != y ensures Apart(RangeOf(dataStart, x), RangeOf(dataStart, y)) {
        var i :| 0 <= i < |s| && s[i] == x;
        var j :| 0 <= j < |s| && s[j] == y;
        assert Apart(r[if i < j then i else j], r[if i < j then j else i]);
      }
    }
    if forall x, y | x in s && y in s && x != y :: Apart(RangeOf(dataStart, x), RangeOf(dataStart, y)) {
      forall i, j | 0 <= i < j < |r| ensures Apart(r[i], r[j]) {
        assert s[i] in s && s[j] in s && s[i] != s[j];
      }
    }
  }

  lemma RangesExact(f: seq<Byte>, c: Contract)
    requires Read(f, c) && Paired(c.tensors) && Complete(Bases(c.tensors), Cells(c.tensors))
    ensures var ranges := RangesOf(c.dataStart, Listing(Bases(c.tensors), Cells(c.tensors)));
            AdjacentApart(Sort(ranges, ByRange())) <==> Disjoint(RangesOf(c.dataStart, c.tensors))
  {
    hide Bases, Cells, Listing, Sort, AdjacentApart, Disjoint, Paired, NamesOf, Elements, Distinct;
    var t := c.tensors;
    var listing := Listing(Bases(t), Cells(t));
    var ranges := RangesOf(c.dataStart, listing);
    ListingPermutes(t);
    EachAmong(t, listing);
    NamesDistinguish(t);
    DistinctPermuted(t, listing);
    MembersPermuted(t, listing);
    DisjointByMembers(c.dataStart, t);
    DisjointByMembers(c.dataStart, listing);
    forall i | 0 <= i < |ranges| ensures ranges[i].0 < ranges[i].1 {
      assert listing[i] in t;
      var j :| 0 <= j < |t| && t[j] == listing[i];
    }
    SortedCheckExact(ranges);
  }

  datatype ImatrixIdentity = ImatrixIdentity(tensorCount: nat, entriesCount: nat)

  // Returns the identity exactly when the table of the file is a valid importance matrix, and the
  // entries it reports are half of the tensors.
  method ValidateImatrix(f: seq<Byte>, recipe: Recipe, decode: Decoder) returns (r: Option<ImatrixIdentity>)
    requires recipe.tokens > 0
    ensures r.Some? <==>
              var parsed := ContractOf(f, IMATRIX_KEYS, true);
              && parsed.Some? && parsed.value.alignment > 0
              && MetadataOk(parsed.value, recipe) && LayoutOk(f, parsed.value, recipe, decode)
    ensures r.Some? ==> r.value.tensorCount == 2 * r.value.entriesCount
  {
    hide Ascii, SlotOf, Bases, Cells, Listing, MatchedPairsOk, PairsOk, CountsOf, HasCount, Disjoint, AdjacentApart,
         Sort, ContractOf, Distinct, NamesOf, MetadataOk, Elements, RangesOf, Paired, Complete;
    var parsed := ParseContract(f, IMATRIX_KEYS, true);
    if parsed == None { return None; }
    var c := parsed.value;
    ContractRead(f, IMATRIX_KEYS);
    if !MetadataOk(c, recipe) { return None; }
    var tensors := c.tensors;
    if tensors == [] || |tensors| % 2 != 0 {
      if Paired(tensors) { ListingPermutes(tensors); }
      return None;
    }
    var grouped := GroupTensors(tensors);
    if grouped == None {
      if Paired(tensors) { PairedSlotted(tensors); }
      return None;
    }
    var (order, cells) := grouped.value;
    CompleteExact(tensors);
    if !Complete(order, cells) { return None; }
    ListingPermutes(tensors);
    PairsExact(f, c, decode);
    var checked := CheckPairs(f, c, order, cells, decode);
    if checked == None { return None; }
    var (ranges, validated) := checked.value;
    var some := SomeCount(f, c, decode);
    var largest := MaxOf(validated);
    assert LargestCount(f, c, decode, largest) by {
      forall v ensures v in validated <==> HasCount(f, c, decode, v) { CountsExact(f, c, decode, v); }
    }
    assert forall m | LargestCount(f, c, decode, m) :: m == largest;
    if largest.Floor / recipe.tokens != recipe.chunks { return None; }
    RangesExact(f, c);
    if !AdjacentApart(Sort(ranges, ByRange())) { return None; }
    r := Some(ImatrixIdentity(c.tensorCount, |order|));
  }

  // An accepted table fits the file: all tensor data lies between data_start and the file end
  // without overlap, so together it is no longer than that window.
  lemma AcceptedLayoutFits(f: seq<Byte>, c: Contract, recipe: Recipe, decode: Decoder)
    requires recipe.tokens > 0 && c.alignment > 0
    ensures Read(f, c) && LayoutOk(f, c, recipe, decode) ==>
              && (forall i | 0 <= i < |c.tensors| ::
                    c.dataStart <= RangeOf(c.dataStart, c.tensors[i]).0 < RangeOf(c.dataStart, c.tensors[i]).1 <= |f|)
              && TotalLength(RangesOf(c.dataStart, c.tensors)) <= |f| - c.dataStart
  {
    hide Paired, SlotOf, Elements, LargestCount, Disjoint, TotalLength, PairShape, ValuesOk, Distinct, NamesOf;
    if Read(f, c) && LayoutOk(f, c, recipe, decode) {
      var t := c.tensors;
      forall i | 0 <= i < |t|
        ensures c.dataStart <= RangeOf(c.dataStart, t[i]).0 < RangeOf(c.dataStart, t[i]).1 <= |f|
      {
        assert Elements(t[i].dimensions) >= 1;
        var j := PartnerIndex(t, i);
      }
      DisjointFit(RangesOf(c.dataStart, t), c.dataStart, |f|);
    }
  }

  lemma PartnerIndex(tensors: seq<Tensor>, i: nat) returns (j: nat)
    requires Paired(tensors) && i < |tensors|
    ensures SlotOf(tensors[i].name).Some? && j < |tensors|
    ensures SlotOf(tensors[j].name) == Some(Partner(SlotOf(tensors[i].name).value))
    ensures SlotOf(tensors[i].name) == Some(Partner(SlotOf(tensors[j].name).value))
  {
    hide SlotOf;
    assert HasSlot(tensors, Partner(SlotOf(tensors[i].name).value));
    j :| 0 <= j < |tensors| && SlotOf(tensors[j].name) == Some(Partner(SlotOf(tensors[i].name).value));
  }
}
