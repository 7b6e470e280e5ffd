// Boundary corruptions of one corpus row: single-entity edits of its gold JSON text.
module Corruption {
  import opened Collections
  import opened Json

  datatype Entity = Entity(text: Text, kind: Text)
  datatype Direction = Expansion | Contraction
  datatype Side = Left | Right
  datatype Reason = DuplicateEntity | AmbiguousText | NoEntities | SurfaceAbsent | NoValidBoundary

  // The fields of a row that the generator reads.
  datatype Row = Row(ref: Text, train: bool, input: Text, prompt: Text, gold: Text)

  datatype Candidate = Candidate(direction: Direction, side: Side, index: nat, source: Text, corrupted: Text, negative: Text)
  datatype Found = Found(expansion: seq<Candidate>, contraction: seq<Candidate>, seen: set<Text>)
  datatype Outcome = Candidates(found: Found) | Ineligible(reason: Reason) | Invalid

  // Which code points str.strip removes.
  type Space = int -> bool

  // ---------------------------------------------------------------- overlapping search

  predicate Matches(text: Text, needle: Text, i: nat)
  {
    i + |needle| <= |text| && text[i..i + |needle|] == needle
  }

  // str.find(needle, from)
  function Find(text: Text, needle: Text, from: nat): (r: Option<nat>)
    ensures r.Some? ==> from <= r.value && Matches(text, needle, r.value)
    ensures r.Some? ==> forall i | from <= i < r.value :: !Matches(text, needle, i)
    ensures r == None ==> forall i | from <= i :: !Matches(text, needle, i)
    decreases |text| - from
  {
    if from + |needle| > |text| then None
    else if text[from..from + |needle|] == needle then Some(from)
    else Find(text, needle, from + 1)
  }

  // Every position at or after `from` where the needle occurs, in order.
  function StartsFrom(text: Text, needle: Text, from: nat): seq<nat>
    decreases |text| + 1 - from
  {
    if from + |needle| > |text| then []
    else (if Matches(text, needle, from) then [from] else []) + StartsFrom(text, needle, from + 1)
  }

  function Occurrences(text: Text, needle: Text): (r: seq<(nat, nat)>)
  {
    var starts := StartsFrom(text, needle, 0);
    seq(|starts|, i requires 0 <= i < |starts| => (starts[i], starts[i] + |needle|))
  }

  ghost predicate AllMatch(text: Text, needle: Text, from: nat, starts: seq<nat>)
  {
    forall i | 0 <= i < |starts| :: from <= starts[i] && Matches(text, needle, starts[i])
  }

  ghost predicate Increasing(starts: seq<nat>)
  {
    forall i, j | 0 <= i < j < |starts| :: starts[i] < starts[j]
  }

  // The list holds every occurrence, overlapping ones included, once each and in order.
  lemma {:induction false} StartsExact(text: Text, needle: Text, from: nat)
    ensures AllMatch(text, needle, from, StartsFrom(text, needle, from))
    ensures forall i: nat | from <= i && Matches(text, needle, i) :: i in StartsFrom(text, needle, from)
    ensures Increasing(StartsFrom(text, needle, from))
    decreases |text| + 1 - from
  {
    hide Matches;
    MatchInside(text, needle);
    if from + |needle| <= |text| {
      StartsExact(text, needle, from + 1);
      var s, rest := StartsFrom(text, needle, from), StartsFrom(text, needle, from + 1);
      if Matches(text, needle, from) {
        assert s == [from] + rest;
      } else {
        assert s == rest;
      }
    }
  }

  lemma {:induction false} SkipToNext(text: Text, needle: Text, from: nat, next: nat)
    requires from <= next && Matches(text, needle, next)
    requires forall i | from <= i < next :: !Matches(text, needle, i)
    ensures StartsFrom(text, needle, from) == [next] + StartsFrom(text, needle, next + 1)
    decreases next - from
  {
    if from < next { SkipToNext(text, needle, from + 1, next); }
  }

  lemma {:induction false} NothingLeft(text: Text, needle: Text, from: nat)
    requires forall i | from <= i :: !Matches(text, needle, i)
    ensures StartsFrom(text, needle, from) == []
    decreases |text| + 1 - from
  {
    if from + |needle| <= |text| { NothingLeft(text, needle, from + 1); }
  }

  lemma MatchInside(text: Text, needle: Text)
    ensures forall i: nat | Matches(text, needle, i) :: i + |needle| <= |text|
  {
  }

  method LiteralOccurrences(text: Text, needle: Text) returns (spans: seq<(nat, nat)>)
    ensures spans == Occurrences(text, needle)
  {
    hide Matches, StartsFrom;
    spans := [];
    var cursor: nat := 0;
    ghost var starts: seq<nat> := [];
    while true
      invariant cursor <= |text| + 1
      invariant StartsFrom(text, needle, 0) == starts + StartsFrom(text, needle, cursor)
      invariant |spans| == |starts| && forall i | 0 <= i < |spans| :: spans[i] == (starts[i], starts[i] + |needle|)
      decreases |text| + 1 - cursor
    {
      MatchInside(text, needle);
      var start := Find(text, needle, cursor);
      if start == None {
        NothingLeft(text, needle, cursor);
        return;
      }
      SkipToNext(text, needle, cursor, start.value);
      assert starts + ([start.value] + StartsFrom(text, needle, start.value + 1))
          == (starts + [start.value]) + StartsFrom(text, needle, start.value + 1);
      spans := spans + [(start.value, start.value + |needle|)];
      starts := starts + [start.value];
      cursor := start.value + 1;
    }
  }

  // ---------------------------------------------------------------- entities of a gold text

  const ENTITIES_KEY: Text := Codes("entities")
  const TEXT_KEY: Text := Codes("text")
  const TYPE_KEY: Text := Codes("type")
  const CHEMICAL: Text := Codes("Chemical")
  const DISEASE: Text := Codes("Disease")

  predicate Stripped(t: Text, space: Space)
  {
    t == [] || (!space(t[0]) && !space(t[|t| - 1]))
  }

  predicate HasControl(t: Text) { exists i | 0 <= i < |t| :: t[i] < 32 }

  // A mapping with exactly the keys "text" and "type", both holding strings.
  function EntityOf(v: Value): Option<Entity>
  {
    if !v.Obj? || |v.members| != 2 || !v.members[0].1.Str? || !v.members[1].1.Str? then None
    else if v.members[0].0 == TEXT_KEY && v.members[1].0 == TYPE_KEY then
      Some(Entity(v.members[0].1.text, v.members[1].1.text))
    else if v.members[0].0 == TYPE_KEY && v.members[1].0 == TEXT_KEY then
      Some(Entity(v.members[1].1.text, v.members[0].1.text))
    else None
  }

  predicate ValidEntity(e: Entity, space: Space)
  {
    e.text != [] && Stripped(e.text, space) && (e.kind == CHEMICAL || e.kind == DISEASE) && !HasControl(e.text)
  }

  function ItemsOf(v: Option<Value>): Option<seq<Value>>
  {
    if v.Some? && v.value.Obj? && |v.value.members| == 1 && v.value.members[0].0 == ENTITIES_KEY
       && v.value.members[0].1.Arr?
    then Some(v.value.members[0].1.items) else None
  }

  // The parsed text is {"entities": [...]} with exactly these entities.
  predicate Denotes(v: Option<Value>, entities: seq<Entity>)
  {
    var items := ItemsOf(v);
    items.Some? && |items.value| == |entities|
    && forall i | 0 <= i < |entities| :: EntityOf(items.value[i]) == Some(entities[i])
  }

  datatype Reading = Entities(entities: seq<Entity>) | Malformed | Refused(reason: Reason)

  function ReadEntities(items: seq<Value>, done: seq<Entity>, space: Space): Reading
    decreases |items|
  {
    if items == [] then Entities(done) else
    var e := EntityOf(items[0]);
    if e == None || !ValidEntity(e.value, space) then Malformed
    else if e.value in done then Refused(DuplicateEntity)
    else if exists i | 0 <= i < |done| :: done[i].text == e.value.text then Refused(AmbiguousText)
    else ReadEntities(items[1..], done + [e.value], space)
  }

  // ---------------------------------------------------------------- replacements

  datatype Replacement = Replacement(direction: Direction, side: Side, text: Text)

  predicate ChangeIsExact(source: Text, corrupted: Text, direction: Direction, side: Side)
  {
    if direction == Expansion then
      |corrupted| == |source| + 1 && (if side == Left then corrupted[1..] == source else corrupted[..|source|] == source)
    else
      |corrupted| + 1 == |source| && (if side == Left then source[1..] == corrupted else source[..|corrupted|] == corrupted)
  }

  function Widenings(input: Text, spans: seq<(nat, nat)>): seq<Replacement>
    requires forall i | 0 <= i < |spans| :: spans[i].0 <= spans[i].1 <= |input|
  {
    if spans == [] then [] else
    var (start, end) := spans[0];
    (if start > 0 then [Replacement(Expansion, Left, input[start - 1..end])] else [])
    + (if end < |input| then [Replacement(Expansion, Right, input[start..end + 1])] else [])
    + Widenings(input, spans[1..])
  }

  lemma OccurrencesInside(text: Text, needle: Text)
    ensures forall i | 0 <= i < |Occurrences(text, needle)| ::
              var (a, b) := Occurrences(text, needle)[i]; a <= b <= |text| && text[a..b] == needle
  {
    StartsExact(text, needle, 0);
    var starts := StartsFrom(text, needle, 0);
    assert |Occurrences(text, needle)| == |starts|;
    forall i | 0 <= i < |starts|
      ensures var (a, b) := Occurrences(text, needle)[i]; a <= b <= |text| && text[a..b] == needle
    {
      assert Occurrences(text, needle)[i] == (starts[i], starts[i] + |needle|);
      assert Matches(text, needle, starts[i]);
    }
  }

  function Replacements(source: Text, input: Text): seq<Replacement>
  {
    OccurrencesInside(input, source);
    (if |source| > 1 then [Replacement(Contraction, Left, source[1..]), Replacement(Contraction, Right, source[..|source| - 1])]
     else [])
    + Widenings(input, Occurrences(input, source))
  }

  predicate Usable(entities: seq<Entity>, source: Text, input: Text, r: Replacement, space: Space)
  {
    && r.text != [] && Stripped(r.text, space) && !HasControl(r.text)
    && Find(input, r.text, 0).Some?
    && (forall i | 0 <= i < |entities| :: entities[i].text != r.text)
    && ChangeIsExact(source, r.text, r.direction, r.side)
  }

  // The task of one entity: its index and where its literal stands in the gold text.
  datatype Target = Target(gold: Text, entities: seq<Entity>, input: Text, index: nat, span: (nat, nat))
  {
    predicate Valid() { index < |entities| && span.0 <= span.1 <= |gold| }

    function Source(): Text
      requires Valid()
    {
      entities[index].text
    }

    function Splice(text: Text): Text
      requires Valid()
    {
      gold[..span.0] + Quote(text) + gold[span.1..]
    }

    function Edited(text: Text): seq<Entity>
      requires Valid()
    {
      entities[index := entities[index].(text := text)]
    }
  }

  function AddCandidate(found: Found, c: Candidate): Found
  {
    var more := found.(seen := found.seen + {c.negative});
    if c.direction == Expansion then more.(expansion := found.expansion + [c])
    else more.(contraction := found.contraction + [c])
  }

  // None stands for the "changed extra fields" error.
  function TryOne(t: Target, r: Replacement, found: Found, space: Space): Option<Found>
    requires t.Valid()
  {
    if !Usable(t.entities, t.Source(), t.input, r, space) then Some(found) else
    var negative := t.Splice(r.text);
    if negative in found.seen then Some(found)
    else if !Denotes(Parse(negative), t.Edited(r.text)) then None
    else Some(AddCandidate(found, Candidate(r.direction, r.side, t.index, t.Source(), r.text, negative)))
  }

  function TryAll(t: Target, rs: seq<Replacement>, found: Found, space: Space): Option<Found>
    requires t.Valid()
    decreases |rs|
  {
    if rs == [] then Some(found) else
    var next := TryOne(t, rs[0], found, space);
    if next == None then None else TryAll(t, rs[1..], next.value, space)
  }

  function TryEntities(gold: Text, input: Text, entities: seq<Entity>, index: nat, found: Found, space: Space): Option<Found>
    requires index <= |entities|
    decreases |entities| - index
  {
    if index == |entities| then Some(found) else
    var spans := Occurrences(gold, Quote(entities[index].text));
    if |spans| != 1 then TryEntities(gold, input, entities, index + 1, found, space) else
    assert spans[0].0 <= spans[0].1 <= |gold| by { OccurrencesInside(gold, Quote(entities[index].text)); }
    var t := Target(gold, entities, input, index, spans[0]);
    var next := TryAll(t, Replacements(t.Source(), input), found, space);
    if next == None then None else TryEntities(gold, input, entities, index + 1, next.value, space)
  }

  const PROMPT_BOUNDARY: Text := Codes("\n\nText: ")

  predicate EndsWith(text: Text, suffix: Text)
  {
    |suffix| <= |text| && text[|text| - |suffix|..] == suffix
  }

  predicate RowBound(row: Row)
  {
    && row.ref != [] && row.train && row.input != []
    && EndsWith(row.prompt, row.input)
    && EndsWith(row.prompt[..|row.prompt| - |row.input|], PROMPT_BOUNDARY)
  }

  function Surfaced(entities: seq<Entity>, input: Text): bool
  {
    forall i | 0 <= i < |entities| :: Find(input, entities[i].text, 0).Some?
  }

  function CandidatesOf(row: Row, space: Space): Outcome
  {
    if !RowBound(row) then Invalid else
    var items := ItemsOf(Parse(row.gold));
    if items == None then Invalid else
    match ReadEntities(items.value, [], space)
    case Malformed => Invalid
    case Refused(reason) => Ineligible(reason)
    case Entities(entities) =>
      if entities == [] then Ineligible(NoEntities)
      else if !Surfaced(entities, row.input) then Ineligible(SurfaceAbsent)
      else
        var found := TryEntities(row.gold, row.input, entities, 0, Found([], [], {}), space);
        if found == None then Invalid
        else if found.value.expansion == [] && found.value.contraction == [] then Ineligible(NoValidBoundary)
        else Candidates(found.value)
  }

  // ---------------------------------------------------------------- the generator for one row

  method TryReplacements(t: Target, rs: seq<Replacement>, found: Found, space: Space) returns (r: Option<Found>)
    requires t.Valid()
    ensures r == TryAll(t, rs, found, space)
  {
    hide Usable, Denotes, Parse, Quote;
    var state := found;
    for i := 0 to |rs|
      invariant TryAll(t, rs, found, space) == TryAll(t, rs[i..], state, space)
    {
      assert rs[i..][1..] == rs[i + 1..];
      var next := TryOne(t, rs[i], state, space);
      if next == None { return None; }
      state := next.value;
    }
    r := Some(state);
  }

  method BoundaryRowCandidates(row: Row, space: Space) returns (r: Outcome)
    ensures r == CandidatesOf(row, space)
  {
    hide Parse, ValidEntity, EntityOf, RowBound, Quote, TryAll, Replacements;
    if !RowBound(row) { return Invalid; }
    var items := ItemsOf(Parse(row.gold));
    if items == None { return Invalid; }
    var entities: seq<Entity> := [];
    for i := 0 to |items.value|
      invariant ReadEntities(items.value, [], space) == ReadEntities(items.value[i..], entities, space)
    {
      assert items.value[i..][1..] == items.value[i + 1..];
      var e := EntityOf(items.value[i]);
      if e == None || !ValidEntity(e.value, space) { return Invalid; }
      if e.value in entities { return Ineligible(DuplicateEntity); }
      if exists j | 0 <= j < |entities| :: entities[j].text == e.value.text { return Ineligible(AmbiguousText); }
      entities := entities + [e.value];
    }
    if entities == [] { return Ineligible(NoEntities); }
    if !Surfaced(entities, row.input) { return Ineligible(SurfaceAbsent); }
    var found := Found([], [], {});
    for index := 0 to |entities|
      invariant TryEntities(row.gold, row.input, entities, 0, Found([], [], {}), space)
             == TryEntities(row.gold, row.input, entities, index, found, space)
    {
      var literals := LiteralOccurrences(row.gold, Quote(entities[index].text));
      if |literals| != 1 { continue; }
      OccurrencesInside(row.gold, Quote(entities[index].text));
      var t := Target(row.gold, entities, row.input, index, literals[0]);
      var next := TryReplacements(t, Replacements(t.Source(), row.input), found, space);
      if next == None { return Invalid; }
      found := next.value;
    }
    if found.expansion == [] && found.contraction == [] { return Ineligible(NoValidBoundary); }
    r := Candidates(found);
  }
}
