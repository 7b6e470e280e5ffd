// What a corpus row yields, stated without the loops.
module RowOutcome {
  import opened Collections
  import opened Json
  import opened Corruption
  import opened GoldEdits
  import opened CandidateSet

  // ---------------------------------------------------------------- the words used below

  // One character is added at, or removed from, one end.
  ghost predicate OneCharacter(source: Text, text: Text, direction: Direction, side: Side)
  {
    exists c: Text :: |c| == 1 &&
      match (direction, side)
      case (Expansion, Left) => text == c + source
      case (Expansion, Right) => text == source + c
      case (Contraction, Left) => source == c + text
      case (Contraction, Right) => source == text + c
  }

  lemma OneCharacterExact(source: Text, text: Text, direction: Direction, side: Side)
    ensures ChangeIsExact(source, text, direction, side) <==> OneCharacter(source, text, direction, side)
  {
    if ChangeIsExact(source, text, direction, side) {
      var whole := if direction == Expansion then text else source;
      var c := if side == Left then whole[..1] else whole[|whole| - 1..];
      assert |c| == 1 && (if side == Left then whole == c + whole[1..] else whole == whole[..|whole| - 1] + c);
    }
  }

  ghost predicate Contains(text: Text, part: Text) { exists a, b :: text == a + part + b }

  lemma MatchesExact(text: Text, part: Text, i: nat)
    ensures Matches(text, part, i) <==> exists a, b :: |a| == i && text == a + part + b
  {
    if Matches(text, part, i) { assert text == text[..i] + part + text[i + |part|..]; }
    forall a: Text, b: Text | |a| == i && text == a + part + b ensures Matches(text, part, i) {
      assert (a + part + b)[i..i + |part|] == part;
    }
  }

  lemma ContainsExact(text: Text, part: Text)
    ensures Contains(text, part) <==> exists i: nat :: Matches(text, part, i)
    ensures Contains(text, part) <==> Find(text, part, 0).Some?
  {
    hide Matches;
    if a, b :| text == a + part + b { MatchesExact(text, part, |a|); }
    forall i: nat | Matches(text, part, i) ensures Contains(text, part) { MatchesExact(text, part, i); }
    if Find(text, part, 0).Some? { assert Matches(text, part, Find(text, part, 0).value); }
  }

  // The literal stands in the gold text exactly once, between these two parts.
  ghost predicate OnlyPlace(gold: Text, literal: Text, before: Text, after: Text)
  {
    && gold == before + literal + after
    && forall a, b | gold == a + literal + b :: |a| == |before|
  }

  lemma OnlyPlaceExact(gold: Text, literal: Text, before: Text, after: Text)
    ensures OnlyPlace(gold, literal, before, after)
       <==> |Occurrences(gold, literal)| == 1 && gold == before + literal + after
            && Occurrences(gold, literal)[0] == (|before|, |before| + |literal|)
  {
    hide Matches, Occurrences;
    MatchesExact(gold, literal, |before|);
    OccurrencesCount(gold, literal);
    if |Occurrences(gold, literal)| == 1 && Occurrences(gold, literal)[0] == (|before|, |before| + |literal|) {
      forall a: Text, b: Text | gold == a + literal + b ensures |a| == |before| {
        MatchesExact(gold, literal, |a|);
        OnlyOccurrence(gold, literal, |a|);
      }
    }
    if OnlyPlace(gold, literal, before, after) {
      forall i: nat | Matches(gold, literal, i) ensures i == |before| { MatchesExact(gold, literal, i); }
    }
  }

  // The list of occurrences has one member exactly when there is one place.
  lemma OccurrencesCount(text: Text, needle: Text)
    ensures forall i: nat | Matches(text, needle, i) && (forall j: nat | Matches(text, needle, j) :: j == i) ::
              |Occurrences(text, needle)| == 1 && Occurrences(text, needle)[0] == (i, i + |needle|)
  {
    hide Matches;
    StartsExact(text, needle, 0);
    var starts := StartsFrom(text, needle, 0);
    forall i: nat | Matches(text, needle, i) && (forall j: nat | Matches(text, needle, j) :: j == i)
      ensures |Occurrences(text, needle)| == 1 && Occurrences(text, needle)[0] == (i, i + |needle|)
    {
      assert i in starts;
      assert starts[0] == i;
      OneStart(starts, i);
    }
  }

  lemma OneStart(starts: seq<nat>, i: nat)
    requires Increasing(starts) && starts != [] && forall k | 0 <= k < |starts| :: starts[k] == i
    ensures |starts| == 1
  {
    assert starts[|starts| - 1] == starts[0];
  }

  // No white space at either end, no control character.
  ghost predicate Clean(t: Text, space: Space)
  {
    t != [] && !space(t[0]) && !space(t[|t| - 1]) && forall i | 0 <= i < |t| :: t[i] >= 32
  }

  // A gold entity as the corpus defines it.
  ghost predicate GoodEntity(e: Entity, space: Space)
  {
    Clean(e.text, space) && (e.kind == Codes("Chemical") || e.kind == Codes("Disease"))
  }

  // The JSON object with exactly this text and this type, in either order.
  ghost predicate EntityJson(v: Value, e: Entity)
  {
    || v == Obj([(Codes("text"), Str(e.text)), (Codes("type"), Str(e.kind))])
    || v == Obj([(Codes("type"), Str(e.kind)), (Codes("text"), Str(e.text))])
  }

  lemma EntityJsonExact(v: Value, e: Entity)
    ensures EntityOf(v) == Some(e) <==> EntityJson(v, e)
  {
    hide Codes;
    KeysDiffer();
    if v.Obj? && |v.members| == 2 { assert v.members == [(v.members[0].0, v.members[0].1), (v.members[1].0, v.members[1].1)]; }
  }

  // The gold text is an object whose one member "entities" is this list.
  ghost predicate GoldItems(gold: Text, items: seq<Value>)
  {
    Parse(gold) == Some(Obj([(Codes("entities"), Arr(items))]))
  }

  lemma GoldItemsExact(gold: Text, items: seq<Value>)
    ensures ItemsOf(Parse(gold)) == Some(items) <==> GoldItems(gold, items)
  {
    hide Codes, Parse;
    var v := Parse(gold);
    if v.Some? && v.value.Obj? && |v.value.members| == 1 {
      assert v.value.members == [(v.value.members[0].0, v.value.members[0].1)];
    }
  }

  // ---------------------------------------------------------------- the entities of a row

  ghost predicate MalformedAt(items: seq<Value>, i: nat, space: Space)
    requires i < |items|
  {
    forall e :: EntityJson(items[i], e) ==> !GoodEntity(e, space)
  }

  // The item repeats an earlier entity, or the text of an earlier one.
  ghost predicate RepeatsAt(items: seq<Value>, i: nat, wholly: bool)
    requires i < |items|
  {
    exists j, d, e :: 0 <= j < i && EntityJson(items[j], d) && EntityJson(items[i], e) && d.text == e.text && (wholly ==> d == e)
  }

  ghost predicate FineBefore(items: seq<Value>, n: nat, space: Space)
    requires n <= |items|
  {
    forall i | 0 <= i < n :: !MalformedAt(items, i, space) && !RepeatsAt(items, i, false)
  }

  ghost predicate Lists(items: seq<Value>, entities: seq<Entity>)
  {
    |items| == |entities| && forall i | 0 <= i < |items| :: EntityJson(items[i], entities[i])
  }

  // The first problem decides: a malformed item, a repeated entity, a repeated text; without a problem all
  // entities are read.
  ghost predicate ReadingIs(items: seq<Value>, r: Reading, space: Space)
  {
    if FineBefore(items, |items|, space) then r.Entities? && Lists(items, r.entities)
    else exists i: nat ::
      && i < |items| && FineBefore(items, i, space) && (MalformedAt(items, i, space) || RepeatsAt(items, i, false))
      && r == if MalformedAt(items, i, space) then Malformed
              else if RepeatsAt(items, i, true) then Refused(DuplicateEntity) else Refused(AmbiguousText)
  }

  lemma GoodExact(e: Entity, space: Space)
    ensures ValidEntity(e, space) <==> GoodEntity(e, space)
  {
    hide Codes;
  }

  lemma MalformedExact(items: seq<Value>, i: nat, space: Space)
    requires i < |items|
    ensures MalformedAt(items, i, space) <==> EntityOf(items[i]) == None || !ValidEntity(EntityOf(items[i]).value, space)
  {
    hide EntityOf, ValidEntity, EntityJson, GoodEntity;
    forall e ensures EntityOf(items[i]) == Some(e) <==> EntityJson(items[i], e) { EntityJsonExact(items[i], e); }
    forall e ensures ValidEntity(e, space) <==> GoodEntity(e, space) { GoodExact(e, space); }
  }

  lemma RepeatsExact(items: seq<Value>, i: nat, done: seq<Entity>, e: Entity, wholly: bool)
    requires i < |items| && |done| == i && EntityOf(items[i]) == Some(e)
    requires forall j | 0 <= j < i :: EntityOf(items[j]) == Some(done[j])
    ensures RepeatsAt(items, i, wholly)
       <==> exists j | 0 <= j < |done| :: done[j].text == e.text && (wholly ==> done[j] == e)
  {
    hide EntityOf, EntityJson;
    forall v, d ensures EntityOf(v) == Some(d) <==> EntityJson(v, d) { EntityJsonExact(v, d); }
    if j :| 0 <= j < |done| && done[j].text == e.text && (wholly ==> done[j] == e) {
      assert EntityJson(items[j], done[j]) && EntityJson(items[i], e);
    }
  }

  lemma {:induction false} ReadingExact(items: seq<Value>, n: nat, done: seq<Entity>, space: Space)
    requires n <= |items| && |done| == n && FineBefore(items, n, space)
    requires forall j | 0 <= j < n :: EntityOf(items[j]) == Some(done[j])
    ensures ReadingIs(items, ReadEntities(items[n..], done, space), space)
    decreases |items| - n
  {
    hide EntityOf, ValidEntity, MalformedAt, RepeatsAt;
    if n == |items| {
      forall i | 0 <= i < |items| ensures EntityJson(items[i], done[i]) { EntityJsonExact(items[i], done[i]); }
    } else {
      assert items[n..][0] == items[n] && items[n..][1..] == items[n + 1..];
      MalformedExact(items, n, space);
      if !MalformedAt(items, n, space) {
        var e := EntityOf(items[n]).value;
        RepeatsExact(items, n, done, e, false);
        RepeatsExact(items, n, done, e, true);
        if !RepeatsAt(items, n, false) {
          ReadingExact(items, n + 1, done + [e], space);
        } else {
          Repeated(done, e);
        }
      }
      if MalformedAt(items, n, space) || RepeatsAt(items, n, false) { FirstProblem(items, n, space); }
    }
  }

  lemma Repeated(done: seq<Entity>, e: Entity)
    ensures e in done <==> exists j | 0 <= j < |done| :: done[j].text == e.text && done[j] == e
  {
  }

  lemma FirstProblem(items: seq<Value>, n: nat, space: Space)
    requires n < |items| && FineBefore(items, n, space) && (MalformedAt(items, n, space) || RepeatsAt(items, n, false))
    ensures !FineBefore(items, |items|, space)
  {
    hide MalformedAt, RepeatsAt;
  }

  // ---------------------------------------------------------------- the candidates of a row

  // The edit that a candidate stands for: a clean text, found in the input, no entity's text, one character
  // away from the text of entity k, whose literal is replaced at its only place.
  ghost predicate Edit(gold: Text, entities: seq<Entity>, input: Text, c: Candidate, space: Space)
  {
    && c.index < |entities| && c.source == entities[c.index].text
    && OneCharacter(c.source, c.corrupted, c.direction, c.side) && Clean(c.corrupted, space) && Contains(input, c.corrupted)
    && (forall i | 0 <= i < |entities| :: entities[i].text != c.corrupted)
    && exists before, after ::
         OnlyPlace(gold, Quote(c.source), before, after) && c.negative == before + Quote(c.corrupted) + after
  }

  lemma CleanExact(t: Text, space: Space)
    ensures Clean(t, space) <==> t != [] && Stripped(t, space) && !HasControl(t)
  {
  }

  ghost predicate EditsOnly(found: Found, gold: Text, entities: seq<Entity>, input: Text, space: Space)
  {
    && (forall c | c in found.expansion :: Edit(gold, entities, input, c, space) && c.direction == Expansion)
    && (forall c | c in found.contraction :: Edit(gold, entities, input, c, space) && c.direction == Contraction)
  }

  lemma TriedIsEdit(t: Target, r: Replacement, space: Space)
    requires t.Valid() && Occurrences(t.gold, Quote(t.Source())) == [t.span]
    requires Usable(t.entities, t.Source(), t.input, r, space)
    ensures Edit(t.gold, t.entities, t.input, Candidate(r.direction, r.side, t.index, t.Source(), r.text, t.Splice(r.text)), space)
  {
    hide Quote, Occurrences, ChangeIsExact, OneCharacter, Stripped, HasControl, Contains, OnlyPlace, Clean;
    OneCharacterExact(t.Source(), r.text, r.direction, r.side);
    ContainsExact(t.input, r.text);
    CleanExact(r.text, space);
    var (a, b) := t.span;
    var literal := Quote(t.Source());
    OccurrencesInside(t.gold, literal);
    assert Occurrences(t.gold, literal)[0] == t.span;
    OccurrenceLength(t.gold, literal, 0);
    assert t.gold == t.gold[..a] + literal + t.gold[b..];
    OnlyPlaceExact(t.gold, literal, t.gold[..a], t.gold[b..]);
  }

  lemma OccurrenceLength(text: Text, needle: Text, k: nat)
    requires k < |Occurrences(text, needle)|
    ensures Occurrences(text, needle)[k].1 == Occurrences(text, needle)[k].0 + |needle|
  {
    hide StartsFrom;
  }

  lemma {:induction false} TryAllEdits(t: Target, rs: seq<Replacement>, found: Found, space: Space)
    requires t.Valid() && Occurrences(t.gold, Quote(t.Source())) == [t.span]
    requires EditsOnly(found, t.gold, t.entities, t.input, space) && TryAll(t, rs, found, space).Some?
    ensures EditsOnly(TryAll(t, rs, found, space).value, t.gold, t.entities, t.input, space)
    decreases |rs|
  {
    hide Quote, Occurrences, Usable, Edit, Denotes, Parse;
    if rs != [] {
      if Usable(t.entities, t.Source(), t.input, rs[0], space) { TriedIsEdit(t, rs[0], space); }
      TryAllEdits(t, rs[1..], TryOne(t, rs[0], found, space).value, space);
    }
  }

  lemma {:induction false} TryEntitiesEdits(gold: Text, input: Text, entities: seq<Entity>, index: nat, found: Found, space: Space)
    requires index <= |entities| && EditsOnly(found, gold, entities, input, space)
    requires TryEntities(gold, input, entities, index, found, space).Some?
    ensures EditsOnly(TryEntities(gold, input, entities, index, found, space).value, gold, entities, input, space)
    decreases |entities| - index
  {
    hide EditsOnly, TryAll, Quote, Replacements;
    if index < |entities| {
      var spans := Occurrences(gold, Quote(entities[index].text));
      OccurrencesInside(gold, Quote(entities[index].text));
      if |spans| != 1 {
        TryEntitiesEdits(gold, input, entities, index + 1, found, space);
      } else {
        var t := Target(gold, entities, input, index, spans[0]);
        assert spans == [spans[0]];
        TryAllEdits(t, Replacements(t.Source(), input), found, space);
        TryEntitiesEdits(gold, input, entities, index + 1, TryAll(t, Replacements(t.Source(), input), found, space).value, space);
      }
    }
  }

  // The edited gold text is read back as the edited list.
  ghost predicate ReadsBack(c: Candidate, entities: seq<Entity>)
  {
    c.index < |entities| && exists items ::
      GoldItems(c.negative, items) && Lists(items, entities[c.index := Entity(c.corrupted, entities[c.index].kind)])
  }

  lemma ReadsBackExact(c: Candidate, entities: seq<Entity>)
    requires c.index < |entities|
    ensures Denotes(Parse(c.negative), entities[c.index := entities[c.index].(text := c.corrupted)]) <==> ReadsBack(c, entities)
  {
    hide Parse, ItemsOf, EntityOf, EntityJson, GoldItems;
    forall items ensures ItemsOf(Parse(c.negative)) == Some(items) <==> GoldItems(c.negative, items) {
      GoldItemsExact(c.negative, items);
    }
    forall v, e ensures EntityOf(v) == Some(e) <==> EntityJson(v, e) { EntityJsonExact(v, e); }
  }

  lemma {:induction false} TryAllFails(t: Target, rs: seq<Replacement>, found: Found, space: Space) returns (c: Candidate)
    requires t.Valid() && Occurrences(t.gold, Quote(t.Source())) == [t.span] && TryAll(t, rs, found, space) == None
    ensures Edit(t.gold, t.entities, t.input, c, space) && !ReadsBack(c, t.entities)
    decreases |rs|
  {
    hide Quote, Occurrences, Usable, Edit, Denotes, Parse, ReadsBack;
    if TryOne(t, rs[0], found, space) == None {
      TriedIsEdit(t, rs[0], space);
      c := Candidate(rs[0].direction, rs[0].side, t.index, t.Source(), rs[0].text, t.Splice(rs[0].text));
      ReadsBackExact(c, t.entities);
    } else {
      c := TryAllFails(t, rs[1..], TryOne(t, rs[0], found, space).value, space);
    }
  }

  lemma {:induction false} TryEntitiesFails(gold: Text, input: Text, entities: seq<Entity>, index: nat, found: Found,
                                            space: Space) returns (c: Candidate)
    requires index <= |entities| && TryEntities(gold, input, entities, index, found, space) == None
    ensures Edit(gold, entities, input, c, space) && !ReadsBack(c, entities)
    decreases |entities| - index
  {
    hide Edit, ReadsBack, TryAll, Quote, Replacements;
    var spans := Occurrences(gold, Quote(entities[index].text));
    OccurrencesInside(gold, Quote(entities[index].text));
    if |spans| != 1 {
      c := TryEntitiesFails(gold, input, entities, index + 1, found, space);
    } else {
      var t := Target(gold, entities, input, index, spans[0]);
      assert spans == [spans[0]];
      var next := TryAll(t, Replacements(t.Source(), input), found, space);
      if next == None {
        c := TryAllFails(t, Replacements(t.Source(), input), found, space);
      } else {
        c := TryEntitiesFails(gold, input, entities, index + 1, next.value, space);
      }
    }
  }

  // Every edit is an editable one in the sense of the completeness theorem.
  lemma EditIsEditable(gold: Text, entities: seq<Entity>, input: Text, c: Candidate, space: Space)
    requires Edit(gold, entities, input, c, space)
    ensures Editable(gold, entities, input, c.index, c.corrupted, c.direction, c.side, space)
    ensures SplicedAt(gold, entities[c.index].text, c.corrupted) == c.negative
  {
    hide Quote, Occurrences, ChangeIsExact, OneCharacter, Stripped, HasControl, Contains, Clean, OnlyPlace, Matches;
    OneCharacterExact(c.source, c.corrupted, c.direction, c.side);
    ContainsExact(input, c.corrupted);
    CleanExact(c.corrupted, space);
    var before, after :| OnlyPlace(gold, Quote(c.source), before, after) && c.negative == before + Quote(c.corrupted) + after;
    OnlyPlaceExact(gold, Quote(c.source), before, after);
    assert gold[..|before|] == before && gold[|before| + |Quote(c.source)|..] == after;
  }

  // The two lists hold the candidates of their direction: edits only, every edit's negative text, none twice,
  // and each read back as the edited list.
  ghost predicate AllEdits(found: Found, gold: Text, entities: seq<Entity>, input: Text, space: Space)
  {
    && EditsOnly(found, gold, entities, input, space)
    && (forall c | Edit(gold, entities, input, c, space) :: Listed(found, c.negative))
    && Distinct(Negatives(found.expansion)) && Distinct(Negatives(found.contraction))
    && forall c | c in found.expansion || c in found.contraction :: ReadsBack(c, entities)
  }

  // ---------------------------------------------------------------- the outcome of a row

  // A training row with a ref whose prompt is some text, a blank line, "Text: " and the input.
  ghost predicate Bound(row: Row)
  {
    row.ref != [] && row.train && row.input != [] && exists head :: row.prompt == head + Codes("\n\nText: ") + row.input
  }

  lemma BoundExact(row: Row)
    ensures RowBound(row) <==> Bound(row)
  {
    hide Codes;
    if RowBound(row) {
      var start := row.prompt[..|row.prompt| - |row.input|];
      var head := start[..|start| - |PROMPT_BOUNDARY|];
      assert start == head + PROMPT_BOUNDARY;
      assert row.prompt == head + Codes("\n\nText: ") + row.input;
    }
    if row.ref != [] && row.train && row.input != [] {
      forall head: Text | row.prompt == head + Codes("\n\nText: ") + row.input ensures RowBound(row) {
        assert row.prompt[..|row.prompt| - |row.input|] == head + PROMPT_BOUNDARY;
        assert row.prompt[|row.prompt| - |row.input|..] == row.input;
      }
    }
  }

  // What is tried on good entities: no edit at all, some edits, or an edit that parses to something else.
  ghost predicate TriedIs(row: Row, entities: seq<Entity>, outcome: Outcome, space: Space)
  {
    match outcome
    case Candidates(found) =>
      AllEdits(found, row.gold, entities, row.input, space) && (found.expansion != [] || found.contraction != [])
    case Ineligible(reason) => reason == NoValidBoundary && forall c :: !Edit(row.gold, entities, row.input, c, space)
    case Invalid => exists c :: Edit(row.gold, entities, row.input, c, space) && !ReadsBack(c, entities)
  }

  ghost predicate OutcomeIs(row: Row, outcome: Outcome, space: Space)
  {
    if !Bound(row) || forall items :: !GoldItems(row.gold, items) then outcome == Invalid
    else exists items, reading ::
      && GoldItems(row.gold, items) && ReadingIs(items, reading, space)
      && match reading
         case Malformed => outcome == Invalid
         case Refused(reason) => outcome == Ineligible(reason)
         case Entities(entities) =>
           if entities == [] then outcome == Ineligible(NoEntities)
           else if exists i :: 0 <= i < |entities| && !Contains(row.input, entities[i].text)
           then outcome == Ineligible(SurfaceAbsent)
           else TriedIs(row, entities, outcome, space)
  }

  lemma NothingYet(gold: Text, entities: seq<Entity>, input: Text, space: Space)
    ensures EditsOnly(Found([], [], {}), gold, entities, input, space)
  {
  }

  lemma TriedExact(row: Row, entities: seq<Entity>, space: Space)
    ensures var found := TryEntities(row.gold, row.input, entities, 0, Found([], [], {}), space);
            TriedIs(row, entities,
                    if found == None then Invalid
                    else if found.value.expansion == [] && found.value.contraction == [] then Ineligible(NoValidBoundary)
                    else Candidates(found.value), space)
  {
    hide TryEntities, SeenExact, Editable, Edit, SplicedAt, EditsOnly, FoundOk, ReadsBack;
    var found := TryEntities(row.gold, row.input, entities, 0, Found([], [], {}), space);
    if found.Some? {
      NothingYet(row.gold, entities, row.input, space);
      TryEntitiesEdits(row.gold, row.input, entities, 0, Found([], [], {}), space);
      EmptySeen();
      TryEntitiesSeen(row.gold, row.input, entities, 0, Found([], [], {}), space);
      forall c | Edit(row.gold, entities, row.input, c, space) ensures Listed(found.value, c.negative) {
        EditIsEditable(row.gold, entities, row.input, c, space);
        EditableOnce(row.gold, entities, row.input, c, space);
        assert SplicedAt(row.gold, entities[c.index].text, c.corrupted) in found.value.seen;
        SeenListed(found.value, c.negative);
      }
      NothingFound(row.gold, entities, row.input);
      TryEntitiesKeeps(row.gold, row.input, entities, 0, Found([], [], {}), space);
      FoundDistinct(found.value, row.gold, entities, row.input);
    } else {
      var c := TryEntitiesFails(row.gold, row.input, entities, 0, Found([], [], {}), space);
    }
  }

  lemma EditableOnce(gold: Text, entities: seq<Entity>, input: Text, c: Candidate, space: Space)
    requires Edit(gold, entities, input, c, space)
    ensures c.index < |entities| && |Occurrences(gold, Quote(entities[c.index].text))| == 1
  {
    hide Occurrences, Quote;
    var before, after :| OnlyPlace(gold, Quote(c.source), before, after) && c.negative == before + Quote(c.corrupted) + after;
    OnlyPlaceExact(gold, Quote(c.source), before, after);
  }

  lemma FoundDistinct(found: Found, gold: Text, entities: seq<Entity>, input: Text)
    requires FoundOk(found, gold, entities, input)
    ensures Distinct(Negatives(found.expansion)) && Distinct(Negatives(found.contraction))
    ensures forall c | c in found.expansion || c in found.contraction :: ReadsBack(c, entities)
  {
    hide Parse, Denotes, ReadsBack;
    forall c | c in found.expansion || c in found.contraction ensures ReadsBack(c, entities) {
      assert Faithful(c, gold, entities, input);
      ReadsBackExact(c, entities);
    }
  }

  // What every row yields.
  lemma OutcomeExact(row: Row, space: Space)
    ensures OutcomeIs(row, CandidatesOf(row, space), space)
  {
    hide RowBound, Bound, Parse, GoldItems, ReadEntities, ReadingIs, TryEntities, TriedIs, ItemsOf, Find, Contains;
    BoundExact(row);
    forall items ensures ItemsOf(Parse(row.gold)) == Some(items) <==> GoldItems(row.gold, items) {
      GoldItemsExact(row.gold, items);
    }
    if Bound(row) && ItemsOf(Parse(row.gold)).Some? {
      var items := ItemsOf(Parse(row.gold)).value;
      NothingBefore(items, space);
      assert items[0..] == items;
      ReadingExact(items, 0, [], space);
      var reading := ReadEntities(items, [], space);
      assert GoldItems(row.gold, items) && ReadingIs(items, reading, space);
      if reading.Entities? {
        forall i | 0 <= i < |reading.entities|
          ensures Contains(row.input, reading.entities[i].text) <==> Find(row.input, reading.entities[i].text, 0).Some?
        {
          ContainsExact(row.input, reading.entities[i].text);
        }
        TriedExact(row, reading.entities, space);
      }
    }
  }

  lemma NothingBefore(items: seq<Value>, space: Space)
    ensures FineBefore(items, 0, space)
  {
  }
}
