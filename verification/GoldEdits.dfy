// What the corruption candidates of a row mean: single, exact edits of its gold entities.
module GoldEdits {
  import opened Collections
  import opened Json
  import opened Corruption

  // ---------------------------------------------------------------- every candidate is one edit

  // The negative text is the gold text with the only literal of the source surface replaced.
  ghost predicate Spliced(c: Candidate, gold: Text)
  {
    exists a: nat, b: nat | a <= b <= |gold| && Occurrences(gold, Quote(c.source)) == [(a, b)] ::
      c.negative == gold[..a] + Quote(c.corrupted) + gold[b..]
  }

  // The negative text of a candidate parses to the gold entities with one surface changed by one
  // character on one side, to a text that stands in the input and names no other entity.
  ghost predicate Faithful(c: Candidate, gold: Text, entities: seq<Entity>, input: Text)
  {
    && c.corrupted != []
    && c.index < |entities| && c.source == entities[c.index].text && Spliced(c, gold)
    && Denotes(Parse(c.negative), entities[c.index := entities[c.index].(text := c.corrupted)])
    && ChangeIsExact(c.source, c.corrupted, c.direction, c.side)
    && (exists i: nat :: Matches(input, c.corrupted, i))
    && (forall i | 0 <= i < |entities| :: entities[i].text != c.corrupted)
  }

  function Negatives(cs: seq<Candidate>): seq<Text>
  {
    seq(|cs|, i requires 0 <= i < |cs| => cs[i].negative)
  }

  ghost predicate FoundOk(found: Found, gold: Text, entities: seq<Entity>, input: Text)
  {
    && (forall i | 0 <= i < |found.expansion| ::
          Faithful(found.expansion[i], gold, entities, input) && found.expansion[i].direction == Expansion)
    && (forall i | 0 <= i < |found.contraction| ::
          Faithful(found.contraction[i], gold, entities, input) && found.contraction[i].direction == Contraction)
    && Distinct(Negatives(found.expansion)) && Distinct(Negatives(found.contraction))
    && (forall i | 0 <= i < |found.expansion| :: found.expansion[i].negative in found.seen)
    && (forall i | 0 <= i < |found.contraction| :: found.contraction[i].negative in found.seen)
    && (forall i, j | 0 <= i < |found.expansion| && 0 <= j < |found.contraction| ::
          found.expansion[i].negative != found.contraction[j].negative)
  }

  lemma AddKeeps(found: Found, c: Candidate, gold: Text, entities: seq<Entity>, input: Text)
    requires FoundOk(found, gold, entities, input) && Faithful(c, gold, entities, input) && c.negative !in found.seen
    ensures FoundOk(AddCandidate(found, c), gold, entities, input)
  {
    hide Faithful;
    assert Negatives(found.expansion + [c]) == Negatives(found.expansion) + [c.negative];
    assert Negatives(found.contraction + [c]) == Negatives(found.contraction) + [c.negative];
  }

  lemma TryOneKeeps(t: Target, r: Replacement, found: Found, space: Space)
    requires t.Valid() && Occurrences(t.gold, Quote(t.Source())) == [t.span]
    requires FoundOk(found, t.gold, t.entities, t.input) && TryOne(t, r, found, space).Some?
    ensures FoundOk(TryOne(t, r, found, space).value, t.gold, t.entities, t.input)
  {
    hide FoundOk, Parse, Denotes, Quote, ChangeIsExact, Stripped, HasControl, Occurrences;
    if Usable(t.entities, t.Source(), t.input, r, space) && t.Splice(r.text) !in found.seen {
      var c := Candidate(r.direction, r.side, t.index, t.Source(), r.text, t.Splice(r.text));
      assert Matches(t.input, r.text, Find(t.input, r.text, 0).value);
      AddKeeps(found, c, t.gold, t.entities, t.input);
    }
  }

  lemma {:induction false} TryAllKeeps(t: Target, rs: seq<Replacement>, found: Found, space: Space)
    requires t.Valid() && Occurrences(t.gold, Quote(t.Source())) == [t.span]
    requires FoundOk(found, t.gold, t.entities, t.input) && TryAll(t, rs, found, space).Some?
    ensures FoundOk(TryAll(t, rs, found, space).value, t.gold, t.entities, t.input)
    decreases |rs|
  {
    hide FoundOk, TryOne;
    if rs != [] {
      TryOneKeeps(t, rs[0], found, space);
      TryAllKeeps(t, rs[1..], TryOne(t, rs[0], found, space).value, space);
    }
  }

  lemma {:induction false} TryEntitiesKeeps(gold: Text, input: Text, entities: seq<Entity>, index: nat, found: Found,
                                            space: Space)
    requires index <= |entities| && FoundOk(found, gold, entities, input)
    requires TryEntities(gold, input, entities, index, found, space).Some?
    ensures FoundOk(TryEntities(gold, input, entities, index, found, space).value, gold, entities, input)
    decreases |entities| - index
  {
    hide FoundOk, TryAll, Quote, Replacements;
    if index < |entities| {
      var spans := Occurrences(gold, Quote(entities[index].text));
      OccurrencesInside(gold, Quote(entities[index].text));
      if |spans| != 1 {
        TryEntitiesKeeps(gold, input, entities, index + 1, found, space);
      } else {
        var t := Target(gold, entities, input, index, spans[0]);
        assert spans == [spans[0]];
        TryAllKeeps(t, Replacements(t.Source(), input), found, space);
        TryEntitiesKeeps(gold, input, entities, index + 1,
                         TryAll(t, Replacements(t.Source(), input), found, space).value, space);
      }
    }
  }

  lemma {:induction false} ReadDenotes(items: seq<Value>, done: seq<Entity>, space: Space)
    requires ReadEntities(items, done, space).Entities?
    ensures var all := ReadEntities(items, done, space).entities;
            && |all| == |done| + |items| && all[..|done|] == done
            && forall i | 0 <= i < |items| :: EntityOf(items[i]) == Some(all[|done| + i])
    decreases |items|
  {
    hide EntityOf, ValidEntity;
    if items != [] {
      var e := EntityOf(items[0]).value;
      ReadDenotes(items[1..], done + [e], space);
      var all := ReadEntities(items, done, space).entities;
      assert all[..|done|] == all[..|done + [e]|][..|done|];
      assert forall i | 1 <= i < |items| :: items[i] == items[1..][i - 1];
      assert all[|done|] == all[..|done + [e]|][|done|];
    }
  }

  // For every row, whatever its gold text looks like: each candidate is a faithful single edit of
  // the entities that the gold text denotes, and no two candidates have the same negative text.
  lemma CandidatesAreFaithful(row: Row, space: Space)
    requires CandidatesOf(row, space).Candidates?
    ensures exists entities ::
              Denotes(Parse(row.gold), entities) && FoundOk(CandidatesOf(row, space).found, row.gold, entities, row.input)
  {
    hide FoundOk, Parse, RowBound, TryEntities, ReadEntities;
    var items := ItemsOf(Parse(row.gold)).value;
    var entities := ReadEntities(items, [], space).entities;
    ReadDenotes(items, [], space);
    NothingFound(row.gold, entities, row.input);
    TryEntitiesKeeps(row.gold, row.input, entities, 0, Found([], [], {}), space);
    assert Denotes(Parse(row.gold), entities);
  }

  lemma NothingFound(gold: Text, entities: seq<Entity>, input: Text)
    ensures FoundOk(Found([], [], {}), gold, entities, input)
  {
  }

  // Within one direction the entity index and the corrupted text already tell candidates apart.
  lemma IndexAndTextSeparate(cs: seq<Candidate>, gold: Text, entities: seq<Entity>, input: Text, i: nat, j: nat)
    requires i < |cs| && j < |cs| && Distinct(Negatives(cs))
    requires Faithful(cs[i], gold, entities, input) && Faithful(cs[j], gold, entities, input)
    requires cs[i].index == cs[j].index && cs[i].corrupted == cs[j].corrupted
    ensures i == j
  {
    hide Occurrences, Quote, Parse, Denotes, ChangeIsExact, Matches;
    assert Negatives(cs)[i] == cs[i].negative && Negatives(cs)[j] == cs[j].negative;
    assert cs[i].source == cs[j].source;
    SplicedOnce(cs[i], cs[j], gold);
  }

  lemma SplicedOnce(c: Candidate, d: Candidate, gold: Text)
    requires Spliced(c, gold) && Spliced(d, gold) && c.source == d.source && c.corrupted == d.corrupted
    ensures c.negative == d.negative
  {
    hide Occurrences, Quote;
    var a: nat, b: nat :| a <= b <= |gold| && Occurrences(gold, Quote(c.source)) == [(a, b)]
      && c.negative == gold[..a] + Quote(c.corrupted) + gold[b..];
    var x: nat, y: nat :| x <= y <= |gold| && Occurrences(gold, Quote(d.source)) == [(x, y)]
      && d.negative == gold[..x] + Quote(d.corrupted) + gold[y..];
    assert [(a, b)][0] == [(x, y)][0];
  }

  // ---------------------------------------------------------------- printed gold texts

  function EntityValue(e: Entity, textFirst: bool): Value
  {
    var text, kind := (TEXT_KEY, Str(e.text)), (TYPE_KEY, Str(e.kind));
    Obj(if textFirst then [text, kind] else [kind, text])
  }

  function EntityValues(entities: seq<Entity>, textFirst: bool): (r: seq<Value>)
    ensures |r| == |entities|
  {
    seq(|entities|, i requires 0 <= i < |entities| => EntityValue(entities[i], textFirst))
  }

  function GoldValue(entities: seq<Entity>, textFirst: bool): Value
  {
    Obj([(ENTITIES_KEY, Arr(EntityValues(entities, textFirst)))])
  }

  ghost predicate Encodable(entities: seq<Entity>)
  {
    forall i | 0 <= i < |entities| :: CodePoints(entities[i].text) && CodePoints(entities[i].kind)
  }

  lemma KeysDiffer()
    ensures TEXT_KEY != TYPE_KEY
    ensures CodePoints(TEXT_KEY) && CodePoints(TYPE_KEY) && CodePoints(ENTITIES_KEY)
  {
    assert TEXT_KEY[1] == 101 && TYPE_KEY[1] == 121;
    LiteralCodes("text");
    LiteralCodes("type");
    LiteralCodes("entities");
  }

  lemma LiteralCodes(literal: string)
    ensures CodePoints(Codes(literal))
  {
  }

  lemma EntityValueMeaning(e: Entity, textFirst: bool)
    requires CodePoints(e.text) && CodePoints(e.kind)
    ensures EntityOf(EntityValue(e, textFirst)) == Some(e) && Printable(EntityValue(e, textFirst))
  {
    hide Codes, CodePoints;
    KeysDiffer();
    var v := EntityValue(e, textFirst);
    TwoPrintable(v.members[0], v.members[1]);
    assert v.members == [v.members[0], v.members[1]];
  }

  lemma TwoPrintable(a: (Text, Value), b: (Text, Value))
    requires PrintableMember(a) && PrintableMember(b)
    ensures PrintableMembers([a, b]) && PrintableMembers([a])
  {
    assert [a, b][1..] == [b] && [b][1..] == [] && [a][1..] == [];
    assert PrintableMembers([b]);
  }

  lemma {:induction false} ItemsPrintable(items: seq<Value>)
    requires forall i | 0 <= i < |items| :: Printable(items[i])
    ensures PrintableItems(items)
  {
    if items != [] { ItemsPrintable(items[1..]); }
  }

  // The printed form of an entity list denotes that list.
  lemma GoldDenotes(entities: seq<Entity>, textFirst: bool, l: Layout)
    requires l.Blank() && Encodable(entities)
    ensures Parse(Print(GoldValue(entities, textFirst), l)) == Some(GoldValue(entities, textFirst))
    ensures Denotes(Parse(Print(GoldValue(entities, textFirst), l)), entities)
  {
    hide Parse, Print, Codes, EntityOf, EntityValue, CodePoints, Printable;
    var items := EntityValues(entities, textFirst);
    forall i | 0 <= i < |items| ensures Printable(items[i]) && EntityOf(items[i]) == Some(entities[i]) {
      EntityValueMeaning(entities[i], textFirst);
    }
    ItemsPrintable(items);
    GoldPrintable(items);
    ParsePrint(GoldValue(entities, textFirst), l);
  }

  lemma GoldPrintable(items: seq<Value>)
    requires PrintableItems(items)
    ensures Printable(Obj([(ENTITIES_KEY, Arr(items))]))
  {
    hide Codes, CodePoints, PrintableItems;
    KeysDiffer();
    var member := (ENTITIES_KEY, Arr(items));
    assert Printable(Arr(items));
    TwoPrintable(member, member);
    assert Obj([member]).members == [member];
  }

  // ---------------------------------------------------------------- splitting a printed list

  function ItemsBefore(items: seq<Value>, k: nat, l: Layout): Text
    requires k < |items|
    decreases k
  {
    if k == 0 then [] else Print(items[0], l) + ([44] + (l.afterComma + ItemsBefore(items[1..], k - 1, l)))
  }

  function ItemsAfter(items: seq<Value>, k: nat, l: Layout): Text
    requires k < |items|
  {
    if k == |items| - 1 then [93] else [44] + (l.afterComma + PrintItems(items[k + 1..], l))
  }

  lemma {:induction false} ItemsSplit(items: seq<Value>, k: nat, l: Layout)
    requires k < |items|
    ensures PrintItems(items, l) == ItemsBefore(items, k, l) + Print(items[k], l) + ItemsAfter(items, k, l)
    decreases k
  {
    hide Print;
    var first, rest := Print(items[0], l), items[1..];
    if k > 0 {
      ItemsSplit(rest, k - 1, l);
      assert rest[k..] == items[k + 1..];
      var a, b, c := ItemsBefore(rest, k - 1, l), Print(items[k], l), ItemsAfter(rest, k - 1, l);
      var sep := [44] + l.afterComma;
      assert first + ([44] + (l.afterComma + (a + b + c))) == first + ([44] + (l.afterComma + a)) + b + c;
    } else {
      assert [] + first == first;
    }
  }

  lemma {:induction false} ItemsBeforeSame(items: seq<Value>, k: nat, v: Value, l: Layout)
    requires k < |items|
    ensures ItemsBefore(items[k := v], k, l) == ItemsBefore(items, k, l)
    decreases k
  {
    hide Print;
    if k > 0 {
      assert items[k := v][1..] == items[1..][k - 1 := v];
      ItemsBeforeSame(items[1..], k - 1, v, l);
    }
  }

  // What stands before and after the text literal inside the printed form of one entity.
  function EntityBefore(kind: Text, textFirst: bool, l: Layout): Text
  {
    [123] + ((if textFirst then [] else PrintMember((TYPE_KEY, Str(kind)), l) + ([44] + l.afterComma))
             + (Quote(TEXT_KEY) + ([58] + l.afterColon)))
  }

  function EntityAfter(kind: Text, textFirst: bool, l: Layout): Text
  {
    if textFirst then [44] + (l.afterComma + (PrintMember((TYPE_KEY, Str(kind)), l) + [125])) else [125]
  }

  lemma EntitySplit(e: Entity, textFirst: bool, l: Layout)
    ensures Print(EntityValue(e, textFirst), l)
         == EntityBefore(e.kind, textFirst, l) + Quote(e.text) + EntityAfter(e.kind, textFirst, l)
  {
    hide Quote, Codes, PrintMember, PrintMembers;
    var text, kind := (TEXT_KEY, Str(e.text)), (TYPE_KEY, Str(e.kind));
    TextMember(e.text, l);
    PrintTwo(if textFirst then text else kind, if textFirst then kind else text, l);
  }

  lemma TextMember(text: Text, l: Layout)
    ensures PrintMember((TEXT_KEY, Str(text)), l) == Quote(TEXT_KEY) + ([58] + (l.afterColon + Quote(text)))
  {
    hide Quote, Codes;
  }

  lemma PrintTwo(a: (Text, Value), b: (Text, Value), l: Layout)
    ensures PrintMembers([a, b], l) == PrintMember(a, l) + ([44] + (l.afterComma + (PrintMember(b, l) + [125])))
  {
    hide PrintMember;
    assert [a, b][1..] == [b];
  }

  function GoldHead(l: Layout): Text { [123] + (Quote(ENTITIES_KEY) + ([58] + (l.afterColon + [91]))) }

  lemma GoldSplit(entities: seq<Entity>, textFirst: bool, l: Layout)
    requires entities != []
    ensures Print(GoldValue(entities, textFirst), l)
         == GoldHead(l) + PrintItems(EntityValues(entities, textFirst), l) + [125]
  {
    hide Quote, Codes, PrintItems, EntityValue;
    var items := EntityValues(entities, textFirst);
    var member := (ENTITIES_KEY, Arr(items));
    assert PrintMember(member, l) == Quote(ENTITIES_KEY) + ([58] + (l.afterColon + ([91] + PrintItems(items, l))));
    assert PrintMembers([member], l) == PrintMember(member, l) + [125];
  }

  // Everything before and after the literal of entity k.
  function GoldBefore(entities: seq<Entity>, k: nat, textFirst: bool, l: Layout): Text
    requires k < |entities|
  {
    GoldHead(l) + (ItemsBefore(EntityValues(entities, textFirst), k, l) + EntityBefore(entities[k].kind, textFirst, l))
  }

  function GoldAfter(entities: seq<Entity>, k: nat, textFirst: bool, l: Layout): Text
    requires k < |entities|
  {
    EntityAfter(entities[k].kind, textFirst, l) + (ItemsAfter(EntityValues(entities, textFirst), k, l) + [125])
  }

  lemma GoldAround(entities: seq<Entity>, k: nat, textFirst: bool, l: Layout)
    requires k < |entities|
    ensures Print(GoldValue(entities, textFirst), l)
         == GoldBefore(entities, k, textFirst, l) + Quote(entities[k].text) + GoldAfter(entities, k, textFirst, l)
  {
    hide Quote, Print, PrintItems, ItemsBefore, ItemsAfter, EntityBefore, EntityAfter, GoldHead;
    GoldSplit(entities, textFirst, l);
    ItemsSplit(EntityValues(entities, textFirst), k, l);
    EntitySplit(entities[k], textFirst, l);
  }

  // The surroundings of entity k do not depend on its text.
  lemma GoldAroundSame(entities: seq<Entity>, k: nat, text: Text, textFirst: bool, l: Layout)
    requires k < |entities|
    ensures var edited := entities[k := entities[k].(text := text)];
            && GoldBefore(edited, k, textFirst, l) == GoldBefore(entities, k, textFirst, l)
            && GoldAfter(edited, k, textFirst, l) == GoldAfter(entities, k, textFirst, l)
  {
    hide Quote, Print, PrintItems, ItemsBefore, EntityBefore, EntityAfter, GoldHead, EntityValue;
    var edited := entities[k := entities[k].(text := text)];
    var items := EntityValues(entities, textFirst);
    assert EntityValues(edited, textFirst) == items[k := EntityValue(edited[k], textFirst)];
    ItemsBeforeSame(items, k, EntityValue(edited[k], textFirst), l);
    assert EntityValues(edited, textFirst)[k + 1..] == items[k + 1..];
  }

  // The splice is a semantic edit. If the gold text is a printed entity list in which the literal of
  // entity k occurs once, replacing that occurrence prints the list with only that text changed.
  lemma SpliceIsEdit(entities: seq<Entity>, k: nat, text: Text, textFirst: bool, l: Layout)
    requires k < |entities|
    requires |Occurrences(Print(GoldValue(entities, textFirst), l), Quote(entities[k].text))| == 1
    ensures var gold := Print(GoldValue(entities, textFirst), l);
            var span := Occurrences(gold, Quote(entities[k].text))[0];
            && span.0 <= span.1 <= |gold|
            && gold[..span.0] + Quote(text) + gold[span.1..]
               == Print(GoldValue(entities[k := entities[k].(text := text)], textFirst), l)
  {
    hide Quote, Print, GoldBefore, GoldAfter, GoldValue;
    var gold := Print(GoldValue(entities, textFirst), l);
    var literal := Quote(entities[k].text);
    var before, after := GoldBefore(entities, k, textFirst, l), GoldAfter(entities, k, textFirst, l);
    GoldAround(entities, k, textFirst, l);
    GoldAround(entities[k := entities[k].(text := text)], k, textFirst, l);
    GoldAroundSame(entities, k, text, textFirst, l);
    assert gold[|before|..|before| + |literal|] == literal;
    OnlyOccurrence(gold, literal, |before|);
    assert gold[..|before|] == before && gold[|before| + |literal|..] == after;
  }

  lemma OnlyOccurrence(text: Text, needle: Text, i: nat)
    requires |Occurrences(text, needle)| == 1 && Matches(text, needle, i)
    ensures Occurrences(text, needle)[0] == (i, i + |needle|)
  {
    StartsExact(text, needle, 0);
    assert i in StartsFrom(text, needle, 0);
  }

  // ---------------------------------------------------------------- the refusal that cannot fire

  ghost predicate PrintedGold(gold: Text, entities: seq<Entity>, textFirst: bool, l: Layout)
  {
    l.Blank() && Encodable(entities) && gold == Print(GoldValue(entities, textFirst), l)
  }

  lemma TryOneSucceeds(t: Target, r: Replacement, found: Found, textFirst: bool, l: Layout, space: Space)
    requires t.Valid() && PrintedGold(t.gold, t.entities, textFirst, l) && CodePoints(t.input)
    requires Occurrences(t.gold, Quote(t.Source())) == [t.span]
    ensures TryOne(t, r, found, space).Some?
  {
    hide Quote, Print, Parse, Denotes, ChangeIsExact, Stripped, HasControl, GoldValue, AddCandidate;
    if Usable(t.entities, t.Source(), t.input, r, space) {
      SliceCodePoints(t.input, r.text, Find(t.input, r.text, 0).value);
      SpliceIsEdit(t.entities, t.index, r.text, textFirst, l);
      GoldDenotes(t.Edited(r.text), textFirst, l);
    }
  }

  lemma SliceCodePoints(text: Text, part: Text, i: nat)
    requires CodePoints(text) && Matches(text, part, i)
    ensures CodePoints(part)
  {
    forall j | 0 <= j < |part| ensures 0 <= part[j] < 0x110000 {
      assert part[j] == text[i..i + |part|][j] == text[i + j];
    }
  }

  lemma {:induction false} TryAllSucceeds(t: Target, rs: seq<Replacement>, found: Found, textFirst: bool, l: Layout,
                                          space: Space)
    requires t.Valid() && PrintedGold(t.gold, t.entities, textFirst, l) && CodePoints(t.input)
    requires Occurrences(t.gold, Quote(t.Source())) == [t.span]
    ensures TryAll(t, rs, found, space).Some?
    decreases |rs|
  {
    hide TryOne, PrintedGold, Quote, Occurrences;
    if rs != [] {
      TryOneSucceeds(t, rs[0], found, textFirst, l, space);
      TryAllSucceeds(t, rs[1..], TryOne(t, rs[0], found, space).value, textFirst, l, space);
    }
  }

  lemma {:induction false} TryEntitiesSucceeds(gold: Text, input: Text, entities: seq<Entity>, index: nat, found: Found,
                                               textFirst: bool, l: Layout, space: Space)
    requires index <= |entities| && PrintedGold(gold, entities, textFirst, l) && CodePoints(input)
    ensures TryEntities(gold, input, entities, index, found, space).Some?
    decreases |entities| - index
  {
    hide TryAll, PrintedGold, Quote, Occurrences, Replacements;
    if index < |entities| {
      var spans := Occurrences(gold, Quote(entities[index].text));
      OccurrencesInside(gold, Quote(entities[index].text));
      if |spans| != 1 {
        TryEntitiesSucceeds(gold, input, entities, index + 1, found, textFirst, l, space);
      } else {
        var t := Target(gold, entities, input, index, spans[0]);
        assert spans == [spans[0]];
        TryAllSucceeds(t, Replacements(t.Source(), input), found, textFirst, l, space);
        TryEntitiesSucceeds(gold, input, entities, index + 1,
                            TryAll(t, Replacements(t.Source(), input), found, space).value, textFirst, l, space);
      }
    }
  }

  lemma {:induction false} ReadNotMalformed(items: seq<Value>, done: seq<Entity>, space: Space)
    requires forall i | 0 <= i < |items| :: EntityOf(items[i]).Some? && ValidEntity(EntityOf(items[i]).value, space)
    ensures !ReadEntities(items, done, space).Malformed?
    decreases |items|
  {
    hide EntityOf, ValidEntity;
    if items != [] {
      assert forall i | 0 <= i < |items[1..]| :: items[1..][i] == items[i + 1];
      ReadNotMalformed(items[1..], done + [EntityOf(items[0]).value], space);
    }
  }

  // A bound row whose gold text is a printed list of valid entities never makes the generator fail:
  // it yields candidates or is reported ineligible, so the "changed extra fields" error cannot fire.
  lemma PrintedRowNeverInvalid(row: Row, entities: seq<Entity>, textFirst: bool, l: Layout, space: Space)
    requires RowBound(row) && CodePoints(row.input) && PrintedGold(row.gold, entities, textFirst, l)
    requires forall i | 0 <= i < |entities| :: ValidEntity(entities[i], space)
    ensures CandidatesOf(row, space) != Invalid
  {
    hide Print, Parse, ValidEntity, EntityOf, RowBound, TryEntities, ReadEntities, GoldValue;
    GoldDenotes(entities, textFirst, l);
    var items := ItemsOf(Parse(row.gold)).value;
    ReadNotMalformed(items, [], space);
    if ReadEntities(items, [], space).Entities? {
      ReadDenotes(items, [], space);
      var all := ReadEntities(items, [], space).entities;
      assert all == entities;
      TryEntitiesSucceeds(row.gold, row.input, entities, 0, Found([], [], {}), textFirst, l, space);
    }
  }
}
