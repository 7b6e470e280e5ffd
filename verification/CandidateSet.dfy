// Which corruption candidates a row has: all the usable ones.
module CandidateSet {
  import opened Collections
  import opened Json
  import opened Corruption
  import opened GoldEdits

  // ---------------------------------------------------------------- the seen set

  ghost predicate Listed(found: Found, x: Text)
  {
    (exists c :: c in found.expansion && c.negative == x) || (exists c :: c in found.contraction && c.negative == x)
  }

  // The dedup set is exactly the set of negative texts listed so far.
  ghost predicate SeenExact(found: Found)
  {
    forall x :: x in found.seen <==> Listed(found, x)
  }

  lemma AddSeen(found: Found, c: Candidate)
    requires SeenExact(found)
    ensures SeenExact(AddCandidate(found, c)) && AddCandidate(found, c).seen == found.seen + {c.negative}
  {
    var more := AddCandidate(found, c);
    forall x ensures x in more.seen <==> Listed(more, x) {
      assert c in more.expansion || c in more.contraction;
      if Listed(found, x) {
        if d :| d in found.expansion && d.negative == x { assert d in more.expansion; }
        if d :| d in found.contraction && d.negative == x { assert d in more.contraction; }
      }
      if d :| d in more.expansion && d.negative == x { assert d == c || d in found.expansion; }
      if d :| d in more.contraction && d.negative == x { assert d == c || d in found.contraction; }
    }
  }

  lemma TryOneSeen(t: Target, r: Replacement, found: Found, space: Space)
    requires t.Valid() && SeenExact(found) && TryOne(t, r, found, space).Some?
    ensures var more := TryOne(t, r, found, space).value;
            && SeenExact(more) && found.seen <= more.seen
            && (Usable(t.entities, t.Source(), t.input, r, space) ==> t.Splice(r.text) in more.seen)
  {
    hide SeenExact, Usable, Parse, Denotes, Quote;
    if Usable(t.entities, t.Source(), t.input, r, space) && t.Splice(r.text) !in found.seen {
      AddSeen(found, Candidate(r.direction, r.side, t.index, t.Source(), r.text, t.Splice(r.text)));
    }
  }

  lemma {:induction false} TryAllSeen(t: Target, rs: seq<Replacement>, found: Found, space: Space)
    requires t.Valid() && SeenExact(found) && TryAll(t, rs, found, space).Some?
    ensures var more := TryAll(t, rs, found, space).value;
            && SeenExact(more) && found.seen <= more.seen
            && forall r | r in rs && Usable(t.entities, t.Source(), t.input, r, space) :: t.Splice(r.text) in more.seen
    decreases |rs|
  {
    hide SeenExact, TryOne, Usable;
    if rs != [] {
      TryOneSeen(t, rs[0], found, space);
      TryAllSeen(t, rs[1..], TryOne(t, rs[0], found, space).value, space);
      assert rs == [rs[0]] + rs[1..];
    }
  }

  // ---------------------------------------------------------------- which edits are tried

  lemma {:induction false} WideningsMember(input: Text, spans: seq<(nat, nat)>, k: nat)
    requires forall i | 0 <= i < |spans| :: spans[i].0 <= spans[i].1 <= |input|
    requires k < |spans|
    ensures var (a, b) := spans[k];
            && (a > 0 ==> Replacement(Expansion, Left, input[a - 1..b]) in Widenings(input, spans))
            && (b < |input| ==> Replacement(Expansion, Right, input[a..b + 1]) in Widenings(input, spans))
  {
    if k > 0 { WideningsMember(input, spans[1..], k - 1); }
  }

  lemma OccurrenceListed(text: Text, needle: Text, i: nat) returns (k: nat)
    requires Matches(text, needle, i)
    ensures k < |Occurrences(text, needle)| && Occurrences(text, needle)[k] == (i, i + |needle|)
  {
    StartsExact(text, needle, 0);
    k :| 0 <= k < |StartsFrom(text, needle, 0)| && StartsFrom(text, needle, 0)[k] == i;
  }

  // Every one-character change that stands in the input is among the replacements tried.
  lemma ReplacementsComplete(source: Text, input: Text, text: Text, direction: Direction, side: Side, i: nat)
    requires ChangeIsExact(source, text, direction, side) && text != [] && Matches(input, text, i)
    ensures Replacement(direction, side, text) in Replacements(source, input)
  {
    hide Occurrences, Widenings;
    if direction == Contraction {
      var two := [Replacement(Contraction, Left, source[1..]), Replacement(Contraction, Right, source[..|source| - 1])];
      assert Replacement(direction, side, text) == if side == Left then two[0] else two[1];
    } else {
      OccurrencesInside(input, source);
      var at := if side == Left then i + 1 else i;
      assert Matches(input, source, at) by { SliceMatches(input, text, i, source, side); }
      var k := OccurrenceListed(input, source, at);
      WideningsMember(input, Occurrences(input, source), k);
    }
  }

  lemma SliceMatches(input: Text, text: Text, i: nat, source: Text, side: Side)
    requires Matches(input, text, i) && ChangeIsExact(source, text, Expansion, side)
    ensures Matches(input, source, if side == Left then i + 1 else i)
  {
    if side == Left {
      SliceOfSlice(input, i, i + |text|, 1, |text|);
      assert text[1..|text|] == text[1..];
    } else {
      SliceOfSlice(input, i, i + |text|, 0, |source|);
      assert text[0..|source|] == text[..|source|];
    }
  }

  // A change of entity k by one character that the rules of the corpus allow.
  ghost predicate Editable(gold: Text, entities: seq<Entity>, input: Text, k: nat, text: Text, direction: Direction, side: Side,
                           space: Space)
  {
    && k < |entities| && |Occurrences(gold, Quote(entities[k].text))| == 1
    && ChangeIsExact(entities[k].text, text, direction, side)
    && text != [] && Stripped(text, space) && !HasControl(text)
    && (exists i: nat :: Matches(input, text, i))
    && forall i | 0 <= i < |entities| :: entities[i].text != text
  }

  // The gold text with the only literal of entity k replaced.
  function SplicedAt(gold: Text, source: Text, text: Text): Text
    requires |Occurrences(gold, Quote(source))| == 1
  {
    OccurrencesInside(gold, Quote(source));
    var (a, b) := Occurrences(gold, Quote(source))[0];
    gold[..a] + Quote(text) + gold[b..]
  }

  lemma EditableUsable(gold: Text, entities: seq<Entity>, input: Text, k: nat, text: Text, direction: Direction, side: Side,
                       space: Space)
    requires Editable(gold, entities, input, k, text, direction, side, space)
    ensures Replacement(direction, side, text) in Replacements(entities[k].text, input)
    ensures Usable(entities, entities[k].text, input, Replacement(direction, side, text), space)
  {
    hide Occurrences, Quote, Replacements;
    var i: nat :| Matches(input, text, i);
    ReplacementsComplete(entities[k].text, input, text, direction, side, i);
    assert Find(input, text, 0).Some?;
  }

  // ---------------------------------------------------------------- all entities

  ghost predicate AllTried(gold: Text, entities: seq<Entity>, input: Text, from: nat, seen: set<Text>, space: Space)
  {
    forall k: nat, text, direction, side | from <= k && Editable(gold, entities, input, k, text, direction, side, space) ::
      SplicedAt(gold, entities[k].text, text) in seen
  }

  lemma {:induction false} TryEntitiesSeen(gold: Text, input: Text, entities: seq<Entity>, index: nat, found: Found, space: Space)
    requires index <= |entities| && SeenExact(found)
    requires TryEntities(gold, input, entities, index, found, space).Some?
    ensures var all := TryEntities(gold, input, entities, index, found, space).value;
            SeenExact(all) && found.seen <= all.seen && AllTried(gold, entities, input, index, all.seen, space)
    decreases |entities| - index
  {
    hide SeenExact, TryAll, Quote, Replacements, Occurrences, Editable;
    if index == |entities| {
      NothingToTry(gold, entities, input, found.seen, space);
    } else {
      var spans := Occurrences(gold, Quote(entities[index].text));
      OccurrencesInside(gold, Quote(entities[index].text));
      if |spans| != 1 {
        TryEntitiesSeen(gold, input, entities, index + 1, found, space);
        NotEditable(gold, entities, input, index, space);
      } else {
        var t := Target(gold, entities, input, index, spans[0]);
        var rs := Replacements(t.Source(), input);
        TryAllSeen(t, rs, found, space);
        var next := TryAll(t, rs, found, space).value;
        TryEntitiesSeen(gold, input, entities, index + 1, next, space);
        var all := TryEntities(gold, input, entities, index + 1, next, space).value;
        forall text, direction, side | Editable(gold, entities, input, index, text, direction, side, space)
          ensures SplicedAt(gold, entities[index].text, text) in all.seen
        {
          EditableUsable(gold, entities, input, index, text, direction, side, space);
          assert t.Splice(text) in next.seen;
        }
      }
    }
  }

  lemma NothingToTry(gold: Text, entities: seq<Entity>, input: Text, seen: set<Text>, space: Space)
    ensures AllTried(gold, entities, input, |entities|, seen, space)
  {
  }

  lemma NotEditable(gold: Text, entities: seq<Entity>, input: Text, k: nat, space: Space)
    requires k < |entities| && |Occurrences(gold, Quote(entities[k].text))| != 1
    ensures forall text, direction, side :: !Editable(gold, entities, input, k, text, direction, side, space)
  {
  }

  // ---------------------------------------------------------------- the exact set

  // No allowed edit is missed: its splice is the negative text of some candidate.
  lemma CandidatesAreComplete(row: Row, space: Space, k: nat, text: Text, direction: Direction, side: Side)
    requires CandidatesOf(row, space).Candidates?
    ensures forall entities: seq<Entity> | Denotes(Parse(row.gold), entities)
                              && Editable(row.gold, entities, row.input, k, text, direction, side, space) ::
              Listed(CandidatesOf(row, space).found, SplicedAt(row.gold, entities[k].text, text))
  {
    hide SeenExact, Parse, RowBound, TryEntities, ReadEntities, Occurrences, Quote, ChangeIsExact, Stripped, HasControl, Matches;
    var items := ItemsOf(Parse(row.gold)).value;
    var read := ReadEntities(items, [], space).entities;
    ReadDenotes(items, [], space);
    EmptySeen();
    TryEntitiesSeen(row.gold, row.input, read, 0, Found([], [], {}), space);
    var found := CandidatesOf(row, space).found;
    forall entities: seq<Entity>
         | Denotes(Parse(row.gold), entities) && Editable(row.gold, entities, row.input, k, text, direction, side, space)
      ensures Listed(found, SplicedAt(row.gold, entities[k].text, text))
    {
      SameEntities(items, entities, read);
      assert SplicedAt(row.gold, read[k].text, text) in found.seen;
      SeenListed(found, SplicedAt(row.gold, read[k].text, text));
    }
  }

  lemma EmptySeen()
    ensures SeenExact(Found([], [], {}))
  {
  }

  lemma SeenListed(found: Found, x: Text)
    requires SeenExact(found) && x in found.seen
    ensures Listed(found, x)
  {
  }

  lemma SameEntities(items: seq<Value>, a: seq<Entity>, b: seq<Entity>)
    requires |a| == |items| && |b| == |items|
    requires forall i | 0 <= i < |items| :: EntityOf(items[i]) == Some(a[i]) && EntityOf(items[i]) == Some(b[i])
    ensures a == b
  {
  }
}
