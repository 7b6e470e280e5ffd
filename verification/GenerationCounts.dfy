// Which inputs the pair generator accepts, and the row counts it reports.
module GenerationCounts {
  import opened Collections
  import opened Ordering
  import opened Corruption
  import opened Selection
  import opened Balance
  import opened BalancedPairs

  function HasCandidates(space: Space): Row -> bool { (row: Row) => CandidatesOf(row, space).Candidates? }

  function IneligibleFor(reason: Reason, space: Space): Row -> bool
  {
    (row: Row) => CandidatesOf(row, space) == Ineligible(reason)
  }

  function CountOf(ineligible: map<Reason, nat>, reason: Reason): nat
  {
    if reason in ineligible then ineligible[reason] else 0
  }

  ghost predicate AnyInvalid(rows: seq<Row>, space: Space)
  {
    exists row :: row in rows && CandidatesOf(row, space) == Invalid
  }

  lemma {:induction false} TallyFails(rows: seq<Row>, t: Tally, space: Space, hash: Hash)
    ensures TallyRows(rows, t, space, hash) == None <==> AnyInvalid(rows, space)
    decreases |rows|
  {
    hide CandidatesOf, ChoiceOf;
    if rows != [] {
      assert rows == [rows[0]] + rows[1..];
      match CandidatesOf(rows[0], space) {
        case Invalid => assert rows[0] in rows;
        case Ineligible(reason) => TallyFails(rows[1..], t.(ineligible := Count(t.ineligible, reason)), space, hash);
        case Candidates(found) =>
          TallyFails(rows[1..], t.(choices := t.choices + [ChoiceOf(rows[0], found, hash)]), space, hash);
      }
    }
  }

  lemma {:induction false} TallyCounts(rows: seq<Row>, t: Tally, space: Space, hash: Hash)
    requires TallyRows(rows, t, space, hash).Some?
    ensures var all := TallyRows(rows, t, space, hash).value;
            && |all.choices| == |t.choices| + CountIf(rows, HasCandidates(space))
            && forall reason :: CountOf(all.ineligible, reason)
                             == CountOf(t.ineligible, reason) + CountIf(rows, IneligibleFor(reason, space))
    decreases |rows|
  {
    hide CandidatesOf, ChoiceOf;
    if rows != [] {
      match CandidatesOf(rows[0], space) {
        case Ineligible(reason) => TallyCounts(rows[1..], t.(ineligible := Count(t.ineligible, reason)), space, hash);
        case Candidates(found) =>
          TallyCounts(rows[1..], t.(choices := t.choices + [ChoiceOf(rows[0], found, hash)]), space, hash);
      }
    }
  }

  // What the generator demands of its caller, stated on the rows as given.
  ghost predicate GoodInputs(rows: seq<Row>, heldout: set<Text>, maximum: int, space: Space)
  {
    && 0 <= maximum <= MAX_EXAMPLES && maximum % 2 == 0 && [] !in heldout
    && [] !in Refs(rows) && DistinctRefs(rows) && Refs(rows) * heldout == {} && !AnyInvalid(rows, space)
  }

  // The chosen entries, in their final order.
  ghost function ChosenEntries(rows: seq<Row>, limit: nat, space: Space, hash: Hash): seq<Entry>
  {
    EntriesOf(Kept(Ordered(rows), space, hash), limit, hash)
  }

  // The ref generated for some chosen entry is a given or a held-out one.
  ghost predicate Collides(entries: seq<Entry>, taken: set<Text>, hash: Hash)
  {
    exists i :: 0 <= i < |entries| && PairOf(entries[i], hash).negativeRef in taken
  }

  lemma {:induction false} PairUpFails(entries: seq<Entry>, sources: set<Text>, heldout: set<Text>, hash: Hash,
                                       done: seq<Pair>)
    ensures PairUp(entries, sources, heldout, hash, done) == None <==> Collides(entries, sources + heldout, hash)
    decreases |entries|
  {
    hide PairOf;
    if entries != [] {
      var pair, rest := PairOf(entries[0], hash), entries[1..];
      PairUpFails(rest, sources, heldout, hash, done + [pair]);
      assert Collides(entries, sources + heldout, hash)
        <==> pair.negativeRef in sources + heldout || Collides(rest, sources + heldout, hash) by {
        CollidesFront(entries, sources + heldout, hash);
      }
    }
  }

  lemma CollidesFront(entries: seq<Entry>, taken: set<Text>, hash: Hash)
    requires entries != []
    ensures Collides(entries, taken, hash)
       <==> PairOf(entries[0], hash).negativeRef in taken || Collides(entries[1..], taken, hash)
  {
    hide PairOf;
    if Collides(entries[1..], taken, hash) {
      var i :| 0 <= i < |entries[1..]| && PairOf(entries[1..][i], hash).negativeRef in taken;
      assert entries[i + 1] == entries[1..][i];
    }
    if i :| 1 <= i < |entries| && PairOf(entries[i], hash).negativeRef in taken {
      assert entries[1..][i - 1] == entries[i];
    }
  }

  lemma OrderedDistinct(rows: seq<Row>)
    ensures DistinctRefs(Ordered(rows)) <==> DistinctRefs(rows)
  {
    hide Ordered;
    OrderedMembers(rows);
    if DistinctRefs(rows) {
      KeysDistinctPermuted(rows, Ordered(rows), RowRef());
      AsDistinctRefs(Ordered(rows));
    }
    if DistinctRefs(Ordered(rows)) {
      KeysDistinctPermuted(Ordered(rows), rows, RowRef());
      AsDistinctRefs(rows);
    }
  }

  lemma AsDistinctRefs(rows: seq<Row>)
    requires KeysDistinct(rows, RowRef())
    ensures DistinctRefs(rows)
  {
    forall i, j | 0 <= i < j < |rows| ensures rows[i].ref != rows[j].ref {
      assert RowRef()(rows[i]) != RowRef()(rows[j]);
    }
  }

  // Good inputs are accepted unless a generated ref is already taken, and nothing else is; a taken ref is
  // the one reason to refuse them; the reported numbers count the rows by what their candidates are.
  lemma AcceptanceExact(rows: seq<Row>, heldout: set<Text>, maximum: int, space: Space, hash: Hash)
    ensures var g := GenerationOf(rows, heldout, maximum, space, hash);
            && (g.Generated? <==> GoodInputs(rows, heldout, maximum, space)
                                  && !Collides(ChosenEntries(rows, maximum / 2, space, hash), Refs(rows) + heldout, hash))
            && (g == Declined(Collision) <==>
                  && GoodInputs(rows, heldout, maximum, space)
                  && Collides(ChosenEntries(rows, maximum / 2, space, hash), Refs(rows) + heldout, hash))
            && (g.Generated? ==>
                  && g.eligible == CountIf(rows, HasCandidates(space))
                  && forall reason :: CountOf(g.ineligible, reason) == CountIf(rows, IneligibleFor(reason, space)))
  {
    hide EntriesOf, TallyRows, PairUp, Sort, Refs, DistinctRefs, CandidatesOf, HasCandidates, IneligibleFor, Collides, Kept;
    var ordered := Ordered(rows);
    OrderedMembers(rows);
    OrderedDistinct(rows);
    NeverUnbalanced(rows, heldout, maximum, space, hash);
    TallyFails(ordered, Tally([], map[]), space, hash);
    assert AnyInvalid(ordered, space) <==> AnyInvalid(rows, space);
    if TallyRows(ordered, Tally([], map[]), space, hash).Some? {
      if 0 <= maximum && DistinctRefs(ordered) {
        ChoicesSource(ordered, space, hash);
        PairUpFails(ChosenEntries(rows, maximum / 2, space, hash), Refs(ordered), heldout, hash, []);
      }
      TallyCounts(ordered, Tally([], map[]), space, hash);
      CountPermuted(ordered, rows, HasCandidates(space));
      forall reason
        ensures CountIf(ordered, IneligibleFor(reason, space)) == CountIf(rows, IneligibleFor(reason, space))
      {
        CountPermuted(ordered, rows, IneligibleFor(reason, space));
      }
    }
  }
}
