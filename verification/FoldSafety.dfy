// The safety of the boundary folds.
module FoldSafety {
  // The folds never share a row, and the evaluator rebuilds exactly the trainer's validation fold.

  import opened Collections
  import opened Ordering
  import opened Corruption
  import opened BoundaryFold
  import HashSplit
  import Selection
  import Balance
  import BalancedPairs

  // ---------------------------------------------------------------- positions and picks

  lemma {:induction false} PositionsExact(refs: seq<Text>, chosen: set<Text>, inside: bool)
    ensures forall i: nat :: i in Positions(refs, chosen, inside) <==> i < |refs| && (refs[i] in chosen) == inside
    ensures forall i, j | 0 <= i < j < |Positions(refs, chosen, inside)| ::
              Positions(refs, chosen, inside)[i] < Positions(refs, chosen, inside)[j]
  {
    if refs != [] { PositionsExact(refs[..|refs| - 1], chosen, inside); }
  }

  lemma {:induction false} PositionCount(refs: seq<Text>, chosen: set<Text>)
    ensures |Positions(refs, chosen, true)| + |Positions(refs, chosen, false)| == |refs|
  {
    if refs != [] { PositionCount(refs[..|refs| - 1], chosen); }
  }

  lemma PickedMember(refs: seq<Text>, positions: seq<nat>, ref: Text)
    requires forall i | 0 <= i < |positions| :: positions[i] < |refs|
    ensures ref in Members(Pick(refs, positions)) <==> exists i :: i in positions && refs[i] == ref
  {
    var picked := Pick(refs, positions);
    if ref in picked {
      var i :| 0 <= i < |picked| && picked[i] == ref;
      assert positions[i] in positions;
    }
    if i :| i in positions && refs[i] == ref {
      var j :| 0 <= j < |positions| && positions[j] == i;
      assert picked[j] == ref;
    }
  }

  lemma PickedUnique(refs: seq<Text>, positions: seq<nat>)
    requires forall i | 0 <= i < |positions| :: positions[i] < |refs|
    requires forall i, j | 0 <= i < j < |positions| :: positions[i] < positions[j]
    ensures Unique(refs) ==> Unique(Pick(refs, positions))
  {
  }

  // The refs picked on one side are the listed refs on that side, once each.
  lemma PickedRefs(refs: seq<Text>, chosen: set<Text>, inside: bool)
    ensures forall ref ::
              ref in Members(Pick(refs, Positions(refs, chosen, inside))) <==> ref in refs && (ref in chosen) == inside
    ensures Members(Pick(refs, Positions(refs, chosen, inside))) <= Members(refs)
    ensures Unique(refs) ==> Unique(Pick(refs, Positions(refs, chosen, inside)))
  {
    hide Positions, Pick, Unique;
    var positions := Positions(refs, chosen, inside);
    PositionsExact(refs, chosen, inside);
    PickedUnique(refs, positions);
    forall ref ensures ref in Members(Pick(refs, positions)) <==> ref in refs && (ref in chosen) == inside {
      PickedMember(refs, positions, ref);
      if ref in refs && (ref in chosen) == inside {
        var i: nat :| i < |refs| && refs[i] == ref;
        assert i in positions;
      }
    }
  }

  // ---------------------------------------------------------------- the inner split

  lemma UniqueKeys(refs: seq<Text>)
    requires Unique(refs)
    ensures KeysDistinct(refs, Itself())
  {
  }

  lemma SortedMembers(refs: seq<Text>)
    ensures multiset(Sorted(refs)) == multiset(refs) && |Sorted(refs)| == |refs|
    ensures Members(Sorted(refs)) == Members(refs)
  {
    SortPermutes(refs, ByKey(TextKey()));
    MembersPermuted(refs, Sorted(refs));
  }

  // Lists with the same members and no repetition have the same sorted form.
  lemma SortedSame(a: seq<Text>, b: seq<Text>)
    requires Unique(a) && Unique(b) && Members(a) == Members(b)
    ensures Sorted(a) == Sorted(b)
  {
    assert forall ref :: ref in a <==> ref in Members(a);
    assert forall ref :: ref in b <==> ref in Members(b);
    SameMembersPermute(a, b);
    KeyedSortCanonical(a, b, TextKey());
  }

  // The split is refused only for bad input: the disjointness check that follows it cannot fire.
  lemma SplitNeverBroken(refs: seq<Text>, reserved: seq<Text>, sizes: Sizes, tools: Tools)
    ensures SplitEncoded(refs, reserved, sizes, tools).Folded?
       <==> && |refs| == sizes.encoded && |reserved| == sizes.outer && Clean(refs, tools.space) && Clean(reserved, tools.space)
            && Unique(refs) && Unique(reserved) && Members(refs) !! Members(reserved)
    ensures SplitEncoded(refs, reserved, sizes, tools) != NotFolded(NotAPartition)
  {
    hide Clean, Positions, Pick, Sorted, Unique;
    var chosen := HashSplit.FirstRefs(refs, Itself(), sizes.validation, tools.foldHash);
    PickedRefs(refs, chosen, true);
    PickedRefs(refs, chosen, false);
    PositionCount(refs, chosen);
    assert Members(Pick(refs, Positions(refs, chosen, true))) <= Members(refs);
    assert Members(Pick(refs, Positions(refs, chosen, false))) <= Members(refs);
  }

  // The fold: train and validation refs partition the encoded refs, and a ref is validation exactly when
  // fewer than the validation size of the encoded refs rank before it.
  lemma SplitMeaning(refs: seq<Text>, reserved: seq<Text>, sizes: Sizes, tools: Tools)
    requires SplitEncoded(refs, reserved, sizes, tools).Folded?
    ensures var f := SplitEncoded(refs, reserved, sizes, tools).fold;
            && Members(f.outerRefs) == Members(reserved) && Members(f.outerRefs) !! Members(refs)
            && Members(f.trainRefs) !! Members(f.validationRefs)
            && Members(f.trainRefs) + Members(f.validationRefs) == Members(refs)
            && |f.trainRefs| + |f.validationRefs| == |refs|
            && Members(f.trainRefs) == Members(Pick(refs, f.train))
            && f.validationRefs == Sorted(Pick(refs, f.validation)) && Unique(Pick(refs, f.validation))
            && |f.train| == |f.trainRefs| && |f.validation| == |f.validationRefs|
            && |f.validationRefs| == (if sizes.validation < |refs| then sizes.validation else |refs|)
    ensures forall ref | ref in refs ::
              ref in SplitEncoded(refs, reserved, sizes, tools).fold.validationRefs
              <==> CountIf(refs, HashSplit.Earlier(Itself(), tools.foldHash, ref)) < sizes.validation
  {
    hide Clean, Positions, Pick, Sorted, Unique, CountIf;
    var chosen := HashSplit.FirstRefs(refs, Itself(), sizes.validation, tools.foldHash);
    var f := SplitEncoded(refs, reserved, sizes, tools).fold;
    PickedRefs(refs, chosen, true);
    PickedRefs(refs, chosen, false);
    PositionCount(refs, chosen);
    SortedMembers(reserved);
    SortedMembers(Pick(refs, f.train));
    SortedMembers(Pick(refs, f.validation));
    UniqueKeys(refs);
    ChosenCount(refs, chosen, sizes, tools);
    forall ref | ref in refs
      ensures ref in f.validationRefs <==> CountIf(refs, HashSplit.Earlier(Itself(), tools.foldHash, ref)) < sizes.validation
    {
      HashSplit.FirstExact(refs, Itself(), sizes.validation, tools.foldHash, ref);
      assert ref in f.validationRefs <==> ref in Members(f.validationRefs);
    }
  }

  lemma ChosenCount(refs: seq<Text>, chosen: set<Text>, sizes: Sizes, tools: Tools)
    requires Unique(refs) && chosen == HashSplit.FirstRefs(refs, Itself(), sizes.validation, tools.foldHash)
    ensures |Positions(refs, chosen, true)| == if sizes.validation < |refs| then sizes.validation else |refs|
  {
    var picked := Pick(refs, Positions(refs, chosen, true));
    UniqueKeys(refs);
    PickedRefs(refs, chosen, true);
    HashSplit.FirstSize(refs, Itself(), sizes.validation, tools.foldHash);
    forall ref ensures ref in Members(picked) <==> ref in chosen {
      if ref in chosen { HashSplit.FirstAmong(refs, Itself(), sizes.validation, tools.foldHash, ref); }
    }
    assert Members(picked) == chosen;
    UniqueCount(picked);
  }

  lemma {:induction false} UniqueCount(refs: seq<Text>)
    requires Unique(refs)
    ensures |Members(refs)| == |refs|
  {
    if refs == [] {
      assert Members(refs) == {};
    } else {
      var n := |refs| - 1;
      UniqueCount(refs[..n]);
      assert refs == refs[..n] + [refs[n]];
      assert Members(refs) == Members(refs[..n]) + {refs[n]};
      assert refs[n] !in Members(refs[..n]);
    }
  }

  // ---------------------------------------------------------------- rows, reserve, skipped, encoded

  lemma RefMember(rows: seq<Row>, ref: Text)
    ensures ref in Members(RefList(rows)) <==> exists row :: row in rows && row.ref == ref
    ensures ref in Members(RefList(rows)) <==> ref in Selection.Refs(rows)
  {
    if ref in RefList(rows) {
      var i :| 0 <= i < |rows| && RefList(rows)[i] == ref;
      assert rows[i] in rows;
    }
    if row :| row in rows && row.ref == ref {
      var i :| 0 <= i < |rows| && rows[i] == row;
      assert RefList(rows)[i] == ref;
    }
  }

  lemma UniqueRows(rows: seq<Row>)
    ensures Unique(RefList(rows)) <==> KeysDistinct(rows, BalancedPairs.RowRef())
    ensures Unique(RefList(rows)) <==> Selection.DistinctRefs(rows)
  {
    if Unique(RefList(rows)) {
      forall i, j | 0 <= i < j < |rows| ensures rows[i].ref != rows[j].ref {
        assert RefList(rows)[i] != RefList(rows)[j];
      }
    }
    if KeysDistinct(rows, BalancedPairs.RowRef()) {
      forall i, j | 0 <= i < j < |rows| ensures RefList(rows)[i] != RefList(rows)[j] {
        assert BalancedPairs.RowRef()(rows[i]) != BalancedPairs.RowRef()(rows[j]);
      }
    }
  }

  // The shuffle rearranges the rows it is given.
  ghost predicate Rearranges(tools: Tools, rows: seq<Row>) { multiset(tools.shuffle(rows)) == multiset(rows) }

  // The reserve and the remaining rows share no ref and together are the corpus.
  lemma OuterMeaning(rows: seq<Row>, sizes: Sizes, tools: Tools)
    requires OuterPartition(rows, sizes, tools).Some? && Rearranges(tools, rows)
    ensures var o := OuterPartition(rows, sizes, tools).value;
            && Unique(RefList(o.reserve)) && Unique(RefList(o.remaining))
            && Members(RefList(o.reserve)) !! Members(RefList(o.remaining))
            && Members(RefList(o.reserve)) + Members(RefList(o.remaining)) == Members(RefList(rows))
            && |o.reserve| + |o.remaining| == |rows|
  {
    hide Clean, RefList, Unique;
    var shuffled := tools.shuffle(rows);
    var o := OuterPartition(rows, sizes, tools).value;
    SameLength(rows, shuffled);
    assert shuffled == o.reserve + o.remaining;
    UniqueRows(rows);
    KeysDistinctPermuted(rows, shuffled, BalancedPairs.RowRef());
    UniqueRows(shuffled);
    RefsAppend(o.reserve, o.remaining);
    RefsPermuted(rows, shuffled);
    UniqueHalves(RefList(o.reserve), RefList(o.remaining));
  }

  lemma RefsAppend(a: seq<Row>, b: seq<Row>)
    ensures RefList(a + b) == RefList(a) + RefList(b)
  {
  }

  lemma RefsPermuted(a: seq<Row>, b: seq<Row>)
    requires multiset(a) == multiset(b)
    ensures Members(RefList(a)) == Members(RefList(b))
  {
    hide RefList;
    MembersPermuted(a, b);
    forall ref ensures ref in Members(RefList(a)) <==> ref in Members(RefList(b)) {
      RefMember(a, ref);
      RefMember(b, ref);
    }
  }

  lemma UniqueHalves(a: seq<Text>, b: seq<Text>)
    requires Unique(a + b)
    ensures Unique(a) && Unique(b) && Members(a) !! Members(b)
  {
    assert forall i | 0 <= i < |a| :: (a + b)[i] == a[i];
    assert forall i | 0 <= i < |b| :: (a + b)[|a| + i] == b[i];
    forall i, j | 0 <= i < |a| && 0 <= j < |b| ensures a[i] != b[j] {
      assert (a + b)[i] != (a + b)[|a| + j];
    }
  }

  lemma {:induction false} SkippedSplit(rows: seq<Row>, skipped: set<Text>)
    ensures forall row :: row in Without(rows, skipped) <==> row in rows && row.ref !in skipped
    ensures forall row :: row in Within(rows, skipped) <==> row in rows && row.ref in skipped
  {
    if rows != [] {
      SkippedSplit(rows[1..], skipped);
      assert rows == [rows[0]] + rows[1..];
    }
  }

  lemma {:induction false} SkippedUnique(rows: seq<Row>, skipped: set<Text>)
    requires KeysDistinct(rows, BalancedPairs.RowRef())
    ensures KeysDistinct(Without(rows, skipped), BalancedPairs.RowRef())
    ensures KeysDistinct(Within(rows, skipped), BalancedPairs.RowRef())
  {
    if rows != [] {
      var rest := rows[1..];
      assert KeysDistinct(rest, BalancedPairs.RowRef());
      SkippedUnique(rest, skipped);
      SkippedSplit(rest, skipped);
      var out, less := Without(rows, skipped), Without(rest, skipped);
      var kept, fewer := Within(rows, skipped), Within(rest, skipped);
      forall i | 0 <= i < |less| ensures less[i].ref != rows[0].ref { assert less[i] in less; }
      forall i | 0 <= i < |fewer| ensures fewer[i].ref != rows[0].ref { assert fewer[i] in fewer; }
    }
  }

  // Removing the skipped refs leaves the others, each once.
  lemma EncodedMeaning(remaining: seq<Row>, skipped: set<Text>)
    requires Unique(RefList(remaining))
    ensures Unique(RefList(Without(remaining, skipped))) && Unique(RefList(Within(remaining, skipped)))
    ensures Members(RefList(Without(remaining, skipped))) == Members(RefList(remaining)) - skipped
    ensures Members(RefList(Within(remaining, skipped))) == Members(RefList(remaining)) * skipped
  {
    hide Without, Within, RefList;
    UniqueRows(remaining);
    SkippedUnique(remaining, skipped);
    UniqueRows(Without(remaining, skipped));
    UniqueRows(Within(remaining, skipped));
    SkippedSplit(remaining, skipped);
    forall ref
      ensures ref in Members(RefList(Without(remaining, skipped))) <==> ref in Members(RefList(remaining)) && ref !in skipped
      ensures ref in Members(RefList(Within(remaining, skipped))) <==> ref in Members(RefList(remaining)) && ref in skipped
    {
      RefMember(remaining, ref);
      RefMember(Without(remaining, skipped), ref);
      RefMember(Within(remaining, skipped), ref);
    }
  }

  // ---------------------------------------------------------------- the rows given to the generator

  lemma {:induction false} ByRefMeaning(rows: seq<Row>)
    ensures forall ref :: ref in ByRef(rows) <==> ref in Members(RefList(rows))
    ensures forall ref | ref in ByRef(rows) :: ByRef(rows)[ref].ref == ref
  {
    if rows != [] {
      var n := |rows| - 1;
      ByRefMeaning(rows[..n]);
      assert rows == rows[..n] + [rows[n]];
      assert RefList(rows) == RefList(rows[..n]) + [rows[n].ref];
    }
  }

  lemma {:induction false} SourcesMeaning(byRef: map<Text, Row>, refs: seq<Text>)
    requires Sources(byRef, refs).Some? && forall ref | ref in byRef :: byRef[ref].ref == ref
    ensures RefList(Sources(byRef, refs).value) == refs
  {
    if refs != [] {
      SourcesMeaning(byRef, refs[1..]);
      assert refs == [refs[0]] + refs[1..];
      assert RefList(Sources(byRef, refs).value) == [refs[0]] + RefList(Sources(byRef, refs[1..]).value);
    }
  }

  // Every pair starts from a ref of the sources and gets a ref found neither there nor held out.
  ghost predicate PairsFrom(pairs: seq<Selection.Pair>, sources: set<Text>, heldout: set<Text>)
  {
    forall i | 0 <= i < |pairs| :: pairs[i].source in sources && pairs[i].negativeRef !in sources + heldout
  }

  lemma GeneratedFrom(rows: seq<Row>, heldout: set<Text>, requested: int, space: Space, hash: Selection.Hash)
    requires Selection.GenerationOf(rows, heldout, requested, space, hash).Generated?
    ensures PairsFrom(Selection.GenerationOf(rows, heldout, requested, space, hash).pairs, Members(RefList(rows)), heldout)
  {
    hide Selection.GenerationOf, Balance.LargestFeasible, BalancedPairs.IsEditOf, RefList;
    var pairs := Selection.GenerationOf(rows, heldout, requested, space, hash).pairs;
    BalancedPairs.GenerationIsOptimal(rows, heldout, requested, space, hash);
    forall i | 0 <= i < |pairs| ensures pairs[i].source in Members(RefList(rows)) {
      BalancedPairs.PairsAreEdits(rows, heldout, requested, space, hash, i);
      var row, entities :| row in rows && BalancedPairs.IsEditOf(pairs[i], row, entities, space, hash);
      EditSource(pairs[i], row, entities, space, hash);
      RefMember(rows, row.ref);
    }
    forall ref ensures ref in Members(RefList(rows)) <==> ref in Selection.Refs(rows) { RefMember(rows, ref); }
  }

  lemma EditSource(pair: Selection.Pair, row: Row, entities: seq<Entity>, space: Space, hash: Selection.Hash)
    requires BalancedPairs.IsEditOf(pair, row, entities, space, hash)
    ensures pair.source == row.ref
  {
  }

  // ---------------------------------------------------------------- safety of the manifest

  // The four groups of refs are disjoint and cover the corpus; pairs start from inner-train refs only and
  // their own refs are new to the whole corpus.
  ghost predicate Safe(m: Manifest, corpus: set<Text>)
  {
    var outer, skipped := Members(m.fold.outerRefs), Members(m.skipped);
    var train, validation := Members(m.fold.trainRefs), Members(m.fold.validationRefs);
    && outer !! skipped && outer !! train && outer !! validation
    && skipped !! train && skipped !! validation && train !! validation
    && outer + skipped + train + validation == corpus
    && PairsFrom(m.pairs, train, outer + skipped + validation)
  }

  lemma SafeParts(m: Manifest, corpus: set<Text>, remaining: set<Text>, encoded: set<Text>)
    requires var outer, skipped := Members(m.fold.outerRefs), Members(m.skipped);
             var train, validation := Members(m.fold.trainRefs), Members(m.fold.validationRefs);
             && outer !! remaining && outer + remaining == corpus && skipped <= remaining && encoded == remaining - skipped
             && train !! validation && train + validation == encoded
             && PairsFrom(m.pairs, train, outer + validation + skipped)
    ensures Safe(m, corpus)
  {
    var outer, skipped := Members(m.fold.outerRefs), Members(m.skipped);
    var train, validation := Members(m.fold.trainRefs), Members(m.fold.validationRefs);
    assert train <= encoded && validation <= encoded;
    assert outer + skipped + train + validation == corpus;
    assert outer + validation + skipped == outer + skipped + validation;
  }

  lemma FoldsAreSafe(rows: seq<Row>, skippedRefs: seq<Text>, pinned: seq<Text>, requested: int, sizes: Sizes, tools: Tools)
    requires BuildManifest(rows, skippedRefs, pinned, requested, sizes, tools).Some? && Rearranges(tools, rows)
    ensures Safe(BuildManifest(rows, skippedRefs, pinned, requested, sizes, tools).value, Members(RefList(rows)))
  {
    hide OuterPartition, SplitEncoded, Without, RefList, Sorted, ByRef, Sources, Pick, Selection.GenerationOf, Unique,
         PairsFrom, Safe;
    var m := BuildManifest(rows, skippedRefs, pinned, requested, sizes, tools).value;
    var o := OuterPartition(rows, sizes, tools).value;
    var encoded, outerRefs := RefList(Without(o.remaining, Members(m.skipped))), RefList(o.reserve);
    OuterMeaning(rows, sizes, tools);
    ByRefMeaning(o.remaining);
    EncodedMeaning(o.remaining, Members(m.skipped));
    SplitMeaning(encoded, outerRefs, sizes, tools);
    var sources := Sources(ByRef(o.remaining), Pick(encoded, m.fold.train)).value;
    SourcesMeaning(ByRef(o.remaining), Pick(encoded, m.fold.train));
    GeneratedFrom(sources, Members(outerRefs) + Members(m.fold.validationRefs) + Members(m.skipped), requested, tools.space,
                  tools.pairHash);
    forall ref | ref in Members(m.skipped) ensures ref in Members(RefList(o.remaining)) {
      var i :| 0 <= i < |m.skipped| && m.skipped[i] == ref;
    }
    SafeParts(m, Members(RefList(rows)), Members(RefList(o.remaining)), Members(encoded));
  }

  // ---------------------------------------------------------------- the evaluator

  // No pair starts from, or is named like, one of the refs.
  ghost predicate Untouched(pairs: seq<Selection.Pair>, refs: seq<Text>)
  {
    forall i | 0 <= i < |pairs| :: pairs[i].source !in Members(refs) && pairs[i].negativeRef !in Members(refs)
  }

  lemma SafeUntouched(m: Manifest, corpus: set<Text>, refs: seq<Text>)
    requires Safe(m, corpus) && Members(refs) == Members(m.fold.validationRefs)
    ensures Untouched(m.pairs, refs)
  {
  }

  lemma EvaluatorSelects(rows: seq<Row>, m: Manifest, o: Outer, pinned: seq<Text>, sizes: Sizes, tools: Tools)
    requires OuterPartition(rows, sizes, tools) == Some(o) && Unique(pinned) && |pinned| == sizes.skipped
    requires sizes.validation <= sizes.encoded && sizes.train == sizes.encoded - sizes.validation
    requires Sorted(RefList(Within(o.remaining, Members(pinned)))) == Sorted(pinned)
    requires SplitEncoded(RefList(Without(o.remaining, Members(pinned))), RefList(o.reserve), sizes, tools) == Folded(m.fold)
    ensures InnerSelection(rows, pinned, pinned, sizes, tools).Some?
    ensures Sorted(InnerSelection(rows, pinned, pinned, sizes, tools).value.refs) == m.fold.validationRefs
  {
    hide OuterPartition, SplitEncoded, Without, Within, RefList, Sorted, Unique, CountIf, Pick;
    var encodedRows := Without(o.remaining, Members(pinned));
    UniqueCount(pinned);
    SplitMeaning(RefList(encodedRows), RefList(o.reserve), sizes, tools);
    SplitNeverBroken(RefList(encodedRows), RefList(o.reserve), sizes, tools);
    PickedRows(encodedRows, m.fold.validation);
  }

  // Whenever the trainer's manifest is built, the evaluator accepts the same corpus and selects exactly
  // the manifest's inner-validation refs, which no pair touches.
  lemma EvaluatorAgrees(rows: seq<Row>, skippedRefs: seq<Text>, pinned: seq<Text>, requested: int, sizes: Sizes, tools: Tools)
    requires BuildManifest(rows, skippedRefs, pinned, requested, sizes, tools).Some? && Rearranges(tools, rows)
    requires Unique(pinned) && |pinned| == sizes.skipped
    requires sizes.validation <= sizes.encoded && sizes.train == sizes.encoded - sizes.validation
    ensures var e := InnerSelection(rows, pinned, pinned, sizes, tools);
            var m := BuildManifest(rows, skippedRefs, pinned, requested, sizes, tools).value;
            e.Some? && Sorted(e.value.refs) == m.fold.validationRefs && Untouched(m.pairs, e.value.refs)
  {
    hide BuildManifest, InnerSelection, OuterPartition, SplitEncoded, Without, Within, RefList, Sorted, Unique, Safe, Untouched;
    var m := BuildManifest(rows, skippedRefs, pinned, requested, sizes, tools).value;
    FoldsAreSafe(rows, skippedRefs, pinned, requested, sizes, tools);
    SkippedSame(rows, skippedRefs, pinned, requested, sizes, tools);
    EvaluatorSelects(rows, m, OuterPartition(rows, sizes, tools).value, pinned, sizes, tools);
    var refs := InnerSelection(rows, pinned, pinned, sizes, tools).value.refs;
    SortedMembers(refs);
    SafeUntouched(m, Members(RefList(rows)), refs);
  }

  lemma PickedRows(rows: seq<Row>, positions: seq<nat>)
    requires forall i | 0 <= i < |positions| :: positions[i] < |rows|
    ensures RefList(Pick(rows, positions)) == Pick(RefList(rows), positions)
  {
  }

  lemma SkippedSame(rows: seq<Row>, skippedRefs: seq<Text>, pinned: seq<Text>, requested: int, sizes: Sizes, tools: Tools)
    requires BuildManifest(rows, skippedRefs, pinned, requested, sizes, tools).Some? && Rearranges(tools, rows)
    requires Unique(pinned)
    ensures var m := BuildManifest(rows, skippedRefs, pinned, requested, sizes, tools).value;
            var o := OuterPartition(rows, sizes, tools).value;
            && OuterPartition(rows, sizes, tools).Some? && Members(m.skipped) == Members(pinned)
            && Sorted(RefList(Within(o.remaining, Members(pinned)))) == Sorted(pinned)
            && SplitEncoded(RefList(Without(o.remaining, Members(pinned))), RefList(o.reserve), sizes, tools) == Folded(m.fold)
  {
    hide OuterPartition, SplitEncoded, Without, Within, RefList, Sorted, ByRef, Sources, Selection.GenerationOf, Unique, Pick;
    var m := BuildManifest(rows, skippedRefs, pinned, requested, sizes, tools).value;
    var o := OuterPartition(rows, sizes, tools).value;
    SortedMembers(pinned);
    OuterMeaning(rows, sizes, tools);
    ByRefMeaning(o.remaining);
    EncodedMeaning(o.remaining, Members(pinned));
    forall ref | ref in Members(pinned) ensures ref in Members(RefList(o.remaining)) {
      var i :| 0 <= i < |m.skipped| && m.skipped[i] == ref;
    }
    var within := RefList(Within(o.remaining, Members(pinned)));
    assert Members(within) == Members(pinned);
    SortedSame(within, pinned);
  }
}
