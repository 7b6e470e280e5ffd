// The folds of the boundary corpus, position by position.
module FoldExact {
  import opened Collections
  import opened Ordering
  import opened TextOrder
  import opened Corruption
  import opened BoundaryFold
  import opened FoldSafety
  import HashSplit
  import Selection
  import BalancedPairs

  // ---------------------------------------------------------------- lists of refs

  ghost predicate CleanRef(ref: Text, space: Space) { ref != [] && !space(ref[0]) && !space(ref[|ref| - 1]) }

  ghost predicate CleanList(refs: seq<Text>, space: Space)
  {
    (forall i | 0 <= i < |refs| :: CleanRef(refs[i], space)) && forall i, j | 0 <= i < j < |refs| :: refs[i] != refs[j]
  }

  lemma CleanExact(refs: seq<Text>, space: Space)
    ensures Clean(refs, space) && Unique(refs) <==> CleanList(refs, space)
  {
  }

  // The same refs in increasing order.
  ghost predicate Arranged(list: seq<Text>, refs: seq<Text>)
  {
    multiset(list) == multiset(refs) && forall i, j | 0 <= i < j < |list| :: list[i] == list[j] || Below(list[i], list[j])
  }

  lemma ArrangedExact(list: seq<Text>, refs: seq<Text>)
    ensures Sorted(refs) == list <==> Arranged(list, refs)
  {
    hide Below, LexLeq;
    var leq := ByKey(TextKey());
    KeyOrder(TextKey());
    SortSorted(refs, leq);
    SortPermutes(refs, leq);
    forall a, b ensures leq(a, b) <==> a == b || Below(a, b) {
      LexExact(a, b);
      LexTotal([], []);
    }
    if Arranged(list, refs) {
      assert SortedBy(leq, list);
      forall i, j | 0 <= i < |list| && 0 <= j < |list| && leq(list[i], list[j]) && leq(list[j], list[i])
        ensures list[i] == list[j]
      {
        Asymmetric(list[i], list[j]);
      }
      SortedUnique(list, Sorted(refs), leq);
    }
  }

  // How many refs rank before this one by (hash, ref).
  ghost function RankedBefore(refs: seq<Text>, hash: HashSplit.Hash, ref: Text): nat
  {
    |set i | 0 <= i < |refs| && Ahead((hash(refs[i]), refs[i]), (hash(ref), ref))|
  }

  lemma BeforeExact(hash: HashSplit.Hash, a: Text, b: Text)
    ensures HashSplit.Before(hash, a, b) <==> Ahead((hash(a), a), (hash(b), b))
  {
    hide Ahead, PairLeq;
    PairExact((hash(a), a), (hash(b), b));
  }

  lemma {:induction false} CountIsRank(refs: seq<Text>, hash: HashSplit.Hash, ref: Text)
    ensures CountIf(refs, HashSplit.Earlier(Itself(), hash, ref)) == RankedBefore(refs, hash, ref)
  {
    hide Ahead, HashSplit.Before;
    var earlier := HashSplit.Earlier(Itself(), hash, ref);
    if refs == [] {
      NoneBefore(hash, ref);
    } else {
      var n := |refs| - 1;
      var less := refs[..n];
      CountIsRank(less, hash, ref);
      BeforeExact(hash, refs[n], ref);
      assert refs == less + [refs[n]];
      CountAppend(less, [refs[n]], earlier);
      var all := set i | 0 <= i < |refs| && Ahead((hash(refs[i]), refs[i]), (hash(ref), ref));
      var some := set i | 0 <= i < |less| && Ahead((hash(less[i]), less[i]), (hash(ref), ref));
      assert all == some + if earlier(refs[n]) then {n} else {};
      assert CountIf([refs[n]], earlier) == if earlier(refs[n]) then 1 else 0;
    }
  }

  lemma NoneBefore(hash: HashSplit.Hash, ref: Text)
    ensures RankedBefore([], hash, ref) == 0
  {
    hide Ahead;
  }

  ghost predicate Rising(p: seq<nat>) { forall i, j | 0 <= i < j < |p| :: p[i] < p[j] }

  // Increasing lists with the same members are equal.
  lemma {:induction false} RisingUnique(p: seq<nat>, q: seq<nat>)
    requires Rising(p) && Rising(q) && forall i: nat :: i in p <==> i in q
    ensures p == q
    decreases |p|
  {
    BothEmpty(p, q);
    if p != [] {
      var a, b := p[|p| - 1], q[|q| - 1];
      assert a in q && b in p;
      assert a == b;
      var p', q' := p[..|p| - 1], q[..|q| - 1];
      forall i: nat ensures i in p' <==> i in q' {
        LastApart(p, i);
        LastApart(q, i);
      }
      RisingUnique(p', q');
      assert p == p' + [a] && q == q' + [b];
    }
  }

  lemma BothEmpty(p: seq<nat>, q: seq<nat>)
    requires forall i: nat :: i in p <==> i in q
    ensures p == [] <==> q == []
  {
    if p != [] { assert p[0] in q; }
    if q != [] { assert q[0] in p; }
  }

  lemma LastApart(p: seq<nat>, i: nat)
    requires Rising(p) && p != []
    ensures i in p[..|p| - 1] <==> i in p && i != p[|p| - 1]
  {
    if i in p && i != p[|p| - 1] {
      var k :| 0 <= k < |p| && p[k] == i;
      assert p[..|p| - 1][k] == i;
    }
  }

  // The members at these positions.
  ghost predicate Picked<T>(list: seq<T>, items: seq<T>, p: seq<nat>)
  {
    |list| == |p| && forall k | 0 <= k < |p| :: p[k] < |items| && list[k] == items[p[k]]
  }

  // ---------------------------------------------------------------- the outer reserve

  // The reserve is the front of the shuffled corpus.
  ghost predicate OuterIs(rows: seq<Row>, o: Outer, sizes: Sizes, tools: Tools)
  {
    && |rows| == sizes.corpus && (forall i | 0 <= i < |rows| :: rows[i].train && CleanRef(rows[i].ref, tools.space))
    && (forall i, j | 0 <= i < j < |rows| :: rows[i].ref != rows[j].ref)
    && o.reserve + o.remaining == tools.shuffle(rows)
    && (|o.reserve| == sizes.outer || (|o.reserve| < sizes.outer && o.remaining == []))
  }

  lemma OuterExact(rows: seq<Row>, o: Outer, sizes: Sizes, tools: Tools)
    ensures OuterPartition(rows, sizes, tools) == Some(o) <==> OuterIs(rows, o, sizes, tools)
  {
    var shuffled := tools.shuffle(rows);
    var refs := RefList(rows);
    assert forall i | 0 <= i < |rows| :: refs[i] == rows[i].ref;
    var n := if sizes.outer < |shuffled| then sizes.outer else |shuffled|;
    assert shuffled == shuffled[..n] + shuffled[n..];
    if OuterIs(rows, o, sizes, tools) {
      assert |o.reserve| == n;
      assert shuffled[..n] == o.reserve && shuffled[n..] == o.remaining;
    }
  }

  // ---------------------------------------------------------------- the inner split

  ghost predicate SplitInput(refs: seq<Text>, reserved: seq<Text>, sizes: Sizes, tools: Tools)
  {
    && CleanList(refs, tools.space) && CleanList(reserved, tools.space)
    && forall i, j | 0 <= i < |refs| && 0 <= j < |reserved| :: refs[i] != reserved[j]
  }

  // Validation takes the refs that fewer than its size rank before; both sides keep the order of the refs.
  ghost predicate SplitIs(refs: seq<Text>, reserved: seq<Text>, f: Fold, sizes: Sizes, tools: Tools)
  {
    && |refs| == sizes.encoded && |reserved| == sizes.outer && SplitInput(refs, reserved, sizes, tools)
    && Rising(f.validation) && Rising(f.train)
    && (forall i: nat :: i in f.validation <==> i < |refs| && RankedBefore(refs, tools.foldHash, refs[i]) < sizes.validation)
    && (forall i: nat :: i in f.train <==> i < |refs| && RankedBefore(refs, tools.foldHash, refs[i]) >= sizes.validation)
    && Arranged(f.outerRefs, reserved)
    && (exists list :: Picked(list, refs, f.train) && Arranged(f.trainRefs, list))
    && (exists list :: Picked(list, refs, f.validation) && Arranged(f.validationRefs, list))
  }

  lemma ApartExact(refs: seq<Text>, reserved: seq<Text>)
    ensures Members(refs) !! Members(reserved)
       <==> forall i, j | 0 <= i < |refs| && 0 <= j < |reserved| :: refs[i] != reserved[j]
  {
    if Members(refs) !! Members(reserved) {
      forall i, j | 0 <= i < |refs| && 0 <= j < |reserved| ensures refs[i] != reserved[j] {
        assert refs[i] in Members(refs) && reserved[j] in Members(reserved);
      }
    }
    if forall i, j | 0 <= i < |refs| && 0 <= j < |reserved| :: refs[i] != reserved[j] {
      forall ref | ref in Members(refs) ensures ref !in Members(reserved) {
        var i :| 0 <= i < |refs| && refs[i] == ref;
      }
    }
  }

  lemma PickIs<T>(items: seq<T>, p: seq<nat>, list: seq<T>)
    requires forall i | 0 <= i < |p| :: p[i] < |items|
    ensures Picked(list, items, p) <==> list == Pick(items, p)
  {
    if Picked(list, items, p) { assert list == Pick(items, p); }
  }

  lemma PositionsMember(refs: seq<Text>, sizes: Sizes, tools: Tools, i: nat)
    requires Unique(refs)
    ensures var chosen := HashSplit.FirstRefs(refs, Itself(), sizes.validation, tools.foldHash);
            && (i in Positions(refs, chosen, true)
                <==> i < |refs| && RankedBefore(refs, tools.foldHash, refs[i]) < sizes.validation)
            && (i in Positions(refs, chosen, false)
                <==> i < |refs| && RankedBefore(refs, tools.foldHash, refs[i]) >= sizes.validation)
  {
    hide HashSplit.FirstRefs, Positions, RankedBefore, CountIf;
    var chosen := HashSplit.FirstRefs(refs, Itself(), sizes.validation, tools.foldHash);
    PositionsExact(refs, chosen, true);
    PositionsExact(refs, chosen, false);
    if i < |refs| {
      UniqueKeys(refs);
      HashSplit.FirstExact(refs, Itself(), sizes.validation, tools.foldHash, refs[i]);
      CountIsRank(refs, tools.foldHash, refs[i]);
    }
  }

  lemma SplitFound(refs: seq<Text>, reserved: seq<Text>, f: Fold, sizes: Sizes, tools: Tools)
    requires SplitEncoded(refs, reserved, sizes, tools) == Folded(f)
    ensures SplitIs(refs, reserved, f, sizes, tools)
  {
    hide HashSplit.FirstRefs, Positions, RankedBefore, Clean, Unique, CleanList, Sorted, Arranged, Pick, Picked;
    CleanExact(refs, tools.space);
    CleanExact(reserved, tools.space);
    ApartExact(refs, reserved);
    var chosen := HashSplit.FirstRefs(refs, Itself(), sizes.validation, tools.foldHash);
    PositionsExact(refs, chosen, true);
    PositionsExact(refs, chosen, false);
    forall i: nat
      ensures i in f.validation <==> i < |refs| && RankedBefore(refs, tools.foldHash, refs[i]) < sizes.validation
      ensures i in f.train <==> i < |refs| && RankedBefore(refs, tools.foldHash, refs[i]) >= sizes.validation
    {
      PositionsMember(refs, sizes, tools, i);
    }
    ArrangedExact(f.outerRefs, reserved);
    ArrangedExact(f.trainRefs, Pick(refs, f.train));
    ArrangedExact(f.validationRefs, Pick(refs, f.validation));
    PickIs(refs, f.train, Pick(refs, f.train));
    PickIs(refs, f.validation, Pick(refs, f.validation));
  }

  lemma SplitTaken(refs: seq<Text>, reserved: seq<Text>, f: Fold, sizes: Sizes, tools: Tools)
    requires SplitIs(refs, reserved, f, sizes, tools)
    ensures SplitEncoded(refs, reserved, sizes, tools) == Folded(f)
  {
    hide HashSplit.FirstRefs, Positions, RankedBefore, Clean, Unique, CleanList, Sorted, Arranged, Pick, Picked, Rising;
    CleanExact(refs, tools.space);
    CleanExact(reserved, tools.space);
    ApartExact(refs, reserved);
    SplitNeverBroken(refs, reserved, sizes, tools);
    var g := SplitEncoded(refs, reserved, sizes, tools).fold;
    SplitFound(refs, reserved, g, sizes, tools);
    RisingUnique(f.validation, g.validation);
    RisingUnique(f.train, g.train);
    ArrangedExact(f.outerRefs, reserved);
    SameArrangement(refs, f.train, f.trainRefs);
    SameArrangement(refs, f.validation, f.validationRefs);
  }

  lemma SameArrangement(refs: seq<Text>, p: seq<nat>, arranged: seq<Text>)
    requires (forall i | 0 <= i < |p| :: p[i] < |refs|) && exists list :: Picked(list, refs, p) && Arranged(arranged, list)
    ensures arranged == Sorted(Pick(refs, p))
  {
    hide Picked, Arranged, Pick, Sorted;
    var list :| Picked(list, refs, p) && Arranged(arranged, list);
    PickIs(refs, p, list);
    ArrangedExact(arranged, list);
  }

  // The inner split is this fold, or is refused for its sizes, its refs or an overlap, in this order.
  lemma SplitExact(refs: seq<Text>, reserved: seq<Text>, f: Fold, sizes: Sizes, tools: Tools)
    ensures SplitEncoded(refs, reserved, sizes, tools) == Folded(f) <==> SplitIs(refs, reserved, f, sizes, tools)
    ensures SplitEncoded(refs, reserved, sizes, tools) == NotFolded(BadSizes)
       <==> |refs| != sizes.encoded || |reserved| != sizes.outer
    ensures SplitEncoded(refs, reserved, sizes, tools) == NotFolded(BadRefs)
       <==> && |refs| == sizes.encoded && |reserved| == sizes.outer
            && !(CleanList(refs, tools.space) && CleanList(reserved, tools.space))
  {
    hide HashSplit.FirstRefs, Positions, Clean, Unique, CleanList, Sorted, Pick, SplitIs;
    CleanExact(refs, tools.space);
    CleanExact(reserved, tools.space);
    if SplitEncoded(refs, reserved, sizes, tools) == Folded(f) { SplitFound(refs, reserved, f, sizes, tools); }
    if SplitIs(refs, reserved, f, sizes, tools) { SplitTaken(refs, reserved, f, sizes, tools); }
  }

  // ---------------------------------------------------------------- rows in and out of the skipped refs

  // The rows whose ref is, or is not, among the skipped ones, in their order.
  ghost predicate KeptRows(kept: seq<Row>, rows: seq<Row>, skipped: set<Text>, inside: bool)
  {
    exists p :: Rising(p) && Picked(kept, rows, p) && forall i: nat :: i in p <==> i < |rows| && (rows[i].ref in skipped) == inside
  }

  lemma WithoutSnoc(rows: seq<Row>, row: Row, skipped: set<Text>)
    ensures Without(rows + [row], skipped) == Without(rows, skipped) + if row.ref in skipped then [] else [row]
    ensures Within(rows + [row], skipped) == Within(rows, skipped) + if row.ref in skipped then [row] else []
  {
    if rows != [] {
      assert (rows + [row])[1..] == rows[1..] + [row];
      WithoutSnoc(rows[1..], row, skipped);
    }
  }

  lemma {:induction false} KeptPositions(rows: seq<Row>, skipped: set<Text>)
    ensures Without(rows, skipped) == Pick(rows, Positions(RefList(rows), skipped, false))
    ensures Within(rows, skipped) == Pick(rows, Positions(RefList(rows), skipped, true))
  {
    if rows != [] {
      var n := |rows| - 1;
      KeptPositions(rows[..n], skipped);
      WithoutSnoc(rows[..n], rows[n], skipped);
      assert rows == rows[..n] + [rows[n]];
      assert RefList(rows)[..n] == RefList(rows[..n]);
      PickFront(rows, Positions(RefList(rows[..n]), skipped, false));
      PickFront(rows, Positions(RefList(rows[..n]), skipped, true));
    }
  }

  lemma PickFront(rows: seq<Row>, p: seq<nat>)
    requires rows != [] && forall i | 0 <= i < |p| :: p[i] < |rows| - 1
    ensures Pick(rows, p) == Pick(rows[..|rows| - 1], p)
    ensures Pick(rows, p + [|rows| - 1]) == Pick(rows, p) + [rows[|rows| - 1]]
  {
  }

  lemma KeptExact(kept: seq<Row>, rows: seq<Row>, skipped: set<Text>, inside: bool)
    ensures KeptRows(kept, rows, skipped, inside) <==> kept == if inside then Within(rows, skipped) else Without(rows, skipped)
  {
    hide Pick, Positions, Without, Within, Rising, Picked;
    var refs := RefList(rows);
    var q := Positions(refs, skipped, inside);
    KeptPositions(rows, skipped);
    PositionsExact(refs, skipped, inside);
    AsRising(q);
    PickIs(rows, q, Pick(rows, q));
    forall i: nat ensures i in q <==> i < |rows| && (rows[i].ref in skipped) == inside {}
    if KeptRows(kept, rows, skipped, inside) {
      var p :| Rising(p) && Picked(kept, rows, p) && forall i: nat :: i in p <==> i < |rows| && (rows[i].ref in skipped) == inside;
      RisingUnique(p, q);
      PickIs(rows, q, kept);
    }
  }

  lemma AsRising(p: seq<nat>)
    requires forall i, j | 0 <= i < j < |p| :: p[i] < p[j]
    ensures Rising(p)
  {
  }

  // ---------------------------------------------------------------- the rows by ref

  lemma {:induction false} MemberCount(refs: seq<Text>)
    ensures |Members(refs)| <= |refs|
    ensures |Members(refs)| == |refs| ==> Unique(refs)
  {
    if refs == [] {
      assert Members(refs) == {};
    } else {
      var n := |refs| - 1;
      MemberCount(refs[..n]);
      assert refs == refs[..n] + [refs[n]];
      assert Members(refs) == Members(refs[..n]) + {refs[n]};
      if |Members(refs)| == |refs| { assert refs[n] !in Members(refs[..n]); }
    }
  }

  lemma UniqueBySize(rows: seq<Row>)
    ensures |ByRef(rows)| == |rows| <==> Unique(RefList(rows))
  {
    hide Unique, RefList;
    ByRefMeaning(rows);
    assert ByRef(rows).Keys == Members(RefList(rows));
    MemberCount(RefList(rows));
    if Unique(RefList(rows)) { UniqueCount(RefList(rows)); }
  }

  lemma {:induction false} OwnRow(rows: seq<Row>, i: nat)
    requires Unique(RefList(rows)) && i < |rows|
    ensures rows[i].ref in ByRef(rows) && ByRef(rows)[rows[i].ref] == rows[i]
  {
    var n := |rows| - 1;
    if i < n {
      assert RefList(rows)[i] != RefList(rows)[n];
      assert RefList(rows[..n]) == RefList(rows)[..n];
      OwnRow(rows[..n], i);
    }
  }

  lemma {:induction false} SourcesAre(byRef: map<Text, Row>, rows: seq<Row>)
    requires forall i | 0 <= i < |rows| :: rows[i].ref in byRef && byRef[rows[i].ref] == rows[i]
    ensures Sources(byRef, RefList(rows)) == Some(rows)
  {
    if rows != [] {
      assert RefList(rows)[1..] == RefList(rows[1..]);
      SourcesAre(byRef, rows[1..]);
      assert rows == [rows[0]] + rows[1..];
    }
  }

  // The training rows are found again by their refs.
  lemma SourcesPicked(remaining: seq<Row>, skipped: set<Text>, p: seq<nat>)
    requires Unique(RefList(remaining)) && forall i | 0 <= i < |p| :: p[i] < |Without(remaining, skipped)|
    ensures var encoded := Without(remaining, skipped);
            Sources(ByRef(remaining), Pick(RefList(encoded), p)) == Some(Pick(encoded, p))
  {
    hide ByRef, Sources, Without, Unique;
    var encoded := Without(remaining, skipped);
    var rows := Pick(encoded, p);
    PickedRows(encoded, p);
    SkippedSplit(remaining, skipped);
    forall i | 0 <= i < |rows| ensures rows[i].ref in ByRef(remaining) && ByRef(remaining)[rows[i].ref] == rows[i] {
      assert rows[i] == encoded[p[i]] && encoded[p[i]] in encoded;
      var k :| 0 <= k < |remaining| && remaining[k] == rows[i];
      OwnRow(remaining, k);
    }
    SourcesAre(ByRef(remaining), rows);
  }

  // ---------------------------------------------------------------- the manifest

  ghost predicate HasRow(rows: seq<Row>, ref: Text) { exists row :: row in rows && row.ref == ref }

  // Everything but the pairs: the reserve, the skipped refs in the remaining rows, the split of the others.
  ghost predicate FoldsAre(rows: seq<Row>, skippedRefs: seq<Text>, pinned: seq<Text>, m: Manifest, o: Outer, encoded: seq<Row>,
                           sizes: Sizes, tools: Tools)
  {
    && OuterIs(rows, o, sizes, tools)
    && multiset(skippedRefs) == multiset(pinned) && Arranged(m.skipped, skippedRefs)
    && (forall i, j | 0 <= i < j < |o.remaining| :: o.remaining[i].ref != o.remaining[j].ref)
    && (forall i | 0 <= i < |m.skipped| :: HasRow(o.remaining, m.skipped[i]))
    && KeptRows(encoded, o.remaining, Members(m.skipped), false)
    && SplitIs(RefList(encoded), RefList(o.reserve), m.fold, sizes, tools)
  }

  // The pairs are those generated from the training rows, everything else held out, and as many as requested.
  ghost predicate ManifestIs(rows: seq<Row>, skippedRefs: seq<Text>, pinned: seq<Text>, requested: int, m: Manifest,
                             o: Outer, encoded: seq<Row>, sources: seq<Row>, heldout: set<Text>, sizes: Sizes, tools: Tools)
  {
    && FoldsAre(rows, skippedRefs, pinned, m, o, encoded, sizes, tools)
    && Picked(sources, encoded, m.fold.train)
    && (forall ref :: ref in heldout
                      <==> HasRow(o.reserve, ref) || ref in m.fold.validationRefs || ref in m.skipped)
    && var g := Selection.GenerationOf(sources, heldout, requested, tools.space, tools.pairHash);
       g.Generated? && g.pairs == m.pairs && |m.pairs| == requested
  }

  lemma DistinctRows(rows: seq<Row>)
    ensures Unique(RefList(rows)) <==> forall i, j | 0 <= i < j < |rows| :: rows[i].ref != rows[j].ref
  {
    UniqueRows(rows);
  }

  lemma PresentExact(remaining: seq<Row>, skipped: seq<Text>)
    ensures (exists i | 0 <= i < |skipped| :: skipped[i] !in ByRef(remaining))
       <==> !(forall i | 0 <= i < |skipped| :: HasRow(remaining, skipped[i]))
  {
    hide ByRef;
    ByRefMeaning(remaining);
    forall ref ensures ref in ByRef(remaining) <==> HasRow(remaining, ref) { RefMember(remaining, ref); }
  }

  lemma SameSorted(a: seq<Text>, b: seq<Text>)
    ensures Sorted(a) == Sorted(b) <==> multiset(a) == multiset(b)
  {
    hide Sorted;
    SortedMembers(a);
    SortedMembers(b);
    ArrangedExact(Sorted(b), b);
    ArrangedExact(Sorted(b), a);
  }

  // The parts of a manifest before its pairs.
  lemma FoldsFound(rows: seq<Row>, skippedRefs: seq<Text>, pinned: seq<Text>, requested: int, sizes: Sizes, tools: Tools)
    requires BuildManifest(rows, skippedRefs, pinned, requested, sizes, tools).Some?
    ensures var m := BuildManifest(rows, skippedRefs, pinned, requested, sizes, tools).value;
            && OuterPartition(rows, sizes, tools).Some?
            && var o := OuterPartition(rows, sizes, tools).value;
               FoldsAre(rows, skippedRefs, pinned, m, o, Without(o.remaining, Members(m.skipped)), sizes, tools)
  {
    hide OuterPartition, OuterIs, SplitEncoded, SplitIs, Without, Within, KeptRows, Sorted, Arranged, ByRef, HasRow, Sources,
         Selection.GenerationOf, RefList, Pick;
    var m := BuildManifest(rows, skippedRefs, pinned, requested, sizes, tools).value;
    var o := OuterPartition(rows, sizes, tools).value;
    var encoded := Without(o.remaining, Members(m.skipped));
    OuterExact(rows, o, sizes, tools);
    SameSorted(skippedRefs, pinned);
    ArrangedExact(m.skipped, skippedRefs);
    UniqueBySize(o.remaining);
    DistinctRows(o.remaining);
    PresentExact(o.remaining, m.skipped);
    KeptExact(encoded, o.remaining, Members(m.skipped), false);
    SplitExact(RefList(encoded), RefList(o.reserve), m.fold, sizes, tools);
  }

  lemma HeldoutIs(o: Outer, m: Manifest, heldout: set<Text>)
    ensures (forall ref :: ref in heldout <==> HasRow(o.reserve, ref) || ref in m.fold.validationRefs || ref in m.skipped)
       <==> heldout == Members(RefList(o.reserve)) + Members(m.fold.validationRefs) + Members(m.skipped)
  {
    hide RefList;
    forall ref ensures ref in Members(RefList(o.reserve)) <==> HasRow(o.reserve, ref) { RefMember(o.reserve, ref); }
  }

  lemma ManifestFound(rows: seq<Row>, skippedRefs: seq<Text>, pinned: seq<Text>, requested: int, sizes: Sizes, tools: Tools)
    returns (o: Outer, encoded: seq<Row>, sources: seq<Row>, heldout: set<Text>)
    requires BuildManifest(rows, skippedRefs, pinned, requested, sizes, tools).Some?
    ensures ManifestIs(rows, skippedRefs, pinned, requested, BuildManifest(rows, skippedRefs, pinned, requested, sizes, tools).value,
                       o, encoded, sources, heldout, sizes, tools)
  {
    hide OuterPartition, SplitEncoded, FoldsAre, Without, Sorted, ByRef, HasRow, Sources, Selection.GenerationOf, RefList, Pick,
         Picked, Unique;
    var m := BuildManifest(rows, skippedRefs, pinned, requested, sizes, tools).value;
    FoldsFound(rows, skippedRefs, pinned, requested, sizes, tools);
    o := OuterPartition(rows, sizes, tools).value;
    encoded := Without(o.remaining, Members(m.skipped));
    UniqueBySize(o.remaining);
    SourcesPicked(o.remaining, Members(m.skipped), m.fold.train);
    sources := Pick(encoded, m.fold.train);
    PickIs(encoded, m.fold.train, sources);
    heldout := Members(RefList(o.reserve)) + Members(m.fold.validationRefs) + Members(m.skipped);
    HeldoutIs(o, m, heldout);
  }

  lemma ManifestBuilt(rows: seq<Row>, skippedRefs: seq<Text>, pinned: seq<Text>, requested: int, m: Manifest, o: Outer,
                      encoded: seq<Row>, sources: seq<Row>, heldout: set<Text>, sizes: Sizes, tools: Tools)
    requires ManifestIs(rows, skippedRefs, pinned, requested, m, o, encoded, sources, heldout, sizes, tools)
    ensures BuildManifest(rows, skippedRefs, pinned, requested, sizes, tools) == Some(m)
  {
    hide OuterPartition, OuterIs, SplitEncoded, SplitIs, Without, Within, KeptRows, Sorted, Arranged, ByRef, HasRow, Sources,
         Selection.GenerationOf, RefList, Pick, Picked, Unique;
    OuterExact(rows, o, sizes, tools);
    SameSorted(skippedRefs, pinned);
    ArrangedExact(m.skipped, skippedRefs);
    UniqueBySize(o.remaining);
    DistinctRows(o.remaining);
    PresentExact(o.remaining, m.skipped);
    KeptExact(encoded, o.remaining, Members(m.skipped), false);
    SplitExact(RefList(encoded), RefList(o.reserve), m.fold, sizes, tools);
    SourcesPicked(o.remaining, Members(m.skipped), m.fold.train);
    PickIs(encoded, m.fold.train, sources);
    HeldoutIs(o, m, heldout);
  }

  // The trainer's manifest, exactly.
  lemma ManifestExact(rows: seq<Row>, skippedRefs: seq<Text>, pinned: seq<Text>, requested: int, m: Manifest, sizes: Sizes,
                      tools: Tools)
    ensures BuildManifest(rows, skippedRefs, pinned, requested, sizes, tools) == Some(m)
       <==> exists o, encoded, sources, heldout ::
              ManifestIs(rows, skippedRefs, pinned, requested, m, o, encoded, sources, heldout, sizes, tools)
  {
    hide BuildManifest, ManifestIs;
    if BuildManifest(rows, skippedRefs, pinned, requested, sizes, tools) == Some(m) {
      var o, encoded, sources, heldout := ManifestFound(rows, skippedRefs, pinned, requested, sizes, tools);
    }
    if o, encoded, sources, heldout :|
      ManifestIs(rows, skippedRefs, pinned, requested, m, o, encoded, sources, heldout, sizes, tools)
    {
      ManifestBuilt(rows, skippedRefs, pinned, requested, m, o, encoded, sources, heldout, sizes, tools);
    }
  }

  // ---------------------------------------------------------------- the evaluator's selection

  // The remaining rows are the pinned ones, once each, and the encoded ones; the validation rows of the split of
  // the encoded rows are selected, in their order.
  ghost predicate SelectionIs(rows: seq<Row>, allowlist: seq<Text>, pinned: seq<Text>, e: Evaluation, o: Outer,
                              left: seq<Row>, encoded: seq<Row>, f: Fold, sizes: Sizes, tools: Tools)
  {
    && pinned == allowlist && OuterIs(rows, o, sizes, tools)
    && |set ref | ref in allowlist| == sizes.skipped
    && KeptRows(left, o.remaining, Members(allowlist), true) && multiset(RefList(left)) == multiset(allowlist)
    && KeptRows(encoded, o.remaining, Members(allowlist), false)
    && SplitIs(RefList(encoded), RefList(o.reserve), f, sizes, tools)
    && |f.train| == sizes.train && |f.validation| == sizes.validation
    && Picked(e.rows, encoded, f.validation) && e.refs == RefList(e.rows)
  }

  lemma SelectionFound(rows: seq<Row>, allowlist: seq<Text>, pinned: seq<Text>, sizes: Sizes, tools: Tools)
    returns (o: Outer, left: seq<Row>, encoded: seq<Row>, f: Fold)
    requires InnerSelection(rows, allowlist, pinned, sizes, tools).Some?
    ensures SelectionIs(rows, allowlist, pinned, InnerSelection(rows, allowlist, pinned, sizes, tools).value, o, left, encoded, f,
                        sizes, tools)
  {
    hide OuterPartition, OuterIs, SplitEncoded, SplitIs, Without, Within, KeptRows, Sorted, RefList, Pick, Picked;
    var e := InnerSelection(rows, allowlist, pinned, sizes, tools).value;
    o := OuterPartition(rows, sizes, tools).value;
    left, encoded := Within(o.remaining, Members(allowlist)), Without(o.remaining, Members(allowlist));
    f := SplitEncoded(RefList(encoded), RefList(o.reserve), sizes, tools).fold;
    OuterExact(rows, o, sizes, tools);
    SameSorted(RefList(left), allowlist);
    KeptExact(left, o.remaining, Members(allowlist), true);
    KeptExact(encoded, o.remaining, Members(allowlist), false);
    SplitExact(RefList(encoded), RefList(o.reserve), f, sizes, tools);
    PickIs(encoded, f.validation, e.rows);
  }

  lemma SelectionMade(rows: seq<Row>, allowlist: seq<Text>, pinned: seq<Text>, e: Evaluation, o: Outer, left: seq<Row>,
                      encoded: seq<Row>, f: Fold, sizes: Sizes, tools: Tools)
    requires SelectionIs(rows, allowlist, pinned, e, o, left, encoded, f, sizes, tools)
    ensures InnerSelection(rows, allowlist, pinned, sizes, tools) == Some(e)
  {
    hide OuterPartition, OuterIs, SplitEncoded, SplitIs, Without, Within, KeptRows, Sorted, RefList, Pick, Picked, CountIf, Unique;
    OuterExact(rows, o, sizes, tools);
    SameSorted(RefList(left), allowlist);
    KeptExact(left, o.remaining, Members(allowlist), true);
    KeptExact(encoded, o.remaining, Members(allowlist), false);
    SplitExact(RefList(encoded), RefList(o.reserve), f, sizes, tools);
    SplitSize(RefList(encoded), RefList(o.reserve), f, sizes, tools);
    SplitMeaning(RefList(encoded), RefList(o.reserve), sizes, tools);
    PickIs(encoded, f.validation, e.rows);
    PickedRows(encoded, f.validation);
  }

  lemma SplitSize(refs: seq<Text>, reserved: seq<Text>, f: Fold, sizes: Sizes, tools: Tools)
    requires SplitIs(refs, reserved, f, sizes, tools)
    ensures |refs| == sizes.encoded
  {
    hide Arranged, Picked, CleanList;
  }

  // The evaluator's selection, exactly.
  lemma SelectionExact(rows: seq<Row>, allowlist: seq<Text>, pinned: seq<Text>, e: Evaluation, sizes: Sizes, tools: Tools)
    ensures InnerSelection(rows, allowlist, pinned, sizes, tools) == Some(e)
       <==> exists o, left, encoded, f :: SelectionIs(rows, allowlist, pinned, e, o, left, encoded, f, sizes, tools)
  {
    hide InnerSelection, SelectionIs;
    if InnerSelection(rows, allowlist, pinned, sizes, tools) == Some(e) {
      var o, left, encoded, f := SelectionFound(rows, allowlist, pinned, sizes, tools);
    }
    if o, left, encoded, f :| SelectionIs(rows, allowlist, pinned, e, o, left, encoded, f, sizes, tools) {
      SelectionMade(rows, allowlist, pinned, e, o, left, encoded, f, sizes, tools);
    }
  }
}
