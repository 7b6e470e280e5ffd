// The folds of the boundary corpus, as the trainer builds them and as the evaluator rebuilds them.
module BoundaryFold {
  import opened Collections
  import opened Ordering
  import opened Corruption
  import HashSplit
  import Selection

  // The pinned sizes of the corpus: 4,816 rows, 384 outer, 4,430 encoded, 4,046 inner train, 384 inner
  // validation, 2 skipped.
  datatype Sizes = Sizes(corpus: nat, outer: nat, encoded: nat, train: nat, validation: nat, skipped: nat)

  // What is not computed here: white space, the seeded shuffle, the two hashes.
  datatype Tools = Tools(space: Space, shuffle: seq<Row> -> seq<Row>, foldHash: HashSplit.Hash, pairHash: Selection.Hash)

  function RefList(rows: seq<Row>): (r: seq<Text>)
    ensures |r| == |rows|
  {
    seq(|rows|, i requires 0 <= i < |rows| => rows[i].ref)
  }

  function Members(refs: seq<Text>): (r: set<Text>)
    ensures forall ref :: ref in r <==> ref in refs
  {
    set ref | ref in refs
  }

  predicate Unique(refs: seq<Text>)
  {
    forall i, j | 0 <= i < j < |refs| :: refs[i] != refs[j]
  }

  predicate Clean(refs: seq<Text>, space: Space)
  {
    forall i | 0 <= i < |refs| :: refs[i] != [] && Stripped(refs[i], space)
  }

  function TextKey(): Text -> (Text, Text) { (t: Text) => (t, []) }

  function Sorted(refs: seq<Text>): seq<Text> { Sort(refs, ByKey(TextKey())) }

  function Itself(): Text -> Text { (t: Text) => t }

  // ---------------------------------------------------------------- the outer reserve

  datatype Outer = Outer(reserve: seq<Row>, remaining: seq<Row>)

  function OuterPartition(rows: seq<Row>, sizes: Sizes, tools: Tools): Option<Outer>
  {
    if |rows| != sizes.corpus || !Clean(RefList(rows), tools.space) then None
    else if exists i | 0 <= i < |rows| :: !rows[i].train then None
    else if !Unique(RefList(rows)) then None
    else
      var shuffled := tools.shuffle(rows);
      var n := if sizes.outer < |shuffled| then sizes.outer else |shuffled|;
      Some(Outer(shuffled[..n], shuffled[n..]))
  }

  // ---------------------------------------------------------------- the inner split

  datatype Fold = Fold(train: seq<nat>, validation: seq<nat>, outerRefs: seq<Text>, trainRefs: seq<Text>,
                       validationRefs: seq<Text>)
  datatype FoldRefusal = BadSizes | BadRefs | OuterOverlap | NotAPartition
  datatype FoldResult = Folded(fold: Fold) | NotFolded(why: FoldRefusal)

  // The positions of the refs that are, or are not, among the chosen ones.
  function Positions(refs: seq<Text>, chosen: set<Text>, inside: bool): (r: seq<nat>)
    ensures forall i | 0 <= i < |r| :: r[i] < |refs|
  {
    if refs == [] then [] else
    var n := |refs| - 1;
    Positions(refs[..n], chosen, inside) + if (refs[n] in chosen) == inside then [n] else []
  }

  function Pick<T>(items: seq<T>, positions: seq<nat>): (r: seq<T>)
    requires forall i | 0 <= i < |positions| :: positions[i] < |items|
    ensures |r| == |positions|
  {
    seq(|positions|, i requires 0 <= i < |positions| => items[positions[i]])
  }

  function SplitEncoded(refs: seq<Text>, reserved: seq<Text>, sizes: Sizes, tools: Tools): (r: FoldResult)
    ensures r.Folded? ==> forall i | 0 <= i < |r.fold.train| :: r.fold.train[i] < |refs|
    ensures r.Folded? ==> forall i | 0 <= i < |r.fold.validation| :: r.fold.validation[i] < |refs|
  {
    if |refs| != sizes.encoded || |reserved| != sizes.outer then NotFolded(BadSizes)
    else if !Clean(refs, tools.space) || !Clean(reserved, tools.space) || !Unique(refs) || !Unique(reserved) then
      NotFolded(BadRefs)
    else if !(Members(refs) !! Members(reserved)) then NotFolded(OuterOverlap)
    else
      var chosen := HashSplit.FirstRefs(refs, Itself(), sizes.validation, tools.foldHash);
      var validation, train := Positions(refs, chosen, true), Positions(refs, chosen, false);
      var trainRefs, validationRefs := Pick(refs, train), Pick(refs, validation);
      if !(Members(reserved) !! Members(trainRefs)) || !(Members(reserved) !! Members(validationRefs))
         || !(Members(trainRefs) !! Members(validationRefs)) || |train| + |validation| != |refs| then
        NotFolded(NotAPartition)
      else Folded(Fold(train, validation, Sorted(reserved), Sorted(trainRefs), Sorted(validationRefs)))
  }

  // ---------------------------------------------------------------- the trainer's manifest

  function Without(rows: seq<Row>, skipped: set<Text>): seq<Row>
  {
    if rows == [] then [] else (if rows[0].ref in skipped then [] else [rows[0]]) + Without(rows[1..], skipped)
  }

  function Within(rows: seq<Row>, skipped: set<Text>): seq<Row>
  {
    if rows == [] then [] else (if rows[0].ref in skipped then [rows[0]] else []) + Within(rows[1..], skipped)
  }

  // A dictionary of the rows by ref: a later row replaces an earlier one.
  function ByRef(rows: seq<Row>): map<Text, Row>
  {
    if rows == [] then map[] else ByRef(rows[..|rows| - 1])[rows[|rows| - 1].ref := rows[|rows| - 1]]
  }

  function Sources(byRef: map<Text, Row>, refs: seq<Text>): Option<seq<Row>>
  {
    if refs == [] then Some([]) else
    var rest := Sources(byRef, refs[1..]);
    if refs[0] !in byRef || rest == None then None else Some([byRef[refs[0]]] + rest.value)
  }

  datatype Manifest = Manifest(fold: Fold, pairs: seq<Selection.Pair>, skipped: seq<Text>)

  function BuildManifest(rows: seq<Row>, skippedRefs: seq<Text>, pinned: seq<Text>, requested: int, sizes: Sizes,
                         tools: Tools): Option<Manifest>
  {
    var outer := OuterPartition(rows, sizes, tools);
    if outer == None then None else
    var skipped := Sorted(skippedRefs);
    if skipped != Sorted(pinned) then None else
    var remaining := ByRef(outer.value.remaining);
    if |remaining| != |outer.value.remaining| || exists i | 0 <= i < |skipped| :: skipped[i] !in remaining then None else
    var encoded := RefList(Without(outer.value.remaining, Members(skipped)));
    var outerRefs := RefList(outer.value.reserve);
    var split := SplitEncoded(encoded, outerRefs, sizes, tools);
    if !split.Folded? then None else
    var sources := Sources(remaining, Pick(encoded, split.fold.train));
    if sources == None then None else
    var heldout := Members(outerRefs) + Members(split.fold.validationRefs) + Members(skipped);
    var generation := Selection.GenerationOf(sources.value, heldout, requested, tools.space, tools.pairHash);
    if !generation.Generated? || |generation.pairs| != requested then None
    else Some(Manifest(split.fold, generation.pairs, skipped))
  }

  // ---------------------------------------------------------------- the evaluator's selection

  datatype Evaluation = Evaluation(rows: seq<Row>, refs: seq<Text>)

  function InnerSelection(rows: seq<Row>, allowlist: seq<Text>, pinned: seq<Text>, sizes: Sizes, tools: Tools): Option<Evaluation>
  {
    if pinned != allowlist then None else
    var outer := OuterPartition(rows, sizes, tools);
    if outer == None then None else
    var skipped := RefList(Within(outer.value.remaining, Members(allowlist)));
    if |Members(allowlist)| != sizes.skipped || Sorted(skipped) != Sorted(allowlist) then None else
    var encodedRows := Without(outer.value.remaining, Members(allowlist));
    var encoded := RefList(encodedRows);
    if |encodedRows| != sizes.encoded then None else
    var split := SplitEncoded(encoded, RefList(outer.value.reserve), sizes, tools);
    if !split.Folded? then None else
    var selected := Pick(encodedRows, split.fold.validation);
    var refs := RefList(selected);
    if |split.fold.train| != sizes.train || |selected| != sizes.validation || Sorted(refs) != split.fold.validationRefs then None
    else Some(Evaluation(selected, refs))
  }
}
