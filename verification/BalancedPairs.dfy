// What a generated set of boundary pairs guarantees.
module BalancedPairs {
  import opened Collections
  import opened Ordering
  import opened Json
  import opened Corruption
  import opened GoldEdits
  import opened Selection
  import opened Balance

  function Offered(found: Found, direction: Direction): seq<Candidate>
  {
    if direction == Expansion then found.expansion else found.contraction
  }

  // The entry is the least candidate of its direction among those of a source row.
  ghost predicate Chosen(e: Entry, rows: seq<Row>, space: Space, hash: Hash)
  {
    && e.row in rows && CandidatesOf(e.row, space).Candidates?
    && Least(Offered(CandidatesOf(e.row, space).found, e.candidate.direction), hash, e.row.ref) == Some(e.candidate)
  }

  lemma EntryChosen(c: Choice, direction: Direction, rows: seq<Row>, space: Space, hash: Hash)
    requires Sourced(c, rows, space, hash) && Offers(c, direction)
    ensures Chosen(EntryOf(c, direction), rows, space, hash)
    ensures EntryOf(c, direction).candidate.direction == direction
  {
    hide CandidatesOf, Least, Parse, Denotes, Faithful;
    var found := CandidatesOf(c.row, space).found;
    CandidatesAreFaithful(c.row, space);
    LeastMeaning(found.expansion, hash, c.row.ref);
    LeastMeaning(found.contraction, hash, c.row.ref);
  }

  function EntryRef(): Entry -> Text { (e: Entry) => e.row.ref }

  function Heading(direction: Direction): Entry -> bool
  {
    (e: Entry) => e.candidate.direction == direction
  }

  // ---------------------------------------------------------------- the pools and what is taken from them

  ghost predicate Source(choices: seq<Choice>, rows: seq<Row>, space: Space, hash: Hash)
  {
    && KeysDistinct(choices, ChoiceRef())
    && forall i | 0 <= i < |choices| :: Sourced(choices[i], rows, space, hash)
  }

  lemma {:induction false} OnlyRefs(choices: seq<Choice>, kind: Kind)
    requires KeysDistinct(choices, ChoiceRef())
    ensures KeysDistinct(Only(choices, kind), ChoiceRef())
  {
    if choices != [] {
      var rest := choices[1..];
      assert KeysDistinct(rest, ChoiceRef());
      OnlyRefs(rest, kind);
      var all, less := Only(choices, kind), Only(rest, kind);
      if all != less {
        forall i | 1 <= i < |all| ensures all[i] == less[i - 1] && choices[0].row.ref != all[i].row.ref {
          assert less[i - 1] in rest;
        }
      }
    }
  }

  // Every member of a pool is a choice of that kind, and no two come from the same row.
  lemma PoolMeaning(choices: seq<Choice>, kind: Kind, hash: Hash)
    requires KeysDistinct(choices, ChoiceRef())
    ensures KeysDistinct(Pool(choices, kind, hash), ChoiceRef())
    ensures forall i | 0 <= i < |Pool(choices, kind, hash)| :: Pool(choices, kind, hash)[i] in choices
  {
    OnlyRefs(choices, kind);
    KeysDistinctPermuted(Only(choices, kind), Pool(choices, kind, hash), ChoiceRef());
    EachAmong(Only(choices, kind), Pool(choices, kind, hash));
  }

  lemma SameRefSameChoice(choices: seq<Choice>, a: Choice, b: Choice)
    requires KeysDistinct(choices, ChoiceRef()) && a in choices && b in choices && a.row.ref == b.row.ref
    ensures a == b
  {
  }

  lemma PoolsApart(choices: seq<Choice>, kind: Kind, other: Kind, hash: Hash)
    requires KeysDistinct(choices, ChoiceRef()) && kind != other
    ensures forall i, j | 0 <= i < |Pool(choices, kind, hash)| && 0 <= j < |Pool(choices, other, hash)| ::
              Pool(choices, kind, hash)[i].row.ref != Pool(choices, other, hash)[j].row.ref
  {
    hide Pool;
    PoolMeaning(choices, kind, hash);
    PoolMeaning(choices, other, hash);
    var p, q := Pool(choices, kind, hash), Pool(choices, other, hash);
    forall i, j | 0 <= i < |p| && 0 <= j < |q| ensures p[i].row.ref != q[j].row.ref {
      assert OfKind(p[i], kind) && OfKind(q[j], other);
      if p[i].row.ref == q[j].row.ref { SameRefSameChoice(choices, p[i], q[j]); }
    }
  }

  ghost predicate RefsApart(a: seq<Choice>, b: seq<Choice>)
  {
    forall i, j | 0 <= i < |a| && 0 <= j < |b| :: a[i].row.ref != b[j].row.ref
  }

  lemma TakenRefs(expansion: seq<Choice>, contraction: seq<Choice>, both: seq<Choice>, k: nat)
    requires AllOf(expansion, ExpansionOnly) && AllOf(contraction, ContractionOnly) && AllOf(both, Balanced)
    requires Fits(k, |expansion|, |contraction|, |both|)
    requires KeysDistinct(expansion, ChoiceRef()) && KeysDistinct(contraction, ChoiceRef()) && KeysDistinct(both, ChoiceRef())
    requires RefsApart(expansion, contraction) && RefsApart(expansion, both) && RefsApart(contraction, both)
    ensures KeysDistinct(Taken(expansion, contraction, both, k), EntryRef())
  {
    hide OfKind, Taken, KeysDistinct, RefsApart;
    var e, c := Min(k, |expansion|), Min(k, |contraction|);
    var en, cn := k - e, k - c;
    var first, second := expansion[..e] + both[0..en], contraction[..c] + both[en..en + cn];
    var taken := Taken(expansion, contraction, both, k);
    TakenParts(expansion, contraction, both, k);
    JoinedApart(expansion, contraction, both, e, c, en, cn);
    forall i, j | 0 <= i < j < |taken| ensures taken[i].row.ref != taken[j].row.ref {
      TakenPair(taken, first, second, k, i, j);
    }
    DistinctEntries(taken);
  }

  lemma DistinctEntries(entries: seq<Entry>)
    requires forall i, j | 0 <= i < j < |entries| :: entries[i].row.ref != entries[j].row.ref
    ensures KeysDistinct(entries, EntryRef())
  {
  }

  // The first half takes the rows of one join of pools, the second half those of the other.
  lemma TakenParts(expansion: seq<Choice>, contraction: seq<Choice>, both: seq<Choice>, k: nat)
    requires AllOf(expansion, ExpansionOnly) && AllOf(contraction, ContractionOnly) && AllOf(both, Balanced)
    requires Fits(k, |expansion|, |contraction|, |both|)
    ensures var e, c := Min(k, |expansion|), Min(k, |contraction|);
            var first, second := expansion[..e] + both[0..k - e], contraction[..c] + both[k - e..k - e + (k - c)];
            var taken := Taken(expansion, contraction, both, k);
            && |first| == k && |second| == k && |taken| == 2 * k
            && forall i | 0 <= i < k :: taken[i].row.ref == first[i].row.ref && taken[k + i].row.ref == second[i].row.ref
  {
    hide OfKind;
    var e, c := Min(k, |expansion|), Min(k, |contraction|);
    JoinedOffer(expansion, both, ExpansionOnly, e, 0, k - e, Expansion);
    JoinedOffer(contraction, both, ContractionOnly, c, k - e, k - e + (k - c), Contraction);
  }

  lemma JoinedApart(expansion: seq<Choice>, contraction: seq<Choice>, both: seq<Choice>, e: nat, c: nat, en: nat, cn: nat)
    requires e <= |expansion| && c <= |contraction| && en + cn <= |both|
    requires KeysDistinct(expansion, ChoiceRef()) && KeysDistinct(contraction, ChoiceRef()) && KeysDistinct(both, ChoiceRef())
    requires RefsApart(expansion, contraction) && RefsApart(expansion, both) && RefsApart(contraction, both)
    ensures var first, second := expansion[..e] + both[0..en], contraction[..c] + both[en..en + cn];
            RefsApart(first, second) && KeysDistinct(first, ChoiceRef()) && KeysDistinct(second, ChoiceRef())
  {
  }

  lemma TakenPair(taken: seq<Entry>, first: seq<Choice>, second: seq<Choice>, k: nat, i: nat, j: nat)
    requires |taken| == 2 * k && |first| == k && |second| == k && i < j < |taken|
    requires forall i | 0 <= i < k :: taken[i].row.ref == first[i].row.ref && taken[k + i].row.ref == second[i].row.ref
    requires RefsApart(first, second) && KeysDistinct(first, ChoiceRef()) && KeysDistinct(second, ChoiceRef())
    ensures taken[i].row.ref != taken[j].row.ref
  {
    if j < k {
      assert ChoiceRef()(first[i]) != ChoiceRef()(first[j]);
    } else {
      assert taken[j].row.ref == second[j - k].row.ref by { assert taken[k + (j - k)] == taken[j]; }
      if i >= k {
        assert taken[i].row.ref == second[i - k].row.ref by { assert taken[k + (i - k)] == taken[i]; }
        assert ChoiceRef()(second[i - k]) != ChoiceRef()(second[j - k]);
      } else {
        assert first[i].row.ref != second[j - k].row.ref;
      }
    }
  }

  ghost predicate AllChosen(entries: seq<Entry>, rows: seq<Row>, space: Space, hash: Hash)
  {
    forall i | 0 <= i < |entries| :: Chosen(entries[i], rows, space, hash)
  }

  lemma EntriesChosen(cs: seq<Choice>, direction: Direction, rows: seq<Row>, space: Space, hash: Hash)
    requires AllOffer(cs, direction)
    requires AllSourced(cs, rows, space, hash)
    ensures AllChosen(AsEntries(cs, direction), rows, space, hash)
    ensures forall d :: CountIf(AsEntries(cs, direction), Heading(d)) == if d == direction then |cs| else 0
  {
    hide Sourced, Chosen, Offers, EntryOf;
    var entries := AsEntries(cs, direction);
    forall i | 0 <= i < |entries|
      ensures Chosen(entries[i], rows, space, hash) && entries[i].candidate.direction == direction
    {
      assert Offers(cs[i], direction) && Sourced(cs[i], rows, space, hash);
      EntryChosen(cs[i], direction, rows, space, hash);
    }
    forall d ensures CountIf(entries, Heading(d)) == if d == direction then |cs| else 0 {
      CountAll(entries, Heading(d), d == direction);
    }
  }

  ghost predicate AllSourced(cs: seq<Choice>, rows: seq<Row>, space: Space, hash: Hash)
  {
    forall i | 0 <= i < |cs| :: Sourced(cs[i], rows, space, hash)
  }

  lemma TakenChosen(expansion: seq<Choice>, contraction: seq<Choice>, both: seq<Choice>, k: nat,
                    rows: seq<Row>, space: Space, hash: Hash)
    requires AllOf(expansion, ExpansionOnly) && AllOf(contraction, ContractionOnly) && AllOf(both, Balanced)
    requires Fits(k, |expansion|, |contraction|, |both|)
    requires AllSourced(expansion, rows, space, hash) && AllSourced(contraction, rows, space, hash)
    requires AllSourced(both, rows, space, hash)
    ensures AllChosen(Taken(expansion, contraction, both, k), rows, space, hash)
    ensures forall d :: CountIf(Taken(expansion, contraction, both, k), Heading(d)) == k
  {
    hide AllSourced, AllChosen, OfKind, AsEntries, Taken, CountIf, AllOffer;
    var first, second := TakenHalves(expansion, contraction, both, k, rows, space, hash);
    EntriesChosen(first, Expansion, rows, space, hash);
    EntriesChosen(second, Contraction, rows, space, hash);
    ChosenConcat(AsEntries(first, Expansion), AsEntries(second, Contraction), rows, space, hash);
    forall d ensures CountIf(Taken(expansion, contraction, both, k), Heading(d)) == k {
      CountAppend(AsEntries(first, Expansion), AsEntries(second, Contraction), Heading(d));
    }
  }

  lemma TakenHalves(expansion: seq<Choice>, contraction: seq<Choice>, both: seq<Choice>, k: nat,
                    rows: seq<Row>, space: Space, hash: Hash) returns (first: seq<Choice>, second: seq<Choice>)
    requires AllOf(expansion, ExpansionOnly) && AllOf(contraction, ContractionOnly) && AllOf(both, Balanced)
    requires Fits(k, |expansion|, |contraction|, |both|)
    requires AllSourced(expansion, rows, space, hash) && AllSourced(contraction, rows, space, hash)
    requires AllSourced(both, rows, space, hash)
    ensures |first| == |second| == k && AllOffer(first, Expansion) && AllOffer(second, Contraction)
    ensures Taken(expansion, contraction, both, k) == AsEntries(first, Expansion) + AsEntries(second, Contraction)
    ensures AllSourced(first, rows, space, hash) && AllSourced(second, rows, space, hash)
  {
    hide Sourced, OfKind, AsEntries, AllSourced, AllOffer;
    var e, c := Min(k, |expansion|), Min(k, |contraction|);
    var en, cn := k - e, k - c;
    JoinedOffer(expansion, both, ExpansionOnly, e, 0, en, Expansion);
    JoinedOffer(contraction, both, ContractionOnly, c, en, en + cn, Contraction);
    first, second := expansion[..e] + both[0..en], contraction[..c] + both[en..en + cn];
    SlicesSourced(expansion, both, e, 0, en, rows, space, hash);
    SlicesSourced(contraction, both, c, en, en + cn, rows, space, hash);
  }

  lemma SlicesSourced(a: seq<Choice>, b: seq<Choice>, take: nat, from: nat, to: nat, rows: seq<Row>, space: Space, hash: Hash)
    requires AllSourced(a, rows, space, hash) && AllSourced(b, rows, space, hash)
    requires take <= |a| && from <= to <= |b|
    ensures AllSourced(a[..take] + b[from..to], rows, space, hash)
  {
    hide Sourced;
  }

  lemma ChosenConcat(a: seq<Entry>, b: seq<Entry>, rows: seq<Row>, space: Space, hash: Hash)
    requires AllChosen(a, rows, space, hash) && AllChosen(b, rows, space, hash)
    ensures AllChosen(a + b, rows, space, hash)
  {
    hide Chosen;
  }

  // ---------------------------------------------------------------- the sorted entries

  ghost predicate EntriesOk(entries: seq<Entry>, k: nat, rows: seq<Row>, space: Space, hash: Hash)
  {
    && |entries| == 2 * k && AllChosen(entries, rows, space, hash) && KeysDistinct(entries, EntryRef())
    && CountIf(entries, Heading(Expansion)) == k && CountIf(entries, Heading(Contraction)) == k
  }

  lemma PoolSourced(choices: seq<Choice>, kind: Kind, rows: seq<Row>, space: Space, hash: Hash)
    requires Source(choices, rows, space, hash)
    ensures AllSourced(Pool(choices, kind, hash), rows, space, hash)
  {
    hide Sourced, Pool;
    PoolMeaning(choices, kind, hash);
  }

  lemma SelectedOk(choices: seq<Choice>, limit: nat, rows: seq<Row>, space: Space, hash: Hash)
    requires Source(choices, rows, space, hash)
    ensures EntriesOk(EntriesOf(choices, limit, hash),
                      LargestFit(limit, |Only(choices, ExpansionOnly)|, |Only(choices, ContractionOnly)|,
                                 |Only(choices, Balanced)|),
                      rows, space, hash)
  {
    hide Sourced, Pool, Chosen, Taken, LargestFit, Only, AllSourced;
    var e, c := Pool(choices, ExpansionOnly, hash), Pool(choices, ContractionOnly, hash);
    var b := Pool(choices, Balanced, hash);
    var k := LargestFit(limit, |e|, |c|, |b|);
    PoolMeaning(choices, ExpansionOnly, hash);
    PoolMeaning(choices, ContractionOnly, hash);
    PoolMeaning(choices, Balanced, hash);
    PoolsApart(choices, ExpansionOnly, ContractionOnly, hash);
    PoolsApart(choices, ExpansionOnly, Balanced, hash);
    PoolsApart(choices, ContractionOnly, Balanced, hash);
    PoolSourced(choices, ExpansionOnly, rows, space, hash);
    PoolSourced(choices, ContractionOnly, rows, space, hash);
    PoolSourced(choices, Balanced, rows, space, hash);
    TakenRefs(e, c, b, k);
    TakenChosen(e, c, b, k, rows, space, hash);
    SortedOk(Taken(e, c, b, k), k, rows, space, hash);
  }

  lemma SortedOk(taken: seq<Entry>, k: nat, rows: seq<Row>, space: Space, hash: Hash)
    requires EntriesOk(taken, k, rows, space, hash)
    ensures EntriesOk(Sort(taken, ByKey(PairRank(hash))), k, rows, space, hash)
  {
    hide Chosen;
    var sorted := Sort(taken, ByKey(PairRank(hash)));
    SortPermutes(taken, ByKey(PairRank(hash)));
    KeysDistinctPermuted(taken, sorted, EntryRef());
    CountPermuted(taken, sorted, Heading(Expansion));
    CountPermuted(taken, sorted, Heading(Contraction));
    EachAmong(taken, sorted);
  }

  // ---------------------------------------------------------------- pairs

  lemma {:induction false} PairUpMeaning(entries: seq<Entry>, sources: set<Text>, heldout: set<Text>, hash: Hash,
                                         done: seq<Pair>)
    requires PairUp(entries, sources, heldout, hash, done).Some?
    ensures var pairs := PairUp(entries, sources, heldout, hash, done).value;
            && |pairs| == |done| + |entries| && pairs[..|done|] == done
            && forall i | 0 <= i < |entries| ::
                 && pairs[|done| + i] == PairOf(entries[i], hash)
                 && pairs[|done| + i].negativeRef !in sources + heldout
    decreases |entries|
  {
    hide PairOf;
    if entries != [] {
      var more := done + [PairOf(entries[0], hash)];
      PairUpMeaning(entries[1..], sources, heldout, hash, more);
      var pairs := PairUp(entries, sources, heldout, hash, done).value;
      assert pairs[..|done|] == pairs[..|more|][..|done|];
      assert pairs[|done|] == pairs[..|more|][|done|];
      assert forall i | 1 <= i < |entries| :: entries[i] == entries[1..][i - 1];
    }
  }

  lemma {:induction false} PairCount(entries: seq<Entry>, pairs: seq<Pair>, direction: Direction, hash: Hash)
    requires |pairs| == |entries| && forall i | 0 <= i < |pairs| :: pairs[i] == PairOf(entries[i], hash)
    ensures CountIf(pairs, Towards(direction)) == CountIf(entries, Heading(direction))
  {
    if pairs != [] { PairCount(entries[1..], pairs[1..], direction, hash); }
  }

  function PairSource(): Pair -> Text { (p: Pair) => p.source }

  // Exactly k pairs of each direction, no source row twice, no generated ref taken.
  ghost predicate BalancedSet(pairs: seq<Pair>, k: nat, rows: seq<Row>, heldout: set<Text>)
  {
    && |pairs| == 2 * k && CountIf(pairs, Towards(Expansion)) == k && CountIf(pairs, Towards(Contraction)) == k
    && KeysDistinct(pairs, PairSource())
    && forall i | 0 <= i < |pairs| :: pairs[i].negativeRef !in Refs(rows) + heldout
  }

  lemma PairsOk(entries: seq<Entry>, k: nat, ordered: seq<Row>, heldout: set<Text>, space: Space, hash: Hash)
    requires EntriesOk(entries, k, ordered, space, hash)
    requires PairUp(entries, Refs(ordered), heldout, hash, []).Some?
    ensures BalancedSet(PairUp(entries, Refs(ordered), heldout, hash, []).value, k, ordered, heldout)
  {
    hide Chosen, Refs;
    var pairs := PairUp(entries, Refs(ordered), heldout, hash, []).value;
    PairUpMeaning(entries, Refs(ordered), heldout, hash, []);
    forall i | 0 <= i < |pairs| ensures pairs[i] == PairOf(entries[i], hash) && pairs[i].negativeRef !in Refs(ordered) + heldout {
      assert pairs[0 + i] == PairOf(entries[i], hash);
    }
    PairCount(entries, pairs, Expansion, hash);
    PairCount(entries, pairs, Contraction, hash);
  }

  // ---------------------------------------------------------------- the generator

  function Ordered(rows: seq<Row>): seq<Row> { Sort(rows, ByKey(RowKey())) }

  lemma ChoicesSource(ordered: seq<Row>, space: Space, hash: Hash)
    requires DistinctRefs(ordered) && TallyRows(ordered, Tally([], map[]), space, hash).Some?
    ensures var choices := TallyRows(ordered, Tally([], map[]), space, hash).value.choices;
            && choices == Kept(ordered, space, hash) && Source(choices, ordered, space, hash)
  {
    hide Kept, TallyRows, Sourced;
    TallyKeeps(ordered, Tally([], map[]), space, hash);
    KeptSourced(ordered, space, hash);
    KeptRefs(ordered, space, hash);
    assert [] + Kept(ordered, space, hash) == Kept(ordered, space, hash);
  }

  lemma LargestIsFeasible(rows: seq<Row>, limit: nat, space: Space, hash: Hash)
    ensures var choices := Kept(Ordered(rows), space, hash);
            LargestFeasible(rows, limit,
                            LargestFit(limit, |Only(choices, ExpansionOnly)|, |Only(choices, ContractionOnly)|,
                                       |Only(choices, Balanced)|), space)
  {
    hide Fits, Feasible, Kept, Only, InClass;
    PoolRows(rows, ExpansionOnly, space, hash);
    PoolRows(rows, ContractionOnly, space, hash);
    PoolRows(rows, Balanced, space, hash);
    forall j: nat ensures Feasible(rows, j, space)
      == Fits(j, CountIf(rows, InClass(ExpansionOnly, space)), CountIf(rows, InClass(ContractionOnly, space)),
              CountIf(rows, InClass(Balanced, space)))
    {
      FeasibleExact(rows, j, space);
    }
  }

  lemma PoolRows(rows: seq<Row>, kind: Kind, space: Space, hash: Hash)
    ensures |Only(Kept(Ordered(rows), space, hash), kind)| == CountIf(rows, InClass(kind, space))
  {
    hide Kept, Only, InClass;
    PoolSize(Ordered(rows), kind, space, hash);
    SortPermutes(rows, ByKey(RowKey()));
    CountPermuted(rows, Ordered(rows), InClass(kind, space));
  }

  lemma OrderedMembers(rows: seq<Row>)
    ensures multiset(Ordered(rows)) == multiset(rows) && Refs(Ordered(rows)) == Refs(rows)
    ensures forall row :: row in Ordered(rows) <==> row in rows
  {
    SortPermutes(rows, ByKey(RowKey()));
    MembersPermuted(rows, Ordered(rows));
    forall ref ensures ref in Refs(Ordered(rows)) <==> ref in Refs(rows) {
      RefMember(rows, ref);
      RefMember(Ordered(rows), ref);
    }
  }

  lemma RefMember(rows: seq<Row>, ref: Text)
    ensures ref in Refs(rows) <==> exists row :: row in rows && row.ref == ref
  {
    if ref in Refs(rows) {
      var i :| 0 <= i < |rows| && rows[i].ref == ref;
      assert rows[i] in rows;
    }
  }

  // The number of pairs is optimal over every assignment of rows to directions.
  lemma GenerationIsOptimal(rows: seq<Row>, heldout: set<Text>, maximum: int, space: Space, hash: Hash)
    requires GenerationOf(rows, heldout, maximum, space, hash).Generated?
    ensures exists k :: LargestFeasible(rows, maximum / 2, k, space)
                     && BalancedSet(GenerationOf(rows, heldout, maximum, space, hash).pairs, k, rows, heldout)
  {
    hide LargestFeasible, BalancedSet, EntriesOf, TallyRows, PairUp, Kept, Sort;
    var ordered := Ordered(rows);
    ChoicesSource(ordered, space, hash);
    var choices := Kept(ordered, space, hash);
    var k := LargestFit(maximum / 2, |Only(choices, ExpansionOnly)|, |Only(choices, ContractionOnly)|,
                        |Only(choices, Balanced)|);
    SelectedOk(choices, maximum / 2, ordered, space, hash);
    PairsOk(EntriesOf(choices, maximum / 2, hash), k, ordered, heldout, space, hash);
    LargestIsFeasible(rows, maximum / 2, space, hash);
    OrderedMembers(rows);
    SameRefsBalanced(GenerationOf(rows, heldout, maximum, space, hash).pairs, k, ordered, rows, heldout);
  }

  lemma SameRefsBalanced(pairs: seq<Pair>, k: nat, ordered: seq<Row>, rows: seq<Row>, heldout: set<Text>)
    requires BalancedSet(pairs, k, ordered, heldout) && Refs(ordered) == Refs(rows)
    ensures BalancedSet(pairs, k, rows, heldout)
  {
    hide Refs;
  }

  function PairNegative(): Pair -> Text { (p: Pair) => p.negativeRef }

  // The part of a generated ref that the hash gives has a fixed length, so the ref gives its source back.
  lemma NegativeNamesSource(a: Text, b: Text, idA: Text, idB: Text)
    requires |idA| == |idB| && a + NEGATIVE_MARK + idA == b + NEGATIVE_MARK + idB
    ensures a == b
  {
    assert (a + NEGATIVE_MARK + idA)[..|a|] == a;
    assert (b + NEGATIVE_MARK + idB)[..|b|] == b;
  }

  // No two generated refs are equal, which nothing checks: the sources are distinct, and the identifiers
  // cut from digests of at least sixteen characters all have the same length.
  lemma NegativesDistinct(rows: seq<Row>, heldout: set<Text>, maximum: int, space: Space, hash: Hash)
    requires GenerationOf(rows, heldout, maximum, space, hash).Generated?
    requires forall key :: |hash(key)| >= 16
    ensures KeysDistinct(GenerationOf(rows, heldout, maximum, space, hash).pairs, PairNegative())
  {
    hide GenerationOf, LargestFeasible, Chosen, Ordered;
    var pairs := GenerationOf(rows, heldout, maximum, space, hash).pairs;
    GenerationIsOptimal(rows, heldout, maximum, space, hash);
    forall i, j | 0 <= i < j < |pairs| ensures pairs[i].negativeRef != pairs[j].negativeRef {
      var a := PairFromEntry(rows, heldout, maximum, space, hash, i);
      var b := PairFromEntry(rows, heldout, maximum, space, hash, j);
      assert PairSource()(pairs[i]) != PairSource()(pairs[j]);
      if pairs[i].negativeRef == pairs[j].negativeRef {
        NegativeNamesSource(a.row.ref, b.row.ref, Id(hash, a.row.ref, a.candidate), Id(hash, b.row.ref, b.candidate));
      }
    }
  }

  // The check for unequal direction counts can never fire.
  lemma NeverUnbalanced(rows: seq<Row>, heldout: set<Text>, maximum: int, space: Space, hash: Hash)
    ensures GenerationOf(rows, heldout, maximum, space, hash) != Declined(Unbalanced)
  {
    hide EntriesOf, TallyRows, PairUp, Kept, Sort, Refs, Source, EntriesOk, KeysDistinct, LargestFit, Only, CountIf,
         DistinctRefs;
    var ordered := Ordered(rows);
    if 0 <= maximum && DistinctRefs(ordered) && TallyRows(ordered, Tally([], map[]), space, hash).Some? {
      ChoicesSource(ordered, space, hash);
      var choices := Kept(ordered, space, hash);
      var k := LargestFit(maximum / 2, |Only(choices, ExpansionOnly)|, |Only(choices, ContractionOnly)|,
                          |Only(choices, Balanced)|);
      SelectedOk(choices, maximum / 2, ordered, space, hash);
      if PairUp(EntriesOf(choices, maximum / 2, hash), Refs(ordered), heldout, hash, []).Some? {
        PairsOk(EntriesOf(choices, maximum / 2, hash), k, ordered, heldout, space, hash);
      }
    }
  }

  // Any order of the same rows gives the same pairs in the same order, or the same refusal, whatever
  // the hash collides on.
  lemma OrderDoesNotMatter(rows: seq<Row>, shuffled: seq<Row>, heldout: set<Text>, maximum: int, space: Space, hash: Hash)
    requires multiset(rows) == multiset(shuffled)
    ensures GenerationOf(rows, heldout, maximum, space, hash) == GenerationOf(shuffled, heldout, maximum, space, hash)
  {
    hide EntriesOf, TallyRows, PairUp, Refs, Sort, DistinctRefs;
    OrderedMembers(rows);
    OrderedMembers(shuffled);
    MembersPermuted(rows, shuffled);
    SortedRows(rows, shuffled);
  }

  lemma SortedRows(rows: seq<Row>, shuffled: seq<Row>)
    requires multiset(rows) == multiset(shuffled)
    ensures DistinctRefs(Ordered(rows)) == DistinctRefs(Ordered(shuffled))
    ensures DistinctRefs(Ordered(rows)) ==> Ordered(rows) == Ordered(shuffled)
    ensures Refs(Ordered(rows)) == Refs(Ordered(shuffled))
  {
    hide Sort;
    OrderedMembers(rows);
    OrderedMembers(shuffled);
    MembersPermuted(rows, shuffled);
    forall ref ensures ref in Refs(rows) <==> ref in Refs(shuffled) {
      RefMember(rows, ref);
      RefMember(shuffled, ref);
    }
    if DistinctRefs(Ordered(rows)) { DistinctSorted(rows, shuffled); }
    if DistinctRefs(Ordered(shuffled)) { DistinctSorted(shuffled, rows); }
  }

  function RowRef(): Row -> Text { (row: Row) => row.ref }

  lemma DistinctSorted(rows: seq<Row>, shuffled: seq<Row>)
    requires multiset(rows) == multiset(shuffled) && DistinctRefs(Ordered(rows))
    ensures DistinctRefs(Ordered(shuffled)) && Ordered(rows) == Ordered(shuffled)
  {
    hide Sort;
    OrderedMembers(rows);
    OrderedMembers(shuffled);
    KeysDistinctPermuted(Ordered(rows), Ordered(shuffled), RowRef());
    assert DistinctRefs(Ordered(shuffled)) by {
      forall i, j | 0 <= i < j < |Ordered(shuffled)| ensures Ordered(shuffled)[i].ref != Ordered(shuffled)[j].ref {
        assert RowRef()(Ordered(shuffled)[i]) != RowRef()(Ordered(shuffled)[j]);
      }
    }
    KeysDistinctPermuted(Ordered(rows), rows, RowRef());
    KeyedSortCanonical(rows, shuffled, RowKey());
  }

  // ---------------------------------------------------------------- what one pair is

  // c is the only least element of cs.
  ghost predicate StrictlyLeast(c: Candidate, cs: seq<Candidate>, hash: Hash, ref: Text)
  {
    c in cs && forall d | d in cs && d != c :: CandidateLeq(hash, ref, c, d) && !CandidateLeq(hash, ref, d, c)
  }

  // The pair is a faithful single edit of a training row, and the hash left no choice among its candidates.
  ghost predicate IsEditOf(pair: Pair, row: Row, entities: seq<Entity>, space: Space, hash: Hash)
  {
    && pair.source == row.ref && pair.positive == row.gold
    && Denotes(Parse(row.gold), entities) && Faithful(pair.candidate, row.gold, entities, row.input)
    && CandidatesOf(row, space).Candidates?
    && StrictlyLeast(pair.candidate, Offered(CandidatesOf(row, space).found, pair.candidate.direction), hash, row.ref)
  }

  lemma ChosenIsStrict(cs: seq<Candidate>, gold: Text, entities: seq<Entity>, input: Text, hash: Hash, ref: Text)
    requires cs != [] && Distinct(Negatives(cs))
    requires forall i | 0 <= i < |cs| :: Faithful(cs[i], gold, entities, input)
    ensures StrictlyLeast(Least(cs, hash, ref).value, cs, hash, ref)
  {
    hide CandidateLeq, Faithful, Least;
    LeastMeaning(cs, hash, ref);
    var c := Least(cs, hash, ref).value;
    var i :| 0 <= i < |cs| && cs[i] == c;
    forall d | d in cs && d != c ensures CandidateLeq(hash, ref, c, d) && !CandidateLeq(hash, ref, d, c) {
      var j :| 0 <= j < |cs| && cs[j] == d;
      CandidateOrder(hash, ref, c, d, d);
      if c.index == d.index && c.corrupted == d.corrupted {
        IndexAndTextSeparate(cs, gold, entities, input, i, j);
      }
    }
  }

  lemma ChosenIsEdit(e: Entry, rows: seq<Row>, space: Space, hash: Hash)
    requires Chosen(e, rows, space, hash)
    ensures exists entities :: IsEditOf(PairOf(e, hash), e.row, entities, space, hash)
  {
    hide CandidatesOf, Least, Parse, Denotes, Faithful, StrictlyLeast, Id;
    CandidatesAreFaithful(e.row, space);
    var found := CandidatesOf(e.row, space).found;
    var entities :| Denotes(Parse(e.row.gold), entities) && FoundOk(found, e.row.gold, entities, e.row.input);
    var cs := Offered(found, e.candidate.direction);
    LeastMeaning(cs, hash, e.row.ref);
    ChosenIsStrict(cs, e.row.gold, entities, e.row.input, hash, e.row.ref);
    assert IsEditOf(PairOf(e, hash), e.row, entities, space, hash);
  }

  lemma PairFromEntry(rows: seq<Row>, heldout: set<Text>, maximum: int, space: Space, hash: Hash, i: nat) returns (e: Entry)
    requires GenerationOf(rows, heldout, maximum, space, hash).Generated?
    requires i < |GenerationOf(rows, heldout, maximum, space, hash).pairs|
    ensures Chosen(e, Ordered(rows), space, hash)
    ensures GenerationOf(rows, heldout, maximum, space, hash).pairs[i] == PairOf(e, hash)
  {
    hide EntriesOf, TallyRows, PairUp, Kept, Sort, Refs, PairOf, Chosen, LargestFit, Only, Source, DistinctRefs;
    var ordered := Ordered(rows);
    ChoicesSource(ordered, space, hash);
    var choices := Kept(ordered, space, hash);
    SelectedOk(choices, maximum / 2, ordered, space, hash);
    var entries := EntriesOf(choices, maximum / 2, hash);
    PairUpMeaning(entries, Refs(ordered), heldout, hash, []);
    assert GenerationOf(rows, heldout, maximum, space, hash).pairs[0 + i] == PairOf(entries[i], hash);
    e := entries[i];
  }

  // Every generated pair edits one entity of one training row by one character, and is the unique
  // hash-least candidate of its direction there.
  lemma PairsAreEdits(rows: seq<Row>, heldout: set<Text>, maximum: int, space: Space, hash: Hash, i: nat)
    requires GenerationOf(rows, heldout, maximum, space, hash).Generated?
    requires i < |GenerationOf(rows, heldout, maximum, space, hash).pairs|
    ensures exists row, entities ::
              row in rows && IsEditOf(GenerationOf(rows, heldout, maximum, space, hash).pairs[i], row, entities, space, hash)
  {
    hide GenerationOf, Ordered, IsEditOf, PairOf;
    OrderedMembers(rows);
    var e := PairFromEntry(rows, heldout, maximum, space, hash, i);
    ChosenIsEdit(e, Ordered(rows), space, hash);
  }

  // ---------------------------------------------------------------- ranking

  function PairOrderKey(hash: Hash): Pair -> (Text, Text)
  {
    (p: Pair) => (hash(PairKey(p.source, p.candidate.direction)), p.source)
  }

  // The pairs come out in increasing (hash, source ref) order.
  lemma PairsRanked(rows: seq<Row>, heldout: set<Text>, maximum: int, space: Space, hash: Hash)
    requires GenerationOf(rows, heldout, maximum, space, hash).Generated?
    ensures SortedBy(ByKey(PairOrderKey(hash)), GenerationOf(rows, heldout, maximum, space, hash).pairs)
  {
    hide TallyRows, PairUp, Kept, Sort, Refs, Taken, PairLeq, LargestFit;
    var tally := TallyRows(Ordered(rows), Tally([], map[]), space, hash);
    var choices := tally.value.choices;
    var entries := EntriesOf(choices, maximum / 2, hash);
    EntriesRanked(choices, maximum / 2, hash);
    PairUpMeaning(entries, Refs(Ordered(rows)), heldout, hash, []);
    var pairs := GenerationOf(rows, heldout, maximum, space, hash).pairs;
    assert forall i | 0 <= i < |pairs| :: pairs[0 + i] == PairOf(entries[i], hash);
    forall i, j | 0 <= i < j < |pairs| ensures ByKey(PairOrderKey(hash))(pairs[i], pairs[j]) {
      assert ByKey(PairRank(hash))(entries[i], entries[j]);
    }
  }

  lemma EntriesRanked(choices: seq<Choice>, limit: nat, hash: Hash)
    ensures SortedBy(ByKey(PairRank(hash)), EntriesOf(choices, limit, hash))
  {
    hide Taken, Sort, PairLeq, ByKey, LargestFit;
    var expansion, contraction := Pool(choices, ExpansionOnly, hash), Pool(choices, ContractionOnly, hash);
    var both := Pool(choices, Balanced, hash);
    var k := LargestFit(limit, |expansion|, |contraction|, |both|);
    KeyOrder(PairRank(hash));
    SortSorted(Taken(expansion, contraction, both, k), ByKey(PairRank(hash)));
  }

  // A pool is in increasing (hash, ref) order, so taking a prefix takes its best-ranked rows, and hash
  // ties cannot make it depend on the order the choices were found in.
  lemma PoolRanked(choices: seq<Choice>, shuffled: seq<Choice>, kind: Kind, hash: Hash)
    requires KeysDistinct(choices, ChoiceRef()) && multiset(choices) == multiset(shuffled)
    ensures SortedBy(ByKey(SourceRank(kind, hash)), Pool(choices, kind, hash))
    ensures Pool(choices, kind, hash) == Pool(shuffled, kind, hash)
  {
    hide PairLeq, Sort;
    var key := SourceRank(kind, hash);
    KeyOrder(key);
    SortSorted(Only(choices, kind), ByKey(key));
    OnlyRefs(choices, kind);
    OnlyPermuted(choices, shuffled, kind);
    var only := Only(choices, kind);
    forall i, j | 0 <= i < |only| && 0 <= j < |only| && key(only[i]) == key(only[j]) ensures only[i] == only[j] {
      assert ChoiceRef()(only[i]) == ChoiceRef()(only[j]);
    }
    KeyedSortCanonical(only, Only(shuffled, kind), key);
  }

  lemma {:induction false} OnlyCount(choices: seq<Choice>, kind: Kind)
    ensures forall c :: multiset(Only(choices, kind))[c] == if OfKind(c, kind) then multiset(choices)[c] else 0
  {
    hide OfKind;
    if choices != [] {
      OnlyCount(choices[1..], kind);
      assert choices == [choices[0]] + choices[1..];
    }
  }

  lemma OnlyPermuted(choices: seq<Choice>, shuffled: seq<Choice>, kind: Kind)
    requires multiset(choices) == multiset(shuffled)
    ensures multiset(Only(choices, kind)) == multiset(Only(shuffled, kind))
  {
    OnlyCount(choices, kind);
    OnlyCount(shuffled, kind);
  }
}
