// Which rows the pair generator uses, by the two parts of their rank.
module PairRanking {
  import opened Collections
  import opened Ordering
  import opened TextOrder
  import opened Corruption
  import opened GoldEdits
  import opened Selection
  import opened Balance
  import opened BalancedPairs
  import opened GenerationCounts

  // ---------------------------------------------------------------- the candidate kept of a row

  ghost predicate SideBelow(a: Side, b: Side) { a == Left && b == Right }

  // By the hash of what the candidate is, then side, entity and text.
  ghost predicate Preferred(hash: Hash, ref: Text, a: Candidate, b: Candidate)
  {
    var x := hash(CandidateKey(ref, a.direction, a.side, a.index, a.corrupted));
    var y := hash(CandidateKey(ref, b.direction, b.side, b.index, b.corrupted));
    || Below(x, y)
    || (x == y && SideBelow(a.side, b.side))
    || (x == y && a.side == b.side && a.index < b.index)
    || (x == y && a.side == b.side && a.index == b.index && Below(a.corrupted, b.corrupted))
  }

  lemma PreferredExact(hash: Hash, ref: Text, a: Candidate, b: Candidate)
    ensures CandidateLeq(hash, ref, a, b) && !CandidateLeq(hash, ref, b, a) <==> Preferred(hash, ref, a, b)
  {
    hide Below, LexLeq;
    var x := hash(CandidateKey(ref, a.direction, a.side, a.index, a.corrupted));
    var y := hash(CandidateKey(ref, b.direction, b.side, b.index, b.corrupted));
    LexExact(x, y);
    LexExact(y, x);
    LexExact(a.corrupted, b.corrupted);
    LexExact(b.corrupted, a.corrupted);
    LexTotal(x, y);
    LexTotal(a.corrupted, b.corrupted);
    Asymmetric(x, y);
    Asymmetric(a.corrupted, b.corrupted);
  }

  // ---------------------------------------------------------------- pools

  lemma PoolAhead(choices: seq<Choice>, kind: Kind, hash: Hash, i: nat, j: nat)
    requires KeysDistinct(choices, ChoiceRef()) && i < j < |Pool(choices, kind, hash)|
    ensures var p := Pool(choices, kind, hash);
            Ahead((hash(SourceKey(kind, p[i].row.ref)), p[i].row.ref), (hash(SourceKey(kind, p[j].row.ref)), p[j].row.ref))
  {
    hide Ahead, PairLeq, Pool;
    PoolRanked(choices, choices, kind, hash);
    PoolMeaning(choices, kind, hash);
    var p, key := Pool(choices, kind, hash), SourceRank(kind, hash);
    assert forall a, b | 0 <= a < b < |p| :: ChoiceRef()(p[a]) != ChoiceRef()(p[b]);
    SortedAhead(p, key, i, j);
  }

  lemma {:induction false} KeptHas(rows: seq<Row>, row: Row, kind: Kind, space: Space, hash: Hash) returns (c: Choice)
    requires row in rows && InClass(kind, space)(row)
    ensures c in Only(Kept(rows, space, hash), kind) && c.row == row
  {
    hide CandidatesOf, ChoiceOf, InClass, OfKind;
    if row == rows[0] {
      ChoiceKind(row, kind, space, hash);
      ChoiceRow(row, space, hash);
      c := ChoiceOf(row, CandidatesOf(row, space).found, hash);
      OnlySplit(c, Kept(rows[1..], space, hash), kind);
    } else {
      c := KeptHas(rows[1..], row, kind, space, hash);
      if CandidatesOf(rows[0], space).Candidates? {
        OnlySplit(ChoiceOf(rows[0], CandidatesOf(rows[0], space).found, hash), Kept(rows[1..], space, hash), kind);
      } else {
        assert [] + Kept(rows[1..], space, hash) == Kept(rows[1..], space, hash);
      }
    }
  }

  // Where the row stands in the pool of its kind.
  lemma PoolIndex(rows: seq<Row>, row: Row, kind: Kind, space: Space, hash: Hash) returns (i: nat)
    requires row in rows && InClass(kind, space)(row)
    ensures i < |Pool(Kept(rows, space, hash), kind, hash)| && Pool(Kept(rows, space, hash), kind, hash)[i].row == row
  {
    hide Pool, Only, Kept, InClass;
    var c := KeptHas(rows, row, kind, space, hash);
    var choices := Kept(rows, space, hash);
    MembersPermuted(Only(choices, kind), Pool(choices, kind, hash));
    i :| 0 <= i < |Pool(choices, kind, hash)| && Pool(choices, kind, hash)[i] == c;
  }

  // ---------------------------------------------------------------- what is taken from the pools

  ghost predicate HasRef(cs: seq<Choice>, ref: Text) { exists i: nat :: i < |cs| && cs[i].row.ref == ref }

  lemma SliceRef(pool: seq<Choice>, from: nat, to: nat, i: nat)
    requires KeysDistinct(pool, ChoiceRef()) && from <= to <= |pool| && i < |pool|
    ensures HasRef(pool[from..to], pool[i].row.ref) <==> from <= i < to
  {
    if from <= i < to { assert pool[from..to][i - from] == pool[i]; }
    if j: nat :| j < to - from && pool[from..to][j].row.ref == pool[i].row.ref {
      assert ChoiceRef()(pool[from + j]) == ChoiceRef()(pool[i]);
    }
  }

  lemma ApartRef(pool: seq<Choice>, other: seq<Choice>, from: nat, to: nat, i: nat)
    requires RefsApart(pool, other) && from <= to <= |other| && i < |pool|
    ensures !HasRef(other[from..to], pool[i].row.ref)
  {
  }

  lemma JoinRef(a: seq<Choice>, b: seq<Choice>, ref: Text)
    ensures HasRef(a + b, ref) <==> HasRef(a, ref) || HasRef(b, ref)
  {
    if i: nat :| i < |a| && a[i].row.ref == ref { assert (a + b)[i].row.ref == ref; }
    if i: nat :| i < |b| && b[i].row.ref == ref { var j: nat := |a| + i; assert (a + b)[j].row.ref == ref; }
    if i: nat :| i < |a + b| && (a + b)[i].row.ref == ref {
      if i >= |a| { var j: nat := i - |a|; assert b[j].row.ref == ref; } else { assert a[i].row.ref == ref; }
    }
  }

  ghost predicate UsedIn(entries: seq<Entry>, ref: Text, direction: Direction)
  {
    exists x :: x in entries && x.row.ref == ref && x.candidate.direction == direction
  }

  // Two halves, one for each direction.
  ghost predicate Halves(taken: seq<Entry>, first: seq<Choice>, second: seq<Choice>)
  {
    && |taken| == |first| + |second|
    && (forall i | 0 <= i < |first| :: taken[i].row.ref == first[i].row.ref && taken[i].candidate.direction == Expansion)
    && (forall i | |first| <= i < |taken| ::
          taken[i].row.ref == second[i - |first|].row.ref && taken[i].candidate.direction == Contraction)
  }

  lemma HalvesUsed(taken: seq<Entry>, first: seq<Choice>, second: seq<Choice>, ref: Text)
    requires Halves(taken, first, second)
    ensures UsedIn(taken, ref, Expansion) <==> HasRef(first, ref)
    ensures UsedIn(taken, ref, Contraction) <==> HasRef(second, ref)
  {
    if i: nat :| i < |first| && first[i].row.ref == ref { assert taken[i] in taken; }
    if i: nat :| i < |second| && second[i].row.ref == ref { assert taken[|first| + i] in taken; }
  }

  lemma AsEntriesAt(cs: seq<Choice>, direction: Direction, rows: seq<Row>, space: Space, hash: Hash)
    requires AllOffer(cs, direction) && AllSourced(cs, rows, space, hash)
    ensures forall i | 0 <= i < |cs| ::
              && AsEntries(cs, direction)[i].row.ref == cs[i].row.ref
              && AsEntries(cs, direction)[i].candidate.direction == direction
  {
    hide Sourced, Chosen, Offers, EntryOf;
    forall i | 0 <= i < |cs|
      ensures AsEntries(cs, direction)[i].row.ref == cs[i].row.ref && AsEntries(cs, direction)[i].candidate.direction == direction
    {
      assert Offers(cs[i], direction) && Sourced(cs[i], rows, space, hash);
      EntryChosen(cs[i], direction, rows, space, hash);
      EntryRow(cs[i], direction);
    }
  }

  lemma EntryRow(c: Choice, direction: Direction)
    requires Offers(c, direction)
    ensures EntryOf(c, direction).row == c.row
  {
  }

  // The three pools of one list of rows.
  datatype Pools = Pools(expansion: seq<Choice>, contraction: seq<Choice>, both: seq<Choice>)
  {
    ghost predicate Apart()
    {
      && KeysDistinct(expansion, ChoiceRef()) && KeysDistinct(contraction, ChoiceRef()) && KeysDistinct(both, ChoiceRef())
      && RefsApart(expansion, contraction) && RefsApart(contraction, expansion)
      && RefsApart(expansion, both) && RefsApart(both, expansion)
      && RefsApart(contraction, both) && RefsApart(both, contraction)
    }

    ghost predicate Typed(k: nat)
    {
      && AllOf(expansion, ExpansionOnly) && AllOf(contraction, ContractionOnly) && AllOf(both, Balanced)
      && Fits(k, |expansion|, |contraction|, |both|)
    }
  }

  lemma TakenHalved(p: Pools, k: nat, rows: seq<Row>, space: Space, hash: Hash)
    requires p.Typed(k)
    requires AllSourced(p.expansion, rows, space, hash) && AllSourced(p.contraction, rows, space, hash)
    requires AllSourced(p.both, rows, space, hash)
    ensures var e, c := Min(k, |p.expansion|), Min(k, |p.contraction|);
            Halves(Taken(p.expansion, p.contraction, p.both, k),
                   p.expansion[..e] + p.both[0..k - e], p.contraction[..c] + p.both[k - e..k - e + (k - c)])
  {
    hide Sourced, OfKind, AsEntries, AllSourced, AllOffer;
    var e, c := Min(k, |p.expansion|), Min(k, |p.contraction|);
    JoinedOffer(p.expansion, p.both, ExpansionOnly, e, 0, k - e, Expansion);
    JoinedOffer(p.contraction, p.both, ContractionOnly, c, k - e, k - e + (k - c), Contraction);
    SlicesSourced(p.expansion, p.both, e, 0, k - e, rows, space, hash);
    SlicesSourced(p.contraction, p.both, c, k - e, k - e + (k - c), rows, space, hash);
    AsEntriesAt(p.expansion[..e] + p.both[0..k - e], Expansion, rows, space, hash);
    AsEntriesAt(p.contraction[..c] + p.both[k - e..k - e + (k - c)], Contraction, rows, space, hash);
  }

  // A prefix of each single-direction pool is used, and of the third pool a prefix for expansions and the
  // stretch after it for contractions.
  ghost predicate PrefixesUsed(entries: seq<Entry>, p: Pools, e: nat, c: nat, en: nat, cn: nat)
  {
    && (forall i | 0 <= i < |p.expansion| ::
          && (UsedIn(entries, p.expansion[i].row.ref, Expansion) <==> i < e)
          && !UsedIn(entries, p.expansion[i].row.ref, Contraction))
    && (forall i | 0 <= i < |p.contraction| ::
          && (UsedIn(entries, p.contraction[i].row.ref, Contraction) <==> i < c)
          && !UsedIn(entries, p.contraction[i].row.ref, Expansion))
    && (forall i | 0 <= i < |p.both| ::
          && (UsedIn(entries, p.both[i].row.ref, Expansion) <==> i < en)
          && (UsedIn(entries, p.both[i].row.ref, Contraction) <==> en <= i < en + cn))
  }

  lemma PoolsUsed(taken: seq<Entry>, p: Pools, e: nat, c: nat, en: nat, cn: nat)
    requires p.Apart() && e <= |p.expansion| && c <= |p.contraction| && en + cn <= |p.both|
    requires Halves(taken, p.expansion[..e] + p.both[0..en], p.contraction[..c] + p.both[en..en + cn])
    ensures PrefixesUsed(taken, p, e, c, en, cn)
  {
    hide HasRef, UsedIn, Halves, KeysDistinct, RefsApart;
    var first, second := p.expansion[..e] + p.both[0..en], p.contraction[..c] + p.both[en..en + cn];
    assert p.expansion[..e] == p.expansion[0..e] && p.contraction[..c] == p.contraction[0..c];
    forall ref
      ensures UsedIn(taken, ref, Expansion) <==> HasRef(p.expansion[0..e], ref) || HasRef(p.both[0..en], ref)
      ensures UsedIn(taken, ref, Contraction) <==> HasRef(p.contraction[0..c], ref) || HasRef(p.both[en..en + cn], ref)
    {
      HalvesUsed(taken, first, second, ref);
      JoinRef(p.expansion[..e], p.both[0..en], ref);
      JoinRef(p.contraction[..c], p.both[en..en + cn], ref);
    }
    forall i | 0 <= i < |p.expansion|
      ensures UsedIn(taken, p.expansion[i].row.ref, Expansion) <==> i < e
      ensures !UsedIn(taken, p.expansion[i].row.ref, Contraction)
    {
      SliceRef(p.expansion, 0, e, i);
      ApartRef(p.expansion, p.both, 0, en, i);
      ApartRef(p.expansion, p.contraction, 0, c, i);
      ApartRef(p.expansion, p.both, en, en + cn, i);
    }
    forall i | 0 <= i < |p.contraction|
      ensures UsedIn(taken, p.contraction[i].row.ref, Contraction) <==> i < c
      ensures !UsedIn(taken, p.contraction[i].row.ref, Expansion)
    {
      SliceRef(p.contraction, 0, c, i);
      ApartRef(p.contraction, p.both, 0, en, i);
      ApartRef(p.contraction, p.expansion, 0, e, i);
      ApartRef(p.contraction, p.both, en, en + cn, i);
    }
    forall i | 0 <= i < |p.both|
      ensures UsedIn(taken, p.both[i].row.ref, Expansion) <==> i < en
      ensures UsedIn(taken, p.both[i].row.ref, Contraction) <==> en <= i < en + cn
    {
      SliceRef(p.both, 0, en, i);
      SliceRef(p.both, en, en + cn, i);
      ApartRef(p.both, p.expansion, 0, e, i);
      ApartRef(p.both, p.contraction, 0, c, i);
    }
  }

  // ---------------------------------------------------------------- which rows are used

  ghost predicate Uses(pairs: seq<Pair>, ref: Text, direction: Direction)
  {
    exists i :: 0 <= i < |pairs| && pairs[i].source == ref && pairs[i].candidate.direction == direction
  }

  // Rows with candidates of one direction only, and of both.
  ghost predicate OneWay(row: Row, direction: Direction, space: Space)
  {
    && Gives(row, direction, space) && !Gives(row, if direction == Expansion then Contraction else Expansion, space)
  }

  ghost predicate TwoWay(row: Row, space: Space) { Gives(row, Expansion, space) && Gives(row, Contraction, space) }

  ghost predicate Outranks(kind: Kind, x: Row, y: Row, hash: Hash)
  {
    Ahead((hash(SourceKey(kind, x.ref)), x.ref), (hash(SourceKey(kind, y.ref)), y.ref))
  }

  // Among rows of one kind, used rows outrank unused ones; among rows of both directions those used for an
  // expansion outrank those used for a contraction; such a row is used for a direction only when all rows
  // of that direction alone are used.
  ghost predicate RankDecides(rows: seq<Row>, pairs: seq<Pair>, space: Space, hash: Hash)
  {
    && (forall x, y | x in rows && y in rows && OneWay(x, Expansion, space) && OneWay(y, Expansion, space) ::
          Uses(pairs, x.ref, Expansion) && !Uses(pairs, y.ref, Expansion) ==> Outranks(ExpansionOnly, x, y, hash))
    && (forall x, y | x in rows && y in rows && OneWay(x, Contraction, space) && OneWay(y, Contraction, space) ::
          Uses(pairs, x.ref, Contraction) && !Uses(pairs, y.ref, Contraction) ==> Outranks(ContractionOnly, x, y, hash))
    && (forall x, y | x in rows && y in rows && TwoWay(x, space) && TwoWay(y, space) ::
          && (Uses(pairs, x.ref, Expansion) && !Uses(pairs, y.ref, Expansion) ==> Outranks(Balanced, x, y, hash))
          && (Uses(pairs, x.ref, Contraction) && !Uses(pairs, y.ref, Expansion) && !Uses(pairs, y.ref, Contraction)
              ==> Outranks(Balanced, x, y, hash)))
    && (forall x, y, d | x in rows && y in rows && OneWay(x, d, space) && TwoWay(y, space) && Uses(pairs, y.ref, d) ::
          Uses(pairs, x.ref, d))
  }

  lemma ClassIs(row: Row, space: Space)
    ensures OneWay(row, Expansion, space) <==> InClass(ExpansionOnly, space)(row)
    ensures OneWay(row, Contraction, space) <==> InClass(ContractionOnly, space)(row)
    ensures TwoWay(row, space) <==> InClass(Balanced, space)(row)
  {
    hide Gives;
  }

  lemma PairsUse(entries: seq<Entry>, pairs: seq<Pair>, hash: Hash, ref: Text, direction: Direction)
    requires |pairs| == |entries| && forall i | 0 <= i < |pairs| :: pairs[i] == PairOf(entries[i], hash)
    ensures Uses(pairs, ref, direction) <==> UsedIn(entries, ref, direction)
  {
    if i :| 0 <= i < |pairs| && pairs[i].source == ref && pairs[i].candidate.direction == direction {
      assert entries[i] in entries;
    }
    if x :| x in entries && x.row.ref == ref && x.candidate.direction == direction {
      var i :| 0 <= i < |entries| && entries[i] == x;
      assert pairs[i] == PairOf(x, hash);
    }
  }

  ghost function PoolsOf(choices: seq<Choice>, hash: Hash): Pools
  {
    Pools(Pool(choices, ExpansionOnly, hash), Pool(choices, ContractionOnly, hash), Pool(choices, Balanced, hash))
  }

  lemma PoolsAreApart(choices: seq<Choice>, hash: Hash)
    requires KeysDistinct(choices, ChoiceRef())
    ensures PoolsOf(choices, hash).Apart()
  {
    hide Pool;
    PoolMeaning(choices, ExpansionOnly, hash);
    PoolMeaning(choices, ContractionOnly, hash);
    PoolMeaning(choices, Balanced, hash);
    PoolsApart(choices, ExpansionOnly, ContractionOnly, hash);
    PoolsApart(choices, ContractionOnly, ExpansionOnly, hash);
    PoolsApart(choices, ExpansionOnly, Balanced, hash);
    PoolsApart(choices, Balanced, ExpansionOnly, hash);
    PoolsApart(choices, ContractionOnly, Balanced, hash);
    PoolsApart(choices, Balanced, ContractionOnly, hash);
  }

  // The entries use prefixes of the pools, and a row of both directions only after the others.
  lemma EntriesUse(choices: seq<Choice>, limit: nat, rows: seq<Row>, space: Space, hash: Hash)
    returns (e: nat, c: nat, en: nat, cn: nat)
    requires Source(choices, rows, space, hash)
    ensures PrefixesUsed(EntriesOf(choices, limit, hash), PoolsOf(choices, hash), e, c, en, cn)
    ensures en > 0 ==> e == |PoolsOf(choices, hash).expansion|
    ensures cn > 0 ==> c == |PoolsOf(choices, hash).contraction|
  {
    hide Sourced, Pool, Taken, LargestFit, AllSourced, PrefixesUsed, Pools.Apart, Halves;
    var p := PoolsOf(choices, hash);
    var k := LargestFit(limit, |p.expansion|, |p.contraction|, |p.both|);
    e, c := Min(k, |p.expansion|), Min(k, |p.contraction|);
    en, cn := k - e, k - c;
    PoolSourced(choices, ExpansionOnly, rows, space, hash);
    PoolSourced(choices, ContractionOnly, rows, space, hash);
    PoolSourced(choices, Balanced, rows, space, hash);
    PoolsAreApart(choices, hash);
    TakenHalved(p, k, rows, space, hash);
    var taken := Taken(p.expansion, p.contraction, p.both, k);
    PoolsUsed(taken, p, e, c, en, cn);
    SortPermutes(taken, ByKey(PairRank(hash)));
    MembersPermuted(taken, EntriesOf(choices, limit, hash));
    SameUse(taken, EntriesOf(choices, limit, hash), p, e, c, en, cn);
  }

  lemma SameUse(a: seq<Entry>, b: seq<Entry>, p: Pools, e: nat, c: nat, en: nat, cn: nat)
    requires PrefixesUsed(a, p, e, c, en, cn) && forall x :: x in a <==> x in b
    ensures PrefixesUsed(b, p, e, c, en, cn)
  {
    forall ref, d ensures UsedIn(a, ref, d) <==> UsedIn(b, ref, d) {}
  }

  // The generated pairs use the best-ranked rows.
  lemma BestRowsUsed(rows: seq<Row>, heldout: set<Text>, maximum: int, space: Space, hash: Hash)
    requires GenerationOf(rows, heldout, maximum, space, hash).Generated?
    ensures RankDecides(rows, GenerationOf(rows, heldout, maximum, space, hash).pairs, space, hash)
  {
    hide EntriesOf, TallyRows, PairUp, Kept, Sort, Refs, Source, RankDecides, PairOf, DistinctRefs, CountIf, PrefixesUsed, PoolsOf;
    var ordered := Ordered(rows);
    ChoicesSource(ordered, space, hash);
    OrderedMembers(rows);
    var choices := Kept(ordered, space, hash);
    var entries := EntriesOf(choices, maximum / 2, hash);
    PairUpMeaning(entries, Refs(ordered), heldout, hash, []);
    var pairs := GenerationOf(rows, heldout, maximum, space, hash).pairs;
    assert forall i | 0 <= i < |pairs| :: pairs[0 + i] == PairOf(entries[i], hash);
    var e, c, en, cn := EntriesUse(choices, maximum / 2, ordered, space, hash);
    KeptRefs(ordered, space, hash);
    RanksDecide(rows, ordered, entries, pairs, e, c, en, cn, space, hash);
  }

  lemma RanksDecide(rows: seq<Row>, ordered: seq<Row>, entries: seq<Entry>, pairs: seq<Pair>, e: nat, c: nat, en: nat, cn: nat,
                    space: Space, hash: Hash)
    requires forall row :: row in rows <==> row in ordered
    requires |pairs| == |entries| && forall i | 0 <= i < |pairs| :: pairs[i] == PairOf(entries[i], hash)
    requires KeysDistinct(Kept(ordered, space, hash), ChoiceRef())
    requires var p := PoolsOf(Kept(ordered, space, hash), hash);
             && PrefixesUsed(entries, p, e, c, en, cn)
             && (en > 0 ==> e == |p.expansion|) && (cn > 0 ==> c == |p.contraction|)
    ensures RankDecides(rows, pairs, space, hash)
  {
    hide Kept, Pool, KeysDistinct, PairOf, Uses, UsedIn, OneWay, TwoWay, Outranks, InClass;
    var choices := Kept(ordered, space, hash);
    forall ref, d ensures Uses(pairs, ref, d) <==> UsedIn(entries, ref, d) { PairsUse(entries, pairs, hash, ref, d); }
    forall x, y | x in rows && y in rows && OneWay(x, Expansion, space) && OneWay(y, Expansion, space)
      ensures Uses(pairs, x.ref, Expansion) && !Uses(pairs, y.ref, Expansion) ==> Outranks(ExpansionOnly, x, y, hash)
    {
      var i, j := Stand(ordered, x, y, ExpansionOnly, space, hash);
    }
    forall x, y | x in rows && y in rows && OneWay(x, Contraction, space) && OneWay(y, Contraction, space)
      ensures Uses(pairs, x.ref, Contraction) && !Uses(pairs, y.ref, Contraction) ==> Outranks(ContractionOnly, x, y, hash)
    {
      var i, j := Stand(ordered, x, y, ContractionOnly, space, hash);
    }
    forall x, y | x in rows && y in rows && TwoWay(x, space) && TwoWay(y, space)
      ensures Uses(pairs, x.ref, Expansion) && !Uses(pairs, y.ref, Expansion) ==> Outranks(Balanced, x, y, hash)
      ensures Uses(pairs, x.ref, Contraction) && !Uses(pairs, y.ref, Expansion) && !Uses(pairs, y.ref, Contraction)
              ==> Outranks(Balanced, x, y, hash)
    {
      var i, j := Stand(ordered, x, y, Balanced, space, hash);
    }
    forall x, y, d | x in rows && y in rows && OneWay(x, d, space) && TwoWay(y, space) && Uses(pairs, y.ref, d)
      ensures Uses(pairs, x.ref, d)
    {
      ClassIs(x, space);
      ClassIs(y, space);
      var i := PoolIndex(ordered, x, if d == Expansion then ExpansionOnly else ContractionOnly, space, hash);
      var j := PoolIndex(ordered, y, Balanced, space, hash);
    }
  }

  // Two rows of one kind stand in its pool, and the one that stands first outranks the other.
  lemma Stand(ordered: seq<Row>, x: Row, y: Row, kind: Kind, space: Space, hash: Hash) returns (i: nat, j: nat)
    requires x in ordered && y in ordered && KeysDistinct(Kept(ordered, space, hash), ChoiceRef())
    requires match kind
             case ExpansionOnly => OneWay(x, Expansion, space) && OneWay(y, Expansion, space)
             case ContractionOnly => OneWay(x, Contraction, space) && OneWay(y, Contraction, space)
             case Balanced => TwoWay(x, space) && TwoWay(y, space)
    ensures var p := Pool(Kept(ordered, space, hash), kind, hash);
            i < |p| && j < |p| && p[i].row == x && p[j].row == y
    ensures i < j ==> Outranks(kind, x, y, hash)
  {
    hide Kept, Pool, KeysDistinct, OneWay, TwoWay, InClass, Ahead;
    ClassIs(x, space);
    ClassIs(y, space);
    i := PoolIndex(ordered, x, kind, space, hash);
    j := PoolIndex(ordered, y, kind, space, hash);
    if i < j { PoolAhead(Kept(ordered, space, hash), kind, hash, i, j); }
  }

  // ---------------------------------------------------------------- what a pair is, and the order of the pairs

  // The candidate that every other candidate of its direction in the row comes after, and a ref made of the
  // row's ref, a mark and the first sixteen characters of the candidate's hash.
  ghost predicate PairMeans(pair: Pair, row: Row, space: Space, hash: Hash)
  {
    && pair.source == row.ref && pair.positive == row.gold
    && CandidatesOf(row, space).Candidates?
    && (var found, c := CandidatesOf(row, space).found, pair.candidate;
        && c in (if c.direction == Expansion then found.expansion else found.contraction)
        && forall d | d in (if c.direction == Expansion then found.expansion else found.contraction) && d != c ::
             Preferred(hash, row.ref, c, d))
    && exists id :: NamedBy(id, hash, row.ref, pair.candidate) && pair.negativeRef == row.ref + Codes("::boundary-negative::") + id
  }

  ghost predicate NamedBy(id: Text, hash: Hash, ref: Text, c: Candidate)
  {
    var digest := hash(CandidateKey(ref, c.direction, c.side, c.index, c.corrupted));
    id <= digest && (|id| == 16 || (|id| < 16 && id == digest))
  }

  lemma PairIsMeant(rows: seq<Row>, heldout: set<Text>, maximum: int, space: Space, hash: Hash, i: nat)
    requires GenerationOf(rows, heldout, maximum, space, hash).Generated?
    requires i < |GenerationOf(rows, heldout, maximum, space, hash).pairs|
    ensures exists row :: row in rows && PairMeans(GenerationOf(rows, heldout, maximum, space, hash).pairs[i], row, space, hash)
  {
    hide GenerationOf, Ordered, CandidatesOf, CandidateLeq, Preferred, Faithful, Codes;
    OrderedMembers(rows);
    var e := PairFromEntry(rows, heldout, maximum, space, hash, i);
    ChosenIsEdit(e, Ordered(rows), space, hash);
    var entities :| IsEditOf(PairOf(e, hash), e.row, entities, space, hash);
    var cs := Offered(CandidatesOf(e.row, space).found, e.candidate.direction);
    forall d | d in cs && d != e.candidate ensures Preferred(hash, e.row.ref, e.candidate, d) {
      PreferredExact(hash, e.row.ref, e.candidate, d);
    }
    assert NamedBy(Id(hash, e.row.ref, e.candidate), hash, e.row.ref, e.candidate);
    assert PairMeans(PairOf(e, hash), e.row, space, hash);
  }

  // The pairs come in the order of the hash of their source and direction, then of their source.
  lemma PairsInOrder(rows: seq<Row>, heldout: set<Text>, maximum: int, space: Space, hash: Hash, i: nat, j: nat)
    requires GenerationOf(rows, heldout, maximum, space, hash).Generated?
    requires i < j < |GenerationOf(rows, heldout, maximum, space, hash).pairs|
    ensures var pairs := GenerationOf(rows, heldout, maximum, space, hash).pairs;
            Ahead((hash(PairKey(pairs[i].source, pairs[i].candidate.direction)), pairs[i].source),
                  (hash(PairKey(pairs[j].source, pairs[j].candidate.direction)), pairs[j].source))
  {
    hide GenerationOf, Ahead, PairLeq, LargestFeasible;
    PairsRanked(rows, heldout, maximum, space, hash);
    GenerationIsOptimal(rows, heldout, maximum, space, hash);
    var pairs := GenerationOf(rows, heldout, maximum, space, hash).pairs;
    var key := PairOrderKey(hash);
    forall a, b | 0 <= a < b < |pairs| ensures key(pairs[a]) != key(pairs[b]) {
      assert PairSource()(pairs[a]) != PairSource()(pairs[b]);
    }
    SortedAhead(pairs, key, i, j);
  }

  // The requests that are accepted: an even number up to 512; named, distinct rows; no empty and no shared
  // held-out ref; no invalid row.
  lemma RequestsAre(rows: seq<Row>, heldout: set<Text>, maximum: int, space: Space)
    ensures GoodInputs(rows, heldout, maximum, space)
       <==> && 0 <= maximum <= 512 && maximum % 2 == 0 && [] !in heldout
            && (forall row | row in rows :: row.ref != [] && row.ref !in heldout && CandidatesOf(row, space) != Invalid)
            && forall i, j | 0 <= i < j < |rows| :: rows[i].ref != rows[j].ref
  {
    hide CandidatesOf, Refs;
    forall ref ensures ref in Refs(rows) <==> exists row :: row in rows && row.ref == ref { RefMember(rows, ref); }
    if Refs(rows) * heldout == {} {
      forall row | row in rows ensures row.ref !in heldout { assert row.ref !in Refs(rows) * heldout; }
    }
    if forall row | row in rows :: row.ref !in heldout { assert Refs(rows) * heldout == {}; }
  }
}
