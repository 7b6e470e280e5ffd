// The combinatorics of the balanced choice: the greedy count is the best over all assignments.
module Balance {
  import opened Collections
  import opened Ordering
  import opened Corruption
  import opened Selection

  // ---------------------------------------------------------------- assignments of rows to directions

  // The row can be given a pair of this direction.
  predicate Gives(row: Row, direction: Direction, space: Space)
  {
    var outcome := CandidatesOf(row, space);
    outcome.Candidates? && (if direction == Expansion then outcome.found.expansion != [] else outcome.found.contraction != [])
  }

  ghost predicate AllGive(rows: seq<Row>, chosen: set<nat>, direction: Direction, space: Space)
  {
    forall i | i in chosen :: i < |rows| && Gives(rows[i], direction, space)
  }

  // k rows are given expansions and k different rows contractions.
  ghost predicate Assigned(rows: seq<Row>, expanded: set<nat>, contracted: set<nat>, k: nat, space: Space)
  {
    && expanded !! contracted && |expanded| == k && |contracted| == k
    && AllGive(rows, expanded, Expansion, space) && AllGive(rows, contracted, Contraction, space)
  }

  ghost predicate Feasible(rows: seq<Row>, k: nat, space: Space)
  {
    exists expanded, contracted :: Assigned(rows, expanded, contracted, k, space)
  }

  ghost predicate LargestFeasible(rows: seq<Row>, limit: nat, k: nat, space: Space)
  {
    k <= limit && Feasible(rows, k, space) && forall j: nat | k < j <= limit :: !Feasible(rows, j, space)
  }

  // ---------------------------------------------------------------- the three classes of rows

  function InClass(kind: Kind, space: Space): Row -> bool
  {
    (row: Row) => Gives(row, Expansion, space) == (kind != ContractionOnly)
               && Gives(row, Contraction, space) == (kind != ExpansionOnly)
  }

  ghost function Class(rows: seq<Row>, kind: Kind, space: Space): set<nat>
  {
    set i: nat | i < |rows| && InClass(kind, space)(rows[i])
  }

  lemma {:induction false} ClassSize(rows: seq<Row>, kind: Kind, space: Space)
    ensures |Class(rows, kind, space)| == CountIf(rows, InClass(kind, space))
  {
    hide InClass, Class;
    if rows == [] {
      NoClass(kind, space);
    } else {
      var n := |rows| - 1;
      ClassSize(rows[..n], kind, space);
      CountAppend(rows[..n], [rows[n]], InClass(kind, space));
      assert rows == rows[..n] + [rows[n]];
      LastInClass(rows, kind, space);
    }
  }

  lemma NoClass(kind: Kind, space: Space)
    ensures Class([], kind, space) == {}
  {
  }

  lemma LastInClass(rows: seq<Row>, kind: Kind, space: Space)
    requires rows != []
    ensures var n := |rows| - 1;
            && n !in Class(rows[..n], kind, space)
            && Class(rows, kind, space) == Class(rows[..n], kind, space) + if InClass(kind, space)(rows[n]) then {n} else {}
  {
    hide InClass;
  }

  lemma SubsetSize<T>(a: set<T>, b: set<T>)
    requires a <= b
    ensures |a| <= |b|
  {
    assert b == a + (b - a);
  }

  lemma {:induction false} Part<T>(s: set<T>, n: nat) returns (part: set<T>)
    requires n <= |s|
    ensures part <= s && |part| == n
  {
    part := {};
    if n > 0 {
      var x :| x in s;
      var less := Part(s - {x}, n - 1);
      part := less + {x};
    }
  }

  // Rows given a direction come from the class of that direction alone or from the shared class.
  lemma GivenSplits(chosen: set<nat>, single: set<nat>, both: set<nat>)
    requires chosen <= single + both && single !! both
    ensures |chosen| == |chosen * single| + |chosen * both|
    ensures |chosen * single| <= |single|
  {
    assert chosen == chosen * single + chosen * both;
    SubsetSize(chosen * single, single);
  }

  function SingleKind(direction: Direction): Kind
  {
    if direction == Expansion then ExpansionOnly else ContractionOnly
  }

  // Exactly the rows of the two classes can be given a direction.
  lemma GivenFromClasses(rows: seq<Row>, chosen: set<nat>, direction: Direction, space: Space)
    ensures Class(rows, SingleKind(direction), space) !! Class(rows, Balanced, space)
    ensures AllGive(rows, chosen, direction, space)
       <==> chosen <= Class(rows, SingleKind(direction), space) + Class(rows, Balanced, space)
  {
    hide Gives;
  }

  lemma CountsFit(x: set<nat>, y: set<nat>, e: set<nat>, c: set<nat>, b: set<nat>, k: nat)
    requires x <= e + b && y <= c + b && e !! b && c !! b && x !! y && |x| == k && |y| == k
    ensures Fits(k, |e|, |c|, |b|)
  {
    GivenSplits(x, e, b);
    GivenSplits(y, c, b);
    assert x * b !! y * b;
    SubsetSize(x * b + y * b, b);
  }

  lemma SetsFromFit(e: set<nat>, c: set<nat>, b: set<nat>, k: nat) returns (x: set<nat>, y: set<nat>)
    requires Fits(k, |e|, |c|, |b|) && e !! b && c !! b && e !! c
    ensures x <= e + b && y <= c + b && x !! y && |x| == k && |y| == k
  {
    var alone := Part(e, Min(k, |e|));
    var other := Part(c, Min(k, |c|));
    var more := Part(b, k - Min(k, |e|));
    assert |b - more| == |b| - |more| by { assert b == more + (b - more); }
    var rest := Part(b - more, k - Min(k, |c|));
    x, y := alone + more, other + rest;
    assert alone !! more && other !! rest;
  }

  lemma ClassesDisjoint(rows: seq<Row>, space: Space)
    ensures Class(rows, ExpansionOnly, space) !! Class(rows, ContractionOnly, space)
  {
    hide Gives;
  }

  lemma FeasibleFits(rows: seq<Row>, k: nat, space: Space)
    ensures Feasible(rows, k, space)
       <==> Fits(k, |Class(rows, ExpansionOnly, space)|, |Class(rows, ContractionOnly, space)|,
                 |Class(rows, Balanced, space)|)
  {
    hide AllGive, Class, Fits;
    var e, c, b := Class(rows, ExpansionOnly, space), Class(rows, ContractionOnly, space), Class(rows, Balanced, space);
    ClassesDisjoint(rows, space);
    if Feasible(rows, k, space) {
      var x, y :| Assigned(rows, x, y, k, space);
      GivenFromClasses(rows, x, Expansion, space);
      GivenFromClasses(rows, y, Contraction, space);
      CountsFit(x, y, e, c, b, k);
    }
    if Fits(k, |e|, |c|, |b|) {
      GivenFromClasses(rows, {}, Expansion, space);
      GivenFromClasses(rows, {}, Contraction, space);
      var x, y := SetsFromFit(e, c, b, k);
      GivenFromClasses(rows, x, Expansion, space);
      GivenFromClasses(rows, y, Contraction, space);
      assert Assigned(rows, x, y, k, space);
    }
  }

  // The greedy count is exact: filling single-direction rows first loses nothing.
  lemma FeasibleExact(rows: seq<Row>, k: nat, space: Space)
    ensures Feasible(rows, k, space)
       <==> Fits(k, CountIf(rows, InClass(ExpansionOnly, space)), CountIf(rows, InClass(ContractionOnly, space)),
                 CountIf(rows, InClass(Balanced, space)))
  {
    hide Feasible, Fits, InClass;
    ClassSize(rows, ExpansionOnly, space);
    ClassSize(rows, ContractionOnly, space);
    ClassSize(rows, Balanced, space);
    FeasibleFits(rows, k, space);
  }

  // ---------------------------------------------------------------- the candidate kept for a row

  lemma CandidateOrder(hash: Hash, ref: Text, a: Candidate, b: Candidate, c: Candidate)
    ensures CandidateLeq(hash, ref, a, a)
    ensures CandidateLeq(hash, ref, a, b) || CandidateLeq(hash, ref, b, a)
    ensures CandidateLeq(hash, ref, a, b) && CandidateLeq(hash, ref, b, c) ==> CandidateLeq(hash, ref, a, c)
    ensures CandidateLeq(hash, ref, a, b) && CandidateLeq(hash, ref, b, a) ==> a.index == b.index && a.corrupted == b.corrupted
  {
    hide LexLeq;
    var ha := hash(CandidateKey(ref, a.direction, a.side, a.index, a.corrupted));
    var hb := hash(CandidateKey(ref, b.direction, b.side, b.index, b.corrupted));
    var hc := hash(CandidateKey(ref, c.direction, c.side, c.index, c.corrupted));
    LexFacts(ha, hb, hc);
    LexFacts(a.corrupted, b.corrupted, c.corrupted);
  }

  lemma LexFacts(a: Text, b: Text, c: Text)
    ensures LexLeq(a, a)
    ensures LexLeq(a, b) || LexLeq(b, a)
    ensures LexLeq(a, b) && LexLeq(b, a) ==> a == b
    ensures LexLeq(a, b) && LexLeq(b, c) ==> LexLeq(a, c)
    ensures LexLeq(b, c) && LexLeq(c, b) ==> b == c
  {
    LexTotal(a, a);
    LexTotal(a, b);
    if LexLeq(a, b) && LexLeq(b, a) { LexAntisymmetric(a, b); }
    if LexLeq(b, c) && LexLeq(c, b) { LexAntisymmetric(b, c); }
    if LexLeq(a, b) && LexLeq(b, c) { LexTransitive(a, b, c); }
  }

  lemma {:induction false} LeastFromMeaning(best: Candidate, cs: seq<Candidate>, hash: Hash, ref: Text)
    ensures var r := LeastFrom(best, cs, hash, ref);
            && (r == best || r in cs) && CandidateLeq(hash, ref, r, best)
            && forall i | 0 <= i < |cs| :: CandidateLeq(hash, ref, r, cs[i])
    decreases |cs|
  {
    hide CandidateLeq;
    CandidateOrder(hash, ref, best, best, best);
    if cs != [] {
      CandidateOrder(hash, ref, best, cs[0], cs[0]);
      var next := if CandidateLeq(hash, ref, best, cs[0]) then best else cs[0];
      LeastFromMeaning(next, cs[1..], hash, ref);
      var r := LeastFrom(next, cs[1..], hash, ref);
      CandidateOrder(hash, ref, r, next, best);
      CandidateOrder(hash, ref, r, next, cs[0]);
      CandidateOrder(hash, ref, cs[0], cs[0], cs[0]);
      forall i | 0 <= i < |cs| ensures CandidateLeq(hash, ref, r, cs[i]) {
        if i > 0 { assert cs[i] == cs[1..][i - 1]; }
      }
    }
  }

  lemma LeastMeaning(cs: seq<Candidate>, hash: Hash, ref: Text)
    ensures Least(cs, hash, ref).Some? <==> cs != []
    ensures Least(cs, hash, ref).Some? ==>
              && Least(cs, hash, ref).value in cs
              && forall i | 0 <= i < |cs| :: CandidateLeq(hash, ref, Least(cs, hash, ref).value, cs[i])
  {
    hide CandidateLeq;
    if cs != [] {
      LeastFromMeaning(cs[0], cs[1..], hash, ref);
      forall i | 0 <= i < |cs| ensures CandidateLeq(hash, ref, Least(cs, hash, ref).value, cs[i]) {
        if i > 0 { assert cs[i] == cs[1..][i - 1]; }
      }
    }
  }

  // ---------------------------------------------------------------- the choices of a list of rows

  function Kept(rows: seq<Row>, space: Space, hash: Hash): seq<Choice>
  {
    if rows == [] then []
    else (if CandidatesOf(rows[0], space).Candidates? then [ChoiceOf(rows[0], CandidatesOf(rows[0], space).found, hash)] else [])
         + Kept(rows[1..], space, hash)
  }

  lemma {:induction false} TallyKeeps(rows: seq<Row>, t: Tally, space: Space, hash: Hash)
    requires TallyRows(rows, t, space, hash).Some?
    ensures TallyRows(rows, t, space, hash).value.choices == t.choices + Kept(rows, space, hash)
    decreases |rows|
  {
    hide CandidatesOf, ChoiceOf;
    if rows != [] {
      match CandidatesOf(rows[0], space) {
        case Ineligible(reason) => TallyKeeps(rows[1..], t.(ineligible := Count(t.ineligible, reason)), space, hash);
        case Candidates(found) =>
          var choice := ChoiceOf(rows[0], found, hash);
          TallyKeeps(rows[1..], t.(choices := t.choices + [choice]), space, hash);
          assert (t.choices + [choice]) + Kept(rows[1..], space, hash) == t.choices + ([choice] + Kept(rows[1..], space, hash));
      }
    }
  }

  // The choice is what its own row yields.
  ghost predicate Sourced(c: Choice, rows: seq<Row>, space: Space, hash: Hash)
  {
    && c.row in rows && CandidatesOf(c.row, space).Candidates?
    && c == ChoiceOf(c.row, CandidatesOf(c.row, space).found, hash)
  }

  lemma {:induction false} KeptSourced(rows: seq<Row>, space: Space, hash: Hash)
    ensures forall i | 0 <= i < |Kept(rows, space, hash)| :: Sourced(Kept(rows, space, hash)[i], rows, space, hash)
  {
    hide CandidatesOf, ChoiceOf;
    if rows != [] {
      KeptSourced(rows[1..], space, hash);
      var all, rest := Kept(rows, space, hash), Kept(rows[1..], space, hash);
      forall i | 0 <= i < |all| ensures Sourced(all[i], rows, space, hash) {
        ChoiceRow(rows[0], space, hash);
        if all[i] in rest { assert Sourced(all[i], rows[1..], space, hash); }
      }
    }
  }

  lemma ChoiceRow(row: Row, space: Space, hash: Hash)
    ensures CandidatesOf(row, space).Candidates? ==> ChoiceOf(row, CandidatesOf(row, space).found, hash).row == row
  {
  }

  function ChoiceRef(): Choice -> Text { (c: Choice) => c.row.ref }

  lemma {:induction false} KeptRefs(rows: seq<Row>, space: Space, hash: Hash)
    requires DistinctRefs(rows)
    ensures KeysDistinct(Kept(rows, space, hash), ChoiceRef())
  {
    hide CandidatesOf, ChoiceOf;
    if rows != [] {
      KeptRefs(rows[1..], space, hash);
      KeptSourced(rows[1..], space, hash);
      ChoiceRow(rows[0], space, hash);
      var all, rest := Kept(rows, space, hash), Kept(rows[1..], space, hash);
      if all != rest {
        forall i | 1 <= i < |all| ensures all[0].row.ref != all[i].row.ref {
          assert all[i] == rest[i - 1] && Sourced(rest[i - 1], rows[1..], space, hash);
        }
        assert forall i | 1 <= i < |all| :: all[i] == rest[i - 1];
      }
    }
  }

  lemma ChoiceKind(row: Row, kind: Kind, space: Space, hash: Hash)
    ensures CandidatesOf(row, space).Candidates? ==>
              OfKind(ChoiceOf(row, CandidatesOf(row, space).found, hash), kind) == InClass(kind, space)(row)
    ensures !CandidatesOf(row, space).Candidates? ==> !InClass(kind, space)(row)
  {
    hide CandidatesOf, Least;
    if CandidatesOf(row, space).Candidates? {
      var found := CandidatesOf(row, space).found;
      LeastMeaning(found.expansion, hash, row.ref);
      LeastMeaning(found.contraction, hash, row.ref);
    }
  }

  lemma OnlySplit(c: Choice, rest: seq<Choice>, kind: Kind)
    ensures Only([c] + rest, kind) == (if OfKind(c, kind) then [c] else []) + Only(rest, kind)
  {
    assert ([c] + rest)[1..] == rest;
  }

  // A pool holds one choice for every row of its class.
  lemma {:induction false} PoolSize(rows: seq<Row>, kind: Kind, space: Space, hash: Hash)
    ensures |Only(Kept(rows, space, hash), kind)| == CountIf(rows, InClass(kind, space))
  {
    hide CandidatesOf, ChoiceOf, OfKind, InClass;
    if rows != [] {
      PoolSize(rows[1..], kind, space, hash);
      ChoiceKind(rows[0], kind, space, hash);
      if CandidatesOf(rows[0], space).Candidates? {
        OnlySplit(ChoiceOf(rows[0], CandidatesOf(rows[0], space).found, hash), Kept(rows[1..], space, hash), kind);
      } else {
        assert Kept(rows, space, hash) == Kept(rows[1..], space, hash);
      }
    }
  }
}
