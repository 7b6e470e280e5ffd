// Half-open byte ranges: sorting them and comparing neighbours decides pairwise disjointness, and disjoint
// ranges inside a window are no longer than the window.
module Intervals {
  import opened Ordering

  type Range = (nat, nat)

  predicate Apart(a: Range, b: Range) { a.1 <= b.0 || b.1 <= a.0 }

  ghost predicate Disjoint(s: seq<Range>)
  {
    forall i, j | 0 <= i < j < |s| :: Apart(s[i], s[j])
  }

  predicate Nonempty(s: seq<Range>)
  {
    forall i | 0 <= i < |s| :: s[i].0 < s[i].1
  }

  // No left neighbour ends after its right neighbour starts.
  predicate AdjacentApart(s: seq<Range>)
  {
    forall i | 0 <= i < |s| - 1 :: s[i].1 <= s[i + 1].0
  }

  function ByRange(): (leq: (Range, Range) -> bool)
  {
    (a: Range, b: Range) => a.0 < b.0 || (a.0 == b.0 && a.1 <= b.1)
  }

  lemma RangeOrder()
    ensures TotalPreorder(ByRange())
    ensures forall a, b | ByRange()(a, b) && ByRange()(b, a) :: a == b
  {
  }

  lemma AdjacentExact(s: seq<Range>)
    requires SortedBy(ByRange(), s) && Nonempty(s)
    ensures AdjacentApart(s) <==> Disjoint(s)
  {
    if AdjacentApart(s) {
      forall i, j | 0 <= i < j < |s| ensures Apart(s[i], s[j]) {
        assert j == i + 1 || ByRange()(s[i + 1], s[j]);
      }
    }
    if Disjoint(s) {
      forall i | 0 <= i < |s| - 1 ensures s[i].1 <= s[i + 1].0 {
        assert ByRange()(s[i], s[i + 1]) && Apart(s[i], s[i + 1]);
      }
    }
  }

  lemma DisjointPermuted(s: seq<Range>, t: seq<Range>)
    requires multiset(s) == multiset(t) && Nonempty(s) && Disjoint(s)
    ensures Nonempty(t) && Disjoint(t)
  {
    EachAmong(s, t);
    forall i, j | 0 <= i < j < |s| ensures s[i] != s[j] { assert Apart(s[i], s[j]); }
    DistinctPermuted(s, t);
    forall i, j | 0 <= i < j < |t| ensures Apart(t[i], t[j]) {
      var a :| 0 <= a < |s| && s[a] == t[i];
      var b :| 0 <= b < |s| && s[b] == t[j];
      assert Apart(s[if a < b then a else b], s[if a < b then b else a]);
    }
  }

  // The check of the validator, on ranges in any order.
  lemma SortedCheckExact(s: seq<Range>)
    requires Nonempty(s)
    ensures AdjacentApart(Sort(s, ByRange())) <==> Disjoint(s)
  {
    hide Sort, Disjoint, AdjacentApart;
    var t := Sort(s, ByRange());
    RangeOrder();
    SortSorted(s, ByRange());
    SortPermutes(s, ByRange());
    EachAmong(s, t);
    AdjacentExact(t);
    if Disjoint(s) { DisjointPermuted(s, t); }
    if Disjoint(t) { DisjointPermuted(t, s); }
  }

  function TotalLength(s: seq<Range>): int
  {
    if s == [] then 0 else s[0].1 - s[0].0 + TotalLength(s[1..])
  }

  lemma {:induction false} TotalInsert(x: Range, s: seq<Range>)
    ensures TotalLength(Insert(x, s, ByRange())) == x.1 - x.0 + TotalLength(s)
  {
    if s != [] && !ByRange()(x, s[0]) {
      TotalInsert(x, s[1..]);
    }
  }

  lemma {:induction false} TotalSort(s: seq<Range>)
    ensures TotalLength(Sort(s, ByRange())) == TotalLength(s)
  {
    if s != [] {
      TotalSort(s[1..]);
      TotalInsert(s[0], Sort(s[1..], ByRange()));
    }
  }

  lemma {:induction false} TotalSorted(s: seq<Range>, low: nat, high: nat)
    requires AdjacentApart(s) && low <= high
    requires forall i | 0 <= i < |s| :: low <= s[i].0 < s[i].1 <= high
    ensures TotalLength(s) <= high - low
  {
    if s != [] {
      forall i | 0 <= i < |s[1..]| ensures s[0].1 <= s[1..][i].0 {
        StartsAfter(s, i + 1);
      }
      assert AdjacentApart(s[1..]);
      TotalSorted(s[1..], s[0].1, high);
    }
  }

  lemma {:induction false} StartsAfter(s: seq<Range>, i: nat)
    requires AdjacentApart(s) && Nonempty(s) && 1 <= i < |s|
    ensures s[0].1 <= s[i].0
  {
    if i > 1 { StartsAfter(s, i - 1); }
  }

  // Disjoint ranges inside a window cannot be longer than the window.
  lemma DisjointFit(s: seq<Range>, low: nat, high: nat)
    requires Disjoint(s) && low <= high
    requires forall i | 0 <= i < |s| :: low <= s[i].0 < s[i].1 <= high
    ensures TotalLength(s) <= high - low
  {
    hide Sort, Disjoint, AdjacentApart, TotalLength;
    var t := Sort(s, ByRange());
    SortedCheckExact(s);
    SortPermutes(s, ByRange());
    EachAmong(s, t);
    TotalSorted(t, low, high);
    TotalSort(s);
  }
}
