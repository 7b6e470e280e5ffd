// Stable sorting by a key, as Python's sorted does: when its result is sorted, when it is canonical, and what every
// permutation keeps. Also Python's order on strings and on pairs of strings.
module Ordering {
  import opened Collections

  ghost predicate TotalPreorder<T(!new)>(leq: (T, T) -> bool)
  {
    && (forall x, y :: leq(x, y) || leq(y, x))
    && (forall x, y, z :: leq(x, y) && leq(y, z) ==> leq(x, z))
  }

  // Two elements of s with the same key are the same element.
  ghost predicate Separates<T>(leq: (T, T) -> bool, s: seq<T>)
  {
    forall i, j | 0 <= i < |s| && 0 <= j < |s| && leq(s[i], s[j]) && leq(s[j], s[i]) :: s[i] == s[j]
  }

  ghost predicate SortedBy<T>(leq: (T, T) -> bool, s: seq<T>)
  {
    forall i, j | 0 <= i < j < |s| :: leq(s[i], s[j])
  }

  function Insert<T>(x: T, s: seq<T>, leq: (T, T) -> bool): (r: seq<T>)
    ensures |r| == |s| + 1
  {
    if s == [] || leq(x, s[0]) then [x] + s else [s[0]] + Insert(x, s[1..], leq)
  }

  function Sort<T>(s: seq<T>, leq: (T, T) -> bool): (r: seq<T>)
    ensures |r| == |s|
  {
    if s == [] then [] else Insert(s[0], Sort(s[1..], leq), leq)
  }

  lemma {:induction false} InsertPermutes<T>(x: T, s: seq<T>, leq: (T, T) -> bool)
    ensures multiset(Insert(x, s, leq)) == multiset{x} + multiset(s)
  {
    if s != [] && !leq(x, s[0]) {
      InsertPermutes(x, s[1..], leq);
      assert s == [s[0]] + s[1..];
    }
  }

  lemma {:induction false} SortPermutes<T>(s: seq<T>, leq: (T, T) -> bool)
    ensures multiset(Sort(s, leq)) == multiset(s)
  {
    if s != [] {
      SortPermutes(s[1..], leq);
      InsertPermutes(s[0], Sort(s[1..], leq), leq);
      assert s == [s[0]] + s[1..];
    }
  }

  lemma {:induction false} InsertSorted<T(!new)>(x: T, s: seq<T>, leq: (T, T) -> bool)
    requires TotalPreorder(leq) && SortedBy(leq, s)
    ensures SortedBy(leq, Insert(x, s, leq))
  {
    if s != [] && !leq(x, s[0]) {
      InsertSorted(x, s[1..], leq);
      var rest := Insert(x, s[1..], leq);
      InsertPermutes(x, s[1..], leq);
      forall j | 0 <= j < |rest| ensures leq(s[0], rest[j]) {
        assert rest[j] in multiset(rest);
        if rest[j] != x {
          assert rest[j] in multiset(s[1..]);
        }
      }
    }
  }

  lemma {:induction false} SortSorted<T(!new)>(s: seq<T>, leq: (T, T) -> bool)
    requires TotalPreorder(leq)
    ensures SortedBy(leq, Sort(s, leq))
  {
    if s != [] {
      SortSorted(s[1..], leq);
      InsertSorted(s[0], Sort(s[1..], leq), leq);
    }
  }

  // A sorted arrangement of elements with distinct keys is unique.
  lemma {:induction false} SortedUnique<T>(s: seq<T>, t: seq<T>, leq: (T, T) -> bool)
    requires SortedBy(leq, s) && SortedBy(leq, t) && multiset(s) == multiset(t)
    requires Separates(leq, s)
    requires forall x | x in s :: leq(x, x)
    ensures s == t
    decreases |s|
  {
    hide SortedBy, Separates;
    SameLength(s, t);
    if s != [] {
      FirstsAgree(s, t, leq);
      TailMultiset(s);
      TailMultiset(t);
      TailOrdered(s, leq);
      TailOrdered(t, leq);
      SortedUnique(s[1..], t[1..], leq);
      assert s == [s[0]] + s[1..] && t == [t[0]] + t[1..];
    }
  }

  lemma TailOrdered<T>(s: seq<T>, leq: (T, T) -> bool)
    requires SortedBy(leq, s) && s != []
    ensures SortedBy(leq, s[1..]) && (Separates(leq, s) ==> Separates(leq, s[1..])) && (forall x | x in s[1..] :: x in s)
  {
  }

  lemma FirstsAgree<T>(s: seq<T>, t: seq<T>, leq: (T, T) -> bool)
    requires SortedBy(leq, s) && SortedBy(leq, t) && multiset(s) == multiset(t)
    requires Separates(leq, s) && s != [] && t != []
    requires forall x | x in s :: leq(x, x)
    ensures s[0] == t[0]
  {
    MembersPermuted(s, t);
    assert s[0] in t && t[0] in s;
    var i :| 0 <= i < |t| && t[i] == s[0];
    var j :| 0 <= j < |s| && s[j] == t[0];
    assert leq(t[0], s[0]) && leq(s[0], t[0]);
  }

  lemma TailMultiset<T>(s: seq<T>)
    requires s != []
    ensures multiset(s[1..]) == multiset(s) - multiset{s[0]}
  {
    assert s == [s[0]] + s[1..];
  }

  lemma SameLength<T>(s: seq<T>, t: seq<T>)
    requires multiset(s) == multiset(t)
    ensures |s| == |t|
  {
    assert |multiset(s)| == |s| && |multiset(t)| == |t|;
  }

  // Sorting forgets the input order when keys are distinct.
  lemma SortCanonical<T(!new)>(s: seq<T>, t: seq<T>, leq: (T, T) -> bool)
    requires TotalPreorder(leq) && Separates(leq, s) && multiset(s) == multiset(t)
    ensures Sort(s, leq) == Sort(t, leq)
  {
    var a, b := Sort(s, leq), Sort(t, leq);
    SortPermutes(s, leq);
    SortPermutes(t, leq);
    SortSorted(s, leq);
    SortSorted(t, leq);
    SeparatesPermuted(s, a, leq);
    SortedUnique(a, b, leq);
  }

  lemma SeparatesPermuted<T>(s: seq<T>, t: seq<T>, leq: (T, T) -> bool)
    requires Separates(leq, s) && multiset(s) == multiset(t)
    ensures Separates(leq, t)
  {
    forall i, j | 0 <= i < |t| && 0 <= j < |t| && leq(t[i], t[j]) && leq(t[j], t[i])
      ensures t[i] == t[j]
    {
      assert t[i] in multiset(s) && t[j] in multiset(s);
      var a :| 0 <= a < |s| && s[a] == t[i];
      var b :| 0 <= b < |s| && s[b] == t[j];
    }
  }

  lemma MembersPermuted<T>(s: seq<T>, t: seq<T>)
    requires multiset(s) == multiset(t)
    ensures forall x :: x in s <==> x in t
  {
    forall x ensures x in s <==> x in t {
      assert x in s <==> x in multiset(s);
      assert x in t <==> x in multiset(t);
    }
  }

  lemma EachAmong<T>(s: seq<T>, t: seq<T>)
    requires multiset(s) == multiset(t)
    ensures forall i | 0 <= i < |t| :: t[i] in s
  {
    forall i | 0 <= i < |t| ensures t[i] in s {
      assert t[i] in multiset(t);
    }
  }

  lemma DistinctPermuted<T>(s: seq<T>, t: seq<T>)
    requires multiset(s) == multiset(t) && Distinct(s)
    ensures Distinct(t)
  {
    forall i, j | 0 <= i < j < |t| ensures t[i] != t[j] {
      DistinctOnce(s, t[i]);
      RepeatedTwice(t, i, j);
    }
  }

  lemma RepeatedTwice<T>(t: seq<T>, i: nat, j: nat)
    requires i < j < |t|
    ensures t[i] == t[j] ==> multiset(t)[t[i]] >= 2
  {
    assert t == t[..i] + [t[i]] + t[i + 1..j] + [t[j]] + t[j + 1..];
  }

  lemma {:induction false} DistinctOnce<T>(s: seq<T>, x: T)
    requires Distinct(s)
    ensures multiset(s)[x] <= 1
  {
    if s != [] {
      var n := |s| - 1;
      DistinctOnce(s[..n], x);
      assert s == s[..n] + [s[n]];
      assert s[n] !in s[..n];
    }
  }

  // Duplicate-free sequences with the same members are permutations of each other.
  lemma SameMembersPermute<T>(s: seq<T>, t: seq<T>)
    requires Distinct(s) && Distinct(t)
    requires forall x :: x in s <==> x in t
    ensures multiset(s) == multiset(t)
  {
    forall x ensures multiset(s)[x] == multiset(t)[x] {
      DistinctOnce(s, x);
      DistinctOnce(t, x);
      assert x in s <==> x in multiset(s);
      assert x in t <==> x in multiset(t);
    }
  }

  // ---------------------------------------------------------------- what a permutation keeps

  function CountIf<T>(s: seq<T>, p: T -> bool): (n: nat)
    ensures n <= |s|
  {
    if s == [] then 0 else (if p(s[0]) then 1 else 0) + CountIf(s[1..], p)
  }

  lemma {:induction false} CountAppend<T>(s: seq<T>, t: seq<T>, p: T -> bool)
    ensures CountIf(s + t, p) == CountIf(s, p) + CountIf(t, p)
  {
    if s == [] {
      assert s + t == t;
    } else {
      CountAppend(s[1..], t, p);
      assert (s + t)[1..] == s[1..] + t;
    }
  }

  lemma {:induction false} CountAll<T>(s: seq<T>, p: T -> bool, q: bool)
    requires forall i | 0 <= i < |s| :: p(s[i]) == q
    ensures CountIf(s, p) == if q then |s| else 0
  {
    if s != [] { CountAll(s[1..], p, q); }
  }

  lemma {:induction false} CountPermuted<T>(s: seq<T>, t: seq<T>, p: T -> bool)
    requires multiset(s) == multiset(t)
    ensures CountIf(s, p) == CountIf(t, p)
    decreases |s|
  {
    hide CountIf;
    SameLength(s, t);
    if s != [] {
      var i := IndexOfFirst(s, t);
      SplitAt(t, i);
      WithoutOne(t[..i], t[i], t[i + 1..], p);
      TailMultiset(s);
      CountPermuted(s[1..], t[..i] + t[i + 1..], p);
      CountFront(s[0], s[1..], p);
      assert s == [s[0]] + s[1..];
    }
  }

  lemma IndexOfFirst<T>(s: seq<T>, t: seq<T>) returns (i: nat)
    requires multiset(s) == multiset(t) && s != []
    ensures i < |t| && t[i] == s[0]
  {
    MembersPermuted(s, t);
    assert s[0] in s;
    i :| i < |t| && t[i] == s[0];
  }

  lemma SplitAt<T>(t: seq<T>, i: nat)
    requires i < |t|
    ensures t == t[..i] + ([t[i]] + t[i + 1..])
  {
  }

  lemma WithoutOne<T>(a: seq<T>, x: T, b: seq<T>, p: T -> bool)
    ensures multiset(a + b) == multiset(a + ([x] + b)) - multiset{x}
    ensures CountIf(a + ([x] + b), p) == CountIf(a + b, p) + if p(x) then 1 else 0
  {
    hide CountIf;
    CountAppend(a, [x] + b, p);
    CountAppend(a, b, p);
    CountFront(x, b, p);
  }

  lemma CountFront<T>(x: T, b: seq<T>, p: T -> bool)
    ensures CountIf([x] + b, p) == CountIf(b, p) + if p(x) then 1 else 0
  {
    assert ([x] + b)[1..] == b;
  }

  ghost predicate KeysDistinct<T, K>(s: seq<T>, key: T -> K)
  {
    forall i, j | 0 <= i < j < |s| :: key(s[i]) != key(s[j])
  }

  lemma KeysDistinctPermuted<T, K>(s: seq<T>, t: seq<T>, key: T -> K)
    requires multiset(s) == multiset(t) && KeysDistinct(s, key)
    ensures KeysDistinct(t, key)
  {
    DistinctPermuted(s, t);
    EachAmong(s, t);
    forall i, j | 0 <= i < j < |t| ensures key(t[i]) != key(t[j]) {
      assert t[i] in s && t[j] in s && t[i] != t[j];
    }
  }

  // ---------------------------------------------------------------- Python's order on str

  predicate LexLeq(a: Text, b: Text)
  {
    a == [] || (b != [] && (a[0] < b[0] || (a[0] == b[0] && LexLeq(a[1..], b[1..]))))
  }

  lemma {:induction false} LexTotal(a: Text, b: Text)
    ensures LexLeq(a, b) || LexLeq(b, a)
    decreases |a|
  {
    if a != [] && b != [] && a[0] == b[0] { LexTotal(a[1..], b[1..]); }
  }

  lemma {:induction false} LexAntisymmetric(a: Text, b: Text)
    requires LexLeq(a, b) && LexLeq(b, a)
    ensures a == b
    decreases |a|
  {
    if a != [] {
      LexAntisymmetric(a[1..], b[1..]);
      assert a == [a[0]] + a[1..] && b == [b[0]] + b[1..];
    }
  }

  lemma {:induction false} LexTransitive(a: Text, b: Text, c: Text)
    requires LexLeq(a, b) && LexLeq(b, c)
    ensures LexLeq(a, c)
    decreases |a|
  {
    if a != [] && a[0] == b[0] == c[0] { LexTransitive(a[1..], b[1..], c[1..]); }
  }

  // Sorting by a pair of strings, such as (hash, ref): the key of every ranking in the repository.
  predicate PairLeq(a: (Text, Text), b: (Text, Text))
  {
    if a.0 == b.0 then LexLeq(a.1, b.1) else LexLeq(a.0, b.0)
  }

  function ByKey<T>(key: T -> (Text, Text)): (leq: (T, T) -> bool)
  {
    (a, b) => PairLeq(key(a), key(b))
  }

  lemma PairOrder(a: (Text, Text), b: (Text, Text), c: (Text, Text))
    ensures PairLeq(a, b) || PairLeq(b, a)
    ensures PairLeq(a, b) && PairLeq(b, a) ==> a == b
    ensures PairLeq(a, b) && PairLeq(b, c) ==> PairLeq(a, c)
  {
    LexTotal(a.0, b.0);
    LexTotal(a.1, b.1);
    if PairLeq(a, b) && PairLeq(b, a) {
      if a.0 == b.0 { LexAntisymmetric(a.1, b.1); } else { LexAntisymmetric(a.0, b.0); }
    }
    if PairLeq(a, b) && PairLeq(b, c) { PairTransitive(a, b, c); }
  }

  lemma PairTransitive(a: (Text, Text), b: (Text, Text), c: (Text, Text))
    requires PairLeq(a, b) && PairLeq(b, c)
    ensures PairLeq(a, c)
  {
    hide LexLeq;
    if a.0 == b.0 == c.0 {
      LexTransitive(a.1, b.1, c.1);
    } else if a.0 == c.0 {
      LexAntisymmetric(a.0, b.0);
    } else if a.0 != b.0 && b.0 != c.0 {
      LexTransitive(a.0, b.0, c.0);
    }
  }

  lemma KeyOrder<T(!new)>(key: T -> (Text, Text))
    ensures TotalPreorder(ByKey(key))
    ensures forall a, b | ByKey(key)(a, b) && ByKey(key)(b, a) :: key(a) == key(b)
  {
    hide PairLeq;
    forall a, b, c
      ensures ByKey(key)(a, b) || ByKey(key)(b, a)
      ensures ByKey(key)(a, b) && ByKey(key)(b, a) ==> key(a) == key(b)
      ensures ByKey(key)(a, b) && ByKey(key)(b, c) ==> ByKey(key)(a, c)
    {
      PairOrder(key(a), key(b), key(c));
    }
  }

  // Sorting on keys that tell the elements apart forgets the order the elements came in.
  lemma KeyedSortCanonical<T(!new)>(s: seq<T>, t: seq<T>, key: T -> (Text, Text))
    requires multiset(s) == multiset(t)
    requires forall i, j | 0 <= i < |s| && 0 <= j < |s| && key(s[i]) == key(s[j]) :: s[i] == s[j]
    ensures Sort(s, ByKey(key)) == Sort(t, ByKey(key))
  {
    KeyOrder(key);
    SortCanonical(s, t, ByKey(key));
  }
}
