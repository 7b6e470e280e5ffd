// Python's order on strings by the first difference.
module TextOrder {
  import opened Collections
  import opened Ordering

  // a comes before b: at the first difference it has the smaller code point, or it ends there.
  ghost predicate Below(a: Text, b: Text)
  {
    exists n: nat :: n <= |a| && n < |b| && a[..n] == b[..n] && (n == |a| || a[n] < b[n])
  }

  lemma {:induction false} LexExact(a: Text, b: Text)
    ensures LexLeq(a, b) <==> a == b || Below(a, b)
    ensures Below(a, b) ==> a != b
  {
    if a != [] && b != [] && a[0] == b[0] {
      LexExact(a[1..], b[1..]);
      assert a == [a[0]] + a[1..] && b == [b[0]] + b[1..];
      BelowTail(a, b);
    } else if a == [] && b != [] {
      assert a[..0] == b[..0];
    } else if a != [] && b != [] && a[0] < b[0] {
      assert a[..0] == b[..0];
    }
    BelowHead(a, b);
  }

  lemma BelowHead(a: Text, b: Text)
    ensures Below(a, b) ==> b != [] && (a == [] || a[0] <= b[0])
  {
    if n: nat :| n <= |a| && n < |b| && a[..n] == b[..n] && (n == |a| || a[n] < b[n]) {
      if n > 0 { SameFront(a, b, n, 0); }
    }
  }

  lemma SameFront(a: Text, b: Text, n: nat, i: nat)
    requires i < n <= |a| && n <= |b| && a[..n] == b[..n]
    ensures a[i] == b[i]
  {
    assert a[..n][i] == a[i];
    assert b[..n][i] == b[i];
  }

  lemma BelowTail(a: Text, b: Text)
    requires a != [] && b != [] && a[0] == b[0]
    ensures Below(a, b) <==> Below(a[1..], b[1..])
  {
    if Below(a, b) { BelowDrops(a, b); }
    if Below(a[1..], b[1..]) { BelowGrows(a, b); }
  }

  lemma BelowDrops(a: Text, b: Text)
    requires a != [] && b != [] && a[0] == b[0] && Below(a, b)
    ensures Below(a[1..], b[1..])
  {
    var n: nat :| n <= |a| && n < |b| && a[..n] == b[..n] && (n == |a| || a[n] < b[n]);
    var shorter := n - 1;
    assert a[1..][..shorter] == a[..n][1..];
    assert b[1..][..shorter] == b[..n][1..];
  }

  lemma BelowGrows(a: Text, b: Text)
    requires a != [] && b != [] && a[0] == b[0] && Below(a[1..], b[1..])
    ensures Below(a, b)
  {
    var x, y := a[1..], b[1..];
    var n: nat :| n <= |x| && n < |y| && x[..n] == y[..n] && (n == |x| || x[n] < y[n]);
    var next := n + 1;
    assert a[..next] == [a[0]] + x[..n];
    assert b[..next] == [b[0]] + y[..n];
  }

  // The first parts decide; equal ones leave it to the second.
  ghost predicate Ahead(a: (Text, Text), b: (Text, Text))
  {
    Below(a.0, b.0) || (a.0 == b.0 && Below(a.1, b.1))
  }

  lemma PairExact(a: (Text, Text), b: (Text, Text))
    ensures PairLeq(a, b) <==> a == b || Ahead(a, b)
    ensures Ahead(a, b) ==> a != b
  {
    hide Below, LexLeq;
    LexExact(a.0, b.0);
    LexExact(a.1, b.1);
  }

  lemma Asymmetric(a: Text, b: Text)
    ensures !(Below(a, b) && Below(b, a))
  {
    hide Below, LexLeq;
    LexExact(a, b);
    LexExact(b, a);
    if LexLeq(a, b) && LexLeq(b, a) { LexAntisymmetric(a, b); }
  }

  // A list sorted by a key that tells its members apart has each member ahead of the later ones.
  lemma SortedAhead<T(!new)>(s: seq<T>, key: T -> (Text, Text), i: nat, j: nat)
    requires SortedBy(ByKey(key), s) && KeysDistinct(s, key) && i < j < |s|
    ensures Ahead(key(s[i]), key(s[j]))
  {
    hide PairLeq, Ahead;
    assert ByKey(key)(s[i], s[j]);
    PairExact(key(s[i]), key(s[j]));
  }
}
