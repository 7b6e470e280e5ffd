// When the four tree digests agree, and why the hashed text determines the tree.
module TreeAgreement {
  import opened Collections
  import opened Ordering
  import opened TreeDigest

  // ---------------------------------------------------------------- filtering and sorting

  lemma {:induction false} FilterCount<T(!new)>(s: seq<T>, p: T -> bool)
    ensures forall x :: multiset(Filter(s, p))[x] == if p(x) then multiset(s)[x] else 0
  {
    if s != [] {
      var n := |s| - 1;
      FilterCount(s[..n], p);
      assert s == s[..n] + [s[n]];
    }
  }

  lemma FilterPermuted<T(!new)>(s: seq<T>, t: seq<T>, p: T -> bool)
    requires multiset(s) == multiset(t)
    ensures multiset(Filter(s, p)) == multiset(Filter(t, p))
  {
    FilterCount(s, p);
    FilterCount(t, p);
  }

  lemma {:induction false} FilterSorted<T(!new)>(s: seq<T>, p: T -> bool, leq: (T, T) -> bool)
    requires SortedBy(leq, s)
    ensures SortedBy(leq, Filter(s, p))
  {
    if s != [] {
      var n := |s| - 1;
      FilterSorted(s[..n], p, leq);
      var less := Filter(s[..n], p);
      forall i | 0 <= i < |less| ensures leq(less[i], s[n]) {
        assert less[i] in s[..n];
      }
    }
  }

  lemma {:induction false} FilterSame<T(!new)>(s: seq<T>, p: T -> bool, q: T -> bool)
    requires forall x | x in s :: p(x) == q(x)
    ensures Filter(s, p) == Filter(s, q)
  {
    if s != [] { FilterSame(s[..|s| - 1], p, q); }
  }

  // A stricter filter keeps as many elements only when it keeps the same ones.
  lemma {:induction false} FilterFewer<T(!new)>(s: seq<T>, p: T -> bool, q: T -> bool)
    requires forall x | x in s && p(x) :: q(x)
    ensures |Filter(s, p)| <= |Filter(s, q)|
    ensures |Filter(s, p)| == |Filter(s, q)| ==> forall x | x in s :: p(x) == q(x)
  {
    if s != [] {
      var n := |s| - 1;
      FilterFewer(s[..n], p, q);
      assert s == s[..n] + [s[n]];
    }
  }

  lemma {:induction false} FilterFront<T(!new)>(x: T, rest: seq<T>, p: T -> bool)
    ensures Filter([x] + rest, p) == (if p(x) then [x] else []) + Filter(rest, p)
  {
    var all := [x] + rest;
    if rest == [] {
      assert all[..0] == [];
    } else {
      var n := |rest| - 1;
      assert all[..n + 1] == [x] + rest[..n];
      FilterFront(x, rest[..n], p);
    }
  }

  lemma {:induction false} SortOfSorted<T>(s: seq<T>, leq: (T, T) -> bool)
    requires SortedBy(leq, s)
    ensures Sort(s, leq) == s
  {
    if s != [] {
      SortOfSorted(s[1..], leq);
      assert s == [s[0]] + s[1..];
    }
  }

  // ---------------------------------------------------------------- trees

  ghost predicate ZeroFree(t: Text) { forall i | 0 <= i < |t| :: t[i] != 0 }

  function PathOf(): Node -> Text { (n: Node) => n.path }

  // A directory tree: each path once, no NUL in paths or digests.
  ghost predicate Tree(nodes: seq<Node>)
  {
    KeysDistinct(nodes, PathOf()) && forall n | n in nodes :: ZeroFree(n.path) && ZeroFree(n.digest)
  }

  lemma OrderedCanonical(a: seq<Node>, b: seq<Node>)
    requires KeysDistinct(a, PathOf()) && multiset(a) == multiset(b)
    ensures Ordered(a) == Ordered(b)
  {
    forall i, j | 0 <= i < |a| && 0 <= j < |a| && PathKey()(a[i]) == PathKey()(a[j]) ensures a[i] == a[j] {
      SamePath(a, i, j);
    }
    KeyedSortCanonical(a, b, PathKey());
  }

  lemma SamePath(a: seq<Node>, i: nat, j: nat)
    requires KeysDistinct(a, PathOf()) && i < |a| && j < |a| && a[i].path == a[j].path
    ensures i == j
  {
    assert PathOf()(a[i]) == PathOf()(a[j]);
  }

  lemma {:induction false} FilterDistinct(nodes: seq<Node>, p: Node -> bool)
    requires KeysDistinct(nodes, PathOf())
    ensures KeysDistinct(Filter(nodes, p), PathOf())
  {
    if nodes != [] {
      var n := |nodes| - 1;
      FilterDistinct(nodes[..n], p);
      var less := Filter(nodes[..n], p);
      forall i | 0 <= i < |less| ensures less[i].path != nodes[n].path {
        assert less[i] in nodes[..n];
        var j :| 0 <= j < n && nodes[..n][j] == less[i];
        assert PathOf()(nodes[j]) != PathOf()(nodes[n]);
      }
    }
  }

  lemma SortedFilter(nodes: seq<Node>, p: Node -> bool)
    requires KeysDistinct(nodes, PathOf())
    ensures Filter(Ordered(nodes), p) == Ordered(Filter(nodes, p))
  {
    KeyOrder(PathKey());
    SortPermutes(nodes, ByKey(PathKey()));
    SortSorted(nodes, ByKey(PathKey()));
    FilterSorted(Ordered(nodes), p, ByKey(PathKey()));
    SortOfSorted(Filter(Ordered(nodes), p), ByKey(PathKey()));
    FilterPermuted(nodes, Ordered(nodes), p);
    FilterDistinct(nodes, p);
    OrderedCanonical(Filter(nodes, p), Filter(Ordered(nodes), p));
  }

  // The order in which a directory is listed changes none of the four results.
  lemma ListingOrder(a: seq<Node>, b: seq<Node>, l: Limits)
    requires KeysDistinct(a, PathOf()) && multiset(a) == multiset(b)
    ensures BindingOf(a, l) == BindingOf(b, l) && PublishOf(a, l) == PublishOf(b, l)
    ensures ConvertOf(a, l) == ConvertOf(b, l) && EvaluateOf(a, l) == EvaluateOf(b, l)
  {
    hide Ordered, Stream, Walk, AnyOversize;
    OrderedCanonical(a, b);
    FilterPermuted(a, b, Publishable());
    FilterDistinct(a, Publishable());
    OrderedCanonical(Filter(a, Publishable()), Filter(b, Publishable()));
    MembersPermuted(a, b);
  }

  // ---------------------------------------------------------------- what the strict walks accept

  // Only regular files and directories, with NFC names for the files.
  ghost predicate Strict(nodes: seq<Node>, l: Limits)
  {
    forall n | n in nodes :: n.kind == Directory || (n.kind == Regular && l.nfc(n.path) == n.path)
  }

  lemma StrictFront(n: Node, rest: seq<Node>, l: Limits)
    ensures Strict([n] + rest, l)
       <==> (n.kind == Directory || (n.kind == Regular && l.nfc(n.path) == n.path)) && Strict(rest, l)
  {
    assert n in [n] + rest;
    assert forall m | m in rest :: m in [n] + rest;
  }

  lemma NamedFront(n: Node, rest: seq<Node>, done: seq<Entry>, l: Limits)
    requires l.nfc(n.path) == n.path
    ensures done + [Entry(n.path, n.digest)] + Named(rest, l.nfc) == done + Named([n] + rest, l.nfc)
  {
  }

  lemma {:induction false} WalkExact(nodes: seq<Node>, names: set<Text>, done: seq<Entry>, l: Limits)
    requires KeysDistinct(nodes, PathOf()) && forall n | n in nodes :: n.path !in names
    ensures Walk(nodes, names, done, l).Some? <==> Strict(nodes, l)
    ensures Strict(nodes, l) ==> Walk(nodes, names, done, l) == Some(done + Named(Filter(nodes, StrictFile()), l.nfc))
    decreases |nodes|
  {
    hide Filter, KeysDistinct, Strict, Named;
    if nodes == [] {
      NothingWalked(done, l);
    } else {
      var n, rest := nodes[0], nodes[1..];
      assert nodes == [n] + rest;
      FilterFront(n, rest, StrictFile());
      RestPaths(nodes);
      StrictFront(n, rest, l);
      assert forall m | m in rest :: m in nodes;
      if n.kind == Directory {
        WalkExact(rest, names, done, l);
        assert [] + Filter(rest, StrictFile()) == Filter(rest, StrictFile());
      } else if n.kind == Regular && l.nfc(n.path) == n.path {
        WalkExact(rest, names + {n.path}, done + [Entry(n.path, n.digest)], l);
        NamedFront(n, Filter(rest, StrictFile()), done, l);
      }
    }
  }

  lemma NothingWalked(done: seq<Entry>, l: Limits)
    ensures Strict([], l) && done + Named(Filter([], StrictFile()), l.nfc) == done
  {
  }

  lemma RestPaths(nodes: seq<Node>)
    requires nodes != [] && KeysDistinct(nodes, PathOf())
    ensures KeysDistinct(nodes[1..], PathOf()) && forall n | n in nodes[1..] :: n.path != nodes[0].path
  {
    forall n | n in nodes[1..] ensures n.path != nodes[0].path {
      var i :| 0 <= i < |nodes[1..]| && nodes[1..][i] == n;
      assert PathOf()(nodes[0]) != PathOf()(nodes[i + 1]);
    }
  }

  // The entries of all regular files, in path order.
  function FileEntries(nodes: seq<Node>, l: Limits): seq<Entry>
  {
    Named(Ordered(Filter(nodes, StrictFile())), l.nfc)
  }

  lemma StrictPermuted(nodes: seq<Node>, l: Limits)
    ensures Strict(Ordered(nodes), l) <==> Strict(nodes, l)
    ensures KeysDistinct(nodes, PathOf()) ==> KeysDistinct(Ordered(nodes), PathOf())
  {
    SortPermutes(nodes, ByKey(PathKey()));
    MembersPermuted(nodes, Ordered(nodes));
    if KeysDistinct(nodes, PathOf()) { KeysDistinctPermuted(nodes, Ordered(nodes), PathOf()); }
  }

  lemma ConvertExact(nodes: seq<Node>, l: Limits)
    requires KeysDistinct(nodes, PathOf())
    ensures ConvertOf(nodes, l)
         == if Strict(nodes, l) && FileEntries(nodes, l) != [] then Some(Stream(FileEntries(nodes, l))) else None
  {
    hide Ordered, Stream, Walk;
    StrictPermuted(nodes, l);
    WalkExact(Ordered(nodes), {}, [], l);
    SortedFilter(nodes, StrictFile());
    assert [] + FileEntries(nodes, l) == FileEntries(nodes, l);
  }

  lemma EvaluateExact(nodes: seq<Node>, l: Limits)
    requires KeysDistinct(nodes, PathOf())
    ensures EvaluateOf(nodes, l)
         == if Strict(nodes, l) && FileEntries(nodes, l) != [] && Size(Ordered(Filter(nodes, StrictFile()))) <= l.total
            then Some(Stream(FileEntries(nodes, l))) else None
  {
    hide Ordered, Stream, Walk;
    StrictPermuted(nodes, l);
    WalkExact(Ordered(nodes), {}, [], l);
    SortedFilter(nodes, StrictFile());
    assert [] + FileEntries(nodes, l) == FileEntries(nodes, l);
    if Strict(nodes, l) { EntriesSorted(nodes, l); }
  }

  // The second sort and the second normalization change nothing.
  lemma EntriesSorted(nodes: seq<Node>, l: Limits)
    requires KeysDistinct(nodes, PathOf()) && Strict(nodes, l)
    ensures Sort(FileEntries(nodes, l), ByKey(EntryKey())) == FileEntries(nodes, l)
    ensures Renamed(FileEntries(nodes, l), l.nfc) == FileEntries(nodes, l)
  {
    var files := Ordered(Filter(nodes, StrictFile()));
    KeyOrder(PathKey());
    SortPermutes(Filter(nodes, StrictFile()), ByKey(PathKey()));
    SortSorted(Filter(nodes, StrictFile()), ByKey(PathKey()));
    FilterDistinct(nodes, StrictFile());
    KeysDistinctPermuted(Filter(nodes, StrictFile()), files, PathOf());
    EachAmong(Filter(nodes, StrictFile()), files);
    var entries := FileEntries(nodes, l);
    forall i | 0 <= i < |files| ensures l.nfc(files[i].path) == files[i].path { assert files[i] in nodes; }
    forall i, j | 0 <= i < j < |entries| ensures ByKey(EntryKey())(entries[i], entries[j]) {
      assert ByKey(PathKey())(files[i], files[j]) && PathOf()(files[i]) != PathOf()(files[j]);
    }
    SortOfSorted(entries, ByKey(EntryKey()));
  }

  // ---------------------------------------------------------------- decoding the stream

  lemma {:induction false} StreamFront(e: Entry, rest: seq<Entry>)
    ensures Stream([e] + rest) == Row(e) + Stream(rest)
  {
    hide Row, Stream;
    if rest == [] {
      NoStream();
      StreamBack([], e);
      assert [] + [e] == [e] + rest;
      assert [] + Row(e) == Row(e) + [];
    } else {
      var n := |rest| - 1;
      StreamFront(e, rest[..n]);
      StreamBack([e] + rest[..n], rest[n]);
      StreamBack(rest[..n], rest[n]);
      assert [e] + rest[..n] + [rest[n]] == [e] + rest && rest[..n] + [rest[n]] == rest;
      assert Row(e) + Stream(rest[..n]) + Row(rest[n]) == Row(e) + (Stream(rest[..n]) + Row(rest[n]));
    }
  }

  lemma NoStream()
    ensures Stream([]) == []
  {
  }

  lemma StreamBack(entries: seq<Entry>, e: Entry)
    ensures Stream(entries + [e]) == Stream(entries) + Row(e)
  {
    hide Row;
    assert (entries + [e])[..|entries|] == entries;
  }

  lemma RowThen(e: Entry, x: Text)
    ensures Row(e) + x == e.name + ([0] + (e.digest + ([0] + x)))
  {
    assert (e.digest + [0]) + x == e.digest + ([0] + x);
    assert ([0] + (e.digest + [0])) + x == [0] + ((e.digest + [0]) + x);
    assert (e.name + ([0] + (e.digest + [0]))) + x == e.name + (([0] + (e.digest + [0])) + x);
  }

  lemma SplitAtZero(a: Text, x: Text, b: Text, y: Text)
    requires ZeroFree(a) && ZeroFree(b) && a + ([0] + x) == b + ([0] + y)
    ensures a == b && x == y
  {
    var s, t := a + ([0] + x), b + ([0] + y);
    assert s[|a|] == 0 && t[|b|] == 0;
    assert forall i | 0 <= i < |a| :: s[i] == a[i];
    assert forall i | 0 <= i < |b| :: t[i] == b[i];
    SameFirstZero(s, |a|, |b|);
    assert s[..|a|] == a && t[..|b|] == b && s[|a| + 1..] == x && t[|b| + 1..] == y;
  }

  lemma SameFirstZero(s: Text, i: nat, j: nat)
    requires i < |s| && j < |s| && s[i] == 0 && s[j] == 0
    requires (forall k | 0 <= k < i :: s[k] != 0) && forall k | 0 <= k < j :: s[k] != 0
    ensures i == j
  {
  }

  ghost predicate EntriesZeroFree(entries: seq<Entry>)
  {
    forall i | 0 <= i < |entries| :: ZeroFree(entries[i].name) && ZeroFree(entries[i].digest)
  }

  // The hashed text determines the list of names and digests.
  lemma {:induction false} StreamDecodes(a: seq<Entry>, b: seq<Entry>)
    requires EntriesZeroFree(a) && EntriesZeroFree(b) && Stream(a) == Stream(b)
    ensures a == b
    decreases |a|
  {
    hide Stream, ZeroFree, Row;
    StreamEmpty(a);
    StreamEmpty(b);
    if a != [] {
      StreamFront(a[0], a[1..]);
      StreamFront(b[0], b[1..]);
      RowThen(a[0], Stream(a[1..]));
      RowThen(b[0], Stream(b[1..]));
      assert a == [a[0]] + a[1..] && b == [b[0]] + b[1..];
      SplitAtZero(a[0].name, a[0].digest + ([0] + Stream(a[1..])), b[0].name, b[0].digest + ([0] + Stream(b[1..])));
      SplitAtZero(a[0].digest, Stream(a[1..]), b[0].digest, Stream(b[1..]));
      StreamDecodes(a[1..], b[1..]);
    }
  }

  lemma StreamEmpty(a: seq<Entry>)
    ensures Stream(a) == [] <==> a == []
  {
  }

  // ---------------------------------------------------------------- agreement

  ghost predicate NothingIgnored(nodes: seq<Node>)
  {
    forall n | n in nodes && n.kind == Regular :: !Ignored(n)
  }

  lemma NamedZeroFree(nodes: seq<Node>, p: Node -> bool, l: Limits)
    requires Tree(nodes) && Strict(nodes, l) && forall n | p(n) :: n.kind != Directory
    ensures EntriesZeroFree(Named(Ordered(Filter(nodes, p)), l.nfc))
  {
    var files := Ordered(Filter(nodes, p));
    SortPermutes(Filter(nodes, p), ByKey(PathKey()));
    EachAmong(Filter(nodes, p), files);
    forall i | 0 <= i < |files|
      ensures ZeroFree(l.nfc(files[i].path)) && ZeroFree(files[i].digest)
    {
      assert files[i] in nodes;
    }
  }

  // On a strict tree the controller hashes the same text as the converter exactly when there is no file
  // that the controller passes over: a dot component, or a root manifest.json or artifact.enc.
  lemma BindingMeetsConvert(nodes: seq<Node>, l: Limits)
    requires Tree(nodes) && BindingOf(nodes, l).Some? && ConvertOf(nodes, l).Some?
    ensures BindingOf(nodes, l).value.hashed == ConvertOf(nodes, l).value <==> NothingIgnored(nodes)
  {
    hide Ordered, Stream, Walk, Ignored, ZeroFree;
    ConvertExact(nodes, l);
    var bound, all := Named(Ordered(Filter(nodes, Publishable())), l.nfc), FileEntries(nodes, l);
    if NothingIgnored(nodes) {
      FilterSame(nodes, Publishable(), StrictFile());
    }
    if Stream(bound) == Stream(all) {
      NamedZeroFree(nodes, Publishable(), l);
      NamedZeroFree(nodes, StrictFile(), l);
      StreamDecodes(bound, all);
      FilterFewer(nodes, Publishable(), StrictFile());
      OrderedSize(Filter(nodes, Publishable()));
      OrderedSize(Filter(nodes, StrictFile()));
    }
  }

  // Two files, A and .A, that both tools accept and hash differently.
  lemma BindingDiffers(l: Limits)
    requires l.nfc([65]) == [65] && l.nfc([46, 65]) == [46, 65]
    ensures var nodes := [Node([65], Regular, 1, [97]), Node([46, 65], Regular, 1, [97])];
            && BindingOf(nodes, l).Some? && ConvertOf(nodes, l).Some?
            && BindingOf(nodes, l).value.hashed != ConvertOf(nodes, l).value
  {
    hide Ordered, Stream, Walk, ConvertOf;
    var a, b := Node([65], Regular, 1, [97]), Node([46, 65], Regular, 1, [97]);
    var nodes := [a, b];
    assert b.path[0] == 46;
    assert HasDotPart(b.path) && b in nodes && Ignored(b);
    assert !Ignored(a) && Publishable()(a) && StrictFile()(a) by {
      assert |MANIFEST| == 13 && |ENCRYPTED| == 12;
    }
    assert KeysDistinct(nodes, PathOf());
    assert a in nodes && a in Filter(nodes, Publishable()) && a in Filter(nodes, StrictFile());
    OrderedSize(Filter(nodes, Publishable()));
    OrderedSize(Filter(nodes, StrictFile()));
    ConvertExact(nodes, l);
    BindingMeetsConvert(nodes, l);
  }

  // Whatever order each tool lists the tree in: the two lenient walks never disagree, the two strict ones
  // never disagree, and a lenient one agrees with a strict one exactly when no file is ignored.
  lemma DigestsAgree(tree: seq<Node>, a: seq<Node>, b: seq<Node>, c: seq<Node>, d: seq<Node>, l: Limits)
    requires Tree(tree) && multiset(a) == multiset(tree) && multiset(b) == multiset(tree)
    requires multiset(c) == multiset(tree) && multiset(d) == multiset(tree)
    ensures BindingOf(a, l).Some? && PublishOf(b, l).Some? ==> BindingOf(a, l).value.hashed == PublishOf(b, l).value
    ensures ConvertOf(c, l).Some? && EvaluateOf(d, l).Some? ==> ConvertOf(c, l).value == EvaluateOf(d, l).value
    ensures BindingOf(a, l).Some? && ConvertOf(c, l).Some? ==>
              (BindingOf(a, l).value.hashed == ConvertOf(c, l).value <==> NothingIgnored(tree))
  {
    hide Ordered, Stream, Walk, Ignored, ZeroFree, Named, ConvertOf, EvaluateOf;
    ListingOrder(tree, a, l);
    ListingOrder(tree, b, l);
    ListingOrder(tree, c, l);
    ListingOrder(tree, d, l);
    ConvertExact(tree, l);
    EvaluateExact(tree, l);
    if BindingOf(a, l).Some? && ConvertOf(c, l).Some? { BindingMeetsConvert(tree, l); }
  }

  // Regular files only, NFC names, nothing ignored, sizes within the ceilings, at least one file.
  ghost predicate CleanTree(nodes: seq<Node>, l: Limits)
  {
    && Tree(nodes) && Strict(nodes, l) && NothingIgnored(nodes)
    && Filter(nodes, StrictFile()) != []
    && Size(Ordered(Filter(nodes, StrictFile()))) <= l.total
    && forall n | n in nodes && n.kind == Regular :: n.size <= l.file
  }

  // On a clean tree all four accept and hash the same text.
  lemma CleanTreeAccepted(nodes: seq<Node>, l: Limits)
    requires CleanTree(nodes, l)
    ensures ConvertOf(nodes, l) == Some(Stream(FileEntries(nodes, l))) == EvaluateOf(nodes, l) == PublishOf(nodes, l)
    ensures BindingOf(nodes, l).Some? && BindingOf(nodes, l).value.hashed == Stream(FileEntries(nodes, l))
    ensures BindingOf(nodes, l).value.files == |Filter(nodes, StrictFile())|
  {
    hide Ordered, Stream, Walk, Ignored, ZeroFree, Tree, Strict, Size, Filter, Named, ConvertOf, EvaluateOf;
    assert KeysDistinct(nodes, PathOf()) by { TreePaths(nodes); }
    ConvertExact(nodes, l);
    EvaluateExact(nodes, l);
    var files := Filter(nodes, StrictFile());
    NoLinks(nodes, l);
    FilterSame(nodes, Publishable(), StrictFile());
    OrderedSize(files);
    OrderedMembers(files);
    OrderedSize(Ordered(files));
    assert FileEntries(nodes, l) != [];
  }

  lemma TreePaths(nodes: seq<Node>)
    requires Tree(nodes)
    ensures KeysDistinct(nodes, PathOf())
  {
  }

  lemma NoLinks(nodes: seq<Node>, l: Limits)
    requires Strict(nodes, l)
    ensures !AnyLink(nodes) && forall n | n in nodes :: IsFile(n) <==> n.kind == Regular
  {
  }

  lemma OrderedMembers(nodes: seq<Node>)
    ensures forall n :: n in Ordered(nodes) <==> n in nodes
  {
    SortPermutes(nodes, ByKey(PathKey()));
    MembersPermuted(nodes, Ordered(nodes));
  }
}
