// The text each of the four tree digests hashes, in plain words.
module TreeExact {
  import opened Collections
  import opened Ordering
  import opened TextOrder
  import opened TreeDigest
  import opened TreeAgreement

  // ---------------------------------------------------------------- which files, in which order

  // A component of the path begins with a dot.
  ghost predicate DotPart(path: Text)
  {
    exists head: Text, tail: Text :: path == head + [46] + tail && (head == [] || head[|head| - 1] == 47)
  }

  // A file, read through links, that is neither of the two reserved names nor below a dot name.
  ghost predicate Published(n: Node)
  {
    (n.kind == Regular || n.kind == LinkToFile) && n.path != Codes("manifest.json") && n.path != Codes("artifact.enc")
    && !DotPart(n.path)
  }

  // The nodes of one kind, once each, in increasing order of their paths.
  ghost predicate InPathOrder(files: seq<Node>) { forall i, j | 0 <= i < j < |files| :: Below(files[i].path, files[j].path) }

  ghost predicate PublishedFiles(files: seq<Node>, nodes: seq<Node>)
  {
    InPathOrder(files) && forall n :: n in files <==> n in nodes && Published(n)
  }

  ghost predicate RegularFiles(files: seq<Node>, nodes: seq<Node>)
  {
    InPathOrder(files) && forall n :: n in files <==> n in nodes && n.kind == Regular
  }

  // Name, NUL, digest, NUL for every file.
  ghost function Rows(files: seq<Node>, nfc: Text -> Text): Text
  {
    if files == [] then [] else nfc(files[0].path) + [0] + files[0].digest + [0] + Rows(files[1..], nfc)
  }

  ghost function Bytes(files: seq<Node>): nat
  {
    if files == [] then 0 else files[0].size + Bytes(files[1..])
  }

  lemma DotExact(path: Text)
    ensures HasDotPart(path) <==> DotPart(path)
  {
    if HasDotPart(path) {
      var i :| 0 <= i < |path| && path[i] == 46 && (i == 0 || path[i - 1] == 47);
      assert path == path[..i] + [46] + path[i + 1..];
    }
    if head: Text, tail: Text :| path == head + [46] + tail && (head == [] || head[|head| - 1] == 47) {
      assert path[|head|] == 46;
      if head != [] { assert path[|head| - 1] == head[|head| - 1]; }
    }
  }

  lemma PublishedExact(n: Node)
    ensures IsFile(n) && !Ignored(n) <==> Published(n)
  {
    hide Codes;
    DotExact(n.path);
  }

  lemma RowParts(e: Entry, rest: Text)
    ensures Row(e) + rest == e.name + [0] + e.digest + [0] + rest
  {
  }

  lemma NamedFirst(files: seq<Node>, nfc: Text -> Text)
    requires files != []
    ensures Named(files, nfc) == [Entry(nfc(files[0].path), files[0].digest)] + Named(files[1..], nfc)
  {
  }

  lemma {:induction false} RowsExact(files: seq<Node>, nfc: Text -> Text)
    ensures Stream(Named(files, nfc)) == Rows(files, nfc)
  {
    hide Stream, Row, Named;
    if files == [] {
      NothingNamed(nfc);
    } else {
      var e := Entry(nfc(files[0].path), files[0].digest);
      RowsExact(files[1..], nfc);
      NamedFirst(files, nfc);
      StreamFront(e, Named(files[1..], nfc));
      RowParts(e, Rows(files[1..], nfc));
    }
  }

  lemma NothingNamed(nfc: Text -> Text)
    ensures Stream(Named([], nfc)) == []
  {
  }

  lemma {:induction false} BytesSnoc(files: seq<Node>, n: Node)
    ensures Bytes(files + [n]) == Bytes(files) + n.size
  {
    if files == [] {
      assert [n][1..] == [] && [] + [n] == [n];
    } else {
      BytesSnoc(files[1..], n);
      assert (files + [n])[1..] == files[1..] + [n];
    }
  }

  lemma {:induction false} BytesExact(files: seq<Node>)
    ensures Size(files) == Bytes(files)
  {
    if files != [] {
      var n := |files| - 1;
      BytesExact(files[..n]);
      BytesSnoc(files[..n], files[n]);
      assert files == files[..n] + [files[n]];
    }
  }

  // Sorting and filtering gives the one list of the kind.
  lemma OrderedIs(nodes: seq<Node>, p: Node -> bool)
    requires KeysDistinct(nodes, PathOf())
    ensures InPathOrder(Ordered(Filter(nodes, p)))
    ensures forall n :: n in Ordered(Filter(nodes, p)) <==> n in nodes && p(n)
  {
    hide LexLeq, Below, Sort;
    var kept := Filter(nodes, p);
    var files := Ordered(kept);
    FilterDistinct(nodes, p);
    KeyOrder(PathKey());
    SortSorted(kept, ByKey(PathKey()));
    SortPermutes(kept, ByKey(PathKey()));
    MembersPermuted(kept, files);
    KeysDistinctPermuted(kept, files, PathOf());
    forall i, j | 0 <= i < j < |files| ensures Below(files[i].path, files[j].path) {
      assert ByKey(PathKey())(files[i], files[j]) && PathOf()(files[i]) != PathOf()(files[j]);
      LexExact(files[i].path, files[j].path);
    }
  }

  lemma NotAhead(files: seq<Node>, k: nat, n: Node)
    requires InPathOrder(files) && k < |files| && files[k] == n
    ensures k > 0 ==> Below(files[0].path, n.path)
  {
    hide Below;
  }

  lemma {:induction false} OrderUnique(a: seq<Node>, b: seq<Node>)
    requires InPathOrder(a) && InPathOrder(b) && forall n :: n in a <==> n in b
    ensures a == b
  {
    hide Below;
    NoneInBoth(a, b);
    if a != [] {
      assert a[0] in b && b[0] in a;
      var i :| 0 <= i < |b| && b[i] == a[0];
      var j :| 0 <= j < |a| && a[j] == b[0];
      NotAhead(b, i, a[0]);
      NotAhead(a, j, b[0]);
      Asymmetric(a[0].path, b[0].path);
      assert a[0] == b[0];
      forall n ensures n in a[1..] <==> n in b[1..] {
        FirstOnce(a, n);
        FirstOnce(b, n);
      }
      OrderUnique(a[1..], b[1..]);
      assert a == [a[0]] + a[1..] && b == [b[0]] + b[1..];
    }
  }

  lemma NoneInBoth(a: seq<Node>, b: seq<Node>)
    requires forall n :: n in a <==> n in b
    ensures a == [] <==> b == []
  {
    if a != [] { assert a[0] in b; }
    if b != [] { assert b[0] in a; }
  }

  lemma FirstOnce(files: seq<Node>, n: Node)
    requires InPathOrder(files) && files != []
    ensures n in files[1..] <==> n in files && n != files[0]
  {
    hide Below;
    assert files == [files[0]] + files[1..];
    forall k | 0 < k < |files| ensures files[k] != files[0] {
      assert Below(files[0].path, files[k].path);
      Asymmetric(files[0].path, files[k].path);
    }
  }

  lemma PublishedIs(files: seq<Node>, nodes: seq<Node>)
    requires KeysDistinct(nodes, PathOf())
    ensures files == Ordered(Filter(nodes, Publishable())) <==> PublishedFiles(files, nodes)
  {
    hide InPathOrder, Published, IsFile, Ignored, Ordered, Filter;
    var all := Ordered(Filter(nodes, Publishable()));
    OrderedIs(nodes, Publishable());
    forall n ensures Publishable()(n) <==> Published(n) { PublishedExact(n); }
    if PublishedFiles(files, nodes) { OrderUnique(files, all); }
  }

  lemma RegularIs(files: seq<Node>, nodes: seq<Node>)
    requires KeysDistinct(nodes, PathOf())
    ensures files == Ordered(Filter(nodes, StrictFile())) <==> RegularFiles(files, nodes)
  {
    hide InPathOrder, Ordered, Filter;
    OrderedIs(nodes, StrictFile());
    if RegularFiles(files, nodes) { OrderUnique(files, Ordered(Filter(nodes, StrictFile()))); }
  }

  // ---------------------------------------------------------------- the four digests

  // binding.artifact_digest: every published file under its normalized name, links followed.
  lemma BindingIs(nodes: seq<Node>, l: Limits, b: Bound)
    requires KeysDistinct(nodes, PathOf())
    ensures BindingOf(nodes, l) == Some(b)
       <==> exists files ::
              && PublishedFiles(files, nodes) && files != [] && b.hashed == Rows(files, l.nfc)
              && b.files == |files| && b.bytes == Bytes(files)
  {
    hide Ordered, Filter, Stream, Named, PublishedFiles, Rows, Size, Bytes;
    var all := Ordered(Filter(nodes, Publishable()));
    forall files ensures files == all <==> PublishedFiles(files, nodes) { PublishedIs(files, nodes); }
    RowsExact(all, l.nfc);
    BytesExact(all);
  }

  // publish_provenance: the same text, refused when there is any link or a published file is too large.
  lemma PublishIs(nodes: seq<Node>, l: Limits, t: Text)
    requires KeysDistinct(nodes, PathOf())
    ensures PublishOf(nodes, l) == Some(t)
       <==> && (forall n | n in nodes :: n.kind != LinkToFile && n.kind != OtherLink)
            && exists files ::
                 && PublishedFiles(files, nodes) && files != [] && (forall n | n in files :: n.size <= l.file)
                 && t == Rows(files, l.nfc)
  {
    hide Ordered, Filter, Stream, Named, PublishedFiles, Rows;
    var all := Ordered(Filter(nodes, Publishable()));
    forall files ensures files == all <==> PublishedFiles(files, nodes) { PublishedIs(files, nodes); }
    RowsExact(all, l.nfc);
    assert AnyLink(nodes) <==> !(forall n | n in nodes :: n.kind != LinkToFile && n.kind != OtherLink);
    assert AnyOversize(all, l.file) <==> !(forall n | n in all :: n.size <= l.file);
  }

  // Directories and regular files with normalized names, nothing else.
  ghost predicate OnlyPlain(nodes: seq<Node>, l: Limits)
  {
    forall n | n in nodes :: n.kind == Directory || (n.kind == Regular && l.nfc(n.path) == n.path)
  }

  lemma EntriesEmpty(nodes: seq<Node>, l: Limits)
    ensures FileEntries(nodes, l) == [] <==> Ordered(Filter(nodes, StrictFile())) == []
  {
    hide Ordered, Filter;
  }

  // The converter: every regular file, hidden ones included.
  lemma ConvertIs(nodes: seq<Node>, l: Limits, t: Text)
    requires KeysDistinct(nodes, PathOf())
    ensures ConvertOf(nodes, l) == Some(t)
       <==> OnlyPlain(nodes, l) && exists files :: RegularFiles(files, nodes) && files != [] && t == Rows(files, l.nfc)
  {
    hide Ordered, Filter, Stream, Named, RegularFiles, Rows, ConvertOf;
    var all := Ordered(Filter(nodes, StrictFile()));
    forall files ensures files == all <==> RegularFiles(files, nodes) { RegularIs(files, nodes); }
    ConvertExact(nodes, l);
    RowsExact(all, l.nfc);
    EntriesEmpty(nodes, l);
  }

  // The evaluator: the same text, refused when the files are together too large.
  lemma EvaluateIs(nodes: seq<Node>, l: Limits, t: Text)
    requires KeysDistinct(nodes, PathOf())
    ensures EvaluateOf(nodes, l) == Some(t)
       <==> && OnlyPlain(nodes, l)
            && exists files :: RegularFiles(files, nodes) && files != [] && Bytes(files) <= l.total && t == Rows(files, l.nfc)
  {
    hide Ordered, Filter, Stream, Named, RegularFiles, Rows, EvaluateOf, Size, Bytes;
    var all := Ordered(Filter(nodes, StrictFile()));
    forall files ensures files == all <==> RegularFiles(files, nodes) { RegularIs(files, nodes); }
    EvaluateExact(nodes, l);
    RowsExact(all, l.nfc);
    BytesExact(all);
    EntriesEmpty(nodes, l);
  }
}
