// The four implementations of the artifact tree digest: the loops that build the text each of them hashes, and
// what each refuses.
module TreeDigest {
  import opened Collections
  import opened Ordering

  datatype NodeKind = Regular | Directory | LinkToFile | OtherLink | Special

  // One path below the root: relative POSIX path, kind, size and digest of what it reads as.
  datatype Node = Node(path: Text, kind: NodeKind, size: nat, digest: Text)

  datatype Entry = Entry(name: Text, digest: Text)

  // unicodedata.normalize("NFC", .) and the byte ceilings.
  datatype Limits = Limits(nfc: Text -> Text, file: nat, total: nat)

  const MANIFEST: Text := Codes("manifest.json")
  const ENCRYPTED: Text := Codes("artifact.enc")

  predicate HasDotPart(path: Text)
  {
    exists i | 0 <= i < |path| :: path[i] == 46 && (i == 0 || path[i - 1] == 47)
  }

  predicate Ignored(n: Node) { n.path == MANIFEST || n.path == ENCRYPTED || HasDotPart(n.path) }

  predicate IsLink(n: Node) { n.kind == LinkToFile || n.kind == OtherLink }

  // Path.is_file follows links.
  predicate IsFile(n: Node) { n.kind == Regular || n.kind == LinkToFile }

  function Filter<T(!new)>(s: seq<T>, p: T -> bool): (r: seq<T>)
    ensures forall x :: x in r <==> x in s && p(x)
  {
    if s == [] then [] else
    var n := |s| - 1;
    Filter(s[..n], p) + if p(s[n]) then [s[n]] else []
  }

  function PathKey(): Node -> (Text, Text) { (n: Node) => (n.path, []) }

  function Ordered(nodes: seq<Node>): seq<Node> { Sort(nodes, ByKey(PathKey())) }

  function EntryKey(): Entry -> (Text, Text) { (e: Entry) => (e.name, e.digest) }

  // What is hashed: each name and each file digest, ended by a NUL.
  function Stream(entries: seq<Entry>): Text
  {
    if entries == [] then [] else
    var n := |entries| - 1;
    Stream(entries[..n]) + Row(entries[n])
  }

  function Row(e: Entry): Text { e.name + ([0] + (e.digest + [0])) }

  function Named(nodes: seq<Node>, nfc: Text -> Text): (r: seq<Entry>)
    ensures |r| == |nodes|
  {
    seq(|nodes|, i requires 0 <= i < |nodes| => Entry(nfc(nodes[i].path), nodes[i].digest))
  }

  function Size(nodes: seq<Node>): nat
  {
    if nodes == [] then 0 else Size(nodes[..|nodes| - 1]) + nodes[|nodes| - 1].size
  }

  // ---------------------------------------------------------------- binding.py: artifact_digest

  datatype Bound = Bound(hashed: Text, files: nat, bytes: nat)

  function Publishable(): Node -> bool { (n: Node) => IsFile(n) && !Ignored(n) }

  function BindingOf(nodes: seq<Node>, l: Limits): Option<Bound>
  {
    var files := Ordered(Filter(nodes, Publishable()));
    if files == [] then None else Some(Bound(Stream(Named(files, l.nfc)), |files|, Size(files)))
  }

  method ArtifactFiles(nodes: seq<Node>) returns (files: seq<Node>)
    ensures files == Ordered(Filter(nodes, Publishable()))
  {
    files := [];
    for i := 0 to |nodes|
      invariant files == Filter(nodes[..i], Publishable())
    {
      assert nodes[..i + 1][..i] == nodes[..i];
      if !IsFile(nodes[i]) { continue; }
      if Ignored(nodes[i]) { continue; }
      files := files + [nodes[i]];
    }
    assert nodes[..|nodes|] == nodes;
    files := Ordered(files);
  }

  method ArtifactDigest(nodes: seq<Node>, l: Limits) returns (r: Option<Bound>)
    ensures r == BindingOf(nodes, l)
  {
    hide Ordered, Filter;
    var files := ArtifactFiles(nodes);
    if files == [] { return None; }
    var hashed: Text, total := [], 0;
    for i := 0 to |files|
      invariant hashed == Stream(Named(files, l.nfc)[..i]) && total == Size(files[..i])
    {
      ghost var named := Named(files, l.nfc);
      assert named[..i + 1][..i] == named[..i] && files[..i + 1][..i] == files[..i];
      hashed := hashed + Row(Entry(l.nfc(files[i].path), files[i].digest));
      total := total + files[i].size;
    }
    assert Named(files, l.nfc)[..|files|] == Named(files, l.nfc) && files[..|files|] == files;
    r := Some(Bound(hashed, |files|, total));
  }

  // ---------------------------------------------------------------- publish_provenance.py: _artifact_tree_digest

  predicate AnyLink(nodes: seq<Node>) { exists n | n in nodes :: IsLink(n) }

  predicate AnyOversize(nodes: seq<Node>, limit: nat) { exists n | n in nodes :: n.size > limit }

  function PublishOf(nodes: seq<Node>, l: Limits): Option<Text>
  {
    var files := Ordered(Filter(nodes, Publishable()));
    if AnyLink(nodes) || files == [] || AnyOversize(files, l.file) then None else Some(Stream(Named(files, l.nfc)))
  }

  method CollectRegular(nodes: seq<Node>) returns (files: Option<seq<Node>>)
    ensures files == if AnyLink(nodes) then None else Some(Filter(nodes, Publishable()))
  {
    var found: seq<Node> := [];
    for i := 0 to |nodes|
      invariant found == Filter(nodes[..i], Publishable()) && !AnyLink(nodes[..i])
    {
      assert nodes[..i + 1] == nodes[..i] + [nodes[i]] && nodes[..i + 1][..i] == nodes[..i];
      if IsLink(nodes[i]) {
        assert nodes[i] in nodes;
        return None;
      }
      if IsFile(nodes[i]) && !Ignored(nodes[i]) { found := found + [nodes[i]]; }
    }
    assert nodes[..|nodes|] == nodes;
    files := Some(found);
  }

  method HashBounded(sorted: seq<Node>, l: Limits) returns (r: Option<Text>)
    ensures r == if AnyOversize(sorted, l.file) then None else Some(Stream(Named(sorted, l.nfc)))
  {
    ghost var named := Named(sorted, l.nfc);
    var hashed: Text := [];
    for i := 0 to |sorted|
      invariant hashed == Stream(named[..i]) && !AnyOversize(sorted[..i], l.file)
    {
      assert named[..i + 1][..i] == named[..i] && sorted[..i + 1] == sorted[..i] + [sorted[i]];
      if sorted[i].size > l.file {
        assert sorted[i] in sorted;
        return None;
      }
      hashed := hashed + Row(Entry(l.nfc(sorted[i].path), sorted[i].digest));
    }
    assert named[..|sorted|] == named && sorted[..|sorted|] == sorted;
    r := Some(hashed);
  }

  method ArtifactTreeDigest(nodes: seq<Node>, l: Limits) returns (r: Option<Text>)
    ensures r == PublishOf(nodes, l)
  {
    hide Ordered, Filter, Stream, Named, AnyLink, AnyOversize;
    var files := CollectRegular(nodes);
    if files == None { return None; }
    OrderedSize(files.value);
    if files.value == [] { return None; }
    r := HashBounded(Ordered(files.value), l);
  }

  lemma OrderedSize(nodes: seq<Node>)
    ensures |Ordered(nodes)| == |nodes|
  {
  }

  // ---------------------------------------------------------------- convert and evaluate: the strict walks

  // Nodes in path order: links and special files are refused, directories passed over, names must be NFC
  // and new. `names` are the names seen, `done` the entries so far.
  function Walk(nodes: seq<Node>, names: set<Text>, done: seq<Entry>, l: Limits): Option<seq<Entry>>
    decreases |nodes|
  {
    if nodes == [] then Some(done)
    else if IsLink(nodes[0]) then None
    else if nodes[0].kind == Directory then Walk(nodes[1..], names, done, l)
    else if !IsFile(nodes[0]) then None
    else
      var name := l.nfc(nodes[0].path);
      if name != nodes[0].path || name in names then None
      else Walk(nodes[1..], names + {name}, done + [Entry(nodes[0].path, nodes[0].digest)], l)
  }

  function StrictFile(): Node -> bool { (n: Node) => n.kind == Regular }

  function ConvertOf(nodes: seq<Node>, l: Limits): Option<Text>
  {
    var entries := Walk(Ordered(nodes), {}, [], l);
    if entries == None || entries.value == [] then None else Some(Stream(entries.value))
  }

  method OfficialTreeDigest(nodes: seq<Node>, l: Limits) returns (r: Option<Text>)
    ensures r == ConvertOf(nodes, l)
  {
    hide Ordered, Stream;
    var ordered := Ordered(nodes);
    var entries: seq<Entry>, names: set<Text> := [], {};
    for i := 0 to |ordered|
      invariant Walk(ordered, {}, [], l) == Walk(ordered[i..], names, entries, l)
    {
      assert ordered[i..][1..] == ordered[i + 1..];
      var n := ordered[i];
      if IsLink(n) { return None; }
      if n.kind == Directory { continue; }
      if !IsFile(n) { return None; }
      var name := l.nfc(n.path);
      if name != n.path || name in names { return None; }
      names := names + {name};
      entries := entries + [Entry(n.path, n.digest)];
    }
    if entries == [] { return None; }
    var hashed := HashEntries(entries);
    r := Some(hashed);
  }

  method HashEntries(entries: seq<Entry>) returns (hashed: Text)
    ensures hashed == Stream(entries)
  {
    hashed := [];
    for i := 0 to |entries|
      invariant hashed == Stream(entries[..i])
    {
      assert entries[..i + 1][..i] == entries[..i];
      hashed := hashed + Row(entries[i]);
    }
    assert entries[..|entries|] == entries;
  }

  function Renamed(entries: seq<Entry>, nfc: Text -> Text): (r: seq<Entry>)
    ensures |r| == |entries|
  {
    seq(|entries|, i requires 0 <= i < |entries| => Entry(nfc(entries[i].name), entries[i].digest))
  }

  // artifact_identity also bounds the total size, sorts by name and digest, and normalizes again.
  function EvaluateOf(nodes: seq<Node>, l: Limits): Option<Text>
  {
    var entries := Walk(Ordered(nodes), {}, [], l);
    if entries == None || entries.value == [] || Size(Filter(Ordered(nodes), StrictFile())) > l.total then None
    else Some(Stream(Renamed(Sort(entries.value, ByKey(EntryKey())), l.nfc)))
  }

  method ArtifactIdentity(nodes: seq<Node>, l: Limits) returns (r: Option<Text>)
    ensures r == EvaluateOf(nodes, l)
  {
    hide Ordered, Stream;
    var ordered := Ordered(nodes);
    var entries: seq<Entry>, names: set<Text>, files: seq<Node> := [], {}, [];
    for i := 0 to |ordered|
      invariant Walk(ordered, {}, [], l) == Walk(ordered[i..], names, entries, l)
      invariant files == Filter(ordered[..i], StrictFile())
    {
      assert ordered[i..][1..] == ordered[i + 1..];
      assert ordered[..i + 1][..i] == ordered[..i];
      var n := ordered[i];
      if IsLink(n) { return None; }
      if n.kind == Directory { continue; }
      if !IsFile(n) { return None; }
      var name := l.nfc(n.path);
      if name in names || name != n.path { return None; }
      names := names + {name};
      files := files + [n];
      entries := entries + [Entry(n.path, n.digest)];
    }
    assert ordered[..|ordered|] == ordered;
    if entries == [] { return None; }
    if Size(files) > l.total { return None; }
    var hashed := HashEntries(Renamed(Sort(entries, ByKey(EntryKey())), l.nfc));
    r := Some(hashed);
  }
}
