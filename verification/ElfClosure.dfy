// The recursive closure of an ELF object over its interpreter and needed libraries.
module ElfClosure {
  import opened Bytes
  import opened Collections
  import opened Ordering
  import opened ElfReader

  type Path = seq<Byte>

  const SLASH: Byte := 47
  const DOLLAR: Byte := 36
  const BRACED_ORIGIN: seq<Byte> := Ascii("${ORIGIN}")
  const PLAIN_ORIGIN: seq<Byte> := Ascii("$ORIGIN")

  // A fixed file system. `attest` resolves a path to the file it names or refuses it; every file it
  // can name is among the finitely many `files`.
  datatype World = World(
    files: set<Path>,
    attest: (Path, bool) -> Option<Path>,
    reading: Path -> Reading,
    present: Path -> bool,
    usableDirectory: Path -> bool,
    normalize: seq<Byte> -> Path,
    parent: Path -> Path,
    child: (Path, seq<Byte>) -> Path,
    defaults: seq<Path>)
  {
    ghost predicate Finite()
    {
      forall p, x :: attest(p, x).Some? ==> attest(p, x).value in files
    }
  }

  predicate Absolute(p: Path) { p != [] && p[0] == SLASH }

  // ---------------------------------------------------------------- search directories

  function Replace(text: seq<Byte>, pattern: seq<Byte>, with: seq<Byte>): seq<Byte>
    requires pattern != []
    decreases |text|
  {
    if |text| < |pattern| then text
    else if text[..|pattern|] == pattern then with + Replace(text[|pattern|..], pattern, with)
    else [text[0]] + Replace(text[1..], pattern, with)
  }

  // One path component as a directory, or None when it is refused.
  function DirectoryOf(w: World, origin: Path, value: seq<Byte>): Option<Path>
  {
    if value == [] then None else
    var expanded := Replace(Replace(value, BRACED_ORIGIN, origin), PLAIN_ORIGIN, origin);
    if DOLLAR in expanded || !Absolute(w.normalize(expanded)) then None
    else Some(w.normalize(expanded))
  }

  function DirectoriesOf(w: World, origin: Path, values: seq<seq<Byte>>): Option<seq<Path>>
  {
    if values == [] then Some([]) else
    var before := DirectoriesOf(w, origin, values[..|values| - 1]);
    var last := DirectoryOf(w, origin, values[|values| - 1]);
    if before == None || last == None then None
    else if last.value in before.value then before
    else Some(before.value + [last.value])
  }

  method SearchDirectories(w: World, origin: Path, values: seq<seq<Byte>>) returns (r: Option<seq<Path>>)
    ensures r == DirectoriesOf(w, origin, values)
  {
    hide DirectoryOf;
    var result: seq<Path> := [];
    for index := 0 to |values|
      invariant DirectoriesOf(w, origin, values[..index]) == Some(result)
    {
      assert values[..index + 1][..index] == values[..index];
      var candidate := DirectoryOf(w, origin, values[index]);
      if candidate == None {
        RefusedDirectoryStays(w, origin, values, index + 1);
        return None;
      }
      if candidate.value !in result { result := result + [candidate.value]; }
    }
    assert values[..|values|] == values;
    r := Some(result);
  }

  lemma {:induction false} RefusedDirectoryStays(w: World, origin: Path, values: seq<seq<Byte>>, n: nat)
    requires n <= |values| && DirectoriesOf(w, origin, values[..n]) == None
    ensures DirectoriesOf(w, origin, values) == None
    decreases |values| - n
  {
    if n < |values| {
      assert values[..n + 1][..n] == values[..n];
      RefusedDirectoryStays(w, origin, values, n + 1);
    } else {
      assert values[..n] == values;
    }
  }

  // Some component yields the directory a before any yields b.
  ghost predicate YieldedBefore(w: World, origin: Path, values: seq<seq<Byte>>, a: Path, b: Path)
  {
    exists k :: 0 <= k < |values| && DirectoryOf(w, origin, values[k]) == Some(a)
             && forall m | 0 <= m <= k :: DirectoryOf(w, origin, values[m]) != Some(b)
  }

  ghost predicate Yielded(w: World, origin: Path, values: seq<seq<Byte>>, d: Path)
  {
    exists i | 0 <= i < |values| :: DirectoryOf(w, origin, values[i]) == Some(d)
  }

  // The accepted directories are absolute, listed once each, are exactly those of the components, and
  // stand in the order in which the components first yield them.
  lemma {:induction false} DirectoriesMeaning(w: World, origin: Path, values: seq<seq<Byte>>)
    requires DirectoriesOf(w, origin, values).Some?
    ensures var dirs := DirectoriesOf(w, origin, values).value;
            && Distinct(dirs) && (forall d | d in dirs :: Absolute(d))
            && (forall d :: d in dirs <==> Yielded(w, origin, values, d))
            && (forall i, j | 0 <= i < j < |dirs| :: YieldedBefore(w, origin, values, dirs[i], dirs[j]))
  {
    hide Yielded, YieldedBefore, Absolute;
    if values == [] {
      NothingYielded(w, origin);
    } else {
      var n := |values| - 1;
      DirectoriesMeaning(w, origin, values[..n]);
      var before, dirs := DirectoriesOf(w, origin, values[..n]).value, DirectoriesOf(w, origin, values).value;
      var last := DirectoryOf(w, origin, values[n]).value;
      DirectoryAbsolute(w, origin, values[n]);
      forall d ensures Yielded(w, origin, values, d) <==> Yielded(w, origin, values[..n], d) || d == last {
        YieldedMore(w, origin, values, d);
      }
      forall i, j | 0 <= i < j < |dirs| ensures YieldedBefore(w, origin, values, dirs[i], dirs[j]) {
        assert dirs[i] in before;
        BeforeStays(w, origin, values, dirs[i], dirs[j]);
      }
    }
  }

  lemma NothingYielded(w: World, origin: Path)
    ensures forall d :: !Yielded(w, origin, [], d)
  {
  }

  lemma DirectoryAbsolute(w: World, origin: Path, value: seq<Byte>)
    ensures DirectoryOf(w, origin, value).Some? ==> Absolute(DirectoryOf(w, origin, value).value)
  {
  }

  lemma YieldedMore(w: World, origin: Path, values: seq<seq<Byte>>, d: Path)
    requires values != []
    ensures Yielded(w, origin, values, d)
       <==> Yielded(w, origin, values[..|values| - 1], d) || DirectoryOf(w, origin, values[|values| - 1]) == Some(d)
  {
    hide DirectoryOf;
    var less := values[..|values| - 1];
    if Yielded(w, origin, less, d) {
      var i :| 0 <= i < |less| && DirectoryOf(w, origin, less[i]) == Some(d);
      assert values[i] == less[i];
    }
    if i :| 0 <= i < |less| && DirectoryOf(w, origin, values[i]) == Some(d) {
      assert values[i] == less[i];
    }
  }

  // A directory yielded so far comes before one that is not.
  lemma BeforeStays(w: World, origin: Path, values: seq<seq<Byte>>, a: Path, b: Path)
    requires values != []
    requires YieldedBefore(w, origin, values[..|values| - 1], a, b)
          || (Yielded(w, origin, values[..|values| - 1], a) && !Yielded(w, origin, values[..|values| - 1], b))
    ensures YieldedBefore(w, origin, values, a, b)
  {
    hide DirectoryOf;
    var less := values[..|values| - 1];
    var k :| 0 <= k < |less| && DirectoryOf(w, origin, less[k]) == Some(a)
          && forall m | 0 <= m <= k :: DirectoryOf(w, origin, less[m]) != Some(b);
    assert values[k] == less[k];
    forall m | 0 <= m <= k ensures DirectoryOf(w, origin, values[m]) != Some(b) {
      assert values[m] == less[m];
    }
  }

  // ---------------------------------------------------------------- the edges of one object

  datatype EdgeKind = Interpreter | Needed
  datatype Edge = Edge(from: Path, kind: EdgeKind, name: seq<Byte>, to: Path)

  function FirstPresent(w: World, candidates: seq<Path>): Option<Path>
  {
    if candidates == [] then None
    else if w.present(candidates[0]) then Some(candidates[0])
    else FirstPresent(w, candidates[1..])
  }

  function Candidates(w: World, dirs: seq<Path>, name: seq<Byte>): seq<Path>
  {
    if SLASH in name then [name]
    else seq(|dirs|, i requires 0 <= i < |dirs| => w.child(dirs[i], name))
  }

  function NeededEdge(w: World, x: Path, dirs: seq<Path>, name: seq<Byte>): Option<Edge>
  {
    if SLASH in name && !Absolute(name) then None else
    var dependency := FirstPresent(w, Candidates(w, dirs, name));
    if dependency == None then None else
    var target := w.attest(dependency.value, false);
    if target == None then None else Some(Edge(x, Needed, name, target.value))
  }

  function NeededEdges(w: World, x: Path, dirs: seq<Path>, names: seq<seq<Byte>>): (r: Option<seq<Edge>>)
    ensures r.Some? ==> |r.value| == |names|
  {
    if names == [] then Some([]) else
    var before := NeededEdges(w, x, dirs, names[..|names| - 1]);
    var last := NeededEdge(w, x, dirs, names[|names| - 1]);
    if before == None || last == None then None else Some(before.value + [last.value])
  }

  function InterpreterEdges(w: World, x: Path, facts: Facts): (r: Option<seq<Edge>>)
    ensures r.Some? ==> |r.value| == if facts.interpreter.Some? then 1 else 0
  {
    if facts.interpreter == None then Some([]) else
    var name := facts.interpreter.value;
    if !Absolute(name) then None else
    var target := w.attest(name, true);
    if target == None then None else Some([Edge(x, Interpreter, name, target.value)])
  }

  function LoaderPaths(w: World, x: Path, facts: Facts, additional: seq<Path>): Option<seq<Path>>
  {
    var rpath := DirectoriesOf(w, w.parent(x), facts.rpath);
    var runpath := DirectoriesOf(w, w.parent(x), facts.runpath);
    if rpath == None || runpath == None then None
    else Some(rpath.value + runpath.value + additional + w.defaults)
  }

  // How many interpreter and needed entries an object has.
  function EntriesOf(r: Reading): nat
  {
    if r.Elf? then (if r.facts.interpreter.Some? then 1 else 0) + |r.facts.needed| else 0
  }

  // All edges that leave x, or None when x or one of its entries is refused. There is one edge for
  // the interpreter, if any, and one for each needed name.
  function EdgesOf(w: World, additional: seq<Path>, x: Path): (r: Option<seq<Edge>>)
    ensures r.Some? ==> w.reading(x).Elf? && |r.value| == EntriesOf(w.reading(x))
  {
    if !w.reading(x).Elf? then None else
    var facts := w.reading(x).facts;
    var first := InterpreterEdges(w, x, facts);
    var dirs := LoaderPaths(w, x, facts, additional);
    if first == None || dirs == None then None else
    var rest := NeededEdges(w, x, dirs.value, facts.needed);
    if rest == None then None else Some(first.value + rest.value)
  }

  method ResolveNeeded(w: World, x: Path, dirs: seq<Path>, names: seq<seq<Byte>>) returns (r: Option<seq<Edge>>)
    ensures r == NeededEdges(w, x, dirs, names)
  {
    var edges: seq<Edge> := [];
    for index := 0 to |names|
      invariant NeededEdges(w, x, dirs, names[..index]) == Some(edges)
    {
      assert names[..index + 1][..index] == names[..index];
      var edge := NeededEdge(w, x, dirs, names[index]);
      if edge == None {
        RefusedNameStays(w, x, dirs, names, index + 1);
        return None;
      }
      edges := edges + [edge.value];
    }
    assert names[..|names|] == names;
    r := Some(edges);
  }

  lemma {:induction false} RefusedNameStays(w: World, x: Path, dirs: seq<Path>, names: seq<seq<Byte>>, n: nat)
    requires n <= |names| && NeededEdges(w, x, dirs, names[..n]) == None
    ensures NeededEdges(w, x, dirs, names) == None
    decreases |names| - n
  {
    if n < |names| {
      assert names[..n + 1][..n] == names[..n];
      RefusedNameStays(w, x, dirs, names, n + 1);
    } else {
      assert names[..n] == names;
    }
  }

  method Expand(w: World, additional: seq<Path>, x: Path, facts: Facts) returns (r: Option<seq<Edge>>)
    requires w.reading(x) == Elf(facts)
    ensures r == EdgesOf(w, additional, x)
  {
    hide NeededEdges, DirectoriesOf;
    var edges: seq<Edge> := [];
    if facts.interpreter.Some? {
      var name := facts.interpreter.value;
      if !Absolute(name) { return None; }
      var target := w.attest(name, true);
      if target == None { return None; }
      edges := [Edge(x, Interpreter, name, target.value)];
    }
    var rpath := SearchDirectories(w, w.parent(x), facts.rpath);
    if rpath == None { return None; }
    var runpath := SearchDirectories(w, w.parent(x), facts.runpath);
    if runpath == None { return None; }
    var needed := ResolveNeeded(w, x, rpath.value + runpath.value + additional + w.defaults, facts.needed);
    if needed == None { return None; }
    r := Some(edges + needed.value);
  }

  // ---------------------------------------------------------------- reachability

  ghost predicate Linked(w: World, additional: seq<Path>, x: Path, y: Path)
  {
    EdgesOf(w, additional, x).Some? && exists e | e in EdgesOf(w, additional, x).value :: e.to == y
  }

  ghost predicate Walk(w: World, additional: seq<Path>, p: seq<Path>)
  {
    p != [] && forall i | 0 <= i < |p| - 1 :: Linked(w, additional, p[i], p[i + 1])
  }

  ghost predicate Reaches(w: World, additional: seq<Path>, root: Path, x: Path)
  {
    exists p :: Walk(w, additional, p) && p[0] == root && p[|p| - 1] == x
  }

  lemma ReachesSelf(w: World, additional: seq<Path>, root: Path)
    ensures Reaches(w, additional, root, root)
  {
    assert Walk(w, additional, [root]);
  }

  lemma ReachesStep(w: World, additional: seq<Path>, root: Path, x: Path, y: Path)
    requires Reaches(w, additional, root, x) && Linked(w, additional, x, y)
    ensures Reaches(w, additional, root, y)
  {
    hide Linked;
    var p :| Walk(w, additional, p) && p[0] == root && p[|p| - 1] == x;
    assert Walk(w, additional, p + [y]);
  }

  // A set that holds the root and is closed under edges holds every reachable object.
  lemma {:induction false} ClosedHoldsWalk(w: World, additional: seq<Path>, p: seq<Path>, s: set<Path>)
    requires Walk(w, additional, p) && p[0] in s
    requires forall x, y | x in s && Linked(w, additional, x, y) :: y in s
    ensures p[|p| - 1] in s
    decreases |p|
  {
    hide Linked;
    if |p| > 1 {
      assert Linked(w, additional, p[0], p[1]);
      ClosedHoldsWalk(w, additional, p[1..], s);
    }
  }

  // ---------------------------------------------------------------- the worklist

  datatype Closure = Rejected | PlainFile(root: Path) | Closed(root: Path, objects: map<Path, Facts>, edges: seq<Edge>)

  // The edges of the objects in `order`, in the order in which they were expanded.
  ghost function EdgesIn(w: World, additional: seq<Path>, order: seq<Path>): seq<Edge>
  {
    if order == [] then [] else
    var last := EdgesOf(w, additional, order[|order| - 1]);
    EdgesIn(w, additional, order[..|order| - 1]) + if last.Some? then last.value else []
  }

  lemma {:induction false} EdgesInMember(w: World, additional: seq<Path>, order: seq<Path>, x: Path, e: Edge)
    requires x in order && EdgesOf(w, additional, x).Some? && e in EdgesOf(w, additional, x).value
    ensures e in EdgesIn(w, additional, order)
  {
    hide EdgesOf;
    var n := |order| - 1;
    if x != order[n] { EdgesInMember(w, additional, order[..n], x, e); }
  }

  // The total number of interpreter and needed entries of the listed objects.
  ghost function EntryCount(w: World, order: seq<Path>): nat
  {
    if order == [] then 0 else
    EntryCount(w, order[..|order| - 1]) + EntriesOf(w.reading(order[|order| - 1]))
  }

  lemma {:induction false} EdgesInCount(w: World, additional: seq<Path>, order: seq<Path>)
    requires forall i | 0 <= i < |order| :: EdgesOf(w, additional, order[i]).Some?
    ensures |EdgesIn(w, additional, order)| == EntryCount(w, order)
  {
    if order != [] { EdgesInCount(w, additional, order[..|order| - 1]); }
  }

  predicate EdgeLeq(a: Edge, b: Edge)
  {
    if a.from != b.from then LexLeq(a.from, b.from)
    else if a.kind != b.kind then a.kind == Interpreter
    else LexLeq(a.name, b.name)
  }

  function ByEdge(): (leq: (Edge, Edge) -> bool) { (a, b) => EdgeLeq(a, b) }

  lemma EdgeOrder()
    ensures TotalPreorder(ByEdge())
  {
    hide LexLeq;
    forall a: Edge, b: Edge ensures EdgeLeq(a, b) || EdgeLeq(b, a) {
      LexTotal(a.from, b.from);
      LexTotal(a.name, b.name);
    }
    forall a: Edge, b: Edge, c: Edge | EdgeLeq(a, b) && EdgeLeq(b, c) ensures EdgeLeq(a, c) {
      EdgeTransitive(a, b, c);
    }
  }

  lemma EdgeTransitive(a: Edge, b: Edge, c: Edge)
    requires EdgeLeq(a, b) && EdgeLeq(b, c)
    ensures EdgeLeq(a, c)
  {
    hide LexLeq;
    if a.from != b.from && b.from != c.from {
      LexTransitive(a.from, b.from, c.from);
      if a.from == c.from { LexAntisymmetric(a.from, b.from); }
    } else if a.from == b.from == c.from && a.kind == b.kind == c.kind {
      LexTransitive(a.name, b.name, c.name);
    }
  }

  // The state of the worklist between two iterations. `order` lists the expanded objects.
  ghost predicate Progress(w: World, additional: seq<Path>, root: Path, order: seq<Path>,
                           objects: map<Path, Facts>, edges: seq<Edge>, queue: seq<(Path, bool)>)
  {
    && Distinct(order) && (forall x :: x in order <==> x in objects)
    && edges == EdgesIn(w, additional, order)
    && (forall x | x in objects :: w.reading(x) == Elf(objects[x]) && EdgesOf(w, additional, x).Some?)
    && (forall x | x in objects :: Reaches(w, additional, root, x))
    && (forall i | 0 <= i < |queue| :: Reaches(w, additional, root, queue[i].0))
    && (forall e | e in edges :: e.to in objects || Queued(queue, e.to))
    && (root in objects || Queued(queue, root))
    && (forall i | 0 <= i < |queue| && queue[i].1 :: queue[i].0 == root && order == [])
    && (order == [] ==> queue == [(root, true)])
    && (forall x | x in objects :: x in w.files)
    && (forall i | 0 <= i < |queue| :: queue[i].0 in w.files)
  }

  ghost predicate Queued(queue: seq<(Path, bool)>, x: Path)
  {
    exists i | 0 <= i < |queue| :: queue[i].0 == x
  }

  // What the attested closure promises.
  ghost predicate Complete(w: World, additional: seq<Path>, root: Path, objects: map<Path, Facts>, edges: seq<Edge>)
  {
    && (forall x :: x in objects <==> Reaches(w, additional, root, x))
    && (forall x | x in objects :: w.reading(x) == Elf(objects[x]) && EdgesOf(w, additional, x).Some?)
    && (forall e | e in edges :: e.to in objects)
    && SortedBy(ByEdge(), edges)
    && exists order: seq<Path> ::
         && Distinct(order) && (forall x :: x in order <==> x in objects)
         && multiset(edges) == multiset(EdgesIn(w, additional, order)) && |edges| == EntryCount(w, order)
  }

  // The run is refused for a reason: some reachable object or entry is unacceptable.
  ghost predicate Blocked(w: World, additional: seq<Path>, root: Path)
  {
    exists x :: Reaches(w, additional, root, x) && EdgesOf(w, additional, x) == None
  }

  ghost predicate Targets(edges: seq<Edge>, x: Path)
  {
    exists e :: e in edges && e.to == x
  }

  // Queues the targets that are not yet expanded, in edge order.
  method Enqueue(queue: seq<(Path, bool)>, edges: seq<Edge>, objects: map<Path, Facts>)
    returns (longer: seq<(Path, bool)>)
    ensures |queue| <= |longer| && longer[..|queue|] == queue
    ensures forall i | |queue| <= i < |longer| ::
              !longer[i].1 && Targets(edges, longer[i].0)
    ensures forall e | e in edges :: e.to in objects || Queued(longer, e.to)
  {
    longer := queue;
    for index := 0 to |edges|
      invariant |queue| <= |longer| && longer[..|queue|] == queue
      invariant forall i | |queue| <= i < |longer| ::
                  !longer[i].1 && Targets(edges, longer[i].0)
      invariant forall j | 0 <= j < index :: edges[j].to in objects || Queued(longer, edges[j].to)
    {
      if edges[index].to !in objects {
        ghost var before := longer;
        longer := longer + [(edges[index].to, false)];
        assert Targets(edges, edges[index].to) by { assert edges[index] in edges; }
        QueuedLonger(before, longer);
        assert longer[|longer| - 1].0 == edges[index].to;
      }
    }
  }

  lemma QueuedLonger(queue: seq<(Path, bool)>, longer: seq<(Path, bool)>)
    requires |queue| <= |longer| && longer[..|queue|] == queue
    ensures forall x | Queued(queue, x) :: Queued(longer, x)
  {
    forall x | Queued(queue, x) ensures Queued(longer, x) {
      var i :| 0 <= i < |queue| && queue[i].0 == x;
      assert longer[i].0 == x;
    }
  }

  // Skipping an object that was already expanded keeps the state consistent.
  lemma SkipKeeps(w: World, additional: seq<Path>, root: Path, order: seq<Path>,
                  objects: map<Path, Facts>, edges: seq<Edge>, queue: seq<(Path, bool)>)
    requires Progress(w, additional, root, order, objects, edges, queue)
    requires queue != [] && queue[0].0 in objects
    ensures Progress(w, additional, root, order, objects, edges, queue[1..])
  {
    hide EdgesIn, EdgesOf, Reaches, Distinct;
    forall x | Queued(queue, x) ensures x in objects || Queued(queue[1..], x) {
      var i :| 0 <= i < |queue| && queue[i].0 == x;
      assert i > 0 ==> queue[1..][i - 1].0 == x;
    }
    assert queue[0].0 in order;
  }

  // Expanding the head of the queue keeps the state consistent.
  lemma ExpandKeeps(w: World, additional: seq<Path>, root: Path, order: seq<Path>, objects: map<Path, Facts>,
                    edges: seq<Edge>, queue: seq<(Path, bool)>, more: seq<Edge>, longer: seq<(Path, bool)>)
    requires w.Finite() && Progress(w, additional, root, order, objects, edges, queue)
    requires queue != [] && queue[0].0 !in objects && w.reading(queue[0].0).Elf?
    requires EdgesOf(w, additional, queue[0].0) == Some(more)
    requires var x, rest := queue[0].0, queue[1..];
             && |rest| <= |longer| && longer[..|rest|] == rest
             && (forall i | |rest| <= i < |longer| :: !longer[i].1 && Targets(more, longer[i].0))
             && (forall e | e in more :: e.to in objects[x := w.reading(x).facts] || Queued(longer, e.to))
    ensures var x := queue[0].0;
            Progress(w, additional, root, order + [x], objects[x := w.reading(x).facts], edges + more, longer)
  {
    hide EdgesOf, Reaches, LexLeq;
    var x, rest := queue[0].0, queue[1..];
    var objects' := objects[x := w.reading(x).facts];
    assert (order + [x])[..|order|] == order;
    QueuedLonger(rest, longer);
    forall y | Queued(queue, y) ensures y in objects' || Queued(longer, y) {
      var i :| 0 <= i < |queue| && queue[i].0 == y;
      assert i > 0 ==> rest[i - 1].0 == y;
    }
    forall i | 0 <= i < |longer|
      ensures Reaches(w, additional, root, longer[i].0) && longer[i].0 in w.files && !longer[i].1
    {
      if i < |rest| {
        assert longer[i] == rest[i] == queue[i + 1];
        OnlyHeadIsRoot(w, additional, root, order, objects, edges, queue, i + 1);
      } else {
        assert Targets(more, longer[i].0);
        var e :| e in more && e.to == longer[i].0;
        ReachesStep(w, additional, root, x, e.to);
        TargetsExist(w, additional, x, e);
      }
    }
  }

  lemma OnlyHeadIsRoot(w: World, additional: seq<Path>, root: Path, order: seq<Path>, objects: map<Path, Facts>,
                       edges: seq<Edge>, queue: seq<(Path, bool)>, i: nat)
    requires Progress(w, additional, root, order, objects, edges, queue)
    requires 0 < i < |queue|
    ensures !queue[i].1
  {
  }

  // Every edge leads to a file of the world.
  lemma TargetsExist(w: World, additional: seq<Path>, x: Path, e: Edge)
    requires w.Finite() && EdgesOf(w, additional, x).Some? && e in EdgesOf(w, additional, x).value
    ensures e.to in w.files
  {
    var facts := w.reading(x).facts;
    var dirs := LoaderPaths(w, x, facts, additional).value;
    var needed := NeededEdges(w, x, dirs, facts.needed).value;
    if e in needed { NeededTargets(w, x, dirs, facts.needed, e); }
  }

  lemma {:induction false} NeededTargets(w: World, x: Path, dirs: seq<Path>, names: seq<seq<Byte>>, e: Edge)
    requires w.Finite() && NeededEdges(w, x, dirs, names).Some? && e in NeededEdges(w, x, dirs, names).value
    ensures e.to in w.files
  {
    if names != [] {
      var n := |names| - 1;
      var before := NeededEdges(w, x, dirs, names[..n]).value;
      if e in before {
        NeededTargets(w, x, dirs, names[..n], e);
      } else {
        assert Some(e) == NeededEdge(w, x, dirs, names[n]);
      }
    }
  }

  // When the queue is empty the expanded objects are exactly the reachable ones.
  lemma FinishedIsComplete(w: World, additional: seq<Path>, root: Path, order: seq<Path>,
                           objects: map<Path, Facts>, edges: seq<Edge>)
    requires Progress(w, additional, root, order, objects, edges, [])
    ensures Complete(w, additional, root, objects, Sort(edges, ByEdge()))
    ensures !Blocked(w, additional, root)
  {
    hide EdgesOf, EdgesIn, EntryCount, Sort;
    forall x, y | x in objects.Keys && Linked(w, additional, x, y) ensures y in objects.Keys {
      var e :| e in EdgesOf(w, additional, x).value && e.to == y;
      EdgesInMember(w, additional, order, x, e);
    }
    forall x ensures x in objects <==> Reaches(w, additional, root, x) {
      if Reaches(w, additional, root, x) {
        var p :| Walk(w, additional, p) && p[0] == root && p[|p| - 1] == x;
        ClosedHoldsWalk(w, additional, p, objects.Keys);
      }
    }
    var sorted := Sort(edges, ByEdge());
    SortPermutes(edges, ByEdge());
    EdgeOrder();
    SortSorted(edges, ByEdge());
    MembersPermuted(edges, sorted);
    SameLength(edges, sorted);
    forall i | 0 <= i < |order| ensures EdgesOf(w, additional, order[i]).Some? { assert order[i] in order; }
    EdgesInCount(w, additional, order);
  }

  // The result is a closure exactly when the root is an ELF file and nothing reachable is refused;
  // then the objects are exactly the reachable ones, each expanded once, with one edge per entry.
  method AttestElfClosure(w: World, executable: Path, libraryDirectories: seq<Path>, requireExecutable: bool)
    returns (r: Closure)
    requires w.Finite()
    ensures var root := w.attest(executable, requireExecutable);
            if root == None || exists d | d in libraryDirectories :: !w.usableDirectory(d) then r == Rejected
            else if w.reading(root.value) == NotElf then r == PlainFile(root.value)
            else if Blocked(w, libraryDirectories, root.value) then r == Rejected
            else r.Closed? && r.root == root.value
                 && Complete(w, libraryDirectories, root.value, r.objects, r.edges)
  {
    hide EdgesOf, EdgesIn, Reaches, Sort, EntryCount, Progress, Complete, Targets, Queued;
    var attested := w.attest(executable, requireExecutable);
    if attested == None { return Rejected; }
    if exists d | d in libraryDirectories :: !w.usableDirectory(d) { return Rejected; }
    var root := attested.value;
    var queue: seq<(Path, bool)> := [(root, true)];
    var objects: map<Path, Facts> := map[];
    var edges: seq<Edge> := [];
    ghost var order: seq<Path> := [];
    StartIsConsistent(w, libraryDirectories, root);
    while queue != []
      invariant Progress(w, libraryDirectories, root, order, objects, edges, queue)
      invariant order != [] ==> w.reading(root) != NotElf
      decreases |w.files - objects.Keys|, |queue|
    {
      var (resolved, isRoot) := queue[0];
      HeadFacts(w, libraryDirectories, root, order, objects, edges, queue);
      if resolved in objects {
        SkipKeeps(w, libraryDirectories, root, order, objects, edges, queue);
        queue := queue[1..];
        continue;
      }
      var parsed := w.reading(resolved);
      if parsed == NotElf && isRoot { return PlainFile(root); }
      if !parsed.Elf? {
        NotElfIsBlocked(w, libraryDirectories, root, resolved);
        return Rejected;
      }
      var more := Expand(w, libraryDirectories, resolved, parsed.facts);
      if more == None { return Rejected; }
      ghost var before := objects;
      objects := objects[resolved := parsed.facts];
      var longer := Enqueue(queue[1..], more.value, objects);
      ExpandKeeps(w, libraryDirectories, root, order, before, edges, queue, more.value, longer);
      order := order + [resolved];
      edges := edges + more.value;
      queue := longer;
      assert objects.Keys == before.Keys + {resolved};
      Shrinks(w.files, before.Keys, resolved);
    }
    FinishedIsComplete(w, libraryDirectories, root, order, objects, edges);
    RootExpanded(w, libraryDirectories, root, order, objects, edges);
    r := Closed(root, objects, Sort(edges, ByEdge()));
  }

  lemma Shrinks(all: set<Path>, done: set<Path>, x: Path)
    requires x in all && x !in done
    ensures |all - (done + {x})| < |all - done|
  {
    assert all - done == (all - (done + {x})) + {x};
  }

  lemma StartIsConsistent(w: World, additional: seq<Path>, root: Path)
    requires root in w.files
    ensures Progress(w, additional, root, [], map[], [], [(root, true)])
  {
    hide Reaches;
    ReachesSelf(w, additional, root);
    assert [(root, true)][0].0 == root;
  }

  lemma HeadFacts(w: World, additional: seq<Path>, root: Path, order: seq<Path>,
                  objects: map<Path, Facts>, edges: seq<Edge>, queue: seq<(Path, bool)>)
    requires Progress(w, additional, root, order, objects, edges, queue) && queue != []
    ensures Reaches(w, additional, root, queue[0].0) && queue[0].0 in w.files
    ensures queue[0].1 ==> queue[0].0 == root && order == []
    ensures order == [] ==> queue[0] == (root, true)
  {
  }

  lemma NotElfIsBlocked(w: World, additional: seq<Path>, root: Path, x: Path)
    requires Reaches(w, additional, root, x) && !w.reading(x).Elf?
    ensures Blocked(w, additional, root)
  {
    hide Reaches;
    assert EdgesOf(w, additional, x) == None;
  }

  lemma RootExpanded(w: World, additional: seq<Path>, root: Path, order: seq<Path>,
                     objects: map<Path, Facts>, edges: seq<Edge>)
    requires Progress(w, additional, root, order, objects, edges, [])
    ensures w.reading(root).Elf?
  {
  }
}
