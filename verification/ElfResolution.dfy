// What an attested closure says of its entries.
module ElfResolution {
  // Every statement here is about the file system and the dynamic entries alone: which directory a search
  // component stands for, in which order directories are tried, and which file a name leads to.

  import opened Bytes
  import opened Collections
  import opened Ordering
  import opened ElfReader
  import opened ElfClosure

  // ---------------------------------------------------------------- replacing a token

  // The parts with a separator between them.
  function Interleave(parts: seq<seq<Byte>>, sep: seq<Byte>): seq<Byte>
    requires parts != []
  {
    if |parts| == 1 then parts[0] else parts[0] + (sep + Interleave(parts[1..], sep))
  }

  ghost predicate OccursAt(text: seq<Byte>, pattern: seq<Byte>, i: nat)
  {
    i + |pattern| <= |text| && text[i..i + |pattern|] == pattern
  }

  // The text is cut at the leftmost occurrences of the pattern, one after another.
  ghost predicate LeftmostCuts(text: seq<Byte>, pattern: seq<Byte>, parts: seq<seq<Byte>>)
    decreases |parts|
  {
    && parts != [] && text == Interleave(parts, pattern)
    && (if |parts| == 1 then forall i: nat :: !OccursAt(text, pattern, i)
        else (forall i: nat | i < |parts[0]| :: !OccursAt(text, pattern, i))
             && LeftmostCuts(Interleave(parts[1..], pattern), pattern, parts[1..]))
  }

  lemma {:induction false} NoOccurrence(text: seq<Byte>, pattern: seq<Byte>, with: seq<Byte>)
    requires pattern != [] && forall i: nat :: !OccursAt(text, pattern, i)
    ensures Replace(text, pattern, with) == text
    decreases |text|
  {
    if |text| >= |pattern| {
      assert !OccursAt(text, pattern, 0);
      forall i: nat ensures !OccursAt(text[1..], pattern, i) {
        assert !OccursAt(text, pattern, i + 1);
        if i + |pattern| <= |text[1..]| { assert text[1..][i..i + |pattern|] == text[i + 1..i + 1 + |pattern|]; }
      }
      NoOccurrence(text[1..], pattern, with);
      assert text == [text[0]] + text[1..];
    }
  }

  lemma {:induction false} FirstOccurrence(head: seq<Byte>, rest: seq<Byte>, pattern: seq<Byte>, with: seq<Byte>)
    requires pattern != [] && forall i: nat | i < |head| :: !OccursAt(head + (pattern + rest), pattern, i)
    ensures Replace(head + (pattern + rest), pattern, with) == head + (with + Replace(rest, pattern, with))
    decreases |head|
  {
    hide Replace, OccursAt;
    var text := head + (pattern + rest);
    if head == [] {
      assert text == pattern + rest;
      ReplaceFront(rest, pattern, with);
      assert [] + (with + Replace(rest, pattern, with)) == with + Replace(rest, pattern, with);
    } else {
      var tail := head[1..] + (pattern + rest);
      assert text == [head[0]] + tail;
      assert !OccursAt(text, pattern, 0);
      forall i: nat | i < |head[1..]| ensures !OccursAt(tail, pattern, i) {
        var next := i + 1;
        assert !OccursAt(text, pattern, next);
        OccursLater(head[0], tail, pattern, i);
      }
      FirstOccurrence(head[1..], rest, pattern, with);
      ReplaceSkip(head[0], tail, pattern, with);
      assert head == [head[0]] + head[1..];
    }
  }

  lemma ReplaceFront(rest: seq<Byte>, pattern: seq<Byte>, with: seq<Byte>)
    requires pattern != []
    ensures Replace(pattern + rest, pattern, with) == with + Replace(rest, pattern, with)
  {
    assert (pattern + rest)[..|pattern|] == pattern && (pattern + rest)[|pattern|..] == rest;
  }

  lemma ReplaceSkip(b: Byte, tail: seq<Byte>, pattern: seq<Byte>, with: seq<Byte>)
    requires pattern != [] && |pattern| <= |tail| + 1 && !OccursAt([b] + tail, pattern, 0)
    ensures Replace([b] + tail, pattern, with) == [b] + Replace(tail, pattern, with)
  {
    assert ([b] + tail)[1..] == tail;
  }

  lemma OccursLater(b: Byte, tail: seq<Byte>, pattern: seq<Byte>, i: nat)
    ensures OccursAt(tail, pattern, i) <==> OccursAt([b] + tail, pattern, i + 1)
  {
    if i + |pattern| <= |tail| { assert tail[i..i + |pattern|] == ([b] + tail)[i + 1..i + 1 + |pattern|]; }
  }

  // str.replace: every leftmost occurrence, none overlapping another, becomes the replacement.
  lemma {:induction false} ReplaceExact(text: seq<Byte>, pattern: seq<Byte>, with: seq<Byte>, parts: seq<seq<Byte>>)
    requires pattern != [] && LeftmostCuts(text, pattern, parts)
    ensures Replace(text, pattern, with) == Interleave(parts, with)
    decreases |parts|
  {
    if |parts| == 1 {
      NoOccurrence(text, pattern, with);
    } else {
      var rest := Interleave(parts[1..], pattern);
      FirstOccurrence(parts[0], rest, pattern, with);
      ReplaceExact(rest, pattern, with, parts[1..]);
    }
  }

  // Every text has such cuts.
  lemma {:induction false} CutsExist(text: seq<Byte>, pattern: seq<Byte>) returns (parts: seq<seq<Byte>>)
    requires pattern != []
    ensures LeftmostCuts(text, pattern, parts)
    decreases |text|
  {
    if i: nat :| OccursAt(text, pattern, i) {
      var k := Leftmost(text, pattern, i);
      var head, rest := text[..k], text[k + |pattern|..];
      var more := CutsExist(rest, pattern);
      parts := [head] + more;
      assert parts[1..] == more;
      assert text == head + (pattern + rest);
    } else {
      parts := [text];
    }
  }

  lemma {:induction false} Leftmost(text: seq<Byte>, pattern: seq<Byte>, i: nat) returns (k: nat)
    requires OccursAt(text, pattern, i)
    ensures k <= i && OccursAt(text, pattern, k) && forall j: nat | j < k :: !OccursAt(text, pattern, j)
    decreases i
  {
    k := i;
    if j: nat :| j < i && OccursAt(text, pattern, j) { k := Leftmost(text, pattern, j); }
  }

  // ---------------------------------------------------------------- search directories

  // ${ORIGIN} first, then $ORIGIN; what then still holds a dollar sign, and what is not absolute after
  // normalization, stands for no directory, and neither does the empty component.
  ghost predicate StandsFor(w: World, origin: Path, value: seq<Byte>, d: Path)
  {
    && value != []
    && (exists outer, inner ::
          && LeftmostCuts(value, Ascii("${ORIGIN}"), outer)
          && LeftmostCuts(Interleave(outer, origin), Ascii("$ORIGIN"), inner)
          && '$' as int !in Interleave(inner, origin)
          && d == w.normalize(Interleave(inner, origin)))
    && d != [] && d[0] == '/' as int
  }

  lemma StandsForExact(w: World, origin: Path, value: seq<Byte>, d: Path)
    ensures DirectoryOf(w, origin, value) == Some(d) <==> StandsFor(w, origin, value, d)
  {
    hide Replace, Interleave, Ascii;
    TokensNotEmpty();
    var braced, plain := Ascii("${ORIGIN}"), Ascii("$ORIGIN");
    var expanded := Replace(Replace(value, braced, origin), plain, origin);
    forall outer, inner
      | LeftmostCuts(value, braced, outer) && LeftmostCuts(Interleave(outer, origin), plain, inner)
      ensures Interleave(inner, origin) == expanded
    {
      ReplaceExact(value, braced, origin, outer);
      ReplaceExact(Interleave(outer, origin), plain, origin, inner);
    }
    var outer := CutsExist(value, braced);
    var inner := CutsExist(Interleave(outer, origin), plain);
    assert LeftmostCuts(value, braced, outer) && LeftmostCuts(Interleave(outer, origin), plain, inner);
    assert BRACED_ORIGIN == braced && PLAIN_ORIGIN == plain;
    assert Interleave(inner, origin) == expanded;
    if StandsFor(w, origin, value, d) {
      var outer', inner' :| LeftmostCuts(value, braced, outer') && LeftmostCuts(Interleave(outer', origin), plain, inner')
                         && '$' as int !in Interleave(inner', origin) && d == w.normalize(Interleave(inner', origin));
      assert Interleave(inner', origin) == expanded;
    }
  }

  lemma TokensNotEmpty()
    ensures Ascii("${ORIGIN}") != [] && Ascii("$ORIGIN") != []
  {
    assert |Ascii("${ORIGIN}")| == 9 && |Ascii("$ORIGIN")| == 7;
  }

  ghost predicate Acceptable(w: World, origin: Path, value: seq<Byte>)
  {
    exists d :: StandsFor(w, origin, value, d)
  }

  ghost predicate NamedBy(w: World, origin: Path, values: seq<seq<Byte>>, d: Path)
  {
    exists i :: 0 <= i < |values| && StandsFor(w, origin, values[i], d)
  }

  // Some component names a before any names b.
  ghost predicate NamedFirst(w: World, origin: Path, values: seq<seq<Byte>>, a: Path, b: Path)
  {
    exists k :: 0 <= k < |values| && StandsFor(w, origin, values[k], a)
             && forall m | 0 <= m <= k :: !StandsFor(w, origin, values[m], b)
  }

  // The list holds the directory of every component once, in the order in which the components first name
  // them.
  ghost predicate SearchList(w: World, origin: Path, values: seq<seq<Byte>>, dirs: seq<Path>)
  {
    && (forall i | 0 <= i < |values| :: Acceptable(w, origin, values[i]))
    && (forall d :: d in dirs <==> NamedBy(w, origin, values, d))
    && (forall i, j | 0 <= i < j < |dirs| :: dirs[i] != dirs[j] && NamedFirst(w, origin, values, dirs[i], dirs[j]))
  }

  lemma SearchListed(w: World, origin: Path, values: seq<seq<Byte>>)
    requires DirectoriesOf(w, origin, values).Some?
    ensures SearchList(w, origin, values, DirectoriesOf(w, origin, values).value)
  {
    hide StandsFor, DirectoryOf, DirectoriesOf, Absolute, Yielded, YieldedBefore, NamedBy, NamedFirst, Acceptable;
    var dirs := DirectoriesOf(w, origin, values).value;
    DirectoriesMeaning(w, origin, values);
    AllAccepted(w, origin, values);
    forall d ensures Yielded(w, origin, values, d) <==> NamedBy(w, origin, values, d) {
      SameNames(w, origin, values, d);
    }
    forall i, j | 0 <= i < j < |dirs| ensures dirs[i] != dirs[j] && NamedFirst(w, origin, values, dirs[i], dirs[j]) {
      SameOrder(w, origin, values, dirs[i], dirs[j]);
    }
  }

  lemma SameNames(w: World, origin: Path, values: seq<seq<Byte>>, d: Path)
    ensures Yielded(w, origin, values, d) <==> NamedBy(w, origin, values, d)
  {
    hide StandsFor, DirectoryOf;
    forall value ensures DirectoryOf(w, origin, value) == Some(d) <==> StandsFor(w, origin, value, d) {
      StandsForExact(w, origin, value, d);
    }
  }

  lemma SameOrder(w: World, origin: Path, values: seq<seq<Byte>>, a: Path, b: Path)
    requires YieldedBefore(w, origin, values, a, b)
    ensures NamedFirst(w, origin, values, a, b)
  {
    hide StandsFor, DirectoryOf;
    forall value, d ensures DirectoryOf(w, origin, value) == Some(d) <==> StandsFor(w, origin, value, d) {
      StandsForExact(w, origin, value, d);
    }
  }

  // A component list is refused exactly for a component that stands for no directory.
  lemma {:induction false} AllAccepted(w: World, origin: Path, values: seq<seq<Byte>>)
    ensures DirectoriesOf(w, origin, values).Some? <==> forall i | 0 <= i < |values| :: Acceptable(w, origin, values[i])
  {
    hide DirectoryOf, Acceptable;
    if values != [] {
      var n := |values| - 1;
      AllAccepted(w, origin, values[..n]);
      forall i | 0 <= i < n ensures values[..n][i] == values[i] {}
      OneAccepted(w, origin, values[n]);
    }
  }

  lemma OneAccepted(w: World, origin: Path, value: seq<Byte>)
    ensures DirectoryOf(w, origin, value).Some? <==> Acceptable(w, origin, value)
  {
    hide DirectoryOf, StandsFor;
    forall d ensures DirectoryOf(w, origin, value) == Some(d) <==> StandsFor(w, origin, value, d) {
      StandsForExact(w, origin, value, d);
    }
    if DirectoryOf(w, origin, value).Some? {
      assert StandsFor(w, origin, value, DirectoryOf(w, origin, value).value);
    }
  }

  // ---------------------------------------------------------------- the file a name leads to

  // The k-th file tried for a name: the name itself when it is a path, otherwise the name in directory k.
  ghost predicate Tried(w: World, dirs: seq<Path>, name: seq<Byte>, k: nat, file: Path)
  {
    if '/' as int in name then k == 0 && file == name && name[0] == '/' as int
    else k < |dirs| && file == w.child(dirs[k], name)
  }

  // The first file tried that is present is attested as `to`.
  ghost predicate LeadsTo(w: World, dirs: seq<Path>, name: seq<Byte>, to: Path)
  {
    exists k, file ::
      && Tried(w, dirs, name, k, file) && w.present(file) && w.attest(file, false) == Some(to)
      && forall j: nat, other | j < k && Tried(w, dirs, name, j, other) :: !w.present(other)
  }

  lemma {:induction false} FirstPresentExact(w: World, candidates: seq<Path>, file: Path)
    ensures FirstPresent(w, candidates) == Some(file)
       <==> exists k :: 0 <= k < |candidates| && candidates[k] == file && w.present(file)
                     && forall j | 0 <= j < k :: !w.present(candidates[j])
  {
    if candidates != [] {
      var rest := candidates[1..];
      FirstPresentExact(w, rest, file);
      if !w.present(candidates[0]) {
        if k :| 0 <= k < |rest| && rest[k] == file && w.present(file) && forall j | 0 <= j < k :: !w.present(rest[j]) {
          assert candidates[k + 1] == file;
          forall j | 0 <= j < k + 1 ensures !w.present(candidates[j]) {
            if j > 0 { assert candidates[j] == rest[j - 1]; }
          }
        }
        if k :| 0 <= k < |candidates| && candidates[k] == file && w.present(file)
                && forall j | 0 <= j < k :: !w.present(candidates[j]) {
          assert rest[k - 1] == file;
          forall j | 0 <= j < k - 1 ensures !w.present(rest[j]) { assert rest[j] == candidates[j + 1]; }
        }
      }
    }
  }

  lemma TriedExact(w: World, dirs: seq<Path>, name: seq<Byte>, k: nat, file: Path)
    requires '/' as int in name ==> name[0] == '/' as int
    ensures Tried(w, dirs, name, k, file) <==> k < |Candidates(w, dirs, name)| && Candidates(w, dirs, name)[k] == file
  {
  }

  // A needed name gives an edge to exactly the file it leads to, and is refused when it leads nowhere.
  lemma NeededExact(w: World, x: Path, dirs: seq<Path>, name: seq<Byte>, e: Edge)
    ensures NeededEdge(w, x, dirs, name) == Some(e)
       <==> e.from == x && e.kind == Needed && e.name == name && LeadsTo(w, dirs, name, e.to)
  {
    hide Candidates, FirstPresent, Tried;
    var candidates := Candidates(w, dirs, name);
    if '/' as int in name && name[0] != '/' as int {
      NothingTried(w, dirs, name);
    } else {
      forall k: nat, file ensures Tried(w, dirs, name, k, file) <==> k < |candidates| && candidates[k] == file {
        TriedExact(w, dirs, name, k, file);
      }
      forall file
        ensures FirstPresent(w, candidates) == Some(file)
           <==> exists k :: 0 <= k < |candidates| && candidates[k] == file && w.present(file)
                         && forall j | 0 <= j < k :: !w.present(candidates[j])
      {
        FirstPresentExact(w, candidates, file);
      }
      if LeadsTo(w, dirs, name, e.to) {
        var k, file :| Tried(w, dirs, name, k, file) && w.present(file) && w.attest(file, false) == Some(e.to)
                    && forall j: nat, other | j < k && Tried(w, dirs, name, j, other) :: !w.present(other);
        forall j | 0 <= j < k ensures !w.present(candidates[j]) { assert Tried(w, dirs, name, j, candidates[j]); }
        assert FirstPresent(w, candidates) == Some(file);
      }
      if FirstPresent(w, candidates).Some? {
        var file := FirstPresent(w, candidates).value;
        var k :| 0 <= k < |candidates| && candidates[k] == file && w.present(file)
              && forall j | 0 <= j < k :: !w.present(candidates[j]);
        assert Tried(w, dirs, name, k, file);
      }
    }
  }

  lemma NothingTried(w: World, dirs: seq<Path>, name: seq<Byte>)
    requires '/' as int in name && name[0] != '/' as int
    ensures forall k: nat, file :: !Tried(w, dirs, name, k, file)
  {
  }

  // ---------------------------------------------------------------- all entries of an object

  // rpath, runpath, the given library directories, the defaults: tried in this order.
  ghost predicate LoaderOrder(w: World, additional: seq<Path>, x: Path, facts: Facts, dirs: seq<Path>)
  {
    exists first, second ::
      && SearchList(w, w.parent(x), facts.rpath, first) && SearchList(w, w.parent(x), facts.runpath, second)
      && dirs == first + second + additional + w.defaults
  }

  ghost predicate InterpreterAt(w: World, facts: Facts, to: Path)
  {
    && facts.interpreter.Some? && facts.interpreter.value != [] && facts.interpreter.value[0] == '/' as int
    && w.attest(facts.interpreter.value, true) == Some(to)
  }

  // The edges that leave an object: the interpreter's first, then one for each needed name in order.
  ghost predicate EntriesResolved(w: World, additional: seq<Path>, x: Path, facts: Facts, edges: seq<Edge>)
  {
    exists dirs ::
      && LoaderOrder(w, additional, x, facts, dirs)
      && var n := if facts.interpreter.Some? then 1 else 0;
      && |edges| == n + |facts.needed|
      && (n == 1 ==> InterpreterAt(w, facts, edges[0].to)
                     && edges[0] == Edge(x, Interpreter, facts.interpreter.value, edges[0].to))
      && NeededResolved(w, dirs, x, facts.needed, edges[n..])
  }

  ghost predicate NeededResolved(w: World, dirs: seq<Path>, x: Path, needed: seq<seq<Byte>>, edges: seq<Edge>)
  {
    && |edges| == |needed|
    && forall i | 0 <= i < |needed| ::
         && edges[i].from == x && edges[i].kind == Needed && edges[i].name == needed[i]
         && LeadsTo(w, dirs, needed[i], edges[i].to)
  }

  lemma {:induction false} NeededInOrder(w: World, x: Path, dirs: seq<Path>, names: seq<seq<Byte>>)
    requires NeededEdges(w, x, dirs, names).Some?
    ensures forall i | 0 <= i < |names| :: NeededEdge(w, x, dirs, names[i]) == Some(NeededEdges(w, x, dirs, names).value[i])
  {
    hide NeededEdge;
    if names != [] {
      var n := |names| - 1;
      NeededInOrder(w, x, dirs, names[..n]);
      forall i | 0 <= i < n
        ensures NeededEdge(w, x, dirs, names[i]) == Some(NeededEdges(w, x, dirs, names).value[i])
      {
        assert names[..n][i] == names[i];
      }
    }
  }

  lemma EdgesResolved(w: World, additional: seq<Path>, x: Path)
    requires EdgesOf(w, additional, x).Some?
    ensures w.reading(x).Elf? && EntriesResolved(w, additional, x, w.reading(x).facts, EdgesOf(w, additional, x).value)
  {
    hide NeededEdge, DirectoriesOf, SearchList, LeadsTo, NeededEdges, LoaderOrder, LoaderPaths, NeededResolved;
    var facts := w.reading(x).facts;
    var dirs := LoaderPaths(w, x, facts, additional).value;
    OrderOfLoader(w, additional, x, facts);
    var edges := EdgesOf(w, additional, x).value;
    NeededAll(w, x, dirs, facts.needed);
    var n := if facts.interpreter.Some? then 1 else 0;
    assert edges[n..] == NeededEdges(w, x, dirs, facts.needed).value;
  }

  lemma NeededAll(w: World, x: Path, dirs: seq<Path>, needed: seq<seq<Byte>>)
    requires NeededEdges(w, x, dirs, needed).Some?
    ensures NeededResolved(w, dirs, x, needed, NeededEdges(w, x, dirs, needed).value)
  {
    hide NeededEdge, LeadsTo, NeededEdges;
    var edges := NeededEdges(w, x, dirs, needed).value;
    NeededInOrder(w, x, dirs, needed);
    forall i | 0 <= i < |needed|
      ensures edges[i].from == x && edges[i].kind == Needed && edges[i].name == needed[i]
      ensures LeadsTo(w, dirs, needed[i], edges[i].to)
    {
      NeededExact(w, x, dirs, needed[i], edges[i]);
    }
  }

  lemma OrderOfLoader(w: World, additional: seq<Path>, x: Path, facts: Facts)
    requires LoaderPaths(w, x, facts, additional).Some?
    ensures LoaderOrder(w, additional, x, facts, LoaderPaths(w, x, facts, additional).value)
  {
    hide DirectoriesOf, SearchList;
    SearchListed(w, w.parent(x), facts.rpath);
    SearchListed(w, w.parent(x), facts.runpath);
  }

  // ---------------------------------------------------------------- the closure

  ghost predicate EntryOf(w: World, additional: seq<Path>, facts: Facts, e: Edge)
  {
    if e.kind == Interpreter then facts.interpreter == Some(e.name) && InterpreterAt(w, facts, e.to)
    else e.name in facts.needed
         && exists dirs :: LoaderOrder(w, additional, e.from, facts, dirs) && LeadsTo(w, dirs, e.name, e.to)
  }

  // Sorted by object, interpreter before needed names, then by name.
  ghost predicate InEdgeOrder(a: Edge, b: Edge)
  {
    || (a.from != b.from && LexLeq(a.from, b.from))
    || (a.from == b.from && a.kind == Interpreter && b.kind == Needed)
    || (a.from == b.from && a.kind == b.kind && LexLeq(a.name, b.name))
  }

  // The closure as its reader sees it: nothing but readings, files and edges.
  ghost predicate Attested(w: World, additional: seq<Path>, root: Path, objects: map<Path, Facts>, edges: seq<Edge>)
  {
    && root in objects
    && (forall x | x in objects :: w.reading(x) == Elf(objects[x]))
    && (forall e | e in edges :: e.from in objects && e.to in objects && EntryOf(w, additional, objects[e.from], e))
    && (forall x | x in objects && objects[x].interpreter.Some? ::
          exists e | e in edges :: e.from == x && e.kind == Interpreter)
    && (forall x, name | x in objects && name in objects[x].needed ::
          exists e | e in edges :: e.from == x && e.kind == Needed && e.name == name)
    && (forall x | x in objects :: Along(edges, root, x))
    && (forall i, j | 0 <= i < j < |edges| :: InEdgeOrder(edges[i], edges[j]))
  }

  // A path of edges from one object to another.
  ghost predicate Along(edges: seq<Edge>, root: Path, x: Path)
  {
    exists p: seq<Path> ::
      && p != [] && p[0] == root && p[|p| - 1] == x
      && forall i | 0 <= i < |p| - 1 :: exists e | e in edges :: e.from == p[i] && e.to == p[i + 1]
  }

  lemma EdgesInMembers(w: World, additional: seq<Path>, order: seq<Path>, e: Edge) returns (x: Path)
    requires e in EdgesIn(w, additional, order)
    ensures x in order && EdgesOf(w, additional, x).Some? && e in EdgesOf(w, additional, x).value
    decreases |order|
  {
    hide EdgesOf;
    var n := |order| - 1;
    var last := EdgesOf(w, additional, order[n]);
    if last.Some? && e in last.value { x := order[n]; } else { x := EdgesInMembers(w, additional, order[..n], e); }
  }

  lemma EntryAt(w: World, additional: seq<Path>, x: Path, e: Edge)
    requires EdgesOf(w, additional, x).Some? && e in EdgesOf(w, additional, x).value
    ensures e.from == x && w.reading(x).Elf? && EntryOf(w, additional, w.reading(x).facts, e)
  {
    hide LeadsTo, LoaderOrder, EdgesOf;
    EdgesResolved(w, additional, x);
    var facts, edges := w.reading(x).facts, EdgesOf(w, additional, x).value;
    var n := if facts.interpreter.Some? then 1 else 0;
    var i :| 0 <= i < |edges| && edges[i] == e;
    if i >= n { assert edges[n + (i - n)].name == facts.needed[i - n]; }
  }

  // Every entry of an object is among its edges.
  lemma EntryListed(w: World, additional: seq<Path>, x: Path)
    requires EdgesOf(w, additional, x).Some?
    ensures var facts, edges := w.reading(x).facts, EdgesOf(w, additional, x).value;
            && (facts.interpreter.Some? ==> exists e | e in edges :: e.from == x && e.kind == Interpreter)
            && (forall name | name in facts.needed :: exists e | e in edges :: e.from == x && e.kind == Needed && e.name == name)
  {
    hide LeadsTo, LoaderOrder, EdgesOf;
    EdgesResolved(w, additional, x);
    var facts, edges := w.reading(x).facts, EdgesOf(w, additional, x).value;
    var n := if facts.interpreter.Some? then 1 else 0;
    if n == 1 { assert edges[0] in edges; }
    forall name | name in facts.needed ensures exists e | e in edges :: e.from == x && e.kind == Needed && e.name == name {
      var i :| 0 <= i < |facts.needed| && facts.needed[i] == name;
      assert edges[n + i] in edges;
    }
  }

  lemma WalkAlong(w: World, additional: seq<Path>, root: Path, x: Path, edges: seq<Edge>, objects: map<Path, Facts>)
    requires Reaches(w, additional, root, x) && forall y :: y in objects <==> Reaches(w, additional, root, y)
    requires forall y, e | y in objects && EdgesOf(w, additional, y).Some? && e in EdgesOf(w, additional, y).value ::
               e in edges && e.from == y
    ensures Along(edges, root, x)
  {
    hide EdgesOf;
    var p :| Walk(w, additional, p) && p[0] == root && p[|p| - 1] == x;
    forall i | 0 <= i < |p| - 1 ensures exists e | e in edges :: e.from == p[i] && e.to == p[i + 1] {
      assert ElfClosure.Linked(w, additional, p[i], p[i + 1]);
      PrefixReaches(w, additional, root, p, i);
      var e :| e in EdgesOf(w, additional, p[i]).value && e.to == p[i + 1];
      assert e in edges && e.from == p[i];
    }
  }

  lemma PrefixReaches(w: World, additional: seq<Path>, root: Path, p: seq<Path>, i: nat)
    requires Walk(w, additional, p) && p[0] == root && i < |p|
    ensures Reaches(w, additional, root, p[i])
  {
    hide ElfClosure.Linked;
    var q := p[..i + 1];
    assert Walk(w, additional, q) && q[0] == root && q[|q| - 1] == p[i];
  }

  // An accepted closure: every edge is the entry of an object and leads where the search order says, every
  // entry has an edge, every object is found along edges from the root, and the edges are in order.
  lemma ClosureAttested(w: World, additional: seq<Path>, root: Path, objects: map<Path, Facts>, edges: seq<Edge>)
    requires Complete(w, additional, root, objects, edges)
    ensures Attested(w, additional, root, objects, edges)
  {
    hide EdgesOf, EdgesIn, EntryCount, EntryOf, Reaches, Along, SortedBy, LexLeq;
    var order: seq<Path> :|
      && Distinct(order) && (forall x :: x in order <==> x in objects)
      && multiset(edges) == multiset(EdgesIn(w, additional, order)) && |edges| == EntryCount(w, order);
    ReachesSelf(w, additional, root);
    MembersPermuted(edges, EdgesIn(w, additional, order));
    forall e | e in edges ensures e.from in objects && EntryOf(w, additional, objects[e.from], e) {
      var x := EdgesInMembers(w, additional, order, e);
      EntryAt(w, additional, x, e);
    }
    forall x, e | x in objects && EdgesOf(w, additional, x).Some? && e in EdgesOf(w, additional, x).value
      ensures e in edges && e.from == x
    {
      EdgesInMember(w, additional, order, x, e);
      EntryAt(w, additional, x, e);
    }
    forall x | x in objects
      ensures Along(edges, root, x)
      ensures objects[x].interpreter.Some? ==> exists e | e in edges :: e.from == x && e.kind == Interpreter
      ensures forall name | name in objects[x].needed :: exists e | e in edges :: e.from == x && e.kind == Needed && e.name == name
    {
      WalkAlong(w, additional, root, x, edges, objects);
      EntryListed(w, additional, x);
    }
    EdgesOrdered(edges);
  }

  lemma EdgesOrdered(edges: seq<Edge>)
    requires SortedBy(ByEdge(), edges)
    ensures forall i, j | 0 <= i < j < |edges| :: InEdgeOrder(edges[i], edges[j])
  {
    hide LexLeq;
    forall i, j | 0 <= i < j < |edges| ensures InEdgeOrder(edges[i], edges[j]) {
      assert ByEdge()(edges[i], edges[j]);
    }
  }

  // ---------------------------------------------------------------- refusals

  // What makes an object unacceptable, entry by entry.
  ghost predicate Refusable(w: World, additional: seq<Path>, x: Path, facts: Facts)
  {
    || (facts.interpreter.Some? && forall to :: !InterpreterAt(w, facts, to))
    || (exists i :: 0 <= i < |facts.rpath| && !Acceptable(w, w.parent(x), facts.rpath[i]))
    || (exists i :: 0 <= i < |facts.runpath| && !Acceptable(w, w.parent(x), facts.runpath[i]))
    || (exists dirs, name :: LoaderOrder(w, additional, x, facts, dirs) && name in facts.needed
                          && forall to :: !LeadsTo(w, dirs, name, to))
  }

  lemma {:induction false} SomeNameFails(w: World, x: Path, dirs: seq<Path>, names: seq<seq<Byte>>)
    ensures NeededEdges(w, x, dirs, names) == None <==> exists name | name in names :: NeededEdge(w, x, dirs, name) == None
  {
    hide NeededEdge;
    if names != [] {
      var n := |names| - 1;
      SomeNameFails(w, x, dirs, names[..n]);
      assert names == names[..n] + [names[n]];
    }
  }

  lemma LeadsNowhere(w: World, x: Path, dirs: seq<Path>, name: seq<Byte>)
    ensures NeededEdge(w, x, dirs, name) == None <==> forall to :: !LeadsTo(w, dirs, name, to)
  {
    hide NeededEdge, LeadsTo;
    forall to ensures NeededEdge(w, x, dirs, name) == Some(Edge(x, Needed, name, to)) <==> LeadsTo(w, dirs, name, to) {
      NeededExact(w, x, dirs, name, Edge(x, Needed, name, to));
    }
    if NeededEdge(w, x, dirs, name).Some? {
      var e := NeededEdge(w, x, dirs, name).value;
      NeededExact(w, x, dirs, name, e);
    }
  }

  lemma FirstIsAsymmetric(w: World, origin: Path, values: seq<seq<Byte>>, a: Path, b: Path)
    ensures !(NamedFirst(w, origin, values, a, b) && NamedFirst(w, origin, values, b, a))
  {
    hide StandsFor;
  }

  // Two lists that meet the description of a search list are the same.
  lemma SearchListUnique(w: World, origin: Path, values: seq<seq<Byte>>, a: seq<Path>, b: seq<Path>)
    requires SearchList(w, origin, values, a) && SearchList(w, origin, values, b)
    ensures a == b
  {
    hide NamedFirst, NamedBy, Acceptable;
    var leq := (x: Path, y: Path) => x == y || NamedFirst(w, origin, values, x, y);
    assert Distinct(a) && Distinct(b);
    SameMembersPermute(a, b);
    forall i, j | 0 <= i < |a| && 0 <= j < |a| && leq(a[i], a[j]) && leq(a[j], a[i]) ensures a[i] == a[j] {
      FirstIsAsymmetric(w, origin, values, a[i], a[j]);
    }
    SortedUnique(a, b, leq);
  }

  lemma LoaderOrderUnique(w: World, additional: seq<Path>, x: Path, facts: Facts, a: seq<Path>, b: seq<Path>)
    requires LoaderOrder(w, additional, x, facts, a) && LoaderOrder(w, additional, x, facts, b)
    ensures a == b
  {
    hide SearchList;
    var a1, a2 :| SearchList(w, w.parent(x), facts.rpath, a1) && SearchList(w, w.parent(x), facts.runpath, a2)
               && a == a1 + a2 + additional + w.defaults;
    var b1, b2 :| SearchList(w, w.parent(x), facts.rpath, b1) && SearchList(w, w.parent(x), facts.runpath, b2)
               && b == b1 + b2 + additional + w.defaults;
    SearchListUnique(w, w.parent(x), facts.rpath, a1, b1);
    SearchListUnique(w, w.parent(x), facts.runpath, a2, b2);
  }

  // An object is refused exactly for its interpreter, one of its components, or a name that leads nowhere.
  lemma RefusedExact(w: World, additional: seq<Path>, x: Path)
    ensures EdgesOf(w, additional, x) == None
       <==> !w.reading(x).Elf? || Refusable(w, additional, x, w.reading(x).facts)
  {
    if w.reading(x).Elf? {
      var facts := w.reading(x).facts;
      AllAccepted(w, w.parent(x), facts.rpath);
      AllAccepted(w, w.parent(x), facts.runpath);
      InterpreterRefused(w, x, facts);
      if LoaderPaths(w, x, facts, additional).Some? {
        NamesRefused(w, additional, x, facts);
      }
      hide DirectoriesOf, Acceptable, LoaderOrder, LeadsTo, NeededEdges, InterpreterAt, InterpreterEdges;
    }
  }

  lemma InterpreterRefused(w: World, x: Path, facts: Facts)
    ensures InterpreterEdges(w, x, facts) == None <==> facts.interpreter.Some? && forall to :: !InterpreterAt(w, facts, to)
  {
    if InterpreterEdges(w, x, facts).Some? && facts.interpreter.Some? {
      assert InterpreterAt(w, facts, InterpreterEdges(w, x, facts).value[0].to);
    }
  }

  lemma NamesRefused(w: World, additional: seq<Path>, x: Path, facts: Facts)
    requires LoaderPaths(w, x, facts, additional).Some?
    ensures NeededEdges(w, x, LoaderPaths(w, x, facts, additional).value, facts.needed) == None
       <==> exists dirs, name :: LoaderOrder(w, additional, x, facts, dirs) && name in facts.needed
                              && forall to :: !LeadsTo(w, dirs, name, to)
  {
    hide LoaderPaths, LoaderOrder, LeadsTo, NeededEdges, NeededEdge;
    var dirs := LoaderPaths(w, x, facts, additional).value;
    OrderOfLoader(w, additional, x, facts);
    SomeNameFails(w, x, dirs, facts.needed);
    forall name ensures NeededEdge(w, x, dirs, name) == None <==> forall to :: !LeadsTo(w, dirs, name, to) {
      LeadsNowhere(w, x, dirs, name);
    }
    forall other | LoaderOrder(w, additional, x, facts, other) ensures other == dirs {
      LoaderOrderUnique(w, additional, x, facts, other, dirs);
    }
  }
}
