// The prepared rows and their replay, spelled out.
module PreparedExact {
  import opened Collections
  import opened Ordering
  import opened TextOrder
  import opened Json
  import opened JsonGrammar
  import opened HashSplit
  import opened DatasetSplit
  import PreparedFiles

  // ---------------------------------------------------------------- the split

  // The record of a task: its ref, its prompt, and its gold text, which the code may precede.
  ghost predicate RecordIs(r: Record, task: Task, form: Form)
  {
    && r.ref == task.ref && r.prompt == task.prompt
    && match form
       case CodeAndGold => r.completion == task.code + task.gold
       case VerbatimGold => r.completion == task.gold
  }

  // How many tasks rank before this one by (hash, ref).
  ghost function TasksBefore(tasks: seq<Task>, hash: Hash, task: Task): nat
  {
    |set i | 0 <= i < |tasks| && Ahead((hash(tasks[i].ref), tasks[i].ref), (hash(task.ref), task.ref))|
  }

  ghost predicate OneOf(r: Record, tasks: seq<Task>, h: nat, held: bool, form: Form, hash: Hash)
  {
    exists task :: task in tasks && RecordIs(r, task, form) && (TasksBefore(tasks, hash, task) < h <==> held)
  }

  // The records of the tasks on one side, in increasing order of their refs.
  ghost predicate RowsAre(rows: seq<Record>, tasks: seq<Task>, h: nat, held: bool, form: Form, hash: Hash)
  {
    && (forall i, j | 0 <= i < j < |rows| :: Below(rows[i].ref, rows[j].ref))
    && forall r :: r in rows <==> OneOf(r, tasks, h, held, form, hash)
  }

  lemma OneMoreTask(less: seq<Task>, last: Task, hash: Hash, task: Task)
    ensures TasksBefore(less + [last], hash, task)
         == TasksBefore(less, hash, task) + if Ahead((hash(last.ref), last.ref), (hash(task.ref), task.ref)) then 1 else 0
  {
    hide Ahead;
    var tasks := less + [last];
    var all := set i | 0 <= i < |tasks| && Ahead((hash(tasks[i].ref), tasks[i].ref), (hash(task.ref), task.ref));
    var some := set i | 0 <= i < |less| && Ahead((hash(less[i].ref), less[i].ref), (hash(task.ref), task.ref));
    if Ahead((hash(last.ref), last.ref), (hash(task.ref), task.ref)) {
      assert all == some + {|less|};
    } else {
      assert all == some;
    }
  }

  lemma {:induction false} CountIsBefore(tasks: seq<Task>, hash: Hash, task: Task)
    ensures CountIf(tasks, Earlier(TaskRef(), hash, task.ref)) == TasksBefore(tasks, hash, task)
  {
    hide Ahead, PairLeq, TasksBefore;
    var earlier := Earlier(TaskRef(), hash, task.ref);
    if tasks == [] {
      NoTaskBefore(hash, task);
    } else {
      var n := |tasks| - 1;
      var less, last := tasks[..n], tasks[n];
      CountIsBefore(less, hash, task);
      PairExact((hash(last.ref), last.ref), (hash(task.ref), task.ref));
      assert tasks == less + [last];
      OneMoreTask(less, last, hash, task);
      CountAppend(less, [last], earlier);
      assert CountIf([last], earlier) == if earlier(last) then 1 else 0;
    }
  }

  lemma NoTaskBefore(hash: Hash, task: Task)
    ensures TasksBefore([], hash, task) == 0
  {
    hide Ahead;
  }

  lemma RecordExact(r: Record, task: Task, form: Form)
    ensures r == RecordOf(task, form) <==> RecordIs(r, task, form)
  {
  }

  lemma SideIs(r: Record, tasks: seq<Task>, h: nat, held: bool, form: Form, hash: Hash)
    ensures OnSide(r, tasks, h, held, form, hash) <==> OneOf(r, tasks, h, held, form, hash)
  {
    hide RecordOf, RecordIs, CountIf, TasksBefore, Earlier;
    forall task
      ensures r == RecordOf(task, form) <==> RecordIs(r, task, form)
      ensures CountIf(tasks, Earlier(TaskRef(), hash, task.ref)) == TasksBefore(tasks, hash, task)
    {
      RecordExact(r, task, form);
      CountIsBefore(tasks, hash, task);
    }
  }

  lemma OrderIs(rows: seq<Record>)
    ensures RefSorted(rows) <==> forall i, j | 0 <= i < j < |rows| :: Below(rows[i].ref, rows[j].ref)
  {
    hide LexLeq, Below;
    forall i, j | 0 <= i < j < |rows|
      ensures LexLeq(rows[i].ref, rows[j].ref) && rows[i].ref != rows[j].ref <==> Below(rows[i].ref, rows[j].ref)
    {
      LexExact(rows[i].ref, rows[j].ref);
    }
  }

  // The split is the one pair of such lists.
  lemma SplitRows(tasks: seq<Task>, h: nat, form: Form, hash: Hash, s: Split)
    requires KeysDistinct(tasks, TaskRef())
    ensures s == SplitOf(tasks, h, form, hash)
       <==> RowsAre(s.train, tasks, h, false, form, hash) && RowsAre(s.holdout, tasks, h, true, form, hash)
  {
    hide SplitOf, OnSide, OneOf, RefSorted;
    SplitExact(tasks, h, form, hash);
    var split := SplitOf(tasks, h, form, hash);
    forall r, held ensures OnSide(r, tasks, h, held, form, hash) <==> OneOf(r, tasks, h, held, form, hash) {
      SideIs(r, tasks, h, held, form, hash);
    }
    OrderIs(s.train);
    OrderIs(s.holdout);
    if RowsAre(s.train, tasks, h, false, form, hash) && RowsAre(s.holdout, tasks, h, true, form, hash) {
      SameRecords(s.train, split.train);
      SameRecords(s.holdout, split.holdout);
    }
  }

  // ---------------------------------------------------------------- lines

  // The line boundaries of str.splitlines.
  ghost predicate Boundary(c: int)
  {
    c in [10, 11, 12, 13, 28, 29, 30, 133, 8232, 8233]
  }

  ghost predicate Unbroken(t: Text) { forall i | 0 <= i < |t| :: !Boundary(t[i]) }

  // What ends a line: one boundary, or a carriage return with the line feed after it.
  ghost predicate Ending(end: Text, rest: Text)
  {
    end == [13, 10] || (|end| == 1 && Boundary(end[0]) && !(end[0] == 13 && rest != [] && rest[0] == 10))
  }

  // The text is these lines, each with its ending; a last line that is not empty may lack it.
  ghost predicate LinesAre(s: Text, lines: seq<Text>)
    decreases |lines|
  {
    if lines == [] then s == []
    else
      && Unbroken(lines[0])
      && ((s == lines[0] && s != [] && |lines| == 1)
          || exists end, rest :: s == lines[0] + end + rest && Ending(end, rest) && LinesAre(rest, lines[1..]))
  }

  lemma BoundaryExact(c: int)
    ensures PreparedFiles.Breaks(c) <==> Boundary(c)
  {
  }

  lemma {:induction false} LinesFound(s: Text, line: Text)
    requires Unbroken(line)
    ensures LinesAre(line + s, PreparedFiles.SplitLines(s, line))
    decreases |s|
  {
    hide Boundary, PreparedFiles.Breaks;
    if s == [] {
      assert line + s == line;
    } else {
      BoundaryExact(s[0]);
      if PreparedFiles.Breaks(s[0]) {
        var n := if s[0] == 13 && |s| > 1 && s[1] == 10 then 2 else 1;
        LinesFound(s[n..], []);
        assert [] + s[n..] == s[n..];
        LineEnds(line, s, n);
        var lines := PreparedFiles.SplitLines(s, line);
        assert lines[0] == line && lines[1..] == PreparedFiles.SplitLines(s[n..], []);
      } else {
        LinesFound(s[1..], line + [s[0]]);
        assert line + [s[0]] + s[1..] == line + s;
      }
    }
  }

  lemma LineEnds(line: Text, s: Text, n: nat)
    requires s != [] && Boundary(s[0]) && n == if s[0] == 13 && |s| > 1 && s[1] == 10 then 2 else 1
    ensures line + s == line + s[..n] + s[n..] && Ending(s[..n], s[n..])
  {
    hide Boundary;
    assert s == s[..n] + s[n..];
    if n == 2 { assert s[..n] == [13, 10]; }
  }

  lemma {:induction false} PlainSplit(a: Text, s: Text, line: Text)
    requires Unbroken(a)
    ensures PreparedFiles.SplitLines(a + s, line) == PreparedFiles.SplitLines(s, line + a)
    decreases |a|
  {
    hide Boundary, PreparedFiles.Breaks;
    if a == [] {
      assert a + s == s && line + a == line;
    } else {
      BoundaryExact(a[0]);
      PlainSplit(a[1..], s, line + [a[0]]);
      assert (a + s)[1..] == a[1..] + s && line + [a[0]] + a[1..] == line + a;
    }
  }

  lemma {:induction false} LinesUnique(s: Text, lines: seq<Text>)
    requires LinesAre(s, lines)
    ensures PreparedFiles.SplitLines(s, []) == lines
    decreases |lines|
  {
    hide Boundary, Ending, PreparedFiles.Breaks;
    if lines != [] {
      var line := lines[0];
      assert [] + line == line;
      if s == line && s != [] && |lines| == 1 {
        assert line + [] == line;
        PlainSplit(line, [], []);
        assert lines == [line];
      } else {
        var end, rest :| s == line + end + rest && Ending(end, rest) && LinesAre(rest, lines[1..]);
        assert s == line + (end + rest);
        PlainSplit(line, end + rest, []);
        EndSplits(line, end, rest);
        LinesUnique(rest, lines[1..]);
        assert lines == [line] + lines[1..];
      }
    }
  }

  lemma EndSplits(line: Text, end: Text, rest: Text)
    requires Ending(end, rest)
    ensures PreparedFiles.SplitLines(end + rest, line) == [line] + PreparedFiles.SplitLines(rest, [])
  {
    hide Boundary, PreparedFiles.Breaks;
    BoundaryExact(end[0]);
    BoundaryExact(13);
    assert (end + rest)[|end|..] == rest;
    if end == [13, 10] { CarriageReturn(); }
  }

  lemma CarriageReturn()
    ensures Boundary(13)
  {
  }

  // str.splitlines gives exactly the lines of the text.
  lemma LinesExact(s: Text, lines: seq<Text>)
    ensures PreparedFiles.SplitLines(s, []) == lines <==> LinesAre(s, lines)
  {
    LinesFound(s, []);
    assert [] + s == s;
    if LinesAre(s, lines) { LinesUnique(s, lines); }
  }

  // ---------------------------------------------------------------- rows

  ghost predicate AllSpaces(t: Text, rules: PreparedFiles.Rules) { forall i | 0 <= i < |t| :: rules.space(t[i]) }

  // The line is a JSON object of the four fields, in any order: three texts that are not blank, a ref of the
  // right form, and the budget.
  ghost predicate RowText(line: Text, r: Record, rules: PreparedFiles.Rules)
  {
    && !AllSpaces(r.completion, rules) && !AllSpaces(r.prompt, rules) && !AllSpaces(r.ref, rules) && rules.refOk(r.ref)
    && exists members, token ::
         && JsonText(line, Obj(members)) && |members| == 4 && rules.budget(token)
         && (Codes("completion"), Str(r.completion)) in members && (Codes("prompt"), Str(r.prompt)) in members
         && (Codes("ref"), Str(r.ref)) in members && (Codes("max_output_tokens"), Number(token)) in members
  }

  lemma {:induction false} LookupExact(members: seq<(Text, Value)>, key: Text, v: Value)
    requires UniqueKeys(members)
    ensures PreparedFiles.Lookup(members, key) == Some(v) <==> (key, v) in members
  {
    if members != [] {
      LookupExact(members[1..], key, v);
      assert members == [members[0]] + members[1..];
      forall i | 0 <= i < |members[1..]| ensures members[1..][i].0 != members[0].0 { assert members[1..][i] == members[i + 1]; }
    }
  }

  lemma ParsedUnique(line: Text)
    requires Parse(line).Some? && Parse(line).value.Obj?
    ensures UniqueKeys(Parse(line).value.members)
  {
    hide Parse, WellKeyedMembers;
    ParseIsStrict(line);
  }

  lemma RowExact(members: seq<(Text, Value)>, r: Record, rules: PreparedFiles.Rules)
    requires UniqueKeys(members)
    ensures PreparedFiles.RowOf(members, rules) == Some(r)
       <==> && !AllSpaces(r.completion, rules) && !AllSpaces(r.prompt, rules) && !AllSpaces(r.ref, rules) && rules.refOk(r.ref)
            && exists token ::
                 && |members| == 4 && rules.budget(token)
                 && (Codes("completion"), Str(r.completion)) in members && (Codes("prompt"), Str(r.prompt)) in members
                 && (Codes("ref"), Str(r.ref)) in members && (Codes("max_output_tokens"), Number(token)) in members
  {
    hide Codes, PreparedFiles.Lookup, UniqueKeys;
    forall key, v ensures PreparedFiles.Lookup(members, key) == Some(v) <==> (key, v) in members {
      LookupExact(members, key, v);
    }
  }

  lemma ReadExact(line: Text, r: Record, rules: PreparedFiles.Rules)
    ensures PreparedFiles.ReadLine(line, rules) == Some(r) <==> RowText(line, r, rules)
  {
    hide Codes, Parse, JsonText, PreparedFiles.RowOf, AllSpaces, UniqueKeys;
    forall v ensures Parse(line) == Some(v) <==> JsonText(line, v) { ParseExact(line, v); }
    if Parse(line).Some? && Parse(line).value.Obj? {
      ParsedUnique(line);
      RowExact(Parse(line).value.members, r, rules);
    }
  }

  // Blank lines are passed over; every other line is a row.
  ghost predicate LoadedAre(lines: seq<Text>, rows: seq<Record>, rules: PreparedFiles.Rules)
    decreases |lines|
  {
    if lines == [] then rows == []
    else if AllSpaces(lines[0], rules) then LoadedAre(lines[1..], rows, rules)
    else rows != [] && RowText(lines[0], rows[0], rules) && LoadedAre(lines[1..], rows[1..], rules)
  }

  ghost predicate FileHolds(file: Text, rows: seq<Record>, rules: PreparedFiles.Rules)
  {
    exists lines :: LinesAre(file, lines) && LoadedAre(lines, rows, rules)
  }

  lemma {:induction false} LoadExact(lines: seq<Text>, done: seq<Record>, rows: seq<Record>, rules: PreparedFiles.Rules)
    ensures PreparedFiles.LoadLines(lines, done, rules) == Some(done + rows) <==> LoadedAre(lines, rows, rules)
    ensures PreparedFiles.LoadLines(lines, done, rules).Some? ==> done <= PreparedFiles.LoadLines(lines, done, rules).value
    decreases |lines|
  {
    hide RowText, PreparedFiles.ReadLine;
    if lines == [] {
      assert done + rows == done <==> rows == [];
    } else if AllSpaces(lines[0], rules) {
      LoadExact(lines[1..], done, rows, rules);
    } else {
      forall r ensures PreparedFiles.ReadLine(lines[0], rules) == Some(r) <==> RowText(lines[0], r, rules) {
        ReadExact(lines[0], r, rules);
      }
      var row := PreparedFiles.ReadLine(lines[0], rules);
      if row.Some? {
        if rows == [] {
          LoadExact(lines[1..], done + [row.value], [], rules);
        } else {
          LoadExact(lines[1..], done + [row.value], rows[1..], rules);
          NextRow(done, row.value, rows, lines[1..], rules);
        }
      }
    }
  }

  lemma NextRow(done: seq<Record>, row: Record, rows: seq<Record>, lines: seq<Text>, rules: PreparedFiles.Rules)
    requires rows != []
    requires var all := PreparedFiles.LoadLines(lines, done + [row], rules); all.Some? ==> done + [row] <= all.value
    ensures PreparedFiles.LoadLines(lines, done + [row], rules) == Some(done + rows)
       <==> row == rows[0] && PreparedFiles.LoadLines(lines, done + [row], rules) == Some(done + [row] + rows[1..])
  {
    hide PreparedFiles.LoadLines;
    assert rows == [rows[0]] + rows[1..];
    assert done + [rows[0]] + rows[1..] == done + rows;
    assert (done + rows)[|done|] == rows[0];
    assert (done + [row])[|done|] == row;
  }

  // A file loads as these rows exactly when it holds them.
  lemma FileExact(file: Text, rows: seq<Record>, rules: PreparedFiles.Rules)
    ensures PreparedFiles.LoadLines(PreparedFiles.SplitLines(file, []), [], rules) == Some(rows) <==> FileHolds(file, rows, rules)
  {
    hide LinesAre, LoadedAre, PreparedFiles.LoadLines, PreparedFiles.SplitLines;
    forall lines ensures PreparedFiles.SplitLines(file, []) == lines <==> LinesAre(file, lines) { LinesExact(file, lines); }
    LoadExact(PreparedFiles.SplitLines(file, []), [], rows, rules);
    assert [] + rows == rows;
  }

  // ---------------------------------------------------------------- the replay

  ghost function RefsOfRows(rows: seq<Record>): seq<Text>
  {
    seq(|rows|, i requires 0 <= i < |rows| => rows[i].ref)
  }

  // The counts and digests of the manifest fit the two files and their rows.
  ghost predicate ManifestFits(d: PreparedFiles.Dataset, train: seq<Record>, holdout: seq<Record>, total: nat,
                               digests: PreparedFiles.Digests)
  {
    var m := d.manifest;
    && m.seed >= 0 && m.trainExamples == |train| >= 1 && m.holdoutExamples == |holdout| && |train| + |holdout| == total
    && (m.development <==> |holdout| != 0)
    && m.trainFile == digests.file(d.train) && m.holdoutFile == digests.file(d.holdout)
    && m.trainRefs == digests.refs(RefsOfRows(train)) && m.holdoutRefs == digests.refs(RefsOfRows(holdout))
  }

  // The files hold the two sides of the split of the tasks, and the manifest fits them.
  ghost predicate ReplayIs(d: PreparedFiles.Dataset, train: seq<Record>, holdout: seq<Record>, tasks: seq<Task>, total: nat,
                           hash: int -> Hash, rules: PreparedFiles.Rules, digests: PreparedFiles.Digests)
  {
    && FileHolds(d.train, train, rules) && FileHolds(d.holdout, holdout, rules)
    && ManifestFits(d, train, holdout, total, digests)
    && RowsAre(train, tasks, |holdout|, false, VerbatimGold, hash(d.manifest.seed))
    && RowsAre(holdout, tasks, |holdout|, true, VerbatimGold, hash(d.manifest.seed))
  }

  // The two sides of a split have no ref twice and none in common.
  lemma SidesDistinct(tasks: seq<Task>, h: nat, hash: Hash)
    requires KeysDistinct(tasks, TaskRef())
    ensures var s := SplitOf(tasks, h, VerbatimGold, hash);
            && PreparedFiles.RefsUnique(s.train) && PreparedFiles.RefsUnique(s.holdout)
            && RefsOf(s.train) * RefsOf(s.holdout) == {}
            && |RefsOf(s.train) + RefsOf(s.holdout)| == |s.train| + |s.holdout|
  {
    hide SplitOf, OnSide, LexLeq;
    SplitExact(tasks, h, VerbatimGold, hash);
    var s := SplitOf(tasks, h, VerbatimGold, hash);
    RefCount(s.train);
    RefCount(s.holdout);
    PreparedFiles.SidesApart(tasks, h, hash);
    assert |RefsOf(s.train) + RefsOf(s.holdout)| == |RefsOf(s.train)| + |RefsOf(s.holdout)|;
  }

  lemma ReplayFound(d: PreparedFiles.Dataset, tasks: seq<Task>, total: nat, hash: int -> Hash, rules: PreparedFiles.Rules,
                    digests: PreparedFiles.Digests) returns (train: seq<Record>, holdout: seq<Record>)
    requires KeysDistinct(tasks, TaskRef()) && PreparedFiles.Replays(d, tasks, total, hash, rules, digests)
    ensures ReplayIs(d, train, holdout, tasks, total, hash, rules, digests)
  {
    hide SplitOf, RowsAre, FileHolds, PreparedFiles.LoadLines, PreparedFiles.SplitLines, PreparedFiles.RefsUnique, RefsOf,
         KeysDistinct;
    var rows := PreparedFiles.LoadDataset(d, total, rules, digests).value;
    FileExact(d.train, rows.train, rules);
    FileExact(d.holdout, rows.holdout, rules);
    SplitRows(tasks, d.manifest.holdoutExamples, VerbatimGold, hash(d.manifest.seed), rows);
    SameRefLists(rows.train);
    SameRefLists(rows.holdout);
    train, holdout := rows.train, rows.holdout;
  }

  lemma SameRefLists(rows: seq<Record>)
    ensures PreparedFiles.RefList(rows) == RefsOfRows(rows)
  {
  }

  lemma ReplayMade(d: PreparedFiles.Dataset, train: seq<Record>, holdout: seq<Record>, tasks: seq<Task>, total: nat,
                   hash: int -> Hash, rules: PreparedFiles.Rules, digests: PreparedFiles.Digests)
    requires KeysDistinct(tasks, TaskRef()) && ReplayIs(d, train, holdout, tasks, total, hash, rules, digests)
    ensures PreparedFiles.Replays(d, tasks, total, hash, rules, digests)
  {
    hide SplitOf, RowsAre, FileHolds, PreparedFiles.LoadLines, PreparedFiles.SplitLines, PreparedFiles.RefsUnique, RefsOf,
         KeysDistinct;
    FileExact(d.train, train, rules);
    FileExact(d.holdout, holdout, rules);
    SplitRows(tasks, |holdout|, VerbatimGold, hash(d.manifest.seed), Split(train, holdout));
    SidesDistinct(tasks, |holdout|, hash(d.manifest.seed));
    SameRefLists(train);
    SameRefLists(holdout);
  }

  // The replay accepts exactly these datasets.
  lemma ReplayExact(d: PreparedFiles.Dataset, tasks: seq<Task>, total: nat, hash: int -> Hash, rules: PreparedFiles.Rules,
                    digests: PreparedFiles.Digests)
    requires KeysDistinct(tasks, TaskRef())
    ensures PreparedFiles.Replays(d, tasks, total, hash, rules, digests)
       <==> exists train, holdout :: ReplayIs(d, train, holdout, tasks, total, hash, rules, digests)
  {
    hide PreparedFiles.Replays, ReplayIs, KeysDistinct, PreparedFiles.LoadDataset;
    if PreparedFiles.Replays(d, tasks, total, hash, rules, digests) {
      var train, holdout := ReplayFound(d, tasks, total, hash, rules, digests);
    }
    if train, holdout :| ReplayIs(d, train, holdout, tasks, total, hash, rules, digests) {
      ReplayMade(d, train, holdout, tasks, total, hash, rules, digests);
    }
  }

  // ---------------------------------------------------------------- what is written

  ghost predicate Plain(t: Text) { forall i | 0 <= i < |t| :: t[i] >= 32 && t[i] != 34 && t[i] != 92 }

  lemma {:induction false} PlainQuoted(t: Text)
    requires Plain(t)
    ensures Escape(t) == t && Quote(t) == [34] + t + [34]
  {
    if t != [] {
      PlainQuoted(t[1..]);
      assert EscapeChar(t[0]) == [t[0]];
      assert t == [t[0]] + t[1..];
    }
  }

  // A key in quotes, a colon, a blank and the value.
  ghost function Member(key: string, value: Text): Text
  {
    [34] + Codes(key) + [34] + Codes(": ") + value
  }

  lemma MemberText(key: string, v: Value)
    requires Plain(Codes(key))
    ensures PrintMember((Codes(key), v), PreparedFiles.DUMPS) == Member(key, Print(v, PreparedFiles.DUMPS))
  {
    hide Print, Quote, Codes;
    PlainQuoted(Codes(key));
    assert Codes(": ") == [58] + [32] by { ColonText(); }
  }

  lemma ColonText()
    ensures Codes(": ") == [58] + [32] && Codes("{") == [123] && Codes("}") == [125] && Codes(", ") == [44] + [32]
    ensures Plain(Codes("completion")) && Plain(Codes("max_output_tokens")) && Plain(Codes("prompt")) && Plain(Codes("ref"))
  {
  }

  // A written row: the four members in the order of their keys, a blank after each comma.
  lemma LineText(r: Record)
    ensures PreparedFiles.Line(r)
         == Codes("{") + (Member("completion", Quote(r.completion)) + (Codes(", ")
            + (Member("max_output_tokens", Codes("1024")) + (Codes(", ")
            + (Member("prompt", Quote(r.prompt)) + (Codes(", ") + (Member("ref", Quote(r.ref)) + Codes("}"))))))))
  {
    hide Quote, Codes, Member, PrintMember;
    ColonText();
    PreparedFiles.LineShape(r);
    MemberText("completion", Str(r.completion));
    MemberText("max_output_tokens", Number(Codes("1024")));
    MemberText("prompt", Str(r.prompt));
    MemberText("ref", Str(r.ref));
    var d := Member("ref", Quote(r.ref)) + [125];
    Commas(Member("prompt", Quote(r.prompt)), d);
    var c := Member("prompt", Quote(r.prompt)) + ([44] + ([32] + d));
    Commas(Member("max_output_tokens", Codes("1024")), c);
    var b := Member("max_output_tokens", Codes("1024")) + ([44] + ([32] + c));
    Commas(Member("completion", Quote(r.completion)), b);
  }

  lemma Commas(a: Text, b: Text)
    ensures a + ([44] + ([32] + b)) == a + (([44] + [32]) + b)
  {
  }

  // A written file: every row and a line feed.
  lemma {:induction false} FileText(a: seq<Record>, b: seq<Record>, r: Record)
    ensures PreparedFiles.WriteRows([]) == [] && PreparedFiles.WriteRows([r]) == PreparedFiles.Line(r) + [10]
    ensures PreparedFiles.WriteRows(a + b) == PreparedFiles.WriteRows(a) + PreparedFiles.WriteRows(b)
  {
    hide PreparedFiles.Line;
    assert [r][1..] == [];
    if a == [] {
      assert a + b == b;
    } else {
      FileText(a[1..], b, r);
      assert (a + b)[1..] == a[1..] + b;
    }
  }
}
