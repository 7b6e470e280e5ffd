// Writing the prepared rows of the historical corpus as JSON lines, loading them, replaying the split.
module PreparedFiles {
  import opened Collections
  import opened Ordering
  import opened Json
  import opened HashSplit
  import opened DatasetSplit

  // ---------------------------------------------------------------- str.splitlines

  predicate Breaks(c: int)
  {
    10 <= c <= 13 || 28 <= c <= 30 || c == 0x85 || c == 0x2028 || c == 0x2029
  }

  // `line` is what has been read of the current line.
  function SplitLines(s: Text, line: Text): seq<Text>
    decreases |s|
  {
    if s == [] then (if line == [] then [] else [line])
    else if Breaks(s[0]) then
      [line] + SplitLines(s[if s[0] == 13 && |s| > 1 && s[1] == 10 then 2 else 1..], [])
    else SplitLines(s[1..], line + [s[0]])
  }

  // ---------------------------------------------------------------- rows as JSON lines

  const COMPLETION: Text := Codes("completion")
  const BUDGET: Text := Codes("max_output_tokens")
  const PROMPT: Text := Codes("prompt")
  const REF: Text := Codes("ref")
  const TOKENS: Text := Codes("1024")
  const DUMPS: Layout := Layout([32], [32])

  function RowValue(r: Record): Value
  {
    Obj([(COMPLETION, Str(r.completion)), (BUDGET, Number(TOKENS)), (PROMPT, Str(r.prompt)), (REF, Str(r.ref))])
  }

  // json.dumps(row, ensure_ascii=False, sort_keys=True)
  function Line(r: Record): Text { Print(RowValue(r), DUMPS) }

  function WriteRows(records: seq<Record>): Text
  {
    if records == [] then [] else Line(records[0]) + [10] + WriteRows(records[1..])
  }

  // str.isspace, the ref pattern, and which JSON number tokens equal 1024.
  datatype Rules = Rules(space: int -> bool, refOk: Text -> bool, budget: Text -> bool)

  predicate Blank(t: Text, rules: Rules)
  {
    forall i | 0 <= i < |t| :: rules.space(t[i])
  }

  function Lookup(members: seq<(Text, Value)>, key: Text): Option<Value>
  {
    if members == [] then None else if members[0].0 == key then Some(members[0].1) else Lookup(members[1..], key)
  }

  predicate Filled(v: Option<Value>, rules: Rules)
  {
    v.Some? && v.value.Str? && !Blank(v.value.text, rules)
  }

  function RowOf(members: seq<(Text, Value)>, rules: Rules): Option<Record>
  {
    var completion, budget := Lookup(members, COMPLETION), Lookup(members, BUDGET);
    var prompt, ref := Lookup(members, PROMPT), Lookup(members, REF);
    if |members| != 4 || completion == None || budget == None || prompt == None || ref == None then None
    else if !Filled(ref, rules) || !rules.refOk(ref.value.text) then None
    else if !Filled(prompt, rules) || !Filled(completion, rules) then None
    else if !budget.value.Number? || !rules.budget(budget.value.token) then None
    else Some(Record(completion.value.text, prompt.value.text, ref.value.text))
  }

  function ReadLine(line: Text, rules: Rules): Option<Record>
  {
    var value := Parse(line);
    if value.Some? && value.value.Obj? then RowOf(value.value.members, rules) else None
  }

  function LoadLines(lines: seq<Text>, done: seq<Record>, rules: Rules): Option<seq<Record>>
    decreases |lines|
  {
    if lines == [] then Some(done)
    else if Blank(lines[0], rules) then LoadLines(lines[1..], done, rules)
    else
      var row := ReadLine(lines[0], rules);
      if row == None then None else LoadLines(lines[1..], done + [row.value], rules)
  }

  method LoadPreparedRows(file: Text, rules: Rules) returns (r: Option<seq<Record>>)
    ensures r == LoadLines(SplitLines(file, []), [], rules)
  {
    hide ReadLine, SplitLines;
    var lines := SplitLines(file, []);
    var rows: seq<Record> := [];
    for i := 0 to |lines|
      invariant LoadLines(lines, [], rules) == LoadLines(lines[i..], rows, rules)
    {
      assert lines[i..][1..] == lines[i + 1..];
      if Blank(lines[i], rules) { continue; }
      var row := ReadLine(lines[i], rules);
      if row == None { return None; }
      rows := rows + [row.value];
    }
    r := Some(rows);
  }

  // ---------------------------------------------------------------- prepare and replay

  // The digests the manifest binds: of an ordered ref list, and of a file.
  datatype Digests = Digests(refs: seq<Text> -> Text, file: Text -> Text)

  datatype Manifest = Manifest(seed: int, trainExamples: int, holdoutExamples: int, trainRefs: Text, holdoutRefs: Text,
                               trainFile: Text, holdoutFile: Text, development: bool)

  datatype Dataset = Dataset(manifest: Manifest, train: Text, holdout: Text)

  function RefList(records: seq<Record>): seq<Text>
  {
    seq(|records|, i requires 0 <= i < |records| => records[i].ref)
  }

  function DatasetOf(split: Split, seed: int, digests: Digests): Dataset
  {
    var train, holdout := WriteRows(split.train), WriteRows(split.holdout);
    Dataset(Manifest(seed, |split.train|, |split.holdout|, digests.refs(RefList(split.train)),
                     digests.refs(RefList(split.holdout)), digests.file(train), digests.file(holdout), split.holdout != []),
            train, holdout)
  }

  predicate RefsUnique(records: seq<Record>)
  {
    forall i, j | 0 <= i < j < |records| :: records[i].ref != records[j].ref
  }

  predicate ManifestOk(m: Manifest, total: nat)
  {
    && m.seed >= 0 && m.trainExamples >= 0 && m.holdoutExamples >= 0
    && m.trainExamples + m.holdoutExamples == total && m.trainExamples >= 1
    && m.development == (m.holdoutExamples != 0)
  }

  predicate RowsOk(rows: seq<Record>, examples: int, refs: Text, digests: Digests)
  {
    |rows| == examples && RefsUnique(rows) && digests.refs(RefList(rows)) == refs
  }

  function LoadDataset(d: Dataset, total: nat, rules: Rules, digests: Digests): Option<Split>
  {
    if !ManifestOk(d.manifest, total) then None
    else if digests.file(d.train) != d.manifest.trainFile || digests.file(d.holdout) != d.manifest.holdoutFile then None
    else
      var train := LoadLines(SplitLines(d.train, []), [], rules);
      var holdout := LoadLines(SplitLines(d.holdout, []), [], rules);
      if train == None || holdout == None then None
      else if !RowsOk(train.value, d.manifest.trainExamples, d.manifest.trainRefs, digests) then None
      else if !RowsOk(holdout.value, d.manifest.holdoutExamples, d.manifest.holdoutRefs, digests) then None
      else if RefsOf(train.value) * RefsOf(holdout.value) != {} then None
      else if |RefsOf(train.value) + RefsOf(holdout.value)| != total then None
      else Some(Split(train.value, holdout.value))
  }

  // replay_prepared_dataset: the loaded rows are exactly the split of the corpus.
  predicate Replays(d: Dataset, tasks: seq<Task>, total: nat, hash: int -> Hash, rules: Rules, digests: Digests)
  {
    var rows := LoadDataset(d, total, rules, digests);
    rows.Some? && d.manifest.holdoutExamples >= 0
    && rows.value == SplitOf(tasks, d.manifest.holdoutExamples, VerbatimGold, hash(d.manifest.seed))
  }

  method ReplayPreparedDataset(d: Dataset, tasks: seq<Task>, total: nat, hash: int -> Hash, rules: Rules, digests: Digests)
    returns (accepted: bool)
    ensures accepted == Replays(d, tasks, total, hash, rules, digests)
  {
    hide SplitOf, LoadLines, SplitLines, RowsOk, RefsOf;
    var m := d.manifest;
    if !ManifestOk(m, total) { return false; }
    if digests.file(d.train) != m.trainFile || digests.file(d.holdout) != m.holdoutFile { return false; }
    var train := LoadPreparedRows(d.train, rules);
    var holdout := LoadPreparedRows(d.holdout, rules);
    if train == None || holdout == None { return false; }
    if !RowsOk(train.value, m.trainExamples, m.trainRefs, digests) { return false; }
    if !RowsOk(holdout.value, m.holdoutExamples, m.holdoutRefs, digests) { return false; }
    if RefsOf(train.value) * RefsOf(holdout.value) != {} { return false; }
    if |RefsOf(train.value) + RefsOf(holdout.value)| != total { return false; }
    var expected := Divide(tasks, m.holdoutExamples, VerbatimGold, hash(m.seed));
    accepted := train.value == expected.train && holdout.value == expected.holdout;
  }

  // ---------------------------------------------------------------- which characters reach a line

  ghost predicate HasBreak(t: Text) { exists i :: 0 <= i < |t| && Breaks(t[i]) }

  // NEL, LINE SEPARATOR, PARAGRAPH SEPARATOR: the line breaks that JSON does not escape.
  predicate Soft(c: int) { c == 0x85 || c == 0x2028 || c == 0x2029 }

  ghost predicate HasSoft(t: Text) { exists i :: 0 <= i < |t| && Soft(t[i]) }

  ghost predicate Visible(t: Text) { forall i | 0 <= i < |t| :: t[i] >= 32 }

  lemma BreakAppend(a: Text, b: Text)
    ensures HasBreak(a + b) <==> HasBreak(a) || HasBreak(b)
  {
    if HasBreak(a) { var i :| 0 <= i < |a| && Breaks(a[i]); assert (a + b)[i] == a[i]; }
    if HasBreak(b) { var i :| 0 <= i < |b| && Breaks(b[i]); assert (a + b)[|a| + i] == b[i]; }
    if HasBreak(a + b) {
      var i :| 0 <= i < |a + b| && Breaks((a + b)[i]);
      if i < |a| { assert Breaks(a[i]); } else { assert Breaks(b[i - |a|]); }
    }
  }

  lemma EscapeOne(c: int)
    requires c >= 0
    ensures Visible(EscapeChar(c)) && (HasBreak(EscapeChar(c)) <==> Soft(c))
  {
    if Soft(c) { assert Breaks(EscapeChar(c)[0]); }
  }

  lemma {:induction false} EscapeBreaks(t: Text)
    requires CodePoints(t)
    ensures Visible(Escape(t)) && (HasBreak(Escape(t)) <==> HasSoft(t))
  {
    hide EscapeChar;
    if t != [] {
      EscapeOne(t[0]);
      EscapeBreaks(t[1..]);
      BreakAppend(EscapeChar(t[0]), Escape(t[1..]));
      if HasSoft(t) {
        var i :| 0 <= i < |t| && Soft(t[i]);
        if i > 0 { assert Soft(t[1..][i - 1]); }
      }
      if HasSoft(t[1..]) {
        var i :| 0 <= i < |t[1..]| && Soft(t[1..][i]);
        assert Soft(t[i + 1]);
      }
    }
  }

  lemma QuoteBreaks(t: Text)
    requires CodePoints(t)
    ensures Visible(Quote(t)) && (HasBreak(Quote(t)) <==> HasSoft(t))
  {
    hide Escape;
    EscapeBreaks(t);
    BreakAppend(Escape(t), [QUOTE]);
    BreakAppend([QUOTE], Escape(t) + [QUOTE]);
  }

  lemma LiteralSafe(literal: string)
    requires forall i | 0 <= i < |literal| :: 32 <= literal[i] as int < 128
    ensures CodePoints(Codes(literal)) && !HasSoft(Codes(literal)) && !HasBreak(Codes(literal)) && Visible(Codes(literal))
  {
  }

  ghost predicate Encodable(r: Record)
  {
    CodePoints(r.completion) && CodePoints(r.prompt) && CodePoints(r.ref)
  }

  ghost predicate Dirty(r: Record) { HasSoft(r.completion) || HasSoft(r.prompt) || HasSoft(r.ref) }

  // One member of a row, and what separates it from the next.
  lemma MemberBreaks(key: Text, v: Value)
    requires CodePoints(key) && !HasSoft(key) && ((v.Str? && CodePoints(v.text)) || v == Number(TOKENS))
    ensures Visible(PrintMember((key, v), DUMPS))
    ensures HasBreak(PrintMember((key, v), DUMPS)) <==> v.Str? && HasSoft(v.text)
  {
    hide Quote, Codes;
    QuoteBreaks(key);
    var value := Print(v, DUMPS);
    if v.Str? { QuoteBreaks(v.text); } else { LiteralSafe("1024"); }
    assert PrintMember((key, v), DUMPS) == Quote(key) + ([58] + ([32] + value));
    BreakAppend([32], value);
    BreakAppend([58], [32] + value);
    BreakAppend(Quote(key), [58] + ([32] + value));
  }

  lemma KeysSafe()
    ensures CodePoints(COMPLETION) && CodePoints(BUDGET) && CodePoints(PROMPT) && CodePoints(REF)
    ensures !HasSoft(COMPLETION) && !HasSoft(BUDGET) && !HasSoft(PROMPT) && !HasSoft(REF)
    ensures COMPLETION != BUDGET && COMPLETION != PROMPT && COMPLETION != REF
    ensures BUDGET != PROMPT && BUDGET != REF && PROMPT != REF
  {
    LiteralSafe("completion");
    LiteralSafe("max_output_tokens");
    LiteralSafe("prompt");
    LiteralSafe("ref");
    assert |COMPLETION| == 10 && |BUDGET| == 17 && |PROMPT| == 6 && |REF| == 3;
  }

  // The printed row, piece by piece.
  lemma LineShape(r: Record)
    ensures Line(r) == [123] + (PrintMember((COMPLETION, Str(r.completion)), DUMPS) + ([44] + ([32]
      + (PrintMember((BUDGET, Number(TOKENS)), DUMPS) + ([44] + ([32]
      + (PrintMember((PROMPT, Str(r.prompt)), DUMPS) + ([44] + ([32]
      + (PrintMember((REF, Str(r.ref)), DUMPS) + [125]))))))))))
  {
    hide PrintMember, Codes;
    var a, b, c, d := (COMPLETION, Str(r.completion)), (BUDGET, Number(TOKENS)), (PROMPT, Str(r.prompt)), (REF, Str(r.ref));
    assert [a, b, c, d][1..] == [b, c, d] && [b, c, d][1..] == [c, d] && [c, d][1..] == [d];
    assert PrintMembers([d], DUMPS) == PrintMember(d, DUMPS) + [125];
    assert PrintMembers([c, d], DUMPS) == PrintMember(c, DUMPS) + ([44] + ([32] + PrintMembers([d], DUMPS)));
    assert PrintMembers([b, c, d], DUMPS) == PrintMember(b, DUMPS) + ([44] + ([32] + PrintMembers([c, d], DUMPS)));
    assert PrintMembers([a, b, c, d], DUMPS) == PrintMember(a, DUMPS) + ([44] + ([32] + PrintMembers([b, c, d], DUMPS)));
  }

  lemma Joined(member: Text, rest: Text)
    requires Visible(member) && Visible(rest)
    ensures Visible(member + ([44] + ([32] + rest)))
    ensures HasBreak(member + ([44] + ([32] + rest))) <==> HasBreak(member) || HasBreak(rest)
  {
    BreakAppend([32], rest);
    BreakAppend([44], [32] + rest);
    BreakAppend(member, [44] + ([32] + rest));
  }

  // A row's line holds a line break exactly when one of its texts holds an unescaped one.
  lemma LineBreaks(r: Record)
    requires Encodable(r)
    ensures Visible(Line(r)) && (HasBreak(Line(r)) <==> Dirty(r))
    ensures |Line(r)| >= 2 && Line(r)[0] == 123 && Line(r)[|Line(r)| - 1] == 125
  {
    hide PrintMember, HasSoft, HasBreak, CodePoints, Codes, Line;
    LineShape(r);
    KeysSafe();
    MemberBreaks(COMPLETION, Str(r.completion));
    MemberBreaks(BUDGET, Number(TOKENS));
    MemberBreaks(PROMPT, Str(r.prompt));
    MemberBreaks(REF, Str(r.ref));
    var a := PrintMember((COMPLETION, Str(r.completion)), DUMPS);
    var b := PrintMember((BUDGET, Number(TOKENS)), DUMPS);
    var c := PrintMember((PROMPT, Str(r.prompt)), DUMPS);
    var d := PrintMember((REF, Str(r.ref)), DUMPS);
    Punctuation();
    BreakAppend(d, [125]);
    Joined(c, d + [125]);
    Joined(b, c + ([44] + ([32] + (d + [125]))));
    Joined(a, b + ([44] + ([32] + (c + ([44] + ([32] + (d + [125])))))));
    BreakAppend([123], a + ([44] + ([32] + (b + ([44] + ([32] + (c + ([44] + ([32] + (d + [125]))))))))));
  }

  lemma Punctuation()
    ensures !HasBreak([125]) && !HasBreak([123])
  {
  }

  // ---------------------------------------------------------------- one line back to one row

  // What the loader demands of a row.
  ghost predicate Acceptable(r: Record, rules: Rules)
  {
    && Encodable(r) && rules.budget(TOKENS) && rules.refOk(r.ref)
    && !Blank(r.ref, rules) && !Blank(r.prompt, rules) && !Blank(r.completion, rules)
  }

  lemma TokenNatural()
    ensures Natural(TOKENS)
  {
    assert TOKENS[0] == 49 && TOKENS[1] == 48 && TOKENS[2] == 50 && TOKENS[3] == 52;
  }

  lemma MemberPrintable(member: (Text, Value))
    requires CodePoints(member.0)
    requires (member.1.Str? && CodePoints(member.1.text)) || (member.1.Number? && Natural(member.1.token))
    ensures PrintableMember(member)
  {
  }

  lemma RowPrintable(r: Record)
    requires Encodable(r)
    ensures Printable(RowValue(r))
  {
    hide CodePoints, Codes;
    KeysSafe();
    TokenNatural();
    var m := RowValue(r).members;
    assert m[1..] == [m[1], m[2], m[3]] && m[1..][1..] == [m[2], m[3]];
    assert m[1..][1..][1..] == [m[3]] && m[1..][1..][1..][1..] == [];
    MemberPrintable(m[0]);
    MemberPrintable(m[1]);
    MemberPrintable(m[2]);
    MemberPrintable(m[3]);
    assert PrintableMembers(m[1..][1..][1..]);
    assert PrintableMembers(m[1..][1..]);
    assert PrintableMembers(m[1..]);
  }

  lemma LookupRow(r: Record)
    ensures var m := RowValue(r).members;
            && Lookup(m, COMPLETION) == Some(Str(r.completion)) && Lookup(m, BUDGET) == Some(Number(TOKENS))
            && Lookup(m, PROMPT) == Some(Str(r.prompt)) && Lookup(m, REF) == Some(Str(r.ref))
  {
    hide Codes;
    KeysSafe();
    var m := RowValue(r).members;
    assert m[1..] == [m[1], m[2], m[3]] && m[1..][1..] == [m[2], m[3]] && m[1..][1..][1..] == [m[3]];
    assert Lookup([m[3]], REF) == Some(Str(r.ref));
    assert Lookup([m[2], m[3]], REF) == Some(Str(r.ref)) && Lookup([m[2], m[3]], PROMPT) == Some(Str(r.prompt));
  }

  lemma RowRoundTrip(r: Record, rules: Rules)
    requires Acceptable(r, rules)
    ensures ReadLine(Line(r), rules) == Some(r)
  {
    hide Parse, Print, Printable, Codes, CodePoints, Blank, RowValue;
    RowPrintable(r);
    ParsePrint(RowValue(r), DUMPS);
    LookupRow(r);
    assert |RowValue(r).members| == 4 && RowValue(r).Obj? by { RowFour(r); }
  }

  lemma RowFour(r: Record)
    ensures RowValue(r).Obj? && |RowValue(r).members| == 4
  {
  }

  // ---------------------------------------------------------------- lines of a written file

  function NonBlank(rules: Rules): Text -> bool { (line: Text) => !Blank(line, rules) }

  lemma {:induction false} FileSplits(line: Text, rest: Text, current: Text)
    requires Visible(line)
    ensures SplitLines(line + [10] + rest, current) == SplitLines(line + [10], current) + SplitLines(rest, [])
    decreases |line|
  {
    var all, part := line + [10] + rest, line + [10];
    if line == [] {
      assert all[1..] == rest && part[1..] == [];
    } else {
      assert all[1..] == line[1..] + [10] + rest && part[1..] == line[1..] + [10];
      if Breaks(line[0]) {
        FileSplits(line[1..], rest, []);
        assert [current] + (SplitLines(part[1..], []) + SplitLines(rest, []))
            == ([current] + SplitLines(part[1..], [])) + SplitLines(rest, []);
      } else {
        FileSplits(line[1..], rest, current + [line[0]]);
      }
    }
  }

  lemma {:induction false} UnbrokenLine(line: Text, current: Text)
    requires Visible(line) && !HasBreak(line)
    ensures SplitLines(line + [10], current) == [current + line]
    decreases |line|
  {
    if line == [] {
      assert (line + [10])[1..] == [];
      assert current + line == current;
    } else {
      assert (line + [10])[1..] == line[1..] + [10];
      assert !Breaks(line[0]);
      assert forall i | 0 <= i < |line[1..]| :: line[1..][i] == line[i + 1];
      UnbrokenLine(line[1..], current + [line[0]]);
      assert current + [line[0]] + line[1..] == current + line;
    }
  }

  // The last line is not blank when its last character is not.
  lemma {:induction false} LastLine(line: Text, current: Text, rules: Rules)
    requires Visible(line) && |current + line| > 0 && !rules.space((current + line)[|current + line| - 1])
    requires line == [] || !Breaks(line[|line| - 1])
    ensures CountIf(SplitLines(line + [10], current), NonBlank(rules)) >= 1
    decreases |line|
  {
    var all := line + [10];
    if line == [] {
      assert current + line == current;
      assert all[1..] == [];
      assert !Blank(current, rules);
    } else {
      assert all[1..] == line[1..] + [10];
      if Breaks(line[0]) {
        assert line[1..] != [] && line[1..][|line[1..]| - 1] == line[|line| - 1];
        LastLine(line[1..], [], rules);
        CountAppend([current], SplitLines(line[1..] + [10], []), NonBlank(rules));
      } else {
        assert current + [line[0]] + line[1..] == current + line;
        LastLine(line[1..], current + [line[0]], rules);
      }
    }
  }

  lemma HeadOf(current: Text, line: Text)
    requires line != []
    ensures (current + line)[0] == if current == [] then line[0] else current[0]
  {
  }

  // A break inside a line that starts and ends visibly makes at least two lines of it.
  lemma {:induction false} BrokenLine(line: Text, current: Text, rules: Rules)
    requires Visible(line) && HasBreak(line)
    requires |current + line| > 0 && !rules.space((current + line)[0]) && !Breaks((current + line)[0])
    requires !rules.space(line[|line| - 1]) && !Breaks(line[|line| - 1])
    ensures CountIf(SplitLines(line + [10], current), NonBlank(rules)) >= 2
    decreases |line|
  {
    hide SplitLines, CountIf, Visible, HasBreak;
    LineTail(line);
    if Breaks(line[0]) {
      BreakFirst(line, current, rules);
    } else {
      PlainFirst(line, current);
      BrokenLine(line[1..], current + [line[0]], rules);
    }
  }

  lemma LineTail(line: Text)
    requires Visible(line) && HasBreak(line)
    ensures line != [] && Visible(line[1..]) && (Breaks(line[0]) || (line[1..] != [] && HasBreak(line[1..])))
    ensures line[1..] != [] ==> line[1..][|line[1..]| - 1] == line[|line| - 1]
  {
    var i :| 0 <= i < |line| && Breaks(line[i]);
    if i > 0 { assert line[1..][i - 1] == line[i]; }
  }

  lemma PlainFirst(line: Text, current: Text)
    requires line != [] && !Breaks(line[0])
    ensures SplitLines(line + [10], current) == SplitLines(line[1..] + [10], current + [line[0]])
    ensures current + [line[0]] + line[1..] == current + line
  {
    assert (line + [10])[1..] == line[1..] + [10];
  }

  lemma BreakFirst(line: Text, current: Text, rules: Rules)
    requires line != [] && Visible(line) && Breaks(line[0])
    requires !rules.space((current + line)[0]) && !Breaks((current + line)[0])
    requires !rules.space(line[|line| - 1]) && !Breaks(line[|line| - 1])
    ensures CountIf(SplitLines(line + [10], current), NonBlank(rules)) >= 2
  {
    assert (line + [10])[1..] == line[1..] + [10];
    HeadOf(current, line);
    assert !Blank(current, rules);
    assert [] + line[1..] == line[1..];
    LastLine(line[1..], [], rules);
    CountAppend([current], SplitLines(line[1..] + [10], []), NonBlank(rules));
  }

  // ---------------------------------------------------------------- a written file back to its rows

  ghost predicate BracesVisible(rules: Rules) { !rules.space(123) && !rules.space(125) }

  ghost predicate AllAcceptable(records: seq<Record>, rules: Rules)
  {
    forall i | 0 <= i < |records| :: Acceptable(records[i], rules)
  }

  ghost predicate AnyDirty(records: seq<Record>) { exists i :: 0 <= i < |records| && Dirty(records[i]) }

  lemma FirstRowSplits(records: seq<Record>)
    requires records != [] && Visible(Line(records[0]))
    ensures SplitLines(WriteRows(records), [])
         == SplitLines(Line(records[0]) + [10], []) + SplitLines(WriteRows(records[1..]), [])
  {
    hide Line;
    FileSplits(Line(records[0]), WriteRows(records[1..]), []);
  }

  lemma {:induction false} WriteLoads(records: seq<Record>, done: seq<Record>, rules: Rules)
    requires BracesVisible(rules) && AllAcceptable(records, rules) && !AnyDirty(records)
    ensures LoadLines(SplitLines(WriteRows(records), []), done, rules) == Some(done + records)
    decreases |records|
  {
    hide Line, ReadLine, Acceptable, Dirty, SplitLines, HasBreak;
    if records == [] {
      assert done + records == done;
      NoLines(done, rules);
    } else {
      var r, rest := records[0], records[1..];
      assert Encodable(r) by { AcceptableEncodes(r, rules); }
      LineBreaks(r);
      FirstRowSplits(records);
      UnbrokenLine(Line(r), []);
      assert [] + Line(r) == Line(r);
      assert !Blank(Line(r), rules);
      RowRoundTrip(r, rules);
      assert AllAcceptable(rest, rules) && !AnyDirty(rest) by {
        assert forall i | 0 <= i < |rest| :: rest[i] == records[i + 1];
      }
      WriteLoads(rest, done + [r], rules);
      assert done + [r] + rest == done + records;
      var lines := SplitLines(WriteRows(rest), []);
      assert ([Line(r)] + lines)[1..] == lines;
    }
  }

  lemma NoLines(done: seq<Record>, rules: Rules)
    ensures LoadLines(SplitLines(WriteRows([]), []), done, rules) == Some(done)
  {
  }

  lemma AcceptableEncodes(r: Record, rules: Rules)
    requires Acceptable(r, rules)
    ensures Encodable(r)
  {
  }

  lemma {:induction false} LoadCount(lines: seq<Text>, done: seq<Record>, rules: Rules)
    requires LoadLines(lines, done, rules).Some?
    ensures |LoadLines(lines, done, rules).value| == |done| + CountIf(lines, NonBlank(rules))
    decreases |lines|
  {
    hide ReadLine, Blank;
    if lines != [] {
      if Blank(lines[0], rules) {
        LoadCount(lines[1..], done, rules);
      } else {
        LoadCount(lines[1..], done + [ReadLine(lines[0], rules).value], rules);
      }
    }
  }

  lemma BracedLine(line: Text, rules: Rules)
    requires Visible(line) && |line| >= 2 && line[0] == 123 && line[|line| - 1] == 125 && BracesVisible(rules)
    ensures CountIf(SplitLines(line + [10], []), NonBlank(rules)) >= if HasBreak(line) then 2 else 1
  {
    hide HasBreak, SplitLines, Visible, CountIf, NonBlank;
    assert [] + line == line;
    if HasBreak(line) { BrokenLine(line, [], rules); } else { LastLine(line, [], rules); }
  }

  lemma LineCount(r: Record, rules: Rules)
    requires Encodable(r) && BracesVisible(rules)
    ensures CountIf(SplitLines(Line(r) + [10], []), NonBlank(rules)) >= if Dirty(r) then 2 else 1
  {
    hide Line, Dirty, HasBreak, SplitLines, Encodable, Visible, CountIf, NonBlank;
    LineBreaks(r);
    BracedLine(Line(r), rules);
  }

  // Every row fills at least one line, and a dirty row at least two.
  lemma {:induction false} DirtyCount(records: seq<Record>, rules: Rules)
    requires BracesVisible(rules) && forall i | 0 <= i < |records| :: Encodable(records[i])
    ensures CountIf(SplitLines(WriteRows(records), []), NonBlank(rules)) >= |records| + if AnyDirty(records) then 1 else 0
  {
    hide Line, Dirty, Encodable, SplitLines, HasBreak;
    if records != [] {
      var rest := records[1..];
      LineBreaks(records[0]);
      FirstRowSplits(records);
      LineCount(records[0], rules);
      DirtyCount(rest, rules);
      CountAppend(SplitLines(Line(records[0]) + [10], []), SplitLines(WriteRows(rest), []), NonBlank(rules));
      if AnyDirty(records) {
        var i :| 0 <= i < |records| && Dirty(records[i]);
        if i > 0 { assert Dirty(rest[i - 1]); }
      }
    }
  }

  // Loading a written file gives its rows back exactly when no row is dirty.
  lemma FileRoundTrip(records: seq<Record>, rules: Rules)
    requires BracesVisible(rules) && AllAcceptable(records, rules)
    ensures LoadLines(SplitLines(WriteRows(records), []), [], rules) == Some(records) <==> !AnyDirty(records)
    ensures var rows := LoadLines(SplitLines(WriteRows(records), []), [], rules);
            AnyDirty(records) ==> rows == None || |rows.value| > |records|
  {
    hide Acceptable, Dirty, Encodable, SplitLines, WriteRows, LoadLines;
    if AnyDirty(records) {
      forall i | 0 <= i < |records| ensures Encodable(records[i]) { AcceptableEncodes(records[i], rules); }
      DirtyCount(records, rules);
      if LoadLines(SplitLines(WriteRows(records), []), [], rules).Some? {
        LoadCount(SplitLines(WriteRows(records), []), [], rules);
      }
    } else {
      WriteLoads(records, [], rules);
      assert [] + records == records;
    }
  }

  // ---------------------------------------------------------------- preparing and replaying

  // What the corpus check establishes before the split.
  ghost predicate ValidCorpus(tasks: seq<Task>, total: nat, rules: Rules)
  {
    && |tasks| == total && KeysDistinct(tasks, TaskRef()) && BracesVisible(rules)
    && (forall task | task in tasks :: Acceptable(RecordOf(task, VerbatimGold), rules))
    && (forall task | task in tasks :: Utf8(task.ref) && Utf8(task.prompt) && Utf8(task.code) && Utf8(task.gold))
  }

  // The corpus is hashed in its UTF-8 form, so no text of it holds a surrogate.
  ghost predicate Utf8(t: Text)
  {
    forall i | 0 <= i < |t| :: !(0xD800 <= t[i] < 0xE000)
  }

  ghost predicate CleanTask(task: Task) { !Dirty(RecordOf(task, VerbatimGold)) }

  lemma SplitAcceptable(tasks: seq<Task>, total: nat, h: nat, hash: Hash, rules: Rules)
    requires ValidCorpus(tasks, total, rules)
    ensures AllAcceptable(SplitOf(tasks, h, VerbatimGold, hash).train, rules)
    ensures AllAcceptable(SplitOf(tasks, h, VerbatimGold, hash).holdout, rules)
    ensures (exists task :: task in tasks && !CleanTask(task))
       <==> AnyDirty(SplitOf(tasks, h, VerbatimGold, hash).train) || AnyDirty(SplitOf(tasks, h, VerbatimGold, hash).holdout)
  {
    hide Acceptable, Dirty, Sort, FirstRefs, Part, RecordOf;
    var heldout := FirstRefs(tasks, TaskRef(), h, hash);
    var ordered := Sort(tasks, ByKey(RefKey()));
    OrderedTasks(tasks);
    PartMembers(ordered, heldout, false, VerbatimGold);
    PartMembers(ordered, heldout, true, VerbatimGold);
    var train, holdout := SplitOf(tasks, h, VerbatimGold, hash).train, SplitOf(tasks, h, VerbatimGold, hash).holdout;
    forall i | 0 <= i < |train| ensures Acceptable(train[i], rules) { assert train[i] in train; }
    forall i | 0 <= i < |holdout| ensures Acceptable(holdout[i], rules) { assert holdout[i] in holdout; }
    if AnyDirty(train) {
      var i :| 0 <= i < |train| && Dirty(train[i]);
      assert train[i] in train;
    }
    if AnyDirty(holdout) {
      var i :| 0 <= i < |holdout| && Dirty(holdout[i]);
      assert holdout[i] in holdout;
    }
    if task :| task in tasks && !CleanTask(task) {
      assert task in ordered;
      var record := RecordOf(task, VerbatimGold);
      assert record in train || record in holdout;
    }
  }

  // A written split passes every check of the loader that does not read the files.
  lemma SplitSound(tasks: seq<Task>, total: nat, h: nat, hash: Hash, rules: Rules)
    requires ValidCorpus(tasks, total, rules) && h < total
    ensures var s := SplitOf(tasks, h, VerbatimGold, hash);
            && RefsUnique(s.train) && RefsUnique(s.holdout) && |s.holdout| == h && |s.train| == total - h
            && RefsOf(s.train) * RefsOf(s.holdout) == {} && |RefsOf(s.train) + RefsOf(s.holdout)| == total
  {
    hide Acceptable, Sort, FirstRefs, Part, RecordOf, LexLeq, OnSide;
    SplitExact(tasks, h, VerbatimGold, hash);
    var s := SplitOf(tasks, h, VerbatimGold, hash);
    RefCount(s.train);
    RefCount(s.holdout);
    SidesApart(tasks, h, hash);
    var a, b := RefsOf(s.train), RefsOf(s.holdout);
    assert |a + b| == |a| + |b| by { assert a !! b; }
  }

  lemma SidesApart(tasks: seq<Task>, h: nat, hash: Hash)
    ensures RefsOf(SplitOf(tasks, h, VerbatimGold, hash).train) !! RefsOf(SplitOf(tasks, h, VerbatimGold, hash).holdout)
  {
    hide Sort, FirstRefs, Part;
    var heldout := FirstRefs(tasks, TaskRef(), h, hash);
    var ordered := Sort(tasks, ByKey(RefKey()));
    PartRefs(ordered, heldout, false);
    PartRefs(ordered, heldout, true);
  }

  lemma PartRefs(tasks: seq<Task>, heldout: set<Text>, held: bool)
    ensures forall ref | ref in RefsOf(Part(tasks, heldout, held, VerbatimGold)) :: (ref in heldout) == held
  {
    PartMembers(tasks, heldout, held, VerbatimGold);
    var part := Part(tasks, heldout, held, VerbatimGold);
    forall ref | ref in RefsOf(part) ensures (ref in heldout) == held {
      var i :| 0 <= i < |part| && part[i].ref == ref;
      assert part[i] in part;
    }
  }

  // Replaying a prepared dataset against any order of the same tasks succeeds exactly when the seed is
  // not negative and no task text holds NEL, LINE SEPARATOR or PARAGRAPH SEPARATOR.
  lemma PreparedReplays(tasks: seq<Task>, again: seq<Task>, total: nat, h: nat, seed: int, hash: int -> Hash, rules: Rules,
                        digests: Digests)
    requires ValidCorpus(tasks, total, rules) && multiset(tasks) == multiset(again) && h < total
    ensures Replays(DatasetOf(SplitOf(tasks, h, VerbatimGold, hash(seed)), seed, digests), again, total, hash, rules, digests)
       <==> seed >= 0 && forall task | task in tasks :: CleanTask(task)
  {
    hide SplitOf, ValidCorpus, LoadLines, SplitLines, WriteRows, AllAcceptable, AnyDirty, CleanTask, RefsOf, RefsUnique,
         RefList;
    var split := SplitOf(tasks, h, VerbatimGold, hash(seed));
    SplitAcceptable(tasks, total, h, hash(seed), rules);
    SplitSound(tasks, total, h, hash(seed), rules);
    CorpusFacts(tasks, total, rules);
    SplitPermuted(tasks, again, h, VerbatimGold, hash(seed));
    FileRoundTrip(split.train, rules);
    FileRoundTrip(split.holdout, rules);
    var d := DatasetOf(split, seed, digests);
    assert split == Split(split.train, split.holdout);
    if seed >= 0 && !AnyDirty(split.train) && !AnyDirty(split.holdout) {
      assert split.holdout == [] <==> h == 0;
      assert LoadDataset(d, total, rules, digests) == Some(split);
    }
  }

  lemma CorpusFacts(tasks: seq<Task>, total: nat, rules: Rules)
    requires ValidCorpus(tasks, total, rules)
    ensures BracesVisible(rules) && KeysDistinct(tasks, TaskRef())
  {
  }

  // ASCII space, any ref, and the one token.
  const PLAIN_RULES: Rules := Rules((c: int) => c == 32, (ref: Text) => true, (token: Text) => token == TOKENS)

  function Example(gold: Text): Task { Task([97], [112], [99], gold) }

  ghost predicate PreparedReplay(tasks: seq<Task>, seed: int, hash: int -> Hash, digests: Digests)
  {
    Replays(DatasetOf(SplitOf(tasks, 0, VerbatimGold, hash(seed)), seed, digests), tasks, |tasks|, hash, PLAIN_RULES, digests)
  }

  // A plain one-task corpus replays with seed 0; with seed -1 it does not, and neither does the corpus
  // whose gold text ends in U+0085.
  lemma ReplayFails(hash: int -> Hash, digests: Digests)
    ensures var plain, broken := [Example([103])], [Example([103, 0x85])];
            && ValidCorpus(plain, 1, PLAIN_RULES) && ValidCorpus(broken, 1, PLAIN_RULES)
            && PreparedReplay(plain, 0, hash, digests)
            && !PreparedReplay(plain, -1, hash, digests) && !PreparedReplay(broken, 0, hash, digests)
  {
    hide Replays, DatasetOf, SplitOf, ValidCorpus, CleanTask;
    var plain, broken := [Example([103])], [Example([103, 0x85])];
    ExampleValid([103]);
    ExampleValid([103, 0x85]);
    PreparedReplays(plain, plain, 1, 0, 0, hash, PLAIN_RULES, digests);
    PreparedReplays(plain, plain, 1, 0, -1, hash, PLAIN_RULES, digests);
    PreparedReplays(broken, broken, 1, 0, 0, hash, PLAIN_RULES, digests);
    assert CleanTask(plain[0]) && !CleanTask(broken[0]) by { ExamplesClean(); }
  }

  lemma ExampleValid(gold: Text)
    requires gold != [] && gold[0] == 103 && forall i | 0 <= i < |gold| :: 0 <= gold[i] < 0xD800
    ensures ValidCorpus([Example(gold)], 1, PLAIN_RULES)
  {
    var r := RecordOf(Example(gold), VerbatimGold);
    assert r.ref[0] == 97 && r.prompt[0] == 112 && r.completion[0] == 103;
    assert !Blank(r.ref, PLAIN_RULES) && !Blank(r.prompt, PLAIN_RULES) && !Blank(r.completion, PLAIN_RULES);
  }

  lemma ExamplesClean()
    ensures CleanTask(Example([103])) && !CleanTask(Example([103, 0x85]))
  {
    assert Soft([103, 0x85][1]);
  }

  // Whatever the files hold, an accepted replay means that they hold every task once, in ref order, and
  // that the holdout rows are exactly those of the tasks least by (hash, ref).
  lemma ReplayIsExact(d: Dataset, tasks: seq<Task>, total: nat, hash: int -> Hash, rules: Rules, digests: Digests)
    requires Replays(d, tasks, total, hash, rules, digests) && KeysDistinct(tasks, TaskRef()) && |tasks| == total
    ensures var rows, h, ranked := LoadDataset(d, total, rules, digests).value, d.manifest.holdoutExamples, hash(d.manifest.seed);
            && 0 <= h < total && |rows.holdout| == h && |rows.train| == total - h
            && IsSplit(rows, tasks, h, VerbatimGold, ranked)
  {
    hide SplitOf, LoadLines, SplitLines, RefsOf, RefsUnique, RefList, OnSide, RefSorted;
    SplitExact(tasks, d.manifest.holdoutExamples, VerbatimGold, hash(d.manifest.seed));
  }
}
