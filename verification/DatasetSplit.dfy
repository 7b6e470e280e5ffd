// The train/holdout split of a public task corpus, and its replays.
module DatasetSplit {
  import opened Collections
  import opened Ordering
  import opened HashSplit

  datatype Task = Task(ref: Text, prompt: Text, code: Text, gold: Text)

  // One prepared row. max_output_tokens is left out: the corpus check fixes it to 1,024.
  datatype Record = Record(completion: Text, prompt: Text, ref: Text)

  // How the completion is built: code prompt and gold, or the gold alone.
  datatype Form = CodeAndGold | VerbatimGold

  datatype Split = Split(train: seq<Record>, holdout: seq<Record>)

  function RecordOf(task: Task, form: Form): Record
  {
    Record(if form == CodeAndGold then task.code + task.gold else task.gold, task.prompt, task.ref)
  }

  function TaskRef(): Task -> Text { (task: Task) => task.ref }

  function RefKey(): Task -> (Text, Text) { (task: Task) => (task.ref, []) }

  // The records of the listed tasks whose ref is, or is not, among the given ones.
  function Part(tasks: seq<Task>, heldout: set<Text>, held: bool, form: Form): seq<Record>
  {
    if tasks == [] then []
    else (if (tasks[0].ref in heldout) == held then [RecordOf(tasks[0], form)] else []) + Part(tasks[1..], heldout, held, form)
  }

  function SplitOf(tasks: seq<Task>, h: nat, form: Form, hash: Hash): Split
  {
    var heldout := FirstRefs(tasks, TaskRef(), h, hash);
    var ordered := Sort(tasks, ByKey(RefKey()));
    Split(Part(ordered, heldout, false, form), Part(ordered, heldout, true, form))
  }

  // ---------------------------------------------------------------- the split as the tools compute it

  lemma {:induction false} PartSnoc(tasks: seq<Task>, task: Task, heldout: set<Text>, held: bool, form: Form)
    ensures Part(tasks + [task], heldout, held, form)
         == Part(tasks, heldout, held, form) + if (task.ref in heldout) == held then [RecordOf(task, form)] else []
  {
    hide RecordOf;
    var last := if (task.ref in heldout) == held then [RecordOf(task, form)] else [];
    if tasks == [] {
      assert [] + [task] == [task] && [task][1..] == [];
      assert Part([task], heldout, held, form) == last + [];
    } else {
      var first := if (tasks[0].ref in heldout) == held then [RecordOf(tasks[0], form)] else [];
      PartSnoc(tasks[1..], task, heldout, held, form);
      assert (tasks + [task])[1..] == tasks[1..] + [task];
      assert first + (Part(tasks[1..], heldout, held, form) + last) == first + Part(tasks[1..], heldout, held, form) + last;
    }
  }

  // The split inside prepare_dataset, replay_prepared_dataset and _project_current94.
  method Divide(tasks: seq<Task>, h: nat, form: Form, hash: Hash) returns (split: Split)
    ensures split == SplitOf(tasks, h, form, hash)
  {
    hide FirstRefs, Sort, RecordOf;
    var heldout := FirstRefs(tasks, TaskRef(), h, hash);
    var ordered := Sort(tasks, ByKey(RefKey()));
    var train, holdout: seq<Record> := [], [];
    for i := 0 to |ordered|
      invariant train == Part(ordered[..i], heldout, false, form)
      invariant holdout == Part(ordered[..i], heldout, true, form)
    {
      assert ordered[..i + 1] == ordered[..i] + [ordered[i]];
      PartSnoc(ordered[..i], ordered[i], heldout, false, form);
      PartSnoc(ordered[..i], ordered[i], heldout, true, form);
      var record := RecordOf(ordered[i], form);
      if ordered[i].ref in heldout { holdout := holdout + [record]; } else { train := train + [record]; }
    }
    assert ordered[..|ordered|] == ordered;
    split := Split(train, holdout);
  }

  // prepare_dataset and _project_current94 refuse a holdout that leaves no training task; on the tasks
  // that the corpus check lets through, the result is the one split there is.
  method Prepare(tasks: seq<Task>, h: int, total: nat, form: Form, hash: Hash) returns (r: Option<Split>)
    ensures r == None <==> h < 0 || h >= total
    ensures r.Some? && KeysDistinct(tasks, TaskRef()) ==> IsSplit(r.value, tasks, h, form, hash)
    ensures r.Some? && KeysDistinct(tasks, TaskRef()) && |tasks| == total ==>
              r.value.train != [] && |r.value.holdout| == h
  {
    hide SplitOf, KeysDistinct, OnSide, RefSorted;
    if !(0 <= h < total) { return None; }
    var split := Divide(tasks, h, form, hash);
    if KeysDistinct(tasks, TaskRef()) { SplitExact(tasks, h, form, hash); }
    r := Some(split);
  }

  // ---------------------------------------------------------------- what the split is

  ghost predicate RefSorted(records: seq<Record>)
  {
    forall i, j | 0 <= i < j < |records| :: LexLeq(records[i].ref, records[j].ref) && records[i].ref != records[j].ref
  }

  ghost predicate TasksSorted(tasks: seq<Task>)
  {
    forall i, j | 0 <= i < j < |tasks| :: LexLeq(tasks[i].ref, tasks[j].ref) && tasks[i].ref != tasks[j].ref
  }

  lemma {:induction false} PartMembers(tasks: seq<Task>, heldout: set<Text>, held: bool, form: Form)
    ensures forall record ::
              record in Part(tasks, heldout, held, form)
              <==> exists task :: task in tasks && (task.ref in heldout) == held && record == RecordOf(task, form)
  {
    hide RecordOf;
    if tasks != [] {
      PartMembers(tasks[1..], heldout, held, form);
      var rest := Part(tasks[1..], heldout, held, form);
      forall record
        ensures record in Part(tasks, heldout, held, form)
           <==> exists task :: task in tasks && (task.ref in heldout) == held && record == RecordOf(task, form)
      {
        assert tasks == [tasks[0]] + tasks[1..];
        if record in rest {
          var task :| task in tasks[1..] && (task.ref in heldout) == held && record == RecordOf(task, form);
          assert task in tasks;
        }
      }
    }
  }

  lemma {:induction false} PartSorted(tasks: seq<Task>, heldout: set<Text>, held: bool, form: Form)
    requires TasksSorted(tasks)
    ensures RefSorted(Part(tasks, heldout, held, form))
  {
    hide LexLeq, RecordOf;
    if tasks != [] {
      PartSorted(tasks[1..], heldout, held, form);
      FirstPrecedes(tasks, heldout, held, form);
    }
  }

  lemma FirstPrecedes(tasks: seq<Task>, heldout: set<Text>, held: bool, form: Form)
    requires TasksSorted(tasks) && tasks != []
    ensures forall record | record in Part(tasks[1..], heldout, held, form) ::
              LexLeq(tasks[0].ref, record.ref) && tasks[0].ref != record.ref
    ensures RecordOf(tasks[0], form).ref == tasks[0].ref
  {
    hide LexLeq;
    PartMembers(tasks[1..], heldout, held, form);
    forall record | record in Part(tasks[1..], heldout, held, form)
      ensures LexLeq(tasks[0].ref, record.ref) && tasks[0].ref != record.ref
    {
      var task :| task in tasks[1..] && (task.ref in heldout) == held && record == RecordOf(task, form);
    }
  }

  lemma {:induction false} PartSizes(tasks: seq<Task>, heldout: set<Text>, form: Form)
    ensures |Part(tasks, heldout, false, form)| + |Part(tasks, heldout, true, form)| == |tasks|
  {
    if tasks != [] { PartSizes(tasks[1..], heldout, form); }
  }

  lemma OrderedTasks(tasks: seq<Task>)
    requires KeysDistinct(tasks, TaskRef())
    ensures TasksSorted(Sort(tasks, ByKey(RefKey())))
    ensures forall task :: task in Sort(tasks, ByKey(RefKey())) <==> task in tasks
  {
    var s := Sort(tasks, ByKey(RefKey()));
    KeyOrder(RefKey());
    SortPermutes(tasks, ByKey(RefKey()));
    SortSorted(tasks, ByKey(RefKey()));
    KeysDistinctPermuted(tasks, s, TaskRef());
    MembersPermuted(tasks, s);
    forall i, j | 0 <= i < j < |s| ensures LexLeq(s[i].ref, s[j].ref) && s[i].ref != s[j].ref {
      assert ByKey(RefKey())(s[i], s[j]) && TaskRef()(s[i]) != TaskRef()(s[j]);
    }
  }

  // The records on one side, stated without sorting: a record is held out exactly when fewer than h
  // tasks rank before its task by (hash, ref).
  ghost predicate OnSide(record: Record, tasks: seq<Task>, h: nat, held: bool, form: Form, hash: Hash)
  {
    exists task :: task in tasks && record == RecordOf(task, form)
                && (CountIf(tasks, Earlier(TaskRef(), hash, task.ref)) < h) == held
  }

  lemma SideExact(tasks: seq<Task>, h: nat, held: bool, form: Form, hash: Hash, record: Record)
    requires KeysDistinct(tasks, TaskRef())
    ensures record in Part(Sort(tasks, ByKey(RefKey())), FirstRefs(tasks, TaskRef(), h, hash), held, form)
       <==> OnSide(record, tasks, h, held, form, hash)
  {
    hide FirstRefs, Sort, RecordOf, LexLeq, Earlier;
    var heldout := FirstRefs(tasks, TaskRef(), h, hash);
    OrderedTasks(tasks);
    PartMembers(Sort(tasks, ByKey(RefKey())), heldout, held, form);
    forall task | task in tasks
      ensures task.ref in heldout <==> CountIf(tasks, Earlier(TaskRef(), hash, task.ref)) < h
    {
      FirstExact(tasks, TaskRef(), h, hash, task);
    }
    if OnSide(record, tasks, h, held, form, hash) {
      var task :| task in tasks && record == RecordOf(task, form)
               && (CountIf(tasks, Earlier(TaskRef(), hash, task.ref)) < h) == held;
      assert task in Sort(tasks, ByKey(RefKey()));
    }
  }

  // Each task yields one record; both lists are in strict ref order; the holdout has the h tasks least
  // by (hash, ref).
  ghost predicate IsSplit(s: Split, tasks: seq<Task>, h: nat, form: Form, hash: Hash)
  {
    && RefSorted(s.train) && RefSorted(s.holdout)
    && |s.holdout| == (if h < |tasks| then h else |tasks|) && |s.train| + |s.holdout| == |tasks|
    && (forall record :: record in s.train <==> OnSide(record, tasks, h, false, form, hash))
    && (forall record :: record in s.holdout <==> OnSide(record, tasks, h, true, form, hash))
  }

  // The computed split is one of this description, and the only one.
  lemma SplitExact(tasks: seq<Task>, h: nat, form: Form, hash: Hash)
    requires KeysDistinct(tasks, TaskRef())
    ensures IsSplit(SplitOf(tasks, h, form, hash), tasks, h, form, hash)
    ensures forall s | IsSplit(s, tasks, h, form, hash) :: s == SplitOf(tasks, h, form, hash)
  {
    hide SplitOf, OnSide, RefSorted, KeysDistinct;
    SplitDescribed(tasks, h, form, hash);
    var split := SplitOf(tasks, h, form, hash);
    forall s | IsSplit(s, tasks, h, form, hash) ensures s == split {
      SameRecords(s.train, split.train);
      SameRecords(s.holdout, split.holdout);
    }
  }

  // Two lists in strict ref order with the same records are equal.
  lemma {:induction false} SameRecords(a: seq<Record>, b: seq<Record>)
    requires RefSorted(a) && RefSorted(b) && forall record :: record in a <==> record in b
    ensures a == b
  {
    if a == [] {
      NoRecords(b);
    } else {
      assert a[0] in b;
      SameFirst(a, b);
      forall record ensures record in a[1..] <==> record in b[1..] {
        NotAgain(a, record);
        NotAgain(b, record);
        assert record in a <==> record in b;
      }
      SameRecords(a[1..], b[1..]);
      assert a == [a[0]] + a[1..] && b == [b[0]] + b[1..];
    }
  }

  lemma NoRecords(s: seq<Record>)
    ensures (forall record :: record !in s) ==> s == []
  {
    if s != [] { assert s[0] in s; }
  }

  lemma SameFirst(a: seq<Record>, b: seq<Record>)
    requires RefSorted(a) && RefSorted(b) && a != [] && b != [] && a[0] in b && b[0] in a
    ensures a[0] == b[0]
  {
    hide LexLeq;
    var i :| 0 <= i < |b| && b[i] == a[0];
    var j :| 0 <= j < |a| && a[j] == b[0];
    if i > 0 && j > 0 {
      LexAntisymmetric(a[0].ref, b[0].ref);
    }
  }

  lemma NotAgain(s: seq<Record>, record: Record)
    requires RefSorted(s) && s != []
    ensures record in s[1..] <==> record in s && record != s[0]
  {
    hide LexLeq;
    assert s == [s[0]] + s[1..];
  }

  lemma SplitDescribed(tasks: seq<Task>, h: nat, form: Form, hash: Hash)
    requires KeysDistinct(tasks, TaskRef())
    ensures IsSplit(SplitOf(tasks, h, form, hash), tasks, h, form, hash)
  {
    hide FirstRefs, Sort, RecordOf, LexLeq, OnSide, RefSorted;
    var heldout := FirstRefs(tasks, TaskRef(), h, hash);
    var ordered := Sort(tasks, ByKey(RefKey()));
    OrderedTasks(tasks);
    PartSorted(ordered, heldout, false, form);
    PartSorted(ordered, heldout, true, form);
    PartSizes(ordered, heldout, form);
    HoldoutSize(tasks, h, form, hash);
    forall record
      ensures record in Part(ordered, heldout, false, form) <==> OnSide(record, tasks, h, false, form, hash)
      ensures record in Part(ordered, heldout, true, form) <==> OnSide(record, tasks, h, true, form, hash)
    {
      SideExact(tasks, h, false, form, hash, record);
      SideExact(tasks, h, true, form, hash, record);
    }
  }

  // The holdout has one record for each held-out ref.
  lemma HoldoutSize(tasks: seq<Task>, h: nat, form: Form, hash: Hash)
    requires KeysDistinct(tasks, TaskRef())
    ensures |SplitOf(tasks, h, form, hash).holdout| == if h < |tasks| then h else |tasks|
  {
    hide FirstRefs, Sort, LexLeq;
    var heldout := FirstRefs(tasks, TaskRef(), h, hash);
    var ordered := Sort(tasks, ByKey(RefKey()));
    var holdout := Part(ordered, heldout, true, form);
    OrderedTasks(tasks);
    PartSorted(ordered, heldout, true, form);
    PartMembers(ordered, heldout, true, form);
    FirstSize(tasks, TaskRef(), h, hash);
    forall ref ensures ref in RefsOf(holdout) <==> ref in heldout {
      if ref in RefsOf(holdout) {
        var i :| 0 <= i < |holdout| && holdout[i].ref == ref;
        assert holdout[i] in holdout;
      }
      if ref in heldout {
        FirstAmong(tasks, TaskRef(), h, hash, ref);
        var task :| task in tasks && TaskRef()(task) == ref;
        assert task in ordered;
        assert RecordOf(task, form) in holdout;
      }
    }
    assert RefsOf(holdout) == heldout;
    RefCount(holdout);
  }

  function RefsOf(records: seq<Record>): set<Text>
  {
    set i | 0 <= i < |records| :: records[i].ref
  }

  lemma {:induction false} RefCount(records: seq<Record>)
    requires RefSorted(records)
    ensures |RefsOf(records)| == |records|
  {
    hide LexLeq;
    if records == [] {
      assert RefsOf(records) == {};
    } else {
      var n := |records| - 1;
      RefCount(records[..n]);
      assert RefsOf(records) == RefsOf(records[..n]) + {records[n].ref};
      assert records[n].ref !in RefsOf(records[..n]);
    }
  }

  // Any order of the same tasks gives the same two lists.
  lemma SplitPermuted(tasks: seq<Task>, shuffled: seq<Task>, h: nat, form: Form, hash: Hash)
    requires KeysDistinct(tasks, TaskRef()) && multiset(tasks) == multiset(shuffled)
    ensures SplitOf(tasks, h, form, hash) == SplitOf(shuffled, h, form, hash)
  {
    hide FirstRefs, Sort, Part;
    FirstPermuted(tasks, shuffled, TaskRef(), h, hash);
    forall i, j | 0 <= i < |tasks| && 0 <= j < |tasks| && RefKey()(tasks[i]) == RefKey()(tasks[j])
      ensures tasks[i] == tasks[j]
    {
      SameKeySameIndex(tasks, TaskRef(), i, j);
    }
    KeyedSortCanonical(tasks, shuffled, RefKey());
  }

  // A larger holdout keeps every record of a smaller one and only takes from the training side.
  lemma SplitNested(tasks: seq<Task>, h: nat, more: nat, form: Form, hash: Hash)
    requires h <= more
    ensures forall record | record in SplitOf(tasks, h, form, hash).holdout :: record in SplitOf(tasks, more, form, hash).holdout
    ensures forall record | record in SplitOf(tasks, more, form, hash).train :: record in SplitOf(tasks, h, form, hash).train
  {
    hide FirstRefs, Sort, RecordOf;
    var ordered := Sort(tasks, ByKey(RefKey()));
    var less, all := FirstRefs(tasks, TaskRef(), h, hash), FirstRefs(tasks, TaskRef(), more, hash);
    FirstNested(tasks, TaskRef(), h, more, hash);
    PartMembers(ordered, less, true, form);
    PartMembers(ordered, all, true, form);
    PartMembers(ordered, less, false, form);
    PartMembers(ordered, all, false, form);
  }
}
