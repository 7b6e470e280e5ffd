// The chain of training stages, and the numbering of its published records.
module Lineage {
  import opened Collections
  import opened MetricGrammar
  import opened Metrics

  // A decoded metadata field, as far as these checks look at it: a string, or anything else.
  datatype Item = Words(text: Text) | NotText

  // The values pinned in the repository.
  datatype Pins = Pins(identity: string -> Text, soupSchema: Text, revision: Text, weights: Text, tokenizer: Text)

  // Float arithmetic: finished - started + 2.0, None on overflow; elapsed + 0.001; and as in Metrics.
  datatype Arithmetic = Arithmetic(ofInt: int -> Option<real>, wall: int -> Option<real>, slack: real -> real,
                                   close: (real, real) -> bool)

  // One stage as decoded. settingsOk: the verdict on target controls and entity substitution.
  datatype Stage = Stage(digest: Text, metadata: map<string, Item>, input: Option<map<string, Item>>, settingsOk: bool,
                         epochs: Field, updates: Field, started: Field, finished: Field, elapsed: Field,
                         metrics: seq<Metric>, pipelineStages: Option<Field>)

  const MAX_METRIC_RECORDS: nat := 1_000_000
  const IDENTITY_FIELDS: set<string> := {"hotkey", "track", "hardware_class", "base_model", "corpus_version"}
  const SOUP_FIELDS: set<string> :=
    {"kind", "soup_schema", "soup_metadata_digest", "output_manifest_digest", "index_digest", "tokenizer_digest"}
  const SOUP_KIND: Text := Codes("deterministic_weight_soup")
  const SNAPSHOT_KIND: Text := Codes("huggingface_snapshot")
  const DERIVED_KIND: Text := Codes("derived_model")

  function Get(m: map<string, Item>, key: string): Item { if key in m then m[key] else NotText }

  // sha256: followed by 64 lowercase hexadecimal digits.
  predicate DigestForm(t: Text)
  {
    && |t| == 71 && t[..7] == Codes("sha256:")
    && forall i | 7 <= i < 71 :: '0' as int <= t[i] <= '9' as int || 'a' as int <= t[i] <= 'f' as int
  }

  predicate IsDigest(item: Item) { item.Words? && DigestForm(item.text) }

  predicate Reserved(key: string) { |key| >= 3 && key[..3] == "mt_" }

  predicate IdentityOk(metadata: map<string, Item>, pins: Pins)
  {
    && (forall key | key in metadata :: !Reserved(key))
    && (forall key | key in IDENTITY_FIELDS :: Get(metadata, key) == Words(pins.identity(key)))
    && IsDigest(Get(metadata, "corpus_file_digest"))
  }

  predicate InputOk(input: Option<map<string, Item>>, parent: Option<Text>, pins: Pins)
  {
    && input.Some?
    && var m := input.value;
    && IsDigest(Get(m, "tokenizer_digest"))
    && if Get(m, "kind") == Words(SOUP_KIND) then
         && m.Keys == SOUP_FIELDS && parent == None && Get(m, "soup_schema") == Words(pins.soupSchema)
         && IsDigest(Get(m, "soup_metadata_digest")) && IsDigest(Get(m, "output_manifest_digest"))
         && IsDigest(Get(m, "index_digest")) && Get(m, "tokenizer_digest") == Words(pins.tokenizer)
       else if parent == None then
         && IsDigest(Get(m, "weights_digest")) && Get(m, "kind") == Words(SNAPSHOT_KIND)
         && Get(m, "revision") == Words(pins.revision) && Get(m, "weights_digest") == Words(pins.weights)
         && Get(m, "tokenizer_digest") == Words(pins.tokenizer)
       else
         && IsDigest(Get(m, "weights_digest")) && Get(m, "kind") == Words(DERIVED_KIND)
         && IsDigest(Get(m, "parent_metadata_digest")) && Get(m, "parent_metadata_digest") == Words(parent.value)
  }

  function ElapsedOf(s: Stage, a: Arithmetic): Option<real>
  {
    RequireNumber(s.elapsed, 0.0, Floats(a.ofInt, 0.0, a.close))
  }

  predicate CountsOk(s: Stage, a: Arithmetic)
  {
    && s.settingsOk
    && RequireInt(s.epochs, 1).Some? && RequireInt(s.updates, 1).Some? && s.epochs.n <= s.updates.n
    && RequireInt(s.started, 1).Some? && RequireInt(s.finished, 1).Some? && s.started.n <= s.finished.n
    && ElapsedOf(s, a).Some? && a.wall(s.finished.n - s.started.n).Some?
    && ElapsedOf(s, a).value <= a.wall(s.finished.n - s.started.n).value
    && |s.metrics| <= MAX_METRIC_RECORDS
  }

  // What the trail of this stage is read with: no record may be later than the stage's own elapsed time.
  function FloatsOf(s: Stage, a: Arithmetic): Floats
    requires ElapsedOf(s, a).Some?
  {
    Floats(a.ofInt, a.slack(ElapsedOf(s, a).value), a.close)
  }

  ghost predicate TrailOk(s: Stage, a: Arithmetic)
    requires CountsOk(s, a)
  {
    exists readings :: Reads(s.metrics, readings, FloatsOf(s, a)) && Grammar(readings, s.epochs.n, s.updates.n)
  }

  // ---------------------------------------------------------------- the chain, stated as a whole

  function ParentOf(stages: seq<Stage>, i: nat): Option<Text>
    requires i < |stages|
  {
    if i == 0 then None else Some(stages[i - 1].digest)
  }

  function CorpusOf(s: Stage): Item { Get(s.metadata, "corpus_file_digest") }

  ghost predicate LinkOk(stages: seq<Stage>, i: nat, pins: Pins, a: Arithmetic)
    requires i < |stages|
  {
    var s := stages[i];
    && IdentityOk(s.metadata, pins) && CorpusOf(s) == CorpusOf(stages[0]) && InputOk(s.input, ParentOf(stages, i), pins)
    && CountsOk(s, a) && TrailOk(s, a)
    && (i > 0 ==> stages[i - 1].finished.Whole? && stages[i - 1].finished.n <= s.started.n)
  }

  predicate DeclaredOk(stages: seq<Stage>)
    requires stages != []
  {
    var declared := stages[|stages| - 1].pipelineStages;
    declared == None || RequireInt(declared.value, 1) == Some(|stages|)
  }

  ghost predicate Chain(stages: seq<Stage>, pins: Pins, a: Arithmetic)
  {
    stages != [] && (forall i | 0 <= i < |stages| :: LinkOk(stages, i, pins, a)) && DeclaredOk(stages)
  }

  // validate_publication's loop over the stages, oldest first; a metrics file without records is refused
  // by the grammar.
  method ValidateStages(stages: seq<Stage>, pins: Pins, a: Arithmetic) returns (accepted: bool)
    ensures accepted <==> Chain(stages, pins, a)
  {
    hide InputOk, CountsOk, RequireInt, IdentityOk, CorpusOf, DeclaredOk, ElapsedOf, FloatsOf, Reads, Grammar;
    if stages == [] { return false; }
    var previousDigest: Option<Text>, previousFinished: Option<int>, corpus: Option<Item> := None, None, None;
    for i := 0 to |stages|
      invariant forall j | 0 <= j < i :: LinkOk(stages, j, pins, a)
      invariant i == 0 ==> previousDigest == None && previousFinished == None && corpus == None
      invariant i > 0 ==> previousDigest == Some(stages[i - 1].digest) && corpus == Some(CorpusOf(stages[0]))
      invariant i > 0 ==> stages[i - 1].finished.Whole? && previousFinished == Some(stages[i - 1].finished.n)
    {
      var s := stages[i];
      if !IdentityOk(s.metadata, pins) || (corpus.Some? && CorpusOf(s) != corpus.value) {
        assert !LinkOk(stages, i, pins, a);
        return false;
      }
      corpus := Some(CorpusOf(s));
      assert ParentOf(stages, i) == previousDigest;
      if !InputOk(s.input, previousDigest, pins) || !CountsOk(s, a) {
        assert !LinkOk(stages, i, pins, a);
        return false;
      }
      Counted(s, a);
      if previousFinished.Some? && s.started.n < previousFinished.value {
        assert !LinkOk(stages, i, pins, a);
        return false;
      }
      var trail := ValidateMetrics(s.metrics, s.epochs.n, s.updates.n, FloatsOf(s, a));
      if !trail {
        assert !LinkOk(stages, i, pins, a);
        return false;
      }
      previousDigest, previousFinished := Some(s.digest), Some(s.finished.n);
    }
    accepted := DeclaredOk(stages);
  }

  lemma Counted(s: Stage, a: Arithmetic)
    requires CountsOk(s, a)
    ensures s.epochs.Whole? && s.updates.Whole? && s.started.Whole? && s.finished.Whole? && ElapsedOf(s, a).Some?
    ensures 1 <= s.epochs.n <= s.updates.n && s.started.n <= s.finished.n
  {
  }

  // ---------------------------------------------------------------- what an accepted chain says

  // Stages never overlap in time, however far apart.
  lemma {:induction false} StagesInOrder(stages: seq<Stage>, pins: Pins, a: Arithmetic, i: nat, j: nat)
    requires Chain(stages, pins, a) && i < j < |stages|
    ensures CountsOk(stages[i], a) && CountsOk(stages[j], a)
    ensures stages[i].finished.n <= stages[j].started.n
    decreases j - i
  {
    hide InputOk, TrailOk, DeclaredOk, IdentityOk;
    assert LinkOk(stages, i, pins, a) && LinkOk(stages, j, pins, a) && LinkOk(stages, j - 1, pins, a);
    Counted(stages[j - 1], a);
    if i < j - 1 { StagesInOrder(stages, pins, a, i, j - 1); }
  }

  // Only the first stage may start from a soup or a snapshot; every later one names the stage before it,
  // so following the named parents from the last stage visits every stage.
  lemma ParentsNamed(stages: seq<Stage>, pins: Pins, a: Arithmetic, i: nat)
    requires Chain(stages, pins, a) && i < |stages|
    ensures stages[i].input.Some? && (Get(stages[i].input.value, "kind") == Words(DERIVED_KIND) <==> i > 0)
    ensures i > 0 ==> Get(stages[i].input.value, "parent_metadata_digest") == Words(stages[i - 1].digest)
  {
    hide TrailOk, DeclaredOk, CountsOk, IdentityOk;
    assert LinkOk(stages, i, pins, a);
    KindsDiffer();
  }

  lemma KindsDiffer()
    ensures SOUP_KIND != DERIVED_KIND && SNAPSHOT_KIND != DERIVED_KIND
  {
    assert |SOUP_KIND| == 25 && |SNAPSHOT_KIND| == 20 && |DERIVED_KIND| == 13;
  }

  function Total(stages: seq<Stage>): nat
  {
    if stages == [] then 0 else Total(stages[..|stages| - 1]) + |stages[|stages| - 1].metrics|
  }

  // One record per update and one per epoch.
  lemma StageRecords(stages: seq<Stage>, pins: Pins, a: Arithmetic, i: nat)
    requires Chain(stages, pins, a) && i < |stages|
    ensures CountsOk(stages[i], a) && |stages[i].metrics| == stages[i].updates.n + stages[i].epochs.n
  {
    hide InputOk, DeclaredOk, Grammar, IdentityOk;
    assert LinkOk(stages, i, pins, a);
    var s := stages[i];
    Counted(s, a);
    var readings :| Reads(s.metrics, readings, FloatsOf(s, a)) && Grammar(readings, s.epochs.n, s.updates.n);
    RecordCount(readings, s.epochs.n, s.updates.n);
  }

  // ---------------------------------------------------------------- publishing

  // A record as logged: its stage number, the record, the global step.
  datatype Entry = Entry(stage: nat, record: Metric, step: nat)

  function StageEntries(s: Stage, number: nat, before: nat, n: nat): (r: seq<Entry>)
    requires n <= |s.metrics|
    ensures |r| == n
  {
    seq(n, i requires 0 <= i < n => Entry(number, s.metrics[i], before + i + 1))
  }

  // Every record of every stage, in order, numbered from 1 without a gap.
  function Entries(stages: seq<Stage>): (r: seq<Entry>)
    ensures |r| == Total(stages)
  {
    if stages == [] then [] else
    var n := |stages| - 1;
    Entries(stages[..n]) + StageEntries(stages[n], n + 1, Total(stages[..n]), |stages[n].metrics|)
  }

  // The k-th entry has global step k + 1.
  lemma {:induction false} StepsNumbered(stages: seq<Stage>, k: nat)
    requires k < Total(stages)
    ensures Entries(stages)[k].step == k + 1
  {
    var n := |stages| - 1;
    if k < Total(stages[..n]) { StepsNumbered(stages[..n], k); }
  }

  // Record j of stage i is logged at the global step that counts the records before it.
  lemma {:induction false} RecordPlaced(stages: seq<Stage>, i: nat, j: nat)
    requires i < |stages| && j < |stages[i].metrics|
    ensures Total(stages[..i]) + j < Total(stages)
    ensures Entries(stages)[Total(stages[..i]) + j] == Entry(i + 1, stages[i].metrics[j], Total(stages[..i]) + j + 1)
  {
    var n := |stages| - 1;
    if i < n {
      assert stages[..n][..i] == stages[..i];
      RecordPlaced(stages[..n], i, j);
    }
  }

  lemma Nothing(stages: seq<Stage>)
    ensures Total(stages[..0]) == 0 && Entries(stages[..0]) == []
    ensures forall s: Stage, number: nat, before: nat :: StageEntries(s, number, before, 0) == []
  {
  }

  lemma NextStage(stages: seq<Stage>, i: nat)
    requires i < |stages|
    ensures Entries(stages[..i + 1])
         == Entries(stages[..i]) + StageEntries(stages[i], i + 1, Total(stages[..i]), |stages[i].metrics|)
    ensures Total(stages[..i + 1]) == Total(stages[..i]) + |stages[i].metrics|
    ensures Entries(stages[..i]) + StageEntries(stages[i], i + 1, Total(stages[..i]), 0) == Entries(stages[..i])
  {
    assert stages[..i + 1][..i] == stages[..i];
  }

  lemma NextEntry(done: seq<Entry>, s: Stage, number: nat, before: nat, j: nat)
    requires j < |s.metrics|
    ensures done + StageEntries(s, number, before, j + 1)
         == done + StageEntries(s, number, before, j) + [Entry(number, s.metrics[j], before + j + 1)]
  {
  }

  lemma EntryTotal(stages: seq<Stage>)
    ensures |Entries(stages)| == Total(stages)
  {
  }

  // What is published: the stages, and the values of the run summary.
  datatype Publication = Publication(stages: seq<Stage>, artifact: Text, finishedBlock: int, calibration: Text)

  datatype Remark = Remark(key: string, value: Value)
  datatype Value = Name(text: Text) | Count(n: int)

  function SummaryOf(p: Publication): (r: seq<Remark>)
    ensures |r| == 5
  {
    [Remark("mt_artifact_digest", Name(p.artifact)), Remark("mt_finished_at", Count(p.finishedBlock)),
     Remark("mt_training_records", Count(Total(p.stages))), Remark("mt_training_stages", Count(|p.stages|)),
     Remark("mt_calibration_manifest_digest", Name(p.calibration))]
  }

  lemma SummaryLines(p: Publication)
    ensures SummaryOf(p)[0] == Remark("mt_artifact_digest", Name(p.artifact))
    ensures SummaryOf(p)[1] == Remark("mt_finished_at", Count(p.finishedBlock))
    ensures SummaryOf(p)[2] == Remark("mt_training_records", Count(Total(p.stages)))
    ensures SummaryOf(p)[3] == Remark("mt_training_stages", Count(|p.stages|))
    ensures SummaryOf(p)[4] == Remark("mt_calibration_manifest_digest", Name(p.calibration))
  {
    hide Total;
  }

  // The tracking client. Its log call fails at the global steps given by `fails`, the k-th assignment to
  // the summary when `spoils` says so.
  class Client {
    const fails: nat -> bool
    const spoils: nat -> bool
    var logged: seq<Entry>
    var summary: seq<Remark>
    var finishes: nat

    constructor (fails: nat -> bool, spoils: nat -> bool)
      ensures this.fails == fails && this.spoils == spoils && logged == [] && summary == [] && finishes == 0
    {
      this.fails, this.spoils := fails, spoils;
      logged, summary, finishes := [], [], 0;
    }

    method Log(entry: Entry) returns (ok: bool)
      modifies this`logged
      ensures ok == !fails(entry.step)
      ensures logged == if ok then old(logged) + [entry] else old(logged)
    {
      ok := !fails(entry.step);
      if ok { logged := logged + [entry]; }
    }

    method Assign(key: string, value: Value) returns (ok: bool)
      modifies this`summary
      ensures ok == !spoils(|old(summary)|)
      ensures summary == if ok then old(summary) + [Remark(key, value)] else old(summary)
    {
      ok := !spoils(|summary|);
      if ok { summary := summary + [Remark(key, value)]; }
    }

    // Both loops over the records.
    method LogAll(stages: seq<Stage>) returns (ok: bool)
      requires logged == []
      modifies this`logged
      ensures ok <==> forall step: nat | 1 <= step <= Total(stages) :: !fails(step)
      ensures ok ==> logged == Entries(stages)
      ensures !ok ==> |logged| < Total(stages) && logged == Entries(stages)[..|logged|] && fails(|logged| + 1)
    {
      hide Entries, Total, StageEntries;
      Nothing(stages);
      var globalStep := 0;
      ok := true;
      for i := 0 to |stages|
        invariant ok && globalStep == Total(stages[..i]) && logged == Entries(stages[..i])
        invariant forall step: nat | 1 <= step <= globalStep :: !fails(step)
      {
        var s := stages[i];
        ghost var before := globalStep;
        NextStage(stages, i);
        for j := 0 to |s.metrics|
          invariant ok && globalStep == before + j
          invariant logged == Entries(stages[..i]) + StageEntries(s, i + 1, before, j)
          invariant forall step: nat | 1 <= step <= globalStep :: !fails(step)
        {
          globalStep := globalStep + 1;
          NextEntry(Entries(stages[..i]), s, i + 1, before, j);
          ok := Log(Entry(i + 1, s.metrics[j], globalStep));
          if !ok {
            StoppedInside(stages, i, j);
            EntryTotal(stages);
            return;
          }
        }
      }
      assert stages[..|stages|] == stages;
      EntryTotal(stages);
    }

    method Summarize(p: Publication) returns (ok: bool)
      requires summary == []
      modifies this`summary
      ensures ok <==> forall k: nat | k < 5 :: !spoils(k)
      ensures ok ==> summary == SummaryOf(p)
      ensures !ok ==> |summary| < 5 && summary == SummaryOf(p)[..|summary|] && spoils(|summary|)
    {
      hide Total, SummaryOf;
      SummaryLines(p);
      ok := Assign("mt_artifact_digest", Name(p.artifact));
      if !ok { return; }
      assert summary == SummaryOf(p)[..1];
      ok := Assign("mt_finished_at", Count(p.finishedBlock));
      if !ok { return; }
      assert summary == SummaryOf(p)[..2];
      ok := Assign("mt_training_records", Count(Total(p.stages)));
      if !ok { return; }
      assert summary == SummaryOf(p)[..3];
      ok := Assign("mt_training_stages", Count(|p.stages|));
      if !ok { return; }
      assert summary == SummaryOf(p)[..4];
      ok := Assign("mt_calibration_manifest_digest", Name(p.calibration));
    }

    // The guarded part of publish, with its finally clause.
    method Publish(p: Publication) returns (ok: bool)
      requires logged == [] && summary == []
      modifies this
      ensures finishes == old(finishes) + 1
      ensures ok <==>
                (forall step: nat | 1 <= step <= Total(p.stages) :: !fails(step)) && (forall k: nat | k < 5 :: !spoils(k))
      ensures ok ==> logged == Entries(p.stages) && summary == SummaryOf(p)
      ensures !ok ==>
                || (&& summary == [] && |logged| < Total(p.stages)
                    && logged == Entries(p.stages)[..|logged|] && fails(|logged| + 1))
                || (&& logged == Entries(p.stages) && |summary| < 5
                    && summary == SummaryOf(p)[..|summary|] && spoils(|summary|))
    {
      hide Entries, Total, SummaryOf;
      ok := LogAll(p.stages);
      if ok { ok := Summarize(p); }
      finishes := finishes + 1;
    }
  }

  lemma {:induction false} StoppedInside(stages: seq<Stage>, i: nat, j: nat)
    requires i < |stages| && j < |stages[i].metrics|
    ensures Total(stages[..i]) + j < Total(stages)
    ensures Entries(stages[..i]) + StageEntries(stages[i], i + 1, Total(stages[..i]), j)
         == Entries(stages)[..Total(stages[..i]) + j]
  {
    hide Entries, StageEntries, Total;
    var n := |stages| - 1;
    LastStage(stages);
    var before, last := Entries(stages[..n]), StageEntries(stages[n], n + 1, Total(stages[..n]), |stages[n].metrics|);
    if i < n {
      assert stages[..n][..i] == stages[..i];
      StoppedInside(stages[..n], i, j);
      PrefixInside(before, last, Total(stages[..i]) + j);
    } else {
      PrefixBeyond(before, last, j);
      StagePrefix(stages[n], n + 1, Total(stages[..n]), j);
    }
  }

  lemma LastStage(stages: seq<Stage>)
    requires stages != []
    ensures var n := |stages| - 1;
            && Entries(stages)
               == Entries(stages[..n]) + StageEntries(stages[n], n + 1, Total(stages[..n]), |stages[n].metrics|)
            && Total(stages) == Total(stages[..n]) + |stages[n].metrics|
  {
  }

  lemma StagePrefix(s: Stage, number: nat, before: nat, j: nat)
    requires j <= |s.metrics|
    ensures StageEntries(s, number, before, |s.metrics|)[..j] == StageEntries(s, number, before, j)
  {
  }

  lemma PrefixInside(a: seq<Entry>, b: seq<Entry>, n: nat)
    requires n <= |a|
    ensures (a + b)[..n] == a[..n]
  {
  }

  lemma PrefixBeyond(a: seq<Entry>, b: seq<Entry>, n: nat)
    requires n <= |b|
    ensures (a + b)[..|a| + n] == a + b[..n]
  {
  }
}
