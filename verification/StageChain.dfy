// An accepted chain of stages, field by field.
module StageChain {
  import opened Collections
  import opened MetricGrammar
  import opened Metrics
  import opened Lineage

  ghost predicate HasText(m: map<string, Item>, key: string, t: Text) { key in m && m[key] == Words(t) }

  ghost predicate LowerHex(c: int) { 48 <= c <= 57 || 97 <= c <= 102 }

  // The text "sha256:" and 64 lower-case hexadecimal digits.
  ghost predicate DigestText(t: Text)
  {
    exists hex: Text :: t == Codes("sha256:") + hex && |hex| == 64 && forall i | 0 <= i < 64 :: LowerHex(hex[i])
  }

  ghost predicate HasDigest(m: map<string, Item>, key: string)
  {
    key in m && m[key].Words? && DigestText(m[key].text)
  }

  lemma DigestExact(t: Text)
    ensures DigestForm(t) <==> DigestText(t)
  {
    var seven := Codes("sha256:");
    if DigestForm(t) {
      var hex := t[7..];
      assert t == seven + hex;
      forall i | 0 <= i < 64 ensures LowerHex(hex[i]) { assert hex[i] == t[7 + i]; }
    }
    if hex: Text :| t == seven + hex && |hex| == 64 && forall i | 0 <= i < 64 :: LowerHex(hex[i]) {
      forall i | 7 <= i < 71 ensures '0' as int <= t[i] <= '9' as int || 'a' as int <= t[i] <= 'f' as int {
        assert t[i] == hex[i - 7];
      }
      assert t[..7] == seven;
    }
  }

  lemma HasExact(m: map<string, Item>, key: string, t: Text)
    ensures Get(m, key) == Words(t) <==> HasText(m, key, t)
    ensures IsDigest(Get(m, key)) <==> HasDigest(m, key)
  {
    hide DigestForm, DigestText;
    if key in m && m[key].Words? { DigestExact(m[key].text); }
  }

  // ---------------------------------------------------------------- who trained, and on what

  ghost predicate Identified(m: map<string, Item>, pins: Pins)
  {
    && (forall key | key in m :: !("mt_" <= key))
    && HasText(m, "hotkey", pins.identity("hotkey")) && HasText(m, "track", pins.identity("track"))
    && HasText(m, "hardware_class", pins.identity("hardware_class"))
    && HasText(m, "base_model", pins.identity("base_model"))
    && HasText(m, "corpus_version", pins.identity("corpus_version"))
    && HasDigest(m, "corpus_file_digest")
  }

  lemma ReservedExact(key: string)
    ensures Reserved(key) <==> "mt_" <= key
  {
  }

  lemma IdentifiedExact(m: map<string, Item>, pins: Pins)
    ensures IdentityOk(m, pins) <==> Identified(m, pins)
  {
    hide Reserved, IsDigest, HasDigest, Get, HasText;
    forall key ensures Reserved(key) <==> "mt_" <= key { ReservedExact(key); }
    forall key, t
      ensures Get(m, key) == Words(t) <==> HasText(m, key, t)
      ensures IsDigest(Get(m, key)) <==> HasDigest(m, key)
    {
      HasExact(m, key, t);
    }
    if Identified(m, pins) {
      forall key | key in IDENTITY_FIELDS ensures HasText(m, key, pins.identity(key)) {}
    }
    if IdentityOk(m, pins) {
      assert "hotkey" in IDENTITY_FIELDS && "track" in IDENTITY_FIELDS && "hardware_class" in IDENTITY_FIELDS;
      assert "base_model" in IDENTITY_FIELDS && "corpus_version" in IDENTITY_FIELDS;
    }
  }

  // ---------------------------------------------------------------- what a stage starts from

  // A soup: exactly six fields, the pinned schema and tokenizer.
  ghost predicate FromSoup(m: map<string, Item>, pins: Pins)
  {
    && m.Keys == {"kind", "soup_schema", "soup_metadata_digest", "output_manifest_digest", "index_digest", "tokenizer_digest"}
    && HasText(m, "kind", Codes("deterministic_weight_soup")) && HasText(m, "soup_schema", pins.soupSchema)
    && HasDigest(m, "soup_metadata_digest") && HasDigest(m, "output_manifest_digest") && HasDigest(m, "index_digest")
    && HasDigest(m, "tokenizer_digest") && HasText(m, "tokenizer_digest", pins.tokenizer)
  }

  // The pinned snapshot.
  ghost predicate FromSnapshot(m: map<string, Item>, pins: Pins)
  {
    && HasText(m, "kind", Codes("huggingface_snapshot")) && HasText(m, "revision", pins.revision)
    && HasDigest(m, "weights_digest") && HasText(m, "weights_digest", pins.weights)
    && HasDigest(m, "tokenizer_digest") && HasText(m, "tokenizer_digest", pins.tokenizer)
  }

  // The model of the stage before.
  ghost predicate FromParent(m: map<string, Item>, parent: Text)
  {
    && HasText(m, "kind", Codes("derived_model")) && HasDigest(m, "weights_digest") && HasDigest(m, "tokenizer_digest")
    && HasDigest(m, "parent_metadata_digest") && HasText(m, "parent_metadata_digest", parent)
  }

  lemma InputExact(m: map<string, Item>, parent: Option<Text>, pins: Pins)
    ensures InputOk(Some(m), parent, pins)
       <==> if parent == None then FromSoup(m, pins) || FromSnapshot(m, pins) else FromParent(m, parent.value)
  {
    hide IsDigest, HasDigest, Get, HasText, Codes;
    AllKindsDiffer();
    forall key, t
      ensures Get(m, key) == Words(t) <==> HasText(m, key, t)
      ensures IsDigest(Get(m, key)) <==> HasDigest(m, key)
    {
      HasExact(m, key, t);
    }
  }

  lemma AllKindsDiffer()
    ensures Codes("deterministic_weight_soup") != Codes("huggingface_snapshot")
    ensures Codes("deterministic_weight_soup") != Codes("derived_model")
    ensures Codes("huggingface_snapshot") != Codes("derived_model")
  {
    assert |Codes("deterministic_weight_soup")| == 25 && |Codes("huggingface_snapshot")| == 20 && |Codes("derived_model")| == 13;
  }

  // ---------------------------------------------------------------- counts, times and the metric trail

  // Epochs and updates, the first and last block, and the elapsed time in seconds.
  datatype Figures = Figures(epochs: nat, updates: nat, started: nat, finished: nat, elapsed: real)

  ghost predicate FiguresAre(s: Stage, n: Figures, a: Arithmetic)
  {
    && s.settingsOk && |s.metrics| <= 1_000_000
    && s.epochs == Whole(n.epochs) && s.updates == Whole(n.updates) && 1 <= n.epochs <= n.updates
    && s.started == Whole(n.started) && s.finished == Whole(n.finished) && 1 <= n.started <= n.finished
    && n.elapsed >= 0.0 && (s.elapsed == Fraction(n.elapsed) || exists k :: s.elapsed == Whole(k) && a.ofInt(k) == Some(n.elapsed))
    && a.wall(n.finished - n.started).Some? && n.elapsed <= a.wall(n.finished - n.started).value
  }

  // Every record is read within the slack of the stage's elapsed time, and the readings make up the trail.
  ghost predicate TrailIs(s: Stage, n: Figures, readings: seq<Reading>, a: Arithmetic)
  {
    && |readings| == |s.metrics|
    && (forall i | 0 <= i < |readings| :: RecordIs(s.metrics[i], readings[i], Floats(a.ofInt, a.slack(n.elapsed), a.close)))
    && Grammar(readings, n.epochs, n.updates)
  }

  ghost function FiguresOf(s: Stage, a: Arithmetic): Figures
    requires CountsOk(s, a)
  {
    Figures(s.epochs.n, s.updates.n, s.started.n, s.finished.n, ElapsedOf(s, a).value)
  }

  lemma FiguresFound(s: Stage, a: Arithmetic)
    requires CountsOk(s, a)
    ensures FiguresAre(s, FiguresOf(s, a), a)
  {
    hide RequireNumber;
    NumberExact(s.elapsed, 0.0, Floats(a.ofInt, 0.0, a.close), ElapsedOf(s, a).value);
  }

  lemma FiguresCount(s: Stage, n: Figures, a: Arithmetic)
    requires FiguresAre(s, n, a)
    ensures CountsOk(s, a) && n == FiguresOf(s, a)
  {
    hide RequireNumber;
    NumberExact(s.elapsed, 0.0, Floats(a.ofInt, 0.0, a.close), n.elapsed);
  }

  lemma ReadsExact(s: Stage, readings: seq<Reading>, floats: Floats)
    ensures Reads(s.metrics, readings, floats)
       <==> |readings| == |s.metrics| && forall i | 0 <= i < |readings| :: RecordIs(s.metrics[i], readings[i], floats)
  {
    hide ReadMetric, RecordIs;
    forall i | 0 <= i < |s.metrics| && i < |readings|
      ensures ReadMetric(s.metrics[i], floats) == Some(readings[i]) <==> RecordIs(s.metrics[i], readings[i], floats)
    {
      RecordExact(s.metrics[i], readings[i], floats);
    }
  }

  // ---------------------------------------------------------------- the chain

  ghost predicate StageIs(stages: seq<Stage>, i: nat, n: Figures, readings: seq<Reading>, pins: Pins, a: Arithmetic)
    requires i < |stages|
  {
    var s := stages[i];
    && Identified(s.metadata, pins) && s.input.Some?
    && (if i == 0 then FromSoup(s.input.value, pins) || FromSnapshot(s.input.value, pins)
        else FromParent(s.input.value, stages[i - 1].digest))
    && FiguresAre(s, n, a) && TrailIs(s, n, readings, a)
  }

  // Every stage is one of these, over the same corpus, and starts when the one before has finished; the last
  // one may declare how many there are.
  ghost predicate ChainIs(stages: seq<Stage>, figures: seq<Figures>, readings: seq<seq<Reading>>, pins: Pins, a: Arithmetic)
  {
    && stages != [] && |figures| == |stages| && |readings| == |stages|
    && (forall i | 0 <= i < |stages| :: StageIs(stages, i, figures[i], readings[i], pins, a))
    && (forall i | 0 <= i < |stages| :: SameCorpus(stages[i], stages[0]))
    && (forall i, j | 0 <= i < |stages| && j == i + 1 && j < |stages| :: figures[i].finished <= figures[j].started)
    && (stages[|stages| - 1].pipelineStages == None || stages[|stages| - 1].pipelineStages == Some(Whole(|stages|)))
  }

  ghost predicate SameCorpus(s: Stage, t: Stage)
  {
    && "corpus_file_digest" in s.metadata && "corpus_file_digest" in t.metadata
    && s.metadata["corpus_file_digest"] == t.metadata["corpus_file_digest"]
  }

  lemma LinkIsStage(stages: seq<Stage>, i: nat, pins: Pins, a: Arithmetic) returns (n: Figures, readings: seq<Reading>)
    requires i < |stages| && LinkOk(stages, i, pins, a)
    ensures StageIs(stages, i, n, readings, pins, a)
    ensures n.finished == stages[i].finished.n && n.started == stages[i].started.n
  {
    hide IdentityOk, Identified, InputOk, FromSoup, FromSnapshot, FromParent, CountsOk, FiguresAre, Reads, RecordIs, Grammar;
    var s := stages[i];
    IdentifiedExact(s.metadata, pins);
    InputThere(s.input, ParentOf(stages, i), pins);
    InputExact(s.input.value, ParentOf(stages, i), pins);
    Counted(s, a);
    FiguresFound(s, a);
    n := FiguresOf(s, a);
    readings :| Reads(s.metrics, readings, FloatsOf(s, a)) && Grammar(readings, s.epochs.n, s.updates.n);
    ReadsExact(s, readings, FloatsOf(s, a));
  }

  lemma InputThere(input: Option<map<string, Item>>, parent: Option<Text>, pins: Pins)
    requires InputOk(input, parent, pins)
    ensures input.Some?
  {
  }

  // The stage meets every condition that looks at it alone.
  lemma StageIsLink(stages: seq<Stage>, i: nat, n: Figures, readings: seq<Reading>, pins: Pins, a: Arithmetic)
    requires i < |stages| && StageIs(stages, i, n, readings, pins, a)
    ensures var s := stages[i];
            && IdentityOk(s.metadata, pins) && InputOk(s.input, ParentOf(stages, i), pins) && CountsOk(s, a) && TrailOk(s, a)
            && s.finished == Whole(n.finished) && s.started == Whole(n.started)
  {
    hide IdentityOk, Identified, InputOk, FromSoup, FromSnapshot, FromParent, CountsOk, Reads, RecordIs, Grammar;
    var s := stages[i];
    IdentifiedExact(s.metadata, pins);
    InputExact(s.input.value, ParentOf(stages, i), pins);
    FiguresCount(s, n, a);
    ReadsExact(s, readings, FloatsOf(s, a));
  }

  lemma CorpusKnown(s: Stage, pins: Pins)
    requires Identified(s.metadata, pins)
    ensures "corpus_file_digest" in s.metadata && CorpusOf(s) == s.metadata["corpus_file_digest"]
  {
  }

  lemma {:induction false} StagesFound(stages: seq<Stage>, k: nat, pins: Pins, a: Arithmetic)
    returns (figures: seq<Figures>, readings: seq<seq<Reading>>)
    requires k <= |stages| && forall i | 0 <= i < k :: LinkOk(stages, i, pins, a)
    ensures |figures| == k && |readings| == k
    ensures forall i | 0 <= i < k ::
              && StageIs(stages, i, figures[i], readings[i], pins, a)
              && figures[i].finished == stages[i].finished.n && figures[i].started == stages[i].started.n
  {
    hide LinkOk, StageIs;
    if k == 0 {
      figures, readings := [], [];
    } else {
      var fs, rs := StagesFound(stages, k - 1, pins, a);
      var n, r := LinkIsStage(stages, k - 1, pins, a);
      figures, readings := fs + [n], rs + [r];
    }
  }

  lemma LinkTimes(stages: seq<Stage>, i: nat, pins: Pins, a: Arithmetic)
    requires 0 < i < |stages| && LinkOk(stages, i, pins, a)
    ensures stages[i - 1].finished.Whole? && stages[i].started.Whole? && stages[i - 1].finished.n <= stages[i].started.n
  {
    hide IdentityOk, InputOk, TrailOk;
  }

  lemma ChainFound(stages: seq<Stage>, pins: Pins, a: Arithmetic) returns (figures: seq<Figures>, readings: seq<seq<Reading>>)
    requires Chain(stages, pins, a)
    ensures ChainIs(stages, figures, readings, pins, a)
  {
    hide LinkOk, StageIs;
    figures, readings := StagesFound(stages, |stages|, pins, a);
    forall i | 0 <= i < |stages| ensures SameCorpus(stages[i], stages[0]) {
      SharedCorpus(stages, i, figures, readings, pins, a);
    }
    forall i, j | 0 <= i < |stages| && j == i + 1 && j < |stages| ensures figures[i].finished <= figures[j].started {
      LinkTimes(stages, j, pins, a);
    }
  }

  lemma SharedCorpus(stages: seq<Stage>, i: nat, figures: seq<Figures>, readings: seq<seq<Reading>>, pins: Pins, a: Arithmetic)
    requires |figures| == |stages| && |readings| == |stages| && i < |stages|
    requires forall i | 0 <= i < |stages| :: StageIs(stages, i, figures[i], readings[i], pins, a)
    requires LinkOk(stages, i, pins, a)
    ensures SameCorpus(stages[i], stages[0])
  {
    hide Identified, IdentityOk, InputOk, TrailOk, CountsOk, FiguresAre, TrailIs, FromSoup, FromSnapshot, FromParent, CorpusOf;
    assert StageIs(stages, 0, figures[0], readings[0], pins, a) && StageIs(stages, i, figures[i], readings[i], pins, a);
    CorpusKnown(stages[0], pins);
    CorpusKnown(stages[i], pins);
  }

  lemma StageLinks(stages: seq<Stage>, figures: seq<Figures>, readings: seq<seq<Reading>>, pins: Pins, a: Arithmetic, i: nat)
    requires ChainIs(stages, figures, readings, pins, a) && i < |stages|
    ensures LinkOk(stages, i, pins, a)
  {
    hide IdentityOk, Identified, InputOk, FromSoup, FromSnapshot, FromParent, CountsOk, TrailOk, FiguresAre, TrailIs, CorpusOf;
    assert StageIs(stages, i, figures[i], readings[i], pins, a) && StageIs(stages, 0, figures[0], readings[0], pins, a);
    StageIsLink(stages, i, figures[i], readings[i], pins, a);
    CorpusKnown(stages[0], pins);
    CorpusKnown(stages[i], pins);
    assert SameCorpus(stages[i], stages[0]);
    if i > 0 {
      assert StageIs(stages, i - 1, figures[i - 1], readings[i - 1], pins, a);
      StageIsLink(stages, i - 1, figures[i - 1], readings[i - 1], pins, a);
      assert i == (i - 1) + 1 && figures[i - 1].finished <= figures[i].started;
    }
  }

  // The stage loop accepts exactly these chains.
  lemma ChainExact(stages: seq<Stage>, pins: Pins, a: Arithmetic)
    ensures Chain(stages, pins, a) <==> exists figures, readings :: ChainIs(stages, figures, readings, pins, a)
  {
    hide LinkOk, StageIs;
    if Chain(stages, pins, a) { var figures, readings := ChainFound(stages, pins, a); }
    if figures, readings :| ChainIs(stages, figures, readings, pins, a) {
      forall i | 0 <= i < |stages| ensures LinkOk(stages, i, pins, a) { StageLinks(stages, figures, readings, pins, a, i); }
    }
  }

  // The run summary: the artifact, the block, the number of records logged and of stages, the calibration.
  lemma SummaryIs(p: Publication, r: Remark)
    ensures r in SummaryOf(p)
       <==> || r == Remark("mt_artifact_digest", Name(p.artifact))
            || r == Remark("mt_finished_at", Count(p.finishedBlock))
            || r == Remark("mt_training_records", Count(|Entries(p.stages)|))
            || r == Remark("mt_training_stages", Count(|p.stages|))
            || r == Remark("mt_calibration_manifest_digest", Name(p.calibration))
  {
    hide Entries, Total;
    EntryTotal(p.stages);
  }
}
