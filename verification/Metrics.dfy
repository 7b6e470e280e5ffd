// The checker of a training stage's metric trail: records are read one by one and filed by epoch, and the filed
// epochs are compared with the grammar of MetricGrammar.
module Metrics {
  import opened Collections
  import opened MetricGrammar

  // A decoded JSON field: an int, a finite float, an infinity or NaN, or anything else (bools included).
  datatype Field = Whole(n: int) | Fraction(x: real) | NotFinite | Other

  type Metric = map<string, Field>

  const TRAINING_FIELDS: set<string> := {"step", "epoch", "elapsed_s", "loss", "learning_rate"}
  const VALIDATION_FIELDS: set<string> := {"step", "epoch", "elapsed_s", "validation_loss", "validation_perplexity"}

  // float(int), None on overflow; the largest elapsed_s allowed; math.isclose(perplexity, exp(min(20, loss))).
  datatype Floats = Floats(ofInt: int -> Option<real>, limit: real, close: (real, real) -> bool)

  // ---------------------------------------------------------------- one record

  function RequireInt(f: Field, minimum: int): (r: Option<int>)
    ensures r.Some? ==> r.value >= minimum
  {
    if f.Whole? && f.n >= minimum then Some(f.n) else None
  }

  function RequireNumber(f: Field, minimum: real, floats: Floats): (r: Option<real>)
    ensures r.Some? ==> r.value >= minimum
  {
    var x := match f case Whole(n) => floats.ofInt(n) case Fraction(x) => Some(x) case _ => None;
    if x.Some? && x.value >= minimum then x else None
  }

  function MetricKind(m: Metric): Option<Kind>
  {
    if m.Keys == TRAINING_FIELDS then Some(Training)
    else if m.Keys == VALIDATION_FIELDS then Some(Validation)
    else None
  }

  // The checks that look at one record alone.
  function ReadMetric(m: Metric, floats: Floats): Option<Reading>
  {
    var kind := MetricKind(m);
    if kind == None then None else
    var step, epoch := RequireInt(m["step"], 1), RequireInt(m["epoch"], 1);
    var elapsed := RequireNumber(m["elapsed_s"], 0.0, floats);
    if step == None || epoch == None || elapsed == None || elapsed.value > floats.limit then None
    else if kind == Some(Training) then
      if RequireNumber(m["loss"], 0.0, floats) == None || RequireNumber(m["learning_rate"], 0.0, floats) == None then None
      else Some(Reading(Training, step.value, epoch.value, elapsed.value))
    else
      var loss := RequireNumber(m["validation_loss"], 0.0, floats);
      var perplexity := RequireNumber(m["validation_perplexity"], 1.0, floats);
      if loss == None || perplexity == None || !floats.close(perplexity.value, loss.value) then None
      else Some(Reading(Validation, step.value, epoch.value, elapsed.value))
  }

  // Every record passes alone, and yields these readings.
  ghost predicate Reads(records: seq<Metric>, readings: seq<Reading>, floats: Floats)
  {
    |readings| == |records| && forall i | 0 <= i < |records| :: ReadMetric(records[i], floats) == Some(readings[i])
  }

  // ---------------------------------------------------------------- the checker

  predicate EpochsCovered(found: set<nat>, epochs: nat)
  {
    (forall e | e in found :: 1 <= e <= epochs) && forall e: nat | 1 <= e <= epochs :: e in found
  }

  ghost predicate Grouped(byEpoch: map<nat, seq<Reading>>, readings: seq<Reading>)
  {
    && (forall epoch | epoch in byEpoch :: byEpoch[epoch] == Group(readings, epoch) && byEpoch[epoch] != [])
    && (forall epoch | epoch !in byEpoch :: Group(readings, epoch) == [])
  }

  lemma Snoc(readings: seq<Reading>, r: Reading)
    ensures Steps(readings + [r]) == Steps(readings) + if r.kind == Training then [r.step] else []
    ensures forall epoch :: Group(readings + [r], epoch) == Group(readings, epoch) + if r.epoch == epoch then [r] else []
  {
    assert (readings + [r])[..|readings|] == readings;
  }

  lemma ForwardSnoc(readings: seq<Reading>, r: Reading, epochs: nat)
    requires Forward(readings, epochs) && r.step >= 1 && r.epoch >= 1
    ensures Forward(readings + [r], epochs)
       <==> r.epoch <= epochs
            && (readings != [] ==> var last := readings[|readings| - 1];
                                   last.step <= r.step && last.epoch <= r.epoch && last.elapsed <= r.elapsed)
  {
    var all := readings + [r];
    assert all[|readings|] == r;
    if readings != [] { assert all[|readings| - 1] == readings[|readings| - 1]; }
  }

  function Filed(byEpoch: map<nat, seq<Reading>>, r: Reading): map<nat, seq<Reading>>
  {
    byEpoch[r.epoch := (if r.epoch in byEpoch then byEpoch[r.epoch] else []) + [r]]
  }

  lemma GroupedSnoc(byEpoch: map<nat, seq<Reading>>, readings: seq<Reading>, r: Reading)
    requires Grouped(byEpoch, readings)
    ensures Grouped(Filed(byEpoch, r), readings + [r])
  {
    hide Group;
    Snoc(readings, r);
  }

  lemma ReadsSnoc(records: seq<Metric>, readings: seq<Reading>, i: nat, floats: Floats)
    requires i < |records| && Reads(records[..i], readings, floats) && ReadMetric(records[i], floats).Some?
    ensures Reads(records[..i + 1], readings + [ReadMetric(records[i], floats).value], floats)
  {
    hide ReadMetric;
    assert records[..i + 1] == records[..i] + [records[i]];
  }

  lemma Unreadable(records: seq<Metric>, i: nat, floats: Floats)
    requires i < |records| && ReadMetric(records[i], floats) == None
    ensures forall all :: !Reads(records, all, floats)
  {
    hide ReadMetric;
  }

  // A refused prefix stays refused.
  lemma ForwardPrefix(readings: seq<Reading>, n: nat, epochs: nat)
    requires n <= |readings| && Forward(readings, epochs)
    ensures Forward(readings[..n], epochs)
  {
  }

  lemma ReadsPrefix(records: seq<Metric>, readings: seq<Reading>, other: seq<Reading>, n: nat, floats: Floats)
    requires n <= |records| && Reads(records, readings, floats) && Reads(records[..n], other, floats)
    ensures other == readings[..n]
  {
    forall i | 0 <= i < n ensures other[i] == readings[i] {
      assert records[..n][i] == records[i];
    }
  }

  // The first pass: read every record, refuse anything that goes back, collect steps and epochs.
  method Scan(records: seq<Metric>, epochs: nat, floats: Floats)
    returns (accepted: bool, ghost readings: seq<Reading>, steps: seq<nat>, byEpoch: map<nat, seq<Reading>>)
    ensures accepted ==> Reads(records, readings, floats) && Forward(readings, epochs)
    ensures accepted ==> steps == Steps(readings) && Grouped(byEpoch, readings)
    ensures !accepted ==> forall all :: Reads(records, all, floats) ==> !Forward(all, epochs)
  {
    hide ReadMetric, Steps, Group, Reads, Forward, Grouped, ElapsedOk;
    var previousStep: nat, previousEpoch: nat, previousElapsed := 0, 1, 0.0;
    readings, steps, byEpoch := [], [], map[];
    EmptyTrail(records, epochs, floats);
    for i := 0 to |records|
      invariant Reads(records[..i], readings, floats) && Forward(readings, epochs)
      invariant steps == Steps(readings) && Grouped(byEpoch, readings)
      invariant readings == [] ==> previousStep == 0 && previousEpoch == 1 && previousElapsed == 0.0
      invariant readings != [] ==>
                  var last := readings[|readings| - 1];
                  previousStep == last.step && previousEpoch == last.epoch && previousElapsed == last.elapsed
    {
      var reading := ReadMetric(records[i], floats);
      if reading == None {
        Unreadable(records, i, floats);
        accepted := false;
        return;
      }
      var r := reading.value;
      ReadBounds(records[i], floats);
      ReadsSnoc(records, readings, i, floats);
      if r.step < previousStep || r.epoch < previousEpoch || r.epoch > epochs || r.elapsed < previousElapsed {
        ForwardSnoc(readings, r, epochs);
        Refuse(records, readings + [r], i + 1, epochs, floats);
        accepted := false;
        return;
      }
      ForwardSnoc(readings, r, epochs);
      Snoc(readings, r);
      if r.kind == Training { steps := steps + [r.step]; }
      GroupedSnoc(byEpoch, readings, r);
      byEpoch := Filed(byEpoch, r);
      readings := readings + [r];
      previousStep, previousEpoch, previousElapsed := r.step, r.epoch, r.elapsed;
    }
    assert records[..|records|] == records;
    accepted := true;
  }

  lemma EmptyTrail(records: seq<Metric>, epochs: nat, floats: Floats)
    ensures Steps([]) == [] && Grouped(map[], []) && Forward([], epochs) && Reads(records[..0], [], floats)
  {
  }

  lemma ReadBounds(m: Metric, floats: Floats)
    requires ReadMetric(m, floats).Some?
    ensures ReadMetric(m, floats).value.step >= 1 && ReadMetric(m, floats).value.epoch >= 1
    ensures ReadMetric(m, floats).value.elapsed >= 0.0
  {
  }

  lemma Refuse(records: seq<Metric>, part: seq<Reading>, n: nat, epochs: nat, floats: Floats)
    requires n <= |records| && Reads(records[..n], part, floats) && !Forward(part, epochs)
    ensures forall all :: Reads(records, all, floats) ==> !Forward(all, epochs)
  {
    hide Forward;
    forall all | Reads(records, all, floats) ensures !Forward(all, epochs) {
      ReadsPrefix(records, all, part, n, floats);
      if Forward(all, epochs) { ForwardPrefix(all, n, epochs); }
    }
  }

  method ValidateMetrics(records: seq<Metric>, epochs: nat, updates: nat, floats: Floats) returns (accepted: bool)
    ensures accepted <==> exists readings :: Reads(records, readings, floats) && Grammar(readings, epochs, updates)
    ensures accepted ==> |records| == updates + epochs && epochs <= updates
  {
    hide ReadMetric, Forward, Steps, GroupOk, Group, Trail, ElapsedOk;
    forall all ensures Checked(all, epochs, updates) <==> Grammar(all, epochs, updates) {
      GrammarExact(all, epochs, updates);
    }
    ghost var readings: seq<Reading>;
    var ok, steps, byEpoch;
    ok, readings, steps, byEpoch := Scan(records, epochs, floats);
    if !ok { return false; }
    OnlyReading(records, readings, floats);
    if steps != Upto(updates) { return false; }
    if !EpochsCovered(byEpoch.Keys, epochs) {
      EpochMissing(byEpoch, readings, epochs);
      return false;
    }
    for epoch := 1 to epochs + 1
      invariant forall e: nat | 1 <= e < epoch :: GroupOk(Group(readings, e))
    {
      if !GroupOk(byEpoch[epoch]) { return false; }
    }
    assert Checked(readings, epochs, updates);
    RecordCount(readings, epochs, updates);
    accepted := true;
  }

  lemma OnlyReading(records: seq<Metric>, readings: seq<Reading>, floats: Floats)
    requires Reads(records, readings, floats)
    ensures forall all :: Reads(records, all, floats) ==> all == readings
  {
    forall all | Reads(records, all, floats) ensures all == readings {
      assert records[..|records|] == records && all[..|records|] == all;
      ReadsPrefix(records, all, readings, |records|, floats);
    }
  }

  // An epoch without records, or a record outside the epochs, fails one of the checks.
  lemma EpochMissing(byEpoch: map<nat, seq<Reading>>, readings: seq<Reading>, epochs: nat)
    requires Grouped(byEpoch, readings) && !EpochsCovered(byEpoch.Keys, epochs)
    requires Forward(readings, epochs)
    ensures exists e: nat :: 1 <= e <= epochs && !GroupOk(Group(readings, e))
  {
    forall e: nat | e in byEpoch ensures 1 <= e <= epochs {
      GroupMembers(readings, e);
      var group := Group(readings, e);
      assert group[0] in readings;
    }
    var e: nat :| 1 <= e <= epochs && e !in byEpoch;
    assert Group(readings, e) == [];
  }

  lemma {:induction false} GroupMembers(readings: seq<Reading>, epoch: nat)
    ensures forall i | 0 <= i < |Group(readings, epoch)| ::
              Group(readings, epoch)[i] in readings && Group(readings, epoch)[i].epoch == epoch
  {
    if readings != [] {
      var n := |readings| - 1;
      GroupMembers(readings[..n], epoch);
      assert readings == readings[..n] + [readings[n]];
    }
  }

  // ---------------------------------------------------------------- what a record must hold

  // The field is this number: a float, or an int that has a float.
  ghost predicate NumberIs(f: Field, x: real, floats: Floats)
  {
    f == Fraction(x) || exists n :: f == Whole(n) && floats.ofInt(n) == Some(x)
  }

  ghost predicate AtLeast(f: Field, minimum: real, floats: Floats) { exists x :: NumberIs(f, x, floats) && x >= minimum }

  // A record and what is read from it: exactly the five fields of its kind, positive step and epoch, bounded
  // time, and for a validation record a perplexity that is close to the one its loss gives.
  ghost predicate RecordIs(m: Metric, r: Reading, floats: Floats)
  {
    && m.Keys == (if r.kind == Training then {"step", "epoch", "elapsed_s", "loss", "learning_rate"}
                  else {"step", "epoch", "elapsed_s", "validation_loss", "validation_perplexity"})
    && m["step"] == Whole(r.step) && r.step >= 1 && m["epoch"] == Whole(r.epoch) && r.epoch >= 1
    && NumberIs(m["elapsed_s"], r.elapsed, floats) && 0.0 <= r.elapsed <= floats.limit
    && match r.kind
       case Training => AtLeast(m["loss"], 0.0, floats) && AtLeast(m["learning_rate"], 0.0, floats)
       case Validation => exists loss, perplexity ::
         && NumberIs(m["validation_loss"], loss, floats) && loss >= 0.0
         && NumberIs(m["validation_perplexity"], perplexity, floats) && perplexity >= 1.0
         && floats.close(perplexity, loss)
  }

  lemma NumberExact(f: Field, minimum: real, floats: Floats, x: real)
    ensures RequireNumber(f, minimum, floats) == Some(x) <==> NumberIs(f, x, floats) && x >= minimum
  {
  }

  lemma AtLeastExact(f: Field, minimum: real, floats: Floats)
    ensures RequireNumber(f, minimum, floats).Some? <==> AtLeast(f, minimum, floats)
  {
    hide RequireNumber, NumberIs;
    forall x ensures RequireNumber(f, minimum, floats) == Some(x) <==> NumberIs(f, x, floats) && x >= minimum {
      NumberExact(f, minimum, floats, x);
    }
    if RequireNumber(f, minimum, floats).Some? { assert NumberIs(f, RequireNumber(f, minimum, floats).value, floats); }
  }

  lemma KindExact(m: Metric)
    ensures MetricKind(m) == Some(Training) <==> m.Keys == {"step", "epoch", "elapsed_s", "loss", "learning_rate"}
    ensures MetricKind(m) == Some(Validation)
       <==> m.Keys == {"step", "epoch", "elapsed_s", "validation_loss", "validation_perplexity"}
  {
    if m.Keys == VALIDATION_FIELDS { assert "loss" !in m.Keys; }
    if m.Keys == TRAINING_FIELDS { assert "loss" in m.Keys; }
  }

  lemma RecordExact(m: Metric, r: Reading, floats: Floats)
    ensures ReadMetric(m, floats) == Some(r) <==> RecordIs(m, r, floats)
  {
    hide RequireNumber, NumberIs, AtLeast;
    KindExact(m);
    if MetricKind(m).Some? {
      NumberExact(m["elapsed_s"], 0.0, floats, r.elapsed);
      if MetricKind(m) == Some(Training) {
        AtLeastExact(m["loss"], 0.0, floats);
        AtLeastExact(m["learning_rate"], 0.0, floats);
      } else {
        ValidationExact(m, floats);
      }
    }
  }

  lemma ValidationExact(m: Metric, floats: Floats)
    requires "validation_loss" in m && "validation_perplexity" in m
    ensures var loss := RequireNumber(m["validation_loss"], 0.0, floats);
            var perplexity := RequireNumber(m["validation_perplexity"], 1.0, floats);
            loss.Some? && perplexity.Some? && floats.close(perplexity.value, loss.value)
            <==> exists l, p :: && NumberIs(m["validation_loss"], l, floats) && l >= 0.0
                                && NumberIs(m["validation_perplexity"], p, floats) && p >= 1.0 && floats.close(p, l)
  {
    hide RequireNumber, NumberIs;
    forall x
      ensures RequireNumber(m["validation_loss"], 0.0, floats) == Some(x)
         <==> NumberIs(m["validation_loss"], x, floats) && x >= 0.0
      ensures RequireNumber(m["validation_perplexity"], 1.0, floats) == Some(x)
         <==> NumberIs(m["validation_perplexity"], x, floats) && x >= 1.0
    {
      NumberExact(m["validation_loss"], 0.0, floats, x);
      NumberExact(m["validation_perplexity"], 1.0, floats, x);
    }
  }
}
