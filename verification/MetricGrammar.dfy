// The grammar of a training stage's metric trail, and why two flat passes decide it.
module MetricGrammar {
  datatype Kind = Training | Validation

  // What is read from one accepted record.
  datatype Reading = Reading(kind: Kind, step: nat, epoch: nat, elapsed: real)

  function Upto(n: nat): (r: seq<nat>)
    ensures |r| == n && forall i | 0 <= i < n :: r[i] == i + 1
  {
    seq(n, i requires 0 <= i < n => i + 1)
  }

  function Steps(readings: seq<Reading>): seq<nat>
  {
    if readings == [] then [] else
    var n := |readings| - 1;
    Steps(readings[..n]) + if readings[n].kind == Training then [readings[n].step] else []
  }

  // n training records of the epoch, then its validation record, which repeats the last step.
  ghost predicate EpochRun(readings: seq<Reading>, epoch: nat, n: nat)
  {
    && 1 <= n < |readings|
    && (forall i | 0 <= i < n :: readings[i].kind == Training && readings[i].epoch == epoch)
    && readings[n].kind == Validation && readings[n].epoch == epoch && readings[n].step == readings[n - 1].step
  }

  // The records split into the epochs from this one to the last.
  ghost predicate Trail(readings: seq<Reading>, epoch: nat, epochs: nat)
    decreases |readings|
  {
    if epoch > epochs then readings == []
    else exists n: nat :: EpochRun(readings, epoch, n) && Trail(readings[n + 1..], epoch + 1, epochs)
  }

  ghost predicate ElapsedOk(readings: seq<Reading>)
  {
    forall i, j | 0 <= i < j < |readings| :: readings[i].elapsed <= readings[j].elapsed
  }

  ghost predicate Grammar(readings: seq<Reading>, epochs: nat, updates: nat)
  {
    Trail(readings, 1, epochs) && Steps(readings) == Upto(updates) && ElapsedOk(readings)
  }

  // ---------------------------------------------------------------- what the two passes of the checker test

  // Steps and epochs never go back, nor does the clock; no epoch is beyond the configured ones.
  ghost predicate Forward(readings: seq<Reading>, epochs: nat)
  {
    EpochsWithin(readings, 1, epochs) && EpochsRise(readings) && StepsRise(readings, 1) && ElapsedOk(readings)
  }

  ghost predicate EpochsWithin(readings: seq<Reading>, first: nat, last: nat)
  {
    forall i | 0 <= i < |readings| :: first <= readings[i].epoch <= last
  }

  ghost predicate EpochsRise(readings: seq<Reading>)
  {
    forall i, j | 0 <= i < j < |readings| :: readings[i].epoch <= readings[j].epoch
  }

  ghost predicate StepsRise(readings: seq<Reading>, first: nat)
  {
    && (forall i | 0 <= i < |readings| :: readings[i].step >= first)
    && (forall i, j | 0 <= i < j < |readings| :: readings[i].step <= readings[j].step)
  }

  function Group(readings: seq<Reading>, epoch: nat): seq<Reading>
  {
    if readings == [] then [] else
    var n := |readings| - 1;
    Group(readings[..n], epoch) + if readings[n].epoch == epoch then [readings[n]] else []
  }

  function Places(group: seq<Reading>, kind: Kind): (r: seq<nat>)
    ensures forall i | 0 <= i < |r| :: r[i] < |group| && group[r[i]].kind == kind
  {
    if group == [] then [] else
    var n := |group| - 1;
    Places(group[..n], kind) + if group[n].kind == kind then [n] else []
  }

  predicate GroupOk(group: seq<Reading>)
  {
    && |group| > 0 && Places(group, Validation) == [|group| - 1]
    && Places(group, Training) != []
    && group[|group| - 1].step == group[Places(group, Training)[|Places(group, Training)| - 1]].step
  }

  ghost predicate Checked(readings: seq<Reading>, epochs: nat, updates: nat)
  {
    Forward(readings, epochs) && Steps(readings) == Upto(updates)
    && forall epoch | 1 <= epoch <= epochs :: GroupOk(Group(readings, epoch))
  }

  // ---------------------------------------------------------------- joining lists of readings

  lemma {:induction false} StepsAppend(a: seq<Reading>, b: seq<Reading>)
    ensures Steps(a + b) == Steps(a) + Steps(b)
  {
    if b == [] {
      assert a + b == a;
    } else {
      var n := |b| - 1;
      StepsAppend(a, b[..n]);
      assert (a + b)[..|a| + n] == a + b[..n];
    }
  }

  lemma {:induction false} GroupAppend(a: seq<Reading>, b: seq<Reading>, epoch: nat)
    ensures Group(a + b, epoch) == Group(a, epoch) + Group(b, epoch)
  {
    if b == [] {
      assert a + b == a;
    } else {
      var n := |b| - 1;
      GroupAppend(a, b[..n], epoch);
      assert (a + b)[..|a| + n] == a + b[..n];
    }
  }

  ghost predicate AllIn(readings: seq<Reading>, epoch: nat)
  {
    forall i | 0 <= i < |readings| :: readings[i].epoch == epoch
  }

  lemma {:induction false} GroupOfOne(readings: seq<Reading>, own: nat, epoch: nat)
    requires AllIn(readings, own)
    ensures Group(readings, epoch) == if epoch == own then readings else []
  {
    if readings != [] {
      var n := |readings| - 1;
      GroupOfOne(readings[..n], own, epoch);
      assert readings == readings[..n] + [readings[n]];
    }
  }

  lemma {:induction false} GroupAbsent(readings: seq<Reading>, epoch: nat)
    requires forall i | 0 <= i < |readings| :: readings[i].epoch != epoch
    ensures Group(readings, epoch) == []
  {
    if readings != [] { GroupAbsent(readings[..|readings| - 1], epoch); }
  }

  lemma {:induction false} FirstBeyond(readings: seq<Reading>, epoch: nat, last: nat) returns (k: nat)
    requires EpochsWithin(readings, epoch, last) && EpochsRise(readings)
    ensures k <= |readings| && AllIn(readings[..k], epoch)
    ensures EpochsWithin(readings[k..], epoch + 1, last) && EpochsRise(readings[k..])
  {
    if readings == [] || readings[0].epoch > epoch {
      k := 0;
    } else {
      var rest := readings[1..];
      k := FirstBeyond(rest, epoch, last);
      assert rest[k..] == readings[k + 1..];
      assert readings[..k + 1] == [readings[0]] + rest[..k];
      k := k + 1;
    }
  }

  // When epochs never go back, the first epoch's group is a prefix.
  lemma GroupIsPrefix(readings: seq<Reading>, epoch: nat, last: nat)
    requires EpochsWithin(readings, epoch, last) && EpochsRise(readings)
    ensures var k := |Group(readings, epoch)|;
            && k <= |readings| && readings[..k] == Group(readings, epoch) && AllIn(readings[..k], epoch)
            && EpochsWithin(readings[k..], epoch + 1, last) && EpochsRise(readings[k..])
  {
    hide Group, EpochsRise;
    var k := FirstBeyond(readings, epoch, last);
    GroupHead(readings, k, epoch, last);
  }

  lemma GroupHead(readings: seq<Reading>, k: nat, epoch: nat, last: nat)
    requires k <= |readings| && AllIn(readings[..k], epoch) && EpochsWithin(readings[k..], epoch + 1, last)
    ensures Group(readings, epoch) == readings[..k]
  {
    hide Group;
    GroupAppend(readings[..k], readings[k..], epoch);
    GroupOfOne(readings[..k], epoch, epoch);
    GroupAbsent(readings[k..], epoch);
    assert readings == readings[..k] + readings[k..];
    assert readings[..k] + [] == readings[..k];
  }

  // ---------------------------------------------------------------- one epoch

  lemma {:induction false} PlacesExact(group: seq<Reading>, kind: Kind)
    ensures forall i: nat :: i in Places(group, kind) <==> i < |group| && group[i].kind == kind
    ensures forall i, j | 0 <= i < j < |Places(group, kind)| :: Places(group, kind)[i] < Places(group, kind)[j]
  {
    if group != [] { PlacesExact(group[..|group| - 1], kind); }
  }

  // The per-epoch test accepts exactly the runs of the grammar.
  lemma GroupExact(group: seq<Reading>, epoch: nat)
    requires AllIn(group, epoch)
    ensures GroupOk(group) <==> |group| > 0 && EpochRun(group, epoch, |group| - 1)
  {
    hide Places;
    PlacesExact(group, Validation);
    PlacesExact(group, Training);
    var n := |group| - 1;
    var valid, train := Places(group, Validation), Places(group, Training);
    if GroupOk(group) {
      assert forall i: nat | i < n :: i !in valid;
      assert n in valid;
      assert train[|train| - 1] in train;
      assert n - 1 in train;
      LastIsLargest(train, n - 1);
    }
    if n >= 0 && EpochRun(group, epoch, n) {
      assert n in valid && n - 1 in train && n !in train;
      SingletonPlaces(valid, n);
      LastIsLargest(train, n - 1);
      assert train[|train| - 1] in train;
    }
  }

  lemma LastIsLargest(places: seq<nat>, i: nat)
    requires forall a, b | 0 <= a < b < |places| :: places[a] < places[b]
    requires i in places
    ensures i <= places[|places| - 1]
  {
  }

  lemma FirstTwoDiffer(places: seq<nat>)
    requires forall a, b | 0 <= a < b < |places| :: places[a] < places[b]
    ensures |places| > 1 ==> places[0] < places[1]
  {
  }

  lemma SingletonPlaces(places: seq<nat>, n: nat)
    requires forall a, b | 0 <= a < b < |places| :: places[a] < places[b]
    requires n in places && forall i: nat :: i in places ==> i == n
    ensures places == [n]
  {
    FirstTwoDiffer(places);
    forall i | 0 <= i < |places| ensures places[i] == n { assert places[i] in places; }
  }

  // ---------------------------------------------------------------- the checker's tests imply the grammar

  lemma GroupsAfter(readings: seq<Reading>, k: nat, epoch: nat)
    requires k <= |readings| && AllIn(readings[..k], epoch)
    ensures forall e | e != epoch :: Group(readings, e) == Group(readings[k..], e)
  {
    hide Group;
    forall e | e != epoch ensures Group(readings, e) == Group(readings[k..], e) {
      GroupAppend(readings[..k], readings[k..], e);
      GroupOfOne(readings[..k], epoch, e);
      assert readings == readings[..k] + readings[k..];
    }
  }

  lemma FirstWithin(readings: seq<Reading>, first: nat, last: nat)
    requires EpochsWithin(readings, first, last)
    ensures readings != [] ==> first <= readings[0].epoch <= last
  {
  }

  lemma {:induction false} CheckedTrail(readings: seq<Reading>, epoch: nat, epochs: nat)
    requires epoch <= epochs + 1 && EpochsWithin(readings, epoch, epochs) && EpochsRise(readings)
    requires forall e | epoch <= e <= epochs :: GroupOk(Group(readings, e))
    ensures Trail(readings, epoch, epochs)
    decreases epochs + 1 - epoch
  {
    hide GroupOk, Group, EpochsRise, AllIn;
    FirstWithin(readings, epoch, epochs);
    if epoch <= epochs {
      hide EpochsWithin;
      var group := Group(readings, epoch);
      GroupIsPrefix(readings, epoch, epochs);
      GroupExact(group, epoch);
      GroupsAfter(readings, |group|, epoch);
      CheckedTrail(readings[|group|..], epoch + 1, epochs);
      TrailCons(readings, epoch, epochs, |group| - 1);
    }
  }

  lemma TrailCons(readings: seq<Reading>, epoch: nat, epochs: nat, n: nat)
    requires epoch <= epochs && n < |readings| && EpochRun(readings[..n + 1], epoch, n)
    requires Trail(readings[n + 1..], epoch + 1, epochs)
    ensures Trail(readings, epoch, epochs)
  {
    RunOfPrefix(readings, epoch, n);
  }

  lemma RunOfPrefix(readings: seq<Reading>, epoch: nat, n: nat)
    requires n < |readings| && EpochRun(readings[..n + 1], epoch, n)
    ensures EpochRun(readings, epoch, n)
  {
    assert forall i | 0 <= i <= n :: readings[..n + 1][i] == readings[i];
  }

  // ---------------------------------------------------------------- the grammar implies the tests

  lemma RunPrefix(readings: seq<Reading>, epoch: nat, n: nat)
    requires EpochRun(readings, epoch, n)
    ensures n + 1 <= |readings| && AllIn(readings[..n + 1], epoch) && EpochRun(readings[..n + 1], epoch, n)
    ensures GroupOk(readings[..n + 1])
  {
    GroupExact(readings[..n + 1], epoch);
  }

  lemma JoinEpochs(readings: seq<Reading>, n: nat, epoch: nat, epochs: nat)
    requires n <= |readings| && AllIn(readings[..n], epoch) && epoch <= epochs
    requires EpochsWithin(readings[n..], epoch + 1, epochs) && EpochsRise(readings[n..])
    ensures EpochsWithin(readings, epoch, epochs) && EpochsRise(readings)
    ensures Group(readings, epoch) == readings[..n]
  {
    hide Group;
    var head, tail := readings[..n], readings[n..];
    assert forall i | n <= i < |readings| :: readings[i] == tail[i - n];
    assert forall i | 0 <= i < n :: readings[i] == head[i];
    GroupHead(readings, n, epoch, epochs);
  }

  // The first epoch of a trail, and the trail after it.
  lemma FirstRun(readings: seq<Reading>, epoch: nat, epochs: nat) returns (n: nat)
    requires Trail(readings, epoch, epochs) && epoch <= epochs
    ensures n + 1 <= |readings| && EpochRun(readings, epoch, n) && Trail(readings[n + 1..], epoch + 1, epochs)
  {
    n :| EpochRun(readings, epoch, n) && Trail(readings[n + 1..], epoch + 1, epochs);
  }

  lemma NoRun(readings: seq<Reading>, epoch: nat, epochs: nat)
    requires Trail(readings, epoch, epochs) && epoch > epochs
    ensures readings == []
  {
  }

  lemma {:induction false} TrailEpochs(readings: seq<Reading>, epoch: nat, epochs: nat)
    requires Trail(readings, epoch, epochs)
    ensures EpochsWithin(readings, epoch, epochs) && EpochsRise(readings)
    ensures forall e | epoch <= e <= epochs :: GroupOk(Group(readings, e))
    decreases |readings|
  {
    hide GroupOk, Group, AllIn, Trail, EpochRun;
    if epoch > epochs {
      NoRun(readings, epoch, epochs);
    } else {
      hide EpochsWithin, EpochsRise;
      var n := FirstRun(readings, epoch, epochs);
      RunPrefix(readings, epoch, n);
      TrailEpochs(readings[n + 1..], epoch + 1, epochs);
      JoinEpochs(readings, n + 1, epoch, epochs);
      GroupsAfter(readings, n + 1, epoch);
    }
  }

  function From(k: nat, n: nat): (r: seq<nat>)
    ensures |r| == n && forall i | 0 <= i < n :: r[i] == k + i + 1
  {
    seq(n, i requires 0 <= i < n => k + i + 1)
  }

  lemma {:induction false} TrainingRun(readings: seq<Reading>)
    requires forall i | 0 <= i < |readings| :: readings[i].kind == Training
    ensures |Steps(readings)| == |readings| && forall i | 0 <= i < |readings| :: Steps(readings)[i] == readings[i].step
  {
    if readings != [] {
      var n := |readings| - 1;
      TrainingRun(readings[..n]);
      forall i | 0 <= i < |readings| ensures Steps(readings)[i] == readings[i].step {
        if i < n { assert Steps(readings)[i] == Steps(readings[..n])[i] == readings[..n][i].step; }
      }
    }
  }

  lemma RunSteps(readings: seq<Reading>, epoch: nat, n: nat)
    requires EpochRun(readings, epoch, n)
    ensures |Steps(readings[..n + 1])| == n
    ensures forall i | 0 <= i < n :: Steps(readings[..n + 1])[i] == readings[i].step
  {
    assert readings[..n + 1][..n] == readings[..n];
    TrainingRun(readings[..n]);
  }

  lemma JoinSteps(readings: seq<Reading>, epoch: nat, n: nat, k: nat)
    requires EpochRun(readings, epoch, n) && (forall i | 0 <= i < n :: readings[i].step == k + i + 1)
    requires StepsRise(readings[n + 1..], k + n + 1)
    ensures StepsRise(readings, k + 1)
  {
    var tail := readings[n + 1..];
    assert forall i | n + 1 <= i < |readings| :: readings[i] == tail[i - n - 1];
  }

  lemma StepsOfTail(readings: seq<Reading>, epoch: nat, n: nat, k: nat)
    requires EpochRun(readings, epoch, n) && Steps(readings) == From(k, |Steps(readings)|)
    ensures forall i | 0 <= i < n :: readings[i].step == k + i + 1
    ensures Steps(readings[n + 1..]) == From(k + n, |Steps(readings[n + 1..])|)
  {
    hide Steps;
    var head, tail := readings[..n + 1], readings[n + 1..];
    assert readings == head + tail;
    StepsAppend(head, tail);
    RunSteps(readings, epoch, n);
    var all := Steps(readings);
    assert forall i | 0 <= i < n :: all[i] == Steps(head)[i];
    forall i | 0 <= i < |Steps(tail)| ensures Steps(tail)[i] == k + n + i + 1 { assert all[n + i] == Steps(tail)[i]; }
  }

  // Consecutive training steps make every step, validation included, go forward.
  lemma {:induction false} TrailSteps(readings: seq<Reading>, epoch: nat, epochs: nat, k: nat)
    requires Trail(readings, epoch, epochs) && Steps(readings) == From(k, |Steps(readings)|)
    ensures StepsRise(readings, k + 1)
    decreases |readings|
  {
    hide Steps, Trail, EpochRun;
    if epoch > epochs {
      NoRun(readings, epoch, epochs);
    } else {
      hide StepsRise;
      var n := FirstRun(readings, epoch, epochs);
      StepsOfTail(readings, epoch, n, k);
      TrailSteps(readings[n + 1..], epoch + 1, epochs, k + n);
      JoinSteps(readings, epoch, n, k);
    }
  }

  // The two passes of the checker accept exactly the grammar.
  lemma GrammarExact(readings: seq<Reading>, epochs: nat, updates: nat)
    ensures Checked(readings, epochs, updates) <==> Grammar(readings, epochs, updates)
  {
    hide Trail, GroupOk, Group, Steps;
    if Checked(readings, epochs, updates) { CheckedTrail(readings, 1, epochs); }
    if Grammar(readings, epochs, updates) {
      TrailEpochs(readings, 1, epochs);
      assert Upto(updates) == From(0, updates);
      TrailSteps(readings, 1, epochs, 0);
    }
  }

  // There is one record for each update and one for each epoch, and every epoch has an update.
  lemma {:induction false} TrailCount(readings: seq<Reading>, epoch: nat, epochs: nat)
    requires Trail(readings, epoch, epochs) && epoch <= epochs + 1
    ensures |readings| == |Steps(readings)| + (epochs + 1 - epoch) && epochs + 1 - epoch <= |Steps(readings)|
    decreases |readings|
  {
    hide Steps, Trail, EpochRun;
    if epoch <= epochs {
      var n := FirstRun(readings, epoch, epochs);
      StepsAppend(readings[..n + 1], readings[n + 1..]);
      RunSteps(readings, epoch, n);
      assert readings == readings[..n + 1] + readings[n + 1..];
      TrailCount(readings[n + 1..], epoch + 1, epochs);
    } else {
      NoRun(readings, epoch, epochs);
      NoSteps();
    }
  }

  lemma NoSteps()
    ensures Steps([]) == []
  {
  }

  lemma RecordCount(readings: seq<Reading>, epochs: nat, updates: nat)
    requires Grammar(readings, epochs, updates)
    ensures |readings| == updates + epochs && epochs <= updates
  {
    hide Trail, Steps;
    TrailCount(readings, 1, epochs);
  }
}
