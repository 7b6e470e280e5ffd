// The balanced, hash-ranked choice of boundary pairs from the rows of a training fold.
module Selection {
  import opened Collections
  import opened Ordering
  import opened Corruption

  const MAX_EXAMPLES := 512
  const NEGATIVE_MARK: Text := Codes("::boundary-negative::")

  // What each ranking hashes; the hash itself, seed included, is a parameter.
  datatype Key =
    | CandidateKey(ref: Text, direction: Direction, side: Side, index: nat, text: Text)
    | SourceKey(kind: Kind, ref: Text)
    | PairKey(ref: Text, direction: Direction)

  type Hash = Key -> Text

  datatype Kind = ExpansionOnly | ContractionOnly | Balanced
  datatype Choice = Choice(row: Row, expansion: Option<Candidate>, contraction: Option<Candidate>)
  datatype Entry = Entry(row: Row, candidate: Candidate)
  datatype Pair = Pair(source: Text, negativeRef: Text, positive: Text, candidate: Candidate)
  datatype Tally = Tally(choices: seq<Choice>, ineligible: map<Reason, nat>)

  datatype Refusal = BadRequest | BadHeldout | BadRefs | Overlap | BadRow | Collision | Unbalanced
  datatype Generation = Generated(pairs: seq<Pair>, eligible: nat, ineligible: map<Reason, nat>) | Declined(why: Refusal)

  // ---------------------------------------------------------------- the candidate kept per direction

  predicate CandidateLeq(hash: Hash, ref: Text, a: Candidate, b: Candidate)
  {
    var ha := hash(CandidateKey(ref, a.direction, a.side, a.index, a.corrupted));
    var hb := hash(CandidateKey(ref, b.direction, b.side, b.index, b.corrupted));
    if ha != hb then LexLeq(ha, hb)
    else if a.side != b.side then a.side == Left
    else if a.index != b.index then a.index < b.index
    else LexLeq(a.corrupted, b.corrupted)
  }

  // min() with a key: the first of the least.
  function LeastFrom(best: Candidate, cs: seq<Candidate>, hash: Hash, ref: Text): Candidate
    decreases |cs|
  {
    if cs == [] then best
    else LeastFrom(if CandidateLeq(hash, ref, best, cs[0]) then best else cs[0], cs[1..], hash, ref)
  }

  function Least(cs: seq<Candidate>, hash: Hash, ref: Text): Option<Candidate>
  {
    if cs == [] then None else Some(LeastFrom(cs[0], cs[1..], hash, ref))
  }

  function ChoiceOf(row: Row, found: Found, hash: Hash): Choice
  {
    Choice(row, Least(found.expansion, hash, row.ref), Least(found.contraction, hash, row.ref))
  }

  // ---------------------------------------------------------------- eligible rows and their pools

  function Count(ineligible: map<Reason, nat>, reason: Reason): map<Reason, nat>
  {
    ineligible[reason := (if reason in ineligible then ineligible[reason] else 0) + 1]
  }

  function TallyRows(rows: seq<Row>, t: Tally, space: Space, hash: Hash): Option<Tally>
    decreases |rows|
  {
    if rows == [] then Some(t) else
    match CandidatesOf(rows[0], space)
    case Invalid => None
    case Ineligible(reason) => TallyRows(rows[1..], t.(ineligible := Count(t.ineligible, reason)), space, hash)
    case Candidates(found) =>
      TallyRows(rows[1..], t.(choices := t.choices + [ChoiceOf(rows[0], found, hash)]), space, hash)
  }

  predicate OfKind(c: Choice, kind: Kind)
  {
    match kind
    case ExpansionOnly => c.expansion.Some? && c.contraction.None?
    case ContractionOnly => c.expansion.None? && c.contraction.Some?
    case Balanced => c.expansion.Some? && c.contraction.Some?
  }

  function Only(choices: seq<Choice>, kind: Kind): (r: seq<Choice>)
    ensures forall i | 0 <= i < |r| :: OfKind(r[i], kind) && r[i] in choices
  {
    if choices == [] then []
    else (if OfKind(choices[0], kind) then [choices[0]] else []) + Only(choices[1..], kind)
  }

  function SourceRank(kind: Kind, hash: Hash): Choice -> (Text, Text)
  {
    (c: Choice) => (hash(SourceKey(kind, c.row.ref)), c.row.ref)
  }

  function Pool(choices: seq<Choice>, kind: Kind, hash: Hash): (r: seq<Choice>)
    ensures multiset(r) == multiset(Only(choices, kind))
    ensures |r| == |Only(choices, kind)|
    ensures AllOf(r, kind)
  {
    var r := Sort(Only(choices, kind), ByKey(SourceRank(kind, hash)));
    SortPermutes(Only(choices, kind), ByKey(SourceRank(kind, hash)));
    EachAmong(Only(choices, kind), r);
    r
  }

  // ---------------------------------------------------------------- how many, and which

  function Min(a: nat, b: nat): nat { if a < b then a else b }

  // Taking k of each direction, single-direction rows first, leaves this many for two-direction rows.
  predicate Fits(k: nat, expansion: nat, contraction: nat, both: nat)
  {
    (k - Min(k, expansion)) + (k - Min(k, contraction)) <= both
  }

  function LargestFit(limit: nat, expansion: nat, contraction: nat, both: nat): (k: nat)
    ensures k <= limit && Fits(k, expansion, contraction, both)
    ensures forall j: nat | k < j <= limit :: !Fits(j, expansion, contraction, both)
  {
    if limit == 0 || Fits(limit, expansion, contraction, both) then limit
    else LargestFit(limit - 1, expansion, contraction, both)
  }

  method PerDirection(limit: nat, expansion: nat, contraction: nat, both: nat) returns (k: nat)
    ensures k == LargestFit(limit, expansion, contraction, both)
  {
    k := limit;
    while k > 0
      invariant k <= limit
      invariant LargestFit(limit, expansion, contraction, both) == LargestFit(k, expansion, contraction, both)
    {
      var expansionNeed := k - Min(k, expansion);
      var contractionNeed := k - Min(k, contraction);
      if expansionNeed + contractionNeed <= both { break; }
      k := k - 1;
    }
  }

  predicate Offers(c: Choice, direction: Direction)
  {
    if direction == Expansion then c.expansion.Some? else c.contraction.Some?
  }

  function EntryOf(c: Choice, direction: Direction): (e: Entry)
    requires Offers(c, direction)
  {
    Entry(c.row, if direction == Expansion then c.expansion.value else c.contraction.value)
  }

  predicate AllOffer(cs: seq<Choice>, direction: Direction)
  {
    forall i | 0 <= i < |cs| :: Offers(cs[i], direction)
  }

  function AsEntries(cs: seq<Choice>, direction: Direction): (r: seq<Entry>)
    requires AllOffer(cs, direction)
    ensures |r| == |cs|
  {
    seq(|cs|, i requires 0 <= i < |cs| => EntryOf(cs[i], direction))
  }

  predicate AllOf(cs: seq<Choice>, kind: Kind)
  {
    forall i | 0 <= i < |cs| :: OfKind(cs[i], kind)
  }

  lemma JoinedOffer(single: seq<Choice>, both: seq<Choice>, kind: Kind, take: nat, from: nat, to: nat, direction: Direction)
    requires AllOf(single, kind) && AllOf(both, Balanced) && take <= |single| && from <= to <= |both|
    requires kind == if direction == Expansion then ExpansionOnly else ContractionOnly
    ensures AllOffer(single[..take] + both[from..to], direction)
  {
    var all := single[..take] + both[from..to];
    forall i | 0 <= i < |all| ensures Offers(all[i], direction) {
      if i < take {
        assert all[i] == single[i] && OfKind(single[i], kind);
      } else {
        assert all[i] == both[from + i - take] && OfKind(both[from + i - take], Balanced);
      }
    }
  }

  function PairRank(hash: Hash): Entry -> (Text, Text)
  {
    (e: Entry) => (hash(PairKey(e.row.ref, e.candidate.direction)), e.row.ref)
  }

  // The chosen entries before their last sort, given the ranked pools.
  function Taken(expansion: seq<Choice>, contraction: seq<Choice>, both: seq<Choice>, k: nat): (r: seq<Entry>)
    requires AllOf(expansion, ExpansionOnly) && AllOf(contraction, ContractionOnly) && AllOf(both, Balanced)
    requires Fits(k, |expansion|, |contraction|, |both|)
    ensures |r| == 2 * k
  {
    var expansionTake, contractionTake := Min(k, |expansion|), Min(k, |contraction|);
    var expansionNeed, contractionNeed := k - expansionTake, k - contractionTake;
    JoinedOffer(expansion, both, ExpansionOnly, expansionTake, 0, expansionNeed, Expansion);
    JoinedOffer(contraction, both, ContractionOnly, contractionTake, expansionNeed, expansionNeed + contractionNeed,
                Contraction);
    AsEntries(expansion[..expansionTake] + both[0..expansionNeed], Expansion)
    + AsEntries(contraction[..contractionTake] + both[expansionNeed..expansionNeed + contractionNeed], Contraction)
  }

  function EntriesOf(choices: seq<Choice>, limit: nat, hash: Hash): seq<Entry>
  {
    var expansion, contraction := Pool(choices, ExpansionOnly, hash), Pool(choices, ContractionOnly, hash);
    var both := Pool(choices, Balanced, hash);
    var k := LargestFit(limit, |expansion|, |contraction|, |both|);
    Sort(Taken(expansion, contraction, both, k), ByKey(PairRank(hash)))
  }

  // ---------------------------------------------------------------- pairs

  function Id(hash: Hash, ref: Text, c: Candidate): Text
  {
    var digest := hash(CandidateKey(ref, c.direction, c.side, c.index, c.corrupted));
    if |digest| <= 16 then digest else digest[..16]
  }

  function PairOf(e: Entry, hash: Hash): Pair
  {
    Pair(e.row.ref, e.row.ref + NEGATIVE_MARK + Id(hash, e.row.ref, e.candidate), e.row.gold, e.candidate)
  }

  function PairUp(entries: seq<Entry>, sources: set<Text>, heldout: set<Text>, hash: Hash, done: seq<Pair>): Option<seq<Pair>>
    decreases |entries|
  {
    if entries == [] then Some(done) else
    var pair := PairOf(entries[0], hash);
    if pair.negativeRef in sources || pair.negativeRef in heldout then None
    else PairUp(entries[1..], sources, heldout, hash, done + [pair])
  }

  function Towards(direction: Direction): Pair -> bool
  {
    (pair: Pair) => pair.candidate.direction == direction
  }

  function RowKey(): Row -> (Text, Text)
  {
    (row: Row) => (row.ref, [])
  }

  function Refs(rows: seq<Row>): set<Text>
  {
    set i | 0 <= i < |rows| :: rows[i].ref
  }

  predicate DistinctRefs(rows: seq<Row>)
  {
    forall i, j | 0 <= i < j < |rows| :: rows[i].ref != rows[j].ref
  }

  function GenerationOf(rows: seq<Row>, heldout: set<Text>, maximum: int, space: Space, hash: Hash): Generation
  {
    if !(0 <= maximum <= MAX_EXAMPLES) || maximum % 2 != 0 then Declined(BadRequest)
    else if [] in heldout then Declined(BadHeldout)
    else
      var ordered := Sort(rows, ByKey(RowKey()));
      if [] in Refs(ordered) || !DistinctRefs(ordered) then Declined(BadRefs)
      else if Refs(ordered) * heldout != {} then Declined(Overlap)
      else
        var tally := TallyRows(ordered, Tally([], map[]), space, hash);
        if tally == None then Declined(BadRow)
        else
          var pairs := PairUp(EntriesOf(tally.value.choices, maximum / 2, hash), Refs(ordered), heldout, hash, []);
          if pairs == None then Declined(Collision)
          else if CountIf(pairs.value, Towards(Expansion)) != CountIf(pairs.value, Towards(Contraction)) then Declined(Unbalanced)
          else Generated(pairs.value, |tally.value.choices|, tally.value.ineligible)
  }

  // ---------------------------------------------------------------- the generator

  method TallyEligible(rows: seq<Row>, space: Space, hash: Hash) returns (r: Option<Tally>)
    ensures r == TallyRows(rows, Tally([], map[]), space, hash)
  {
    hide CandidatesOf;
    var t := Tally([], map[]);
    for i := 0 to |rows|
      invariant TallyRows(rows, Tally([], map[]), space, hash) == TallyRows(rows[i..], t, space, hash)
    {
      assert rows[i..][1..] == rows[i + 1..];
      var outcome := BoundaryRowCandidates(rows[i], space);
      match outcome {
        case Invalid => return None;
        case Ineligible(reason) => t := t.(ineligible := Count(t.ineligible, reason));
        case Candidates(found) => t := t.(choices := t.choices + [ChoiceOf(rows[i], found, hash)]);
      }
    }
    r := Some(t);
  }

  method BuildPairs(entries: seq<Entry>, sources: set<Text>, heldout: set<Text>, hash: Hash)
    returns (r: Option<seq<Pair>>)
    ensures r == PairUp(entries, sources, heldout, hash, [])
  {
    hide PairOf;
    var pairs: seq<Pair> := [];
    for i := 0 to |entries|
      invariant PairUp(entries, sources, heldout, hash, []) == PairUp(entries[i..], sources, heldout, hash, pairs)
    {
      assert entries[i..][1..] == entries[i + 1..];
      var pair := PairOf(entries[i], hash);
      if pair.negativeRef in sources || pair.negativeRef in heldout { return None; }
      pairs := pairs + [pair];
    }
    r := Some(pairs);
  }

  method GenerateBoundaryCorruptions(rows: seq<Row>, heldout: set<Text>, maximum: int, space: Space, hash: Hash)
    returns (r: Generation)
    ensures r == GenerationOf(rows, heldout, maximum, space, hash)
  {
    hide Pool, PairUp, Taken, LargestFit;
    if !(0 <= maximum <= MAX_EXAMPLES) || maximum % 2 != 0 { return Declined(BadRequest); }
    if [] in heldout { return Declined(BadHeldout); }
    var ordered := Sort(rows, ByKey(RowKey()));
    if [] in Refs(ordered) || !DistinctRefs(ordered) { return Declined(BadRefs); }
    if Refs(ordered) * heldout != {} { return Declined(Overlap); }
    var tally := TallyEligible(ordered, space, hash);
    if tally == None { return Declined(BadRow); }
    var choices := tally.value.choices;
    var expansion, contraction := Pool(choices, ExpansionOnly, hash), Pool(choices, ContractionOnly, hash);
    var both := Pool(choices, Balanced, hash);
    var k := PerDirection(maximum / 2, |expansion|, |contraction|, |both|);
    var entries := Sort(Taken(expansion, contraction, both, k), ByKey(PairRank(hash)));
    var pairs := BuildPairs(entries, Refs(ordered), heldout, hash);
    if pairs == None { return Declined(Collision); }
    if CountIf(pairs.value, Towards(Expansion)) != CountIf(pairs.value, Towards(Contraction)) { return Declined(Unbalanced); }
    r := Generated(pairs.value, |choices|, tally.value.ineligible);
  }
}
