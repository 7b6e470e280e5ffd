// The chunked weighted accumulation of one tensor, over any element arithmetic.
module WeightSoup {
  import opened Collections

  // The float operations on one element: finiteness and widening of a stored value, the in-place step
  // acc += w * (source - base), whether a weight is not zero, finiteness of the accumulator, narrowing.
  datatype Arithmetic<!S, !A, !W> = Arithmetic(
    finite: S -> bool, widen: S -> A, step: (A, A, A, W) -> A, nonzero: W -> bool, finiteSum: A -> bool, narrow: A -> S)

  type Tensor<S> = seq<seq<S>>

  // A base tensor, its sources and their weights; a tensor is a list of rows of `width` elements.
  datatype Soup<S, W> = Soup(base: Tensor<S>, sources: seq<Tensor<S>>, weights: seq<W>, width: nat)
  {
    // What the schema checks establish before.
    ghost predicate Shaped()
    {
      && base != [] && (forall i | 0 <= i < |base| :: |base[i]| == width)
      && (forall k | 0 <= k < |sources| :: |sources[k]| == |base|)
      && (forall k, i | 0 <= k < |sources| && 0 <= i < |base| :: |sources[k][i]| == width)
    }
  }

  // ---------------------------------------------------------------- the whole-tensor meaning

  // The accumulator of element (i, j) after the first k sources.
  ghost function Sum<S, A, W>(s: Soup<S, W>, a: Arithmetic<S, A, W>, i: nat, j: nat, k: nat): A
    requires s.Shaped() && i < |s.base| && j < s.width && k <= |s.sources| && k <= |s.weights|
  {
    if k == 0 then a.widen(s.base[i][j]) else
    var before := Sum(s, a, i, j, k - 1);
    if a.nonzero(s.weights[k - 1]) then
      a.step(before, a.widen(s.sources[k - 1][i][j]), a.widen(s.base[i][j]), s.weights[k - 1])
    else before
  }

  ghost predicate SourcesFinite<S, A, W>(s: Soup<S, W>, a: Arithmetic<S, A, W>, i: nat, k: nat)
    requires s.Shaped() && i < |s.base| && k <= |s.sources|
  {
    forall m, j | 0 <= m < k && 0 <= j < s.width :: a.finite(s.sources[m][i][j])
  }

  ghost predicate RowFinite<S(!new), A(!new), W(!new)>(row: seq<S>, a: Arithmetic<S, A, W>)
  {
    forall j | 0 <= j < |row| :: a.finite(row[j])
  }

  // Row i is finite everywhere: inputs, sums and results.
  ghost predicate RowOk<S(!new), A(!new), W(!new)>(s: Soup<S, W>, a: Arithmetic<S, A, W>, i: nat)
    requires s.Shaped() && i < |s.base| && |s.sources| == |s.weights|
  {
    && RowFinite(s.base[i], a) && SourcesFinite(s, a, i, |s.sources|)
    && (forall j | 0 <= j < s.width :: a.finiteSum(Sum(s, a, i, j, |s.sources|)))
    && (forall j | 0 <= j < s.width :: a.finite(a.narrow(Sum(s, a, i, j, |s.sources|))))
  }

  ghost function RowOf<S, A, W>(s: Soup<S, W>, a: Arithmetic<S, A, W>, i: nat): (r: seq<S>)
    requires s.Shaped() && i < |s.base| && |s.sources| == |s.weights|
    ensures |r| == s.width && forall j | 0 <= j < s.width :: r[j] == a.narrow(Sum(s, a, i, j, |s.sources|))
  {
    seq(s.width, j requires 0 <= j < s.width => a.narrow(Sum(s, a, i, j, |s.sources|)))
  }

  // Every element is its own ordered fold, or the whole tensor is refused.
  ghost function OutputOf<S(!new), A(!new), W(!new)>(s: Soup<S, W>, a: Arithmetic<S, A, W>): Option<Tensor<S>>
    requires s.Shaped()
  {
    if |s.sources| != |s.weights| || exists i | 0 <= i < |s.base| :: !RowOk(s, a, i) then None
    else Some(seq(|s.base|, i requires 0 <= i < |s.base| => RowOf(s, a, i)))
  }

  // A value of the base or of a source, zero weights included, a sum or a result is not finite.
  ghost predicate NotFinite<S(!new), A(!new), W(!new)>(s: Soup<S, W>, a: Arithmetic<S, A, W>, i: nat, j: nat)
    requires s.Shaped() && i < |s.base| && j < s.width && |s.sources| == |s.weights|
  {
    || !a.finite(s.base[i][j]) || (exists k | 0 <= k < |s.sources| :: !a.finite(s.sources[k][i][j]))
    || !a.finiteSum(Sum(s, a, i, j, |s.sources|)) || !a.finite(a.narrow(Sum(s, a, i, j, |s.sources|)))
  }

  lemma RowExact<S(!new), A(!new), W(!new)>(s: Soup<S, W>, a: Arithmetic<S, A, W>, i: nat)
    requires s.Shaped() && i < |s.base| && |s.sources| == |s.weights|
    ensures RowOk(s, a, i) <==> forall j: nat | j < s.width :: !NotFinite(s, a, i, j)
  {
    hide Sum;
    if forall j: nat | j < s.width :: !NotFinite(s, a, i, j) {
      forall j: nat | j < s.width
        ensures a.finite(s.base[i][j]) && a.finiteSum(Sum(s, a, i, j, |s.sources|))
        ensures a.finite(a.narrow(Sum(s, a, i, j, |s.sources|)))
      {
        assert !NotFinite(s, a, i, j);
      }
      forall m, j | 0 <= m < |s.sources| && 0 <= j < s.width ensures a.finite(s.sources[m][i][j]) {
        assert !NotFinite(s, a, i, j);
      }
    }
  }

  // A tensor is refused exactly for a missing weight or source, or for a number that is not finite.
  lemma RefusedExact<S(!new), A(!new), W(!new)>(s: Soup<S, W>, a: Arithmetic<S, A, W>)
    requires s.Shaped()
    ensures OutputOf(s, a) == None
       <==> |s.sources| != |s.weights| || exists i: nat, j: nat | i < |s.base| && j < s.width :: NotFinite(s, a, i, j)
  {
    hide RowOk, NotFinite, Sum, RowOf;
    if |s.sources| == |s.weights| {
      forall i | 0 <= i < |s.base| ensures RowOk(s, a, i) <==> forall j: nat | j < s.width :: !NotFinite(s, a, i, j) {
        RowExact(s, a, i);
      }
      if i: nat, j: nat :| i < |s.base| && j < s.width && NotFinite(s, a, i, j) { assert !RowOk(s, a, i); }
      if OutputOf(s, a) == None {
        var i :| 0 <= i < |s.base| && !RowOk(s, a, i);
        var j: nat :| j < s.width && NotFinite(s, a, i, j);
      }
    }
  }

  // The sources are added in their order: of two with weights that are not zero, the first one first.
  lemma SumOfTwo<S, A, W>(s: Soup<S, W>, a: Arithmetic<S, A, W>, i: nat, j: nat)
    requires s.Shaped() && i < |s.base| && j < s.width && |s.sources| == 2 && |s.weights| == 2
    requires a.nonzero(s.weights[0]) && a.nonzero(s.weights[1])
    ensures var base := a.widen(s.base[i][j]);
            Sum(s, a, i, j, 2)
            == a.step(a.step(base, a.widen(s.sources[0][i][j]), base, s.weights[0]), a.widen(s.sources[1][i][j]), base, s.weights[1])
    ensures Sum(s, a, i, j, 0) == a.widen(s.base[i][j])
  {
    assert Sum(s, a, i, j, 1) == a.step(a.widen(s.base[i][j]), a.widen(s.sources[0][i][j]), a.widen(s.base[i][j]), s.weights[0]);
  }

  // ---------------------------------------------------------------- chunks

  function Max(a: nat, b: nat): nat { if a < b then b else a }

  // As many whole rows as the chunk bytes hold, and at least one.
  function ChunkRows(rowElements: nat, elementBytes: nat, chunkBytes: nat): (rows: nat)
    ensures rows >= 1
  {
    Max(1, chunkBytes / Max(1, rowElements * elementBytes))
  }

  // A chunk takes as many rows as fit, unless not even one does.
  lemma ChunkFits(rowElements: nat, elementBytes: nat, chunkBytes: nat)
    ensures var bytes := Max(1, rowElements * elementBytes);
            var rows := ChunkRows(rowElements, elementBytes, chunkBytes);
            rows * bytes <= Max(bytes, chunkBytes) && (bytes <= chunkBytes ==> (rows + 1) * bytes > chunkBytes)
  {
    var bytes := Max(1, rowElements * elementBytes);
    QuotientBounds(chunkBytes, bytes);
  }

  lemma QuotientBounds(n: nat, d: nat)
    requires d > 0
    ensures (n / d) * d <= n < (n / d + 1) * d
    ensures n / d >= 1 <==> n >= d
  {
    var q := n / d;
    assert n == q * d + n % d;
    assert (q + 1) * d == q * d + d;
  }

  // The (start, stop) pairs of range(start, n, rows).
  function Chunks(start: nat, n: nat, rows: nat): seq<(nat, nat)>
    requires rows >= 1
    decreases n - start
  {
    if start >= n then [] else [(start, if start + rows < n then start + rows else n)] + Chunks(start + rows, n, rows)
  }

  ghost predicate InChunk(chunk: (nat, nat), row: nat) { chunk.0 <= row < chunk.1 }

  // Every row lies in exactly one chunk.
  lemma {:induction false} ChunksCoverOnce(start: nat, n: nat, rows: nat, row: nat)
    requires rows >= 1 && start <= row < n
    ensures exists c | 0 <= c < |Chunks(start, n, rows)| :: InChunk(Chunks(start, n, rows)[c], row)
    ensures forall c, d | 0 <= c < d < |Chunks(start, n, rows)| ::
              !(InChunk(Chunks(start, n, rows)[c], row) && InChunk(Chunks(start, n, rows)[d], row))
    decreases n - start
  {
    var all, rest := Chunks(start, n, rows), Chunks(start + rows, n, rows);
    assert forall c | 1 <= c < |all| :: all[c] == rest[c - 1];
    ChunksFrom(start + rows, n, rows);
    if row < start + rows {
      assert InChunk(all[0], row);
    } else {
      ChunksCoverOnce(start + rows, n, rows, row);
      var c :| 0 <= c < |rest| && InChunk(rest[c], row);
      assert InChunk(all[c + 1], row);
    }
  }

  lemma {:induction false} ChunksFrom(start: nat, n: nat, rows: nat)
    requires rows >= 1
    ensures forall c | 0 <= c < |Chunks(start, n, rows)| ::
              start <= Chunks(start, n, rows)[c].0 < Chunks(start, n, rows)[c].1 <= n
    decreases n - start
  {
    if start < n { ChunksFrom(start + rows, n, rows); }
  }

  // ---------------------------------------------------------------- the chunked computation

  predicate AllFinite<S, A, W>(chunk: Tensor<S>, a: Arithmetic<S, A, W>)
  {
    forall i | 0 <= i < |chunk| :: forall j | 0 <= j < |chunk[i]| :: a.finite(chunk[i][j])
  }

  predicate SumsFinite<S, A, W>(sums: seq<seq<A>>, a: Arithmetic<S, A, W>)
  {
    forall i | 0 <= i < |sums| :: forall j | 0 <= j < |sums[i]| :: a.finiteSum(sums[i][j])
  }

  function StepRow<S, A, W>(acc: seq<A>, source: seq<S>, base: seq<S>, w: W, a: Arithmetic<S, A, W>): (r: seq<A>)
    requires |acc| == |source| == |base|
    ensures |r| == |acc|
  {
    seq(|acc|, j requires 0 <= j < |acc| => a.step(acc[j], a.widen(source[j]), a.widen(base[j]), w))
  }

  function WidenRow<S, A, W>(row: seq<S>, a: Arithmetic<S, A, W>): (r: seq<A>)
    ensures |r| == |row|
  {
    seq(|row|, j requires 0 <= j < |row| => a.widen(row[j]))
  }

  function NarrowRow<S, A, W>(row: seq<A>, a: Arithmetic<S, A, W>): (r: seq<S>)
    ensures |r| == |row|
  {
    seq(|row|, j requires 0 <= j < |row| => a.narrow(row[j]))
  }

  ghost function SumRow<S, A, W>(s: Soup<S, W>, a: Arithmetic<S, A, W>, i: nat, k: nat): (r: seq<A>)
    requires s.Shaped() && i < |s.base| && k <= |s.sources| && k <= |s.weights|
    ensures |r| == s.width
  {
    seq(s.width, j requires 0 <= j < s.width => Sum(s, a, i, j, k))
  }

  // How one source changes the sums of a row.
  lemma NextSum<S, A, W>(s: Soup<S, W>, a: Arithmetic<S, A, W>, i: nat, k: nat)
    requires s.Shaped() && i < |s.base| && k < |s.sources| && k < |s.weights|
    ensures SumRow(s, a, i, k + 1)
         == if a.nonzero(s.weights[k]) then StepRow(SumRow(s, a, i, k), s.sources[k][i], s.base[i], s.weights[k], a)
            else SumRow(s, a, i, k)
  {
  }

  // One source into the accumulator, in place.
  method AddSource<S(!new), A(!new), W(!new)>(s: Soup<S, W>, a: Arithmetic<S, A, W>, start: nat, stop: nat, k: nat,
                                              acc: array<seq<A>>)
    requires s.Shaped() && start < stop <= |s.base| && k < |s.sources| && k < |s.weights| && acc.Length == stop - start
    requires forall r | 0 <= r < acc.Length :: acc[r] == SumRow(s, a, start + r, k)
    modifies acc
    ensures forall r | 0 <= r < acc.Length :: acc[r] == SumRow(s, a, start + r, k + 1)
  {
    hide SumRow, StepRow;
    if a.nonzero(s.weights[k]) {
      for r := 0 to acc.Length
        invariant forall q | 0 <= q < r :: acc[q] == SumRow(s, a, start + q, k + 1)
        invariant forall q | r <= q < acc.Length :: acc[q] == SumRow(s, a, start + q, k)
      {
        NextSum(s, a, start + r, k);
        acc[r] := StepRow(acc[r], s.sources[k][start + r], s.base[start + r], s.weights[k], a);
      }
    } else {
      forall i | start <= i < stop ensures SumRow(s, a, i, k + 1) == SumRow(s, a, i, k) {
        NextSum(s, a, i, k);
      }
    }
  }

  ghost predicate ChunkFinite<S(!new), A(!new), W(!new)>(s: Soup<S, W>, a: Arithmetic<S, A, W>, start: nat, stop: nat, k: nat)
    requires s.Shaped() && stop <= |s.base| && k <= |s.sources|
  {
    forall i: nat | start <= i < stop :: SourcesFinite(s, a, i, k)
  }

  // One chunk: rows start..stop of the result, or a refusal.
  method FillChunk<S(!new), A(!new), W(!new)>(s: Soup<S, W>, a: Arithmetic<S, A, W>, start: nat, stop: nat, result: array<seq<S>>)
    returns (ok: bool)
    requires s.Shaped() && start < stop <= |s.base| && result.Length == |s.base|
    modifies result
    ensures ok ==> |s.sources| == |s.weights| && forall i | start <= i < stop :: RowOk(s, a, i) && result[i] == RowOf(s, a, i)
    ensures !ok ==> |s.sources| != |s.weights| || exists i | start <= i < stop :: !RowOk(s, a, i)
    ensures forall i | 0 <= i < |s.base| && !(start <= i < stop) :: result[i] == old(result[i])
  {
    hide Sum;
    var chunk := s.base[start..stop];
    if !AllFinite(chunk, a) {
      if |s.sources| == |s.weights| { BadBase(s, a, start, stop); }
      return false;
    }
    var acc := new seq<A>[stop - start];
    for r := 0 to acc.Length
      invariant forall q | 0 <= q < r :: acc[q] == SumRow(s, a, start + q, 0)
      modifies acc
    {
      acc[r] := WidenRow(chunk[r], a);
      FirstSum(s, a, start + r);
    }
    var k := 0;
    while k < |s.sources| && k < |s.weights|
      invariant k <= |s.sources| && k <= |s.weights|
      invariant ChunkFinite(s, a, start, stop, k)
      invariant forall q | 0 <= q < acc.Length :: acc[q] == SumRow(s, a, start + q, k)
      modifies acc
    {
      var candidate := s.sources[k][start..stop];
      if !AllFinite(candidate, a) {
        if |s.sources| == |s.weights| { BadSource(s, a, start, stop, k); }
        return false;
      }
      GoodSource(s, a, start, stop, k);
      AddSource(s, a, start, stop, k, acc);
      k := k + 1;
    }
    if |s.sources| != |s.weights| { return false; }
    ok := Narrow(s, a, start, stop, acc, result);
  }

  lemma FirstSum<S, A, W>(s: Soup<S, W>, a: Arithmetic<S, A, W>, i: nat)
    requires s.Shaped() && i < |s.base|
    ensures SumRow(s, a, i, 0) == WidenRow(s.base[i], a)
  {
  }

  lemma BadBase<S(!new), A(!new), W(!new)>(s: Soup<S, W>, a: Arithmetic<S, A, W>, start: nat, stop: nat)
    requires s.Shaped() && start < stop <= |s.base| && |s.sources| == |s.weights| && !AllFinite(s.base[start..stop], a)
    ensures exists i | start <= i < stop :: !RowOk(s, a, i)
  {
    var chunk := s.base[start..stop];
    var r, j :| 0 <= r < |chunk| && 0 <= j < |chunk[r]| && !a.finite(chunk[r][j]);
    assert !RowFinite(s.base[start + r], a);
    assert !RowOk(s, a, start + r);
  }

  lemma BadSource<S(!new), A(!new), W(!new)>(s: Soup<S, W>, a: Arithmetic<S, A, W>, start: nat, stop: nat, k: nat)
    requires s.Shaped() && start < stop <= |s.base| && |s.sources| == |s.weights| && k < |s.sources|
    requires !AllFinite(s.sources[k][start..stop], a)
    ensures exists i | start <= i < stop :: !RowOk(s, a, i)
  {
    var chunk := s.sources[k][start..stop];
    var r, j :| 0 <= r < |chunk| && 0 <= j < |chunk[r]| && !a.finite(chunk[r][j]);
    assert s.sources[k][start + r][j] == chunk[r][j];
    assert !SourcesFinite(s, a, start + r, |s.sources|);
    assert !RowOk(s, a, start + r);
  }

  lemma GoodSource<S(!new), A(!new), W(!new)>(s: Soup<S, W>, a: Arithmetic<S, A, W>, start: nat, stop: nat, k: nat)
    requires s.Shaped() && start < stop <= |s.base| && k < |s.sources| && ChunkFinite(s, a, start, stop, k)
    requires AllFinite(s.sources[k][start..stop], a)
    ensures ChunkFinite(s, a, start, stop, k + 1)
  {
    var chunk := s.sources[k][start..stop];
    var next := k + 1;
    forall i: nat | start <= i < stop ensures SourcesFinite(s, a, i, next) {
      assert SourcesFinite(s, a, i, k);
      assert chunk[i - start] == s.sources[k][i];
      forall j | 0 <= j < s.width ensures a.finite(s.sources[k][i][j]) { assert a.finite(chunk[i - start][j]); }
    }
  }

  // The last two checks of a chunk and the copy into the result.
  method Narrow<S(!new), A(!new), W(!new)>(s: Soup<S, W>, a: Arithmetic<S, A, W>, start: nat, stop: nat, acc: array<seq<A>>,
                                           result: array<seq<S>>)
    returns (ok: bool)
    requires s.Shaped() && start < stop <= |s.base| && result.Length == |s.base| && |s.sources| == |s.weights|
    requires acc.Length == stop - start
    requires forall r | 0 <= r < acc.Length :: acc[r] == SumRow(s, a, start + r, |s.sources|)
    requires AllFinite(s.base[start..stop], a) && ChunkFinite(s, a, start, stop, |s.sources|)
    modifies result
    ensures ok ==> forall i | start <= i < stop :: RowOk(s, a, i) && result[i] == RowOf(s, a, i)
    ensures !ok ==> exists i | start <= i < stop :: !RowOk(s, a, i)
    ensures forall i | 0 <= i < |s.base| && !(start <= i < stop) :: result[i] == old(result[i])
  {
    hide Sum;
    var sums := acc[..];
    ChunkRowsOk(s, a, start, stop, sums);
    if !SumsFinite(sums, a) { return false; }
    var converted := seq(|sums|, r requires 0 <= r < |sums| => NarrowRow(sums[r], a));
    if !AllFinite(converted, a) { return false; }
    for r := 0 to acc.Length
      invariant forall i | start <= i < start + r :: result[i] == RowOf(s, a, i)
      invariant forall i | 0 <= i < |s.base| && !(start <= i < start + r) :: result[i] == old(result[i])
    {
      result[start + r] := converted[r];
      assert converted[r] == RowOf(s, a, start + r);
    }
    ok := true;
  }

  // The four checks of a chunk accept exactly the chunks all of whose rows are finite throughout.
  lemma ChunkRowsOk<S(!new), A(!new), W(!new)>(s: Soup<S, W>, a: Arithmetic<S, A, W>, start: nat, stop: nat, sums: seq<seq<A>>)
    requires s.Shaped() && start < stop <= |s.base| && |s.sources| == |s.weights| && |sums| == stop - start
    requires forall r | 0 <= r < |sums| :: sums[r] == SumRow(s, a, start + r, |s.sources|)
    requires AllFinite(s.base[start..stop], a) && ChunkFinite(s, a, start, stop, |s.sources|)
    ensures SumsFinite(sums, a) && AllFinite(seq(|sums|, r requires 0 <= r < |sums| => NarrowRow(sums[r], a)), a)
       <==> forall i | start <= i < stop :: RowOk(s, a, i)
  {
    hide Sum;
    var converted := seq(|sums|, r requires 0 <= r < |sums| => NarrowRow(sums[r], a));
    forall i | start <= i < stop ensures RowFinite(s.base[i], a) { assert s.base[start..stop][i - start] == s.base[i]; }
    if SumsFinite(sums, a) && AllFinite(converted, a) {
      forall i | start <= i < stop ensures RowOk(s, a, i) {
        assert sums[i - start] == SumRow(s, a, i, |s.sources|);
        assert converted[i - start] == NarrowRow(sums[i - start], a);
        forall j | 0 <= j < s.width
          ensures a.finiteSum(Sum(s, a, i, j, |s.sources|)) && a.finite(a.narrow(Sum(s, a, i, j, |s.sources|)))
        {
          assert a.finiteSum(sums[i - start][j]) && a.finite(converted[i - start][j]);
        }
      }
    }
    if forall i | start <= i < stop :: RowOk(s, a, i) {
      forall r, j | 0 <= r < |sums| && 0 <= j < |sums[r]|
        ensures a.finiteSum(sums[r][j]) && a.finite(converted[r][j])
      {
        assert RowOk(s, a, start + r);
      }
    }
  }

  // _output_tensor. The result does not mention the chunk size: for every chunk_bytes it is the
  // elementwise fold of the whole tensor, or a refusal.
  method OutputTensor<S(!new), A(!new), W(!new)>(s: Soup<S, W>, a: Arithmetic<S, A, W>, elementBytes: nat, chunkBytes: nat)
    returns (r: Option<Tensor<S>>)
    requires s.Shaped()
    ensures r == OutputOf(s, a)
  {
    hide Sum, RowOk;
    var n := |s.base|;
    var result := new seq<S>[n];
    var rows := ChunkRows(s.width, elementBytes, chunkBytes);
    var start := 0;
    while start < n
      invariant start > 0 ==> |s.sources| == |s.weights|
      invariant start > 0 ==> forall i | 0 <= i < start && i < n :: RowOk(s, a, i) && result[i] == RowOf(s, a, i)
      decreases n - start
    {
      var stop := if start + rows < n then start + rows else n;
      var ok := FillChunk(s, a, start, stop, result);
      if !ok { return None; }
      start := start + rows;
    }
    assert OutputOf(s, a).Some?;
    assert result[..] == OutputOf(s, a).value;
    r := Some(result[..]);
  }

  // ---------------------------------------------------------------- exact arithmetic

  // Without rounding: base + w * (source - base), skipping zero weights.
  function Exact(): Arithmetic<real, real, real>
  {
    Arithmetic(
      (x: real) => true, (x: real) => x,
      (acc: real, source: real, base: real, w: real) => acc + w * (source - base),
      (w: real) => w != 0.0, (x: real) => true, (x: real) => x)
  }

  // sum of w_m * (source_m - base) over the first k sources
  ghost function Offsets(s: Soup<real, real>, i: nat, j: nat, k: nat): real
    requires s.Shaped() && i < |s.base| && j < s.width && k <= |s.sources| && k <= |s.weights|
  {
    if k == 0 then 0.0 else Offsets(s, i, j, k - 1) + s.weights[k - 1] * (s.sources[k - 1][i][j] - s.base[i][j])
  }

  ghost function Blend(s: Soup<real, real>, i: nat, j: nat, k: nat): real
    requires s.Shaped() && i < |s.base| && j < s.width && k <= |s.sources| && k <= |s.weights|
  {
    if k == 0 then 0.0 else Blend(s, i, j, k - 1) + s.weights[k - 1] * s.sources[k - 1][i][j]
  }

  ghost function TotalWeight(weights: seq<real>): real
  {
    if weights == [] then 0.0 else TotalWeight(weights[..|weights| - 1]) + weights[|weights| - 1]
  }

  lemma Distribute(t: real, w: real, x: real, b: real)
    ensures (t + w) * b == t * b + w * b && w * (x - b) == w * x - w * b
  {
  }

  lemma {:induction false} ExactSum(s: Soup<real, real>, i: nat, j: nat, k: nat)
    requires s.Shaped() && i < |s.base| && j < s.width && k <= |s.sources| && k <= |s.weights|
    ensures Sum(s, Exact(), i, j, k) == s.base[i][j] + Offsets(s, i, j, k)
  {
    if k == 0 {
      assert Sum(s, Exact(), i, j, 0) == s.base[i][j] && Offsets(s, i, j, 0) == 0.0;
    } else {
      hide Sum, Offsets;
      ExactSum(s, i, j, k - 1);
      ExactStep(s, i, j, k);
    }
  }

  // A source of weight zero is passed over, and adds nothing.
  lemma ExactStep(s: Soup<real, real>, i: nat, j: nat, k: nat)
    requires s.Shaped() && i < |s.base| && j < s.width && 0 < k <= |s.sources| && k <= |s.weights|
    ensures var added := s.weights[k - 1] * (s.sources[k - 1][i][j] - s.base[i][j]);
            && Offsets(s, i, j, k) == Offsets(s, i, j, k - 1) + added
            && Sum(s, Exact(), i, j, k) == Sum(s, Exact(), i, j, k - 1) + added
  {
    var w, d := s.weights[k - 1], s.sources[k - 1][i][j] - s.base[i][j];
    if w == 0.0 { assert w * d == 0.0; }
  }

  lemma {:induction false} OffsetsBlend(s: Soup<real, real>, i: nat, j: nat, k: nat)
    requires s.Shaped() && i < |s.base| && j < s.width && k <= |s.sources| && k <= |s.weights|
    ensures Offsets(s, i, j, k) == Blend(s, i, j, k) - TotalWeight(s.weights[..k]) * s.base[i][j]
  {
    if k > 0 {
      OffsetsBlend(s, i, j, k - 1);
      assert s.weights[..k][..k - 1] == s.weights[..k - 1];
      Distribute(TotalWeight(s.weights[..k - 1]), s.weights[k - 1], s.sources[k - 1][i][j], s.base[i][j]);
    } else {
      assert TotalWeight(s.weights[..0]) == 0.0;
    }
  }

  // In exact arithmetic every element is base + sum w (source - base); with weights that add up to one it
  // is the weighted mean of the sources, and the base cancels.
  lemma SoupIsWeightedMean(s: Soup<real, real>, i: nat, j: nat)
    requires s.Shaped() && |s.sources| == |s.weights| && i < |s.base| && j < s.width
    ensures OutputOf(s, Exact()).Some? && |OutputOf(s, Exact()).value| == |s.base|
    ensures |OutputOf(s, Exact()).value[i]| == s.width
    ensures OutputOf(s, Exact()).value[i][j] == s.base[i][j] + Offsets(s, i, j, |s.sources|)
    ensures TotalWeight(s.weights) == 1.0 ==> OutputOf(s, Exact()).value[i][j] == Blend(s, i, j, |s.sources|)
  {
    ExactSum(s, i, j, |s.sources|);
    OffsetsBlend(s, i, j, |s.sources|);
    assert s.weights[..|s.sources|] == s.weights;
    forall r: nat | r < |s.base| ensures RowOk(s, Exact(), r) {
    }
    assert OutputOf(s, Exact()).value[i] == RowOf(s, Exact(), i);
  }

  // Half of 2 and half of 4 over base 1.
  lemma MeanExample()
    ensures var s := Soup([[1.0]], [[[2.0]], [[4.0]]], [0.5, 0.5], 1);
            s.Shaped() && OutputOf(s, Exact()).Some? && OutputOf(s, Exact()).value[0][0] == 3.0
  {
    var s := Soup([[1.0]], [[[2.0]], [[4.0]]], [0.5, 0.5], 1);
    SoupIsWeightedMean(s, 0, 0);
    assert Offsets(s, 0, 0, 1) == 0.5 && Offsets(s, 0, 0, 2) == 2.0;
  }
}
