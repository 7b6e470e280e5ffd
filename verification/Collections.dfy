// Options, duplicate-free sequences, spans of a sequence, and the Python text type, shared by the other modules:
// a text is a sequence of code points, lone surrogates included.
module Collections {

  datatype Option<+T> = None | Some(value: T)

  // A Python str: a sequence of code points, lone surrogates included.
  type Text = seq<int>

  function Codes(literal: string): (t: Text)
    ensures |t| == |literal|
  {
    seq(|literal|, i requires 0 <= i < |literal| => literal[i] as int)
  }

  ghost predicate Distinct<T>(s: seq<T>)
  {
    forall i, j | 0 <= i < j < |s| :: s[i] != s[j]
  }

  ghost predicate Prefix<T>(a: seq<T>, b: seq<T>)
  {
    |a| <= |b| && b[..|a|] == a
  }

  // f holds exactly `part` from position `pos` up to `end`.
  predicate Spans<T(==)>(f: seq<T>, pos: nat, end: nat, part: seq<T>): (spans: bool)
    ensures spans ==> end == pos + |part| <= |f|
    ensures part == [] && end == pos <= |f| ==> spans
  {
    end == pos + |part| <= |f| && f[pos..end] == part
  }

  lemma SpansConcat<T>(f: seq<T>, pos: nat, end: nat, a: seq<T>, b: seq<T>)
    ensures Spans(f, pos, end, a + b)
       <==> Spans(f, pos, pos + |a|, a) && Spans(f, pos + |a|, end, b)
  {
    var mid := pos + |a|;
    if end == mid + |b| <= |f| {
      assert f[pos..end] == f[pos..mid] + f[mid..end];
      assert (a + b)[..|a|] == a && (a + b)[|a|..] == b;
      assert (f[pos..mid] + f[mid..end])[..|a|] == f[pos..mid];
      assert (f[pos..mid] + f[mid..end])[|a|..] == f[mid..end];
    }
  }

  lemma SliceOfSlice<T>(s: seq<T>, a: nat, b: nat, c: nat, d: nat)
    requires a <= b <= |s| && c <= d <= b - a
    ensures s[a..b][c..d] == s[a + c..a + d]
  {
    var part := s[a..b][c..d];
    forall i | 0 <= i < |part| ensures part[i] == s[a + c..a + d][i] {
      assert part[i] == s[a..b][c + i] == s[a + c + i];
    }
  }
}
