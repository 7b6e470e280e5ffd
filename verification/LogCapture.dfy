// Bounded capture of child output.
module LogCapture {
  // The runner's _BoundedLog and the converter's capture loop. A running SHA-256 object is represented by
  // the bytes it has absorbed; `hash` turns those into the digest text that a record shows.

  import opened Bytes
  import opened Collections

  function First(s: seq<Byte>, limit: nat): (r: seq<Byte>)
    ensures |r| == if |s| <= limit then |s| else limit
  {
    if |s| <= limit then s else s[..limit]
  }

  function Last(s: seq<Byte>, limit: nat): (r: seq<Byte>)
    ensures |r| == if |s| <= limit then |s| else limit
  {
    if |s| <= limit then s else s[|s| - limit..]
  }

  function Concat(chunks: seq<seq<Byte>>): seq<Byte>
  {
    if chunks == [] then [] else Concat(chunks[..|chunks| - 1]) + chunks[|chunks| - 1]
  }

  lemma FirstGrows(s: seq<Byte>, chunk: seq<Byte>, limit: nat)
    ensures var room := limit - |First(s, limit)|;
            First(s + chunk, limit) == if room > 0 then First(s, limit) + First(chunk, room) else First(s, limit)
  {
    var room := limit - |First(s, limit)|;
    if room > 0 {
      assert (s + chunk)[..|s|] == s;
      if |s + chunk| > limit {
        assert (s + chunk)[..limit] == s + chunk[..room];
      }
    } else {
      assert (s + chunk)[..limit] == s[..limit];
    }
  }

  lemma TailConcat(s: seq<Byte>, chunk: seq<Byte>, from: nat)
    requires from <= |s|
    ensures s[from..] + chunk == (s + chunk)[from..]
  {
  }

  lemma TailOfTail(s: seq<Byte>, a: nat, b: nat)
    requires a + b <= |s|
    ensures s[a..][b..] == s[a + b..]
  {
  }

  lemma LastGrows(s: seq<Byte>, chunk: seq<Byte>, limit: nat)
    ensures Last(s + chunk, limit) == Last(Last(s, limit) + chunk, limit)
  {
    var all, kept := s + chunk, Last(s, limit) + chunk;
    assert kept == all[|all| - |kept|..] by { TailConcat(s, chunk, |s| - |Last(s, limit)|); }
    if |kept| > limit {
      TailOfTail(all, |all| - |kept|, |kept| - limit);
    }
  }

  // What a record says about one stream.
  datatype Payload = Payload(bytes: nat, digest: Text, captured: seq<Byte>, capturedBytes: nat,
                             capturedDigest: Text, truncated: bool)

  // The payload of a whole stream, however it was cut into chunks.
  function PayloadOf(stream: seq<Byte>, limit: nat, hash: seq<Byte> -> Text): Payload
  {
    var captured := First(stream, limit);
    Payload(|stream|, hash(stream), captured, |captured|, hash(captured), |stream| > limit)
  }

  // ---------------------------------------------------------------- _BoundedLog

  class BoundedLog {
    const maximum: nat
    var total: nat
    var captured: seq<Byte>
    var absorbed: seq<Byte>

    ghost predicate Valid()
      reads this
    {
      total == |absorbed| && captured == First(absorbed, maximum)
    }

    constructor (maximum: nat)
      ensures Valid() && this.maximum == maximum && absorbed == []
    {
      this.maximum := maximum;
      total := 0;
      captured := [];
      absorbed := [];
    }

    method Update(value: seq<Byte>)
      requires Valid()
      modifies this
      ensures Valid() && absorbed == old(absorbed) + value
    {
      FirstGrows(absorbed, value, maximum);
      total := total + |value|;
      absorbed := absorbed + value;
      var remaining := maximum - |captured|;
      if remaining > 0 {
        captured := captured + if |value| <= remaining then value else value[..remaining];
      }
    }

    method Report(hash: seq<Byte> -> Text) returns (r: Payload)
      requires Valid()
      ensures r == PayloadOf(absorbed, maximum, hash)
    {
      r := Payload(total, hash(absorbed), captured, |captured|, hash(captured), total > |captured|);
    }
  }

  // The chunks a stream arrives in do not show in its payload.
  method LogStream(chunks: seq<seq<Byte>>, maximum: nat, hash: seq<Byte> -> Text) returns (r: Payload)
    ensures r == PayloadOf(Concat(chunks), maximum, hash)
  {
    var log := new BoundedLog(maximum);
    for index := 0 to |chunks|
      invariant log.Valid() && log.maximum == maximum && log.absorbed == Concat(chunks[..index])
    {
      assert chunks[..index + 1][..index] == chunks[..index];
      log.Update(chunks[index]);
    }
    assert chunks[..|chunks|] == chunks;
    r := log.Report(hash);
  }

  // ---------------------------------------------------------------- the converter's capture loop

  const MAX_CAPTURED: nat := 1024 * 1024
  const MAX_ERROR_TEXT: nat := 4096

  datatype Stream = Stdout | Stderr
  // One os.read: an empty chunk is the end of the stream.
  datatype Read = Read(stream: Stream, chunk: seq<Byte>)

  // What was read from one stream, in order.
  function StreamOf(events: seq<Read>, stream: Stream): seq<Byte>
  {
    if events == [] then [] else
    var last := events[|events| - 1];
    StreamOf(events[..|events| - 1], stream) + if last.stream == stream then last.chunk else []
  }

  // Writes a chunk to a file through short writes. `accepts(i)` is what the i-th write call takes.
  method WriteAll(file: seq<Byte>, raw: seq<Byte>, accepts: nat -> int) returns (ok: bool, written: seq<Byte>)
    ensures ok ==> written == file + raw
    ensures ok <==> forall i | 0 <= i < |raw| && Progress(raw, accepts, i) < |raw| :: accepts(i) >= 1
  {
    var done, calls := 0, 0;
    written := file;
    while done < |raw|
      invariant 0 <= done <= |raw| && calls <= done
      invariant done == Progress(raw, accepts, calls) && written == file + raw[..done]
      invariant forall i | 0 <= i < calls :: accepts(i) >= 1
      decreases |raw| - done
    {
      var taken := accepts(calls);
      if taken < 1 { return false, written; }
      var step := if taken <= |raw| - done then taken else |raw| - done;
      assert raw[..done] + raw[done..done + step] == raw[..done + step];
      written := written + raw[done..done + step];
      done := done + step;
      calls := calls + 1;
    }
    assert raw[..|raw|] == raw;
    forall i | 0 <= i < |raw| && Progress(raw, accepts, i) < |raw| ensures accepts(i) >= 1 {
      if i >= calls { ProgressStays(raw, accepts, calls, i); }
    }
    ok := true;
  }

  // How much of raw is written after `calls` calls, if none failed.
  function Progress(raw: seq<Byte>, accepts: nat -> int, calls: nat): (done: nat)
    ensures done <= |raw|
  {
    if calls == 0 then 0 else
    var before := Progress(raw, accepts, calls - 1);
    var taken := accepts(calls - 1);
    if taken < 1 then before else if taken <= |raw| - before then before + taken else |raw|
  }

  lemma {:induction false} ProgressStays(raw: seq<Byte>, accepts: nat -> int, calls: nat, later: nat)
    requires calls <= later && Progress(raw, accepts, calls) == |raw|
    ensures Progress(raw, accepts, later) == |raw|
    decreases later
  {
    if calls < later { ProgressStays(raw, accepts, calls, later - 1); }
  }

  // The loop's variables for one stream; `file` is the log file on disk.
  datatype Capture = Capture(total: nat, absorbed: seq<Byte>, captured: nat, capturedAbsorbed: seq<Byte>, file: seq<Byte>)

  ghost predicate CaptureOk(c: Capture, stream: seq<Byte>)
  {
    && c.total == |stream| && c.absorbed == stream
    && c.file == First(stream, MAX_CAPTURED) && c.capturedAbsorbed == c.file && c.captured == |c.file|
  }

  method CaptureChunk(c: Capture, chunk: seq<Byte>, accepts: nat -> int, ghost stream: seq<Byte>)
    returns (r: Option<Capture>)
    requires CaptureOk(c, stream)
    ensures r.Some? ==> CaptureOk(r.value, stream + chunk)
    ensures (forall n: nat :: accepts(n) >= 1) ==> r.Some?
  {
    FirstGrows(stream, chunk, MAX_CAPTURED);
    var more := c.(absorbed := c.absorbed + chunk, total := c.total + |chunk|);
    var remaining := MAX_CAPTURED - c.captured;
    if remaining > 0 {
      var prefix := if |chunk| <= remaining then chunk else chunk[..remaining];
      var ok, file := WriteAll(c.file, prefix, accepts);
      if !ok { return None; }
      more := more.(file := file, capturedAbsorbed := c.capturedAbsorbed + prefix, captured := c.captured + |prefix|);
    }
    r := Some(more);
  }

  // The stream check of a receipt.
  predicate StreamCheck(p: Payload, valid: Text -> bool)
  {
    && p.capturedBytes == (if p.bytes <= MAX_CAPTURED then p.bytes else MAX_CAPTURED)
    && (p.truncated <==> p.bytes > p.capturedBytes)
    && valid(p.digest) && valid(p.capturedDigest)
  }

  function PayloadFrom(c: Capture, hash: seq<Byte> -> Text): Payload
  {
    Payload(c.total, hash(c.absorbed), c.file, c.captured, hash(c.capturedAbsorbed), c.total > c.captured)
  }

  // Reads until both streams are closed. Both records are those of the whole streams, the receipt
  // accepts them, and the error tail is the end of stderr.
  method CaptureStreams(events: seq<Read>, accepts: (nat, nat) -> int, hash: seq<Byte> -> Text, valid: Text -> bool)
    returns (r: Option<(Payload, Payload, seq<Byte>)>)
    requires forall s :: valid(hash(s))
    ensures r.Some? ==>
              && r.value.0 == PayloadOf(StreamOf(events, Stdout), MAX_CAPTURED, hash)
              && r.value.1 == PayloadOf(StreamOf(events, Stderr), MAX_CAPTURED, hash)
              && r.value.2 == Last(StreamOf(events, Stderr), MAX_ERROR_TEXT)
              && StreamCheck(r.value.0, valid) && StreamCheck(r.value.1, valid)
    ensures (forall i: nat, n: nat :: accepts(i, n) >= 1) ==> r.Some?
  {
    hide First, Last;
    var out, err := Capture(0, [], 0, [], []), Capture(0, [], 0, [], []);
    var tail: seq<Byte> := [];
    EmptyCapture();
    for index := 0 to |events|
      invariant CaptureOk(out, StreamOf(events[..index], Stdout))
      invariant CaptureOk(err, StreamOf(events[..index], Stderr))
      invariant tail == Last(StreamOf(events[..index], Stderr), MAX_ERROR_TEXT)
    {
      assert events[..index + 1][..index] == events[..index];
      var chunk := events[index].chunk;
      var at: nat := index;
      ghost var outBefore, errBefore := StreamOf(events[..index], Stdout), StreamOf(events[..index], Stderr);
      assert outBefore + [] == outBefore && errBefore + [] == errBefore;
      if chunk == [] { continue; }
      if events[index].stream == Stdout {
        var more := CaptureChunk(out, chunk, (n: nat) => accepts(at, n), outBefore);
        if more == None { return None; }
        out := more.value;
      } else {
        var more := CaptureChunk(err, chunk, (n: nat) => accepts(at, n), errBefore);
        if more == None { return None; }
        err := more.value;
        LastGrows(errBefore, chunk, MAX_ERROR_TEXT);
        tail := tail + chunk;
        TrimIsLast(tail, MAX_ERROR_TEXT);
        if |tail| > MAX_ERROR_TEXT { tail := tail[|tail| - MAX_ERROR_TEXT..]; }
      }
    }
    assert events[..|events|] == events;
    CapturePayload(out, StreamOf(events, Stdout), hash, valid);
    CapturePayload(err, StreamOf(events, Stderr), hash, valid);
    r := Some((PayloadFrom(out, hash), PayloadFrom(err, hash), tail));
  }

  lemma EmptyCapture()
    ensures CaptureOk(Capture(0, [], 0, [], []), []) && Last([], MAX_ERROR_TEXT) == []
  {
  }

  lemma TrimIsLast(s: seq<Byte>, limit: nat)
    ensures Last(s, limit) == if |s| > limit then s[|s| - limit..] else s
  {
  }

  lemma CapturePayload(c: Capture, stream: seq<Byte>, hash: seq<Byte> -> Text, valid: Text -> bool)
    requires CaptureOk(c, stream) && forall s :: valid(hash(s))
    ensures PayloadFrom(c, hash) == PayloadOf(stream, MAX_CAPTURED, hash)
    ensures StreamCheck(PayloadFrom(c, hash), valid)
  {
  }

  // Any two ways of cutting the same bytes give the same payload, and the payload accounts for every
  // byte: the captured part is a prefix, and it is the whole stream unless the record says truncated.
  lemma PayloadAccounts(stream: seq<Byte>, limit: nat, hash: seq<Byte> -> Text)
    ensures var p := PayloadOf(stream, limit, hash);
            && Prefix(p.captured, stream) && p.bytes == |stream|
            && (p.truncated <==> p.captured != stream) && (p.truncated ==> |p.captured| == limit)
  {
    assert |First(stream, limit)| == |stream| ==> First(stream, limit) == stream;
  }

  // ---------------------------------------------------------------- records in plain words

  // Sizes and digests of the whole stream and of its front, which is cut at the limit.
  ghost predicate PayloadIs(p: Payload, stream: seq<Byte>, limit: nat, hash: seq<Byte> -> Text)
  {
    && p.bytes == |stream| && p.digest == hash(stream)
    && p.capturedBytes == |p.captured| && p.capturedDigest == hash(p.captured)
    && exists rest ::
         && stream == p.captured + rest && (p.truncated <==> rest != [])
         && (|p.captured| == limit || (|p.captured| < limit && rest == []))
  }

  lemma PayloadExact(p: Payload, stream: seq<Byte>, limit: nat, hash: seq<Byte> -> Text)
    ensures p == PayloadOf(stream, limit, hash) <==> PayloadIs(p, stream, limit, hash)
  {
    hide PayloadIs;
    if p == PayloadOf(stream, limit, hash) { PayloadSplits(p, stream, limit, hash); }
    if PayloadIs(p, stream, limit, hash) { PayloadJoins(p, stream, limit, hash); }
  }

  lemma PayloadSplits(p: Payload, stream: seq<Byte>, limit: nat, hash: seq<Byte> -> Text)
    requires p == PayloadOf(stream, limit, hash)
    ensures PayloadIs(p, stream, limit, hash)
  {
    var rest := stream[|p.captured|..];
    assert stream == p.captured + rest;
    assert |rest| == |stream| - |p.captured|;
  }

  lemma PayloadJoins(p: Payload, stream: seq<Byte>, limit: nat, hash: seq<Byte> -> Text)
    requires PayloadIs(p, stream, limit, hash)
    ensures p == PayloadOf(stream, limit, hash)
  {
    var rest :| stream == p.captured + rest && (p.truncated <==> rest != [])
                && (|p.captured| == limit || (|p.captured| < limit && rest == []));
    assert |stream| == |p.captured| + |rest|;
    assert stream[..|p.captured|] == p.captured;
    assert p.captured == First(stream, limit);
  }

  // The end of the stream, at most this long.
  ghost predicate TailIs(tail: seq<Byte>, stream: seq<Byte>, limit: nat)
  {
    exists head :: stream == head + tail && (|tail| == limit || (|tail| < limit && head == []))
  }

  lemma TailExact(tail: seq<Byte>, stream: seq<Byte>, limit: nat)
    ensures tail == Last(stream, limit) <==> TailIs(tail, stream, limit)
  {
    if tail == Last(stream, limit) {
      assert stream == stream[..|stream| - |tail|] + tail;
    }
    if TailIs(tail, stream, limit) {
      assert tail == stream[|stream| - |tail|..];
    }
  }

  // The chunks of one stream, in the order they were read, are its bytes.
  lemma {:induction false} StreamsJoin(a: seq<Read>, b: seq<Read>, stream: Stream)
    ensures StreamOf(a + b, stream) == StreamOf(a, stream) + StreamOf(b, stream)
  {
    if b == [] {
      assert a + b == a && StreamOf([], stream) == [];
    } else {
      hide StreamOf;
      var front, last := b[..|b| - 1], b[|b| - 1];
      assert b == front + [last];
      assert a + b == (a + front) + [last];
      var chunk := if last.stream == stream then last.chunk else [];
      calc {
        StreamOf(a + b, stream);
        { NextRead(a + front, last, a + b, stream); }
        StreamOf(a + front, stream) + chunk;
        { StreamsJoin(a, front, stream); }
        (StreamOf(a, stream) + StreamOf(front, stream)) + chunk;
        StreamOf(a, stream) + (StreamOf(front, stream) + chunk);
        { NextRead(front, last, b, stream); }
        StreamOf(a, stream) + StreamOf(b, stream);
      }
    }
  }

  lemma NextRead(before: seq<Read>, r: Read, all: seq<Read>, stream: Stream)
    requires all == before + [r]
    ensures StreamOf(all, stream) == StreamOf(before, stream) + if r.stream == stream then r.chunk else []
  {
    assert all[..|all| - 1] == before;
  }

  lemma OneRead(r: Read, stream: Stream)
    ensures StreamOf([r], stream) == if r.stream == stream then r.chunk else []
  {
    assert [r][..0] == [];
    assert StreamOf([], stream) == [];
  }

  lemma {:induction false} ChunksJoin(a: seq<seq<Byte>>, b: seq<seq<Byte>>, chunk: seq<Byte>)
    ensures Concat(a + b) == Concat(a) + Concat(b) && Concat([chunk]) == chunk
  {
    assert [chunk][..0] == [];
    if b == [] {
      assert a + b == a;
    } else {
      var n := |b| - 1;
      ChunksJoin(a, b[..n], chunk);
      assert (a + b)[..|a + b| - 1] == a + b[..n];
    }
  }

  // The converter keeps one mebibyte of each stream and 4096 bytes of errors, and a receipt must agree.
  lemma LimitsAre(stream: seq<Byte>, hash: seq<Byte> -> Text, valid: Text -> bool, p: Payload)
    ensures |PayloadOf(stream, MAX_CAPTURED, hash).captured| == if |stream| < 1_048_576 then |stream| else 1_048_576
    ensures |Last(stream, MAX_ERROR_TEXT)| == if |stream| < 4096 then |stream| else 4096
    ensures StreamCheck(p, valid)
       <==> && (p.bytes <= 1_048_576 ==> p.capturedBytes == p.bytes && !p.truncated)
            && (p.bytes > 1_048_576 ==> p.capturedBytes == 1_048_576 && p.truncated)
            && valid(p.digest) && valid(p.capturedDigest)
  {
  }
}
