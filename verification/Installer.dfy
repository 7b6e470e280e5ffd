// The no-clobber manifest installer: a commit protocol in which other processes may act before every call and
// every call may fail.
module Installer {
  import opened Collections
  import opened Bytes

  type Name = Text
  type Inode = nat

  // ---------------------------------------------------------------- the directory and its files

  datatype File = File(regular: bool, mode: int, content: seq<Byte>, mtime: int, ctime: int)

  // One directory's entries, and every file there has been; an inode in use is never given away again.
  datatype Fs = Fs(entries: map<Name, Inode>, files: map<Inode, File>)

  datatype Stat = Stat(inode: Inode, regular: bool, mode: int, size: nat, mtime: int, ctime: int)

  ghost predicate WellFormed(fs: Fs)
  {
    forall name | name in fs.entries :: fs.entries[name] in fs.files
  }

  // What any process may do between two calls: anything, but a changed file gets a later ctime.
  ghost predicate Later(a: Fs, b: Fs)
  {
    && WellFormed(b) && a.files.Keys <= b.files.Keys
    && forall i | i in a.files :: b.files[i] == a.files[i] || b.files[i].ctime > a.files[i].ctime
  }

  lemma LaterTransitive(a: Fs, b: Fs, c: Fs)
    requires Later(a, b) && Later(b, c)
    ensures Later(a, c)
  {
    forall i | i in a.files ensures c.files[i] == a.files[i] || c.files[i].ctime > a.files[i].ctime {
      assert i in b.files;
    }
  }

  function StatOf(fs: Fs, i: Inode): Stat
    requires i in fs.files
  {
    var f := fs.files[i];
    Stat(i, f.regular, f.mode, |f.content|, f.mtime, f.ctime)
  }

  // The bytes after writing at a position, with a gap filled by zeros.
  function Overwrite(content: seq<Byte>, pos: nat, data: seq<Byte>): seq<Byte>
  {
    var head := if pos <= |content| then content[..pos] else content + seq(pos - |content|, _ => 0 as Byte);
    head + data + if pos + |data| <= |content| then content[pos + |data|..] else []
  }

  datatype Looked = Found(stat: Stat) | Missing | Failed
  datatype Linked = Done | Exists | LinkFailed
  // A link made by this program; `at` is the index in the history of the state right after it.
  datatype LinkRecord = LinkRecord(name: Name, inode: Inode, at: nat)

  // A successful fsync of a file, or of the directory; `at` is the index of the state it met.
  datatype Sync = Sync(file: Option<Inode>, at: nat)

  // A new fsync of this target, within the given part of the history.
  ghost predicate Synced(before: seq<Sync>, after: seq<Sync>, file: Option<Inode>, since: nat, upto: nat)
  {
    exists k :: |before| <= k < |after| && after[k].file == file && since <= after[k].at < upto
  }

  // ---------------------------------------------------------------- the world around the program

  ghost predicate Lawful(others: (nat, Fs) -> Fs)
  {
    forall t, s | WellFormed(s) :: Later(s, others(t, s))
  }

  ghost predicate Idle(others: (nat, Fs) -> Fs)
  {
    forall t, s | WellFormed(s) :: others(t, s) == s
  }

  ghost predicate Bounded(portion: (nat, nat) -> nat)
  {
    forall t, n :: portion(t, n) <= n
  }

  ghost predicate Progressing(portion: (nat, nat) -> nat)
  {
    forall t, n | n > 0 :: portion(t, n) > 0
  }

  ghost predicate GivesNew(unused: Fs -> (Name, Inode))
  {
    forall s :: unused(s).0 !in s.entries && unused(s).1 !in s.files
  }

  lemma {:induction false} BeyondAll(s: set<nat>) returns (n: nat)
    ensures forall m | m in s :: m < n
  {
    if s == {} { return 0; }
    var x :| x in s;
    var rest := BeyondAll(s - {x});
    n := if x < rest then rest else x + 1;
    forall m | m in s ensures m < n {
      assert m == x || m in s - {x};
    }
  }

  lemma NewEntry(s: Fs) returns (name: Name, i: Inode)
    ensures name !in s.entries && i !in s.files
  {
    i := BeyondAll(s.files.Keys);
    var lengths: set<nat> := set t | t in s.entries :: |t|;
    var length := BeyondAll(lengths);
    name := seq(length, _ => 0);
    assert name in s.entries ==> |name| in lengths;
  }

  ghost function Unused(s: Fs): (e: (Name, Inode))
    ensures e.0 !in s.entries && e.1 !in s.files
  {
    assert exists e: (Name, Inode) :: e.0 !in s.entries && e.1 !in s.files by {
      var name, i := NewEntry(s);
      assert (name, i).0 !in s.entries && (name, i).1 !in s.files;
    }
    var e: (Name, Inode) :| e.0 !in s.entries && e.1 !in s.files;
    e
  }

  // A world in which nobody acts and every read and write makes progress is one of those allowed.
  lemma QuietWorldExists() returns (others: (nat, Fs) -> Fs, portion: (nat, nat) -> nat, unused: Fs -> (Name, Inode))
    ensures Lawful(others) && Idle(others) && Bounded(portion) && Progressing(portion) && GivesNew(unused)
  {
    others := (t: nat, s: Fs) => s;
    portion := (t: nat, n: nat) => n;
    unused := (s: Fs) => Unused(s);
    forall s | WellFormed(s) ensures Later(s, s) { LaterSelf(s); }
  }

  // The effect of each call that changes something, from the state it met to the state it left.
  ghost predicate Wrote(a: Fs, b: Fs, i: Inode, offset: nat, data: seq<Byte>)
  {
    && i in a.files && i in b.files && b.entries == a.entries && b.files == a.files[i := b.files[i]]
    && b.files[i].mode == a.files[i].mode
    && b.files[i].content == Overwrite(a.files[i].content, offset, data) && b.files[i].regular == a.files[i].regular
  }

  ghost predicate SameBytes(a: Fs, b: Fs)
  {
    && b.files.Keys == a.files.Keys
    && forall i | i in a.files :: b.files[i].content == a.files[i].content && b.files[i].regular == a.files[i].regular
  }

  lemma SameBytesSelf(a: Fs)
    ensures SameBytes(a, a) && SameModes(a, a) && forall i :: Touches(a, a, i)
  {
  }

  ghost predicate SameModes(a: Fs, b: Fs)
  {
    b.files.Keys == a.files.Keys && forall i | i in a.files :: b.files[i].mode == a.files[i].mode
  }

  // No file but this one changed.
  ghost predicate Touches(a: Fs, b: Fs, i: Inode)
  {
    b.files.Keys == a.files.Keys && forall j | j in a.files && j != i :: b.files[j] == a.files[j]
  }

  lemma TouchesTransitive(a: Fs, b: Fs, c: Fs, i: Inode)
    requires Touches(a, b, i) && Touches(b, c, i)
    ensures Touches(a, c, i)
  {
  }

  // A changed file gets a later ctime.
  lemma Changed(a: Fs, i: Inode, f: File, entries: map<Name, Inode>)
    requires i in a.files && f.ctime > a.files[i].ctime
    requires forall name | name in entries :: entries[name] in a.files
    ensures Later(a, Fs(entries, a.files[i := f]))
    ensures Touches(a, Fs(entries, a.files[i := f]), i)
    ensures f.content == a.files[i].content && f.regular == a.files[i].regular ==>
              SameBytes(a, Fs(entries, a.files[i := f]))
    ensures f.mode == a.files[i].mode ==> SameModes(a, Fs(entries, a.files[i := f]))
  {
  }

  ghost predicate LinkedState(a: Fs, b: Fs, name: Name, i: Inode)
  {
    && name !in a.entries && b.entries == a.entries[name := i] && i in a.files
    && SameBytes(a, b) && SameModes(a, b) && Touches(a, b, i)
  }

  // How a call extends the history: the state it met and, when it changed something, the state it left.
  ghost predicate Stepped(before: seq<Fs>, after: seq<Fs>, changed: bool, now: Fs)
  {
    && |after| == |before| + (if changed then 2 else 1)
    && after[..|before|] == before && after[|after| - 1] == now
  }

  // No call at these times fails.
  ghost predicate NoneFailed(fails: nat -> bool, from: nat, to: nat) { forall t: nat | from <= t < to :: !fails(t) }

  lemma NoneFailedJoins(fails: nat -> bool, a: nat, b: nat, c: nat)
    requires NoneFailed(fails, a, b) && NoneFailed(fails, b, c) && a <= b <= c
    ensures NoneFailed(fails, a, c)
  {
  }

  lemma OneCall(fails: nat -> bool, t: nat)
    ensures NoneFailed(fails, t, t) && (!fails(t) ==> NoneFailed(fails, t, t + 1))
  {
  }

  // Between calls other processes act; each call may fail; reads and writes may be short.
  class Host {
    const others: (nat, Fs) -> Fs
    const fails: nat -> bool
    const portion: (nat, nat) -> nat
    const unused: Fs -> (Name, Inode)
    var fs: Fs
    var time: nat
    var openCount: nat
    var closeCount: nat
    ghost var history: seq<Fs>
    ghost var links: seq<LinkRecord>
    ghost var syncs: seq<Sync>

    constructor (fs: Fs, others: (nat, Fs) -> Fs, fails: nat -> bool, portion: (nat, nat) -> nat, unused: Fs -> (Name, Inode))
      ensures this.fs == fs && this.others == others && this.fails == fails && this.portion == portion
      ensures this.unused == unused
      ensures links == [] && history == [] && syncs == [] && openCount == 0 && closeCount == 0
    {
      this.fs, this.others, this.fails, this.portion, this.unused := fs, others, fails, portion, unused;
      time, openCount, closeCount, history, links, syncs := 0, 0, 0, [], [], [];
    }

    ghost predicate Valid()
      reads this
    {
      WellFormed(fs) && Lawful(others) && Bounded(portion) && GivesNew(unused)
    }

    // Nobody else acts.
    ghost predicate Alone()
    {
      Idle(others)
    }

    // Moreover nothing fails, and reads and writes make progress.
    ghost predicate Quiet()
    {
      Alone() && (forall t :: !fails(t)) && Progressing(portion)
    }

    // Some call since this time failed.
    ghost predicate FailedSince(start: nat)
      reads this`time
    {
      exists t: nat :: start <= t < time && fails(t)
    }

    // Others act, then this call succeeds or fails.
    method Call() returns (ok: bool)
      requires Valid()
      modifies this`fs, this`time, this`history
      ensures time == old(time) + 1 && (!ok <==> fails(old(time)))
      ensures Valid() && Later(old(fs), fs) && history == old(history) + [fs] && Prefix(old(history), history)
      ensures fs == others(old(time), old(fs))
      ensures Alone() ==> fs == old(fs)
      ensures Quiet() ==> ok
    {
      ok := !fails(time);
      fs := others(time, fs);
      history := history + [fs];
      time := time + 1;
    }

    method Fstat(i: Inode) returns (r: Option<Stat>)
      requires Valid() && i in fs.files
      modifies this`fs, this`time, this`history
      ensures time == old(time) + 1 && (r.None? <==> fails(old(time)))
      ensures Valid() && Later(old(fs), fs) && history == old(history) + [fs] && Prefix(old(history), history)
      ensures r.Some? ==> r.value == StatOf(fs, i)
      ensures Alone() ==> fs == old(fs)
      ensures Quiet() ==> r.Some?
    {
      var ok := Call();
      r := if ok then Some(StatOf(fs, i)) else None;
    }

    method Lstat(name: Name) returns (r: Looked)
      requires Valid()
      modifies this`fs, this`time, this`history
      ensures time == old(time) + 1 && (r.Failed? <==> fails(old(time)))
      ensures Valid() && Later(old(fs), fs) && history == old(history) + [fs] && Prefix(old(history), history)
      ensures r.Found? ==> name in fs.entries && r.stat == StatOf(fs, fs.entries[name])
      ensures r.Missing? ==> name !in fs.entries
      ensures Alone() ==> fs == old(fs)
      ensures Quiet() ==> !r.Failed?
    {
      var ok := Call();
      r := if !ok then Failed else if name in fs.entries then Found(StatOf(fs, fs.entries[name])) else Missing;
    }

    method Pread(i: Inode, count: nat, offset: nat) returns (r: Option<seq<Byte>>)
      requires Valid() && i in fs.files
      modifies this`fs, this`time, this`history
      ensures time == old(time) + 1 && (r.None? <==> fails(old(time)))
      ensures Valid() && Later(old(fs), fs) && history == old(history) + [fs] && Prefix(old(history), history)
      ensures r.Some? ==> |r.value| <= count
      ensures r.Some? && r.value != [] ==>
                offset + |r.value| <= |fs.files[i].content| && r.value == fs.files[i].content[offset..offset + |r.value|]
      ensures Alone() ==> fs == old(fs)
      ensures Quiet() ==> r.Some?
      ensures Quiet() && count > 0 && offset < |fs.files[i].content| ==> r.value != []
    {
      var ok := Call();
      if !ok { return None; }
      var content := fs.files[i].content;
      var available := if offset >= |content| then 0 else |content| - offset;
      var n := portion(time, if count < available then count else available);
      r := Some(if n == 0 then [] else content[offset..offset + n]);
    }

    // Write at a position of a held file; a short write moves fewer bytes.
    method Write(i: Inode, offset: nat, data: seq<Byte>) returns (r: Option<nat>)
      requires Valid() && i in fs.files
      modifies this`fs, this`time, this`history
      ensures time == old(time) + 1 && (r.None? <==> fails(old(time)))
      ensures Valid() && Later(old(fs), fs) && Stepped(old(history), history, r.Some?, fs) && Prefix(old(history), history)
      ensures r.Some? ==> r.value <= |data| && Wrote(history[|old(history)|], fs, i, offset, data[..r.value])
      ensures Alone() ==> history[|old(history)|] == old(fs)
      ensures Quiet() ==> r.Some? && (data != [] ==> r.value > 0)
    {
      var ok := Call();
      if !ok { return None; }
      var n := portion(time, |data|);
      var f := fs.files[i];
      fs := fs.(files := fs.files[i := f.(content := Overwrite(f.content, offset, data[..n]), ctime := f.ctime + 1)]);
      history := history + [fs];
      r := Some(n);
    }

    method Fchmod(i: Inode, mode: int) returns (ok: bool)
      requires Valid() && i in fs.files
      modifies this`fs, this`time, this`history
      ensures time == old(time) + 1 && (!ok <==> fails(old(time)))
      ensures Valid() && Later(old(fs), fs) && Stepped(old(history), history, ok, fs) && Prefix(old(history), history)
      ensures ok ==> i in fs.files && fs.files[i].mode == mode && SameBytes(history[|old(history)|], fs)
                     && Touches(history[|old(history)|], fs, i)
                     && fs.entries == history[|old(history)|].entries
      ensures Alone() ==> history[|old(history)|] == old(fs)
      ensures Quiet() ==> ok
    {
      ok := Call();
      if ok {
        fs := fs.(files := fs.files[i := fs.files[i].(mode := mode, ctime := fs.files[i].ctime + 1)]);
        history := history + [fs];
      }
    }

    // Create a file under a new name; its descriptor is open.
    method Mkstemp() returns (r: Option<(Name, Inode)>)
      requires Valid()
      modifies this`fs, this`time, this`history, this`openCount
      ensures time == old(time) + 1 && (r.None? <==> fails(old(time)))
      ensures Valid() && Later(old(fs), fs) && Stepped(old(history), history, r.Some?, fs) && Prefix(old(history), history)
      ensures openCount == old(openCount) + if r.Some? then 1 else 0
      ensures r.Some? ==> r.value == unused(history[|old(history)|])
                          && r.value.0 !in history[|old(history)|].entries && r.value.1 !in history[|old(history)|].files
                          && fs == Fs(history[|old(history)|].entries[r.value.0 := r.value.1],
                                      history[|old(history)|].files[r.value.1 := File(true, 0, [], 0, 0)])
      ensures Alone() ==> history[|old(history)|] == old(fs)
      ensures Quiet() ==> r.Some?
    {
      var ok := Call();
      if !ok { return None; }
      var (name, i) := unused(fs);
      fs := Fs(fs.entries[name := i], fs.files[i := File(true, 0, [], 0, 0)]);
      history := history + [fs];
      openCount := openCount + 1;
      r := Some((name, i));
    }

    // The no-clobber hard link: atomic, and refused when the name exists.
    method Link(i: Inode, name: Name) returns (r: Linked)
      requires Valid() && i in fs.files
      modifies this`fs, this`time, this`history, this`links
      ensures time == old(time) + 1 && (r.LinkFailed? <==> fails(old(time)))
      ensures Valid() && Later(old(fs), fs) && Stepped(old(history), history, r.Done?, fs) && Prefix(old(history), history)
      ensures r.Done? ==> links == old(links) + [LinkRecord(name, i, |history| - 1)]
                          && LinkedState(history[|old(history)|], fs, name, i)
      ensures r.Exists? ==> name in fs.entries
      ensures !r.Done? ==> links == old(links)
      ensures Alone() ==> history[|old(history)|] == old(fs)
      ensures Quiet() ==> (r.Done? <==> name !in old(fs).entries)
    {
      hide Later, SameBytes, SameModes, Touches;
      var ok := Call();
      if !ok { return LinkFailed; }
      if name in fs.entries { return Exists; }
      ghost var met := fs;
      fs := Fs(fs.entries[name := i], fs.files[i := fs.files[i].(ctime := fs.files[i].ctime + 1)]);
      Changed(met, i, fs.files[i], fs.entries);
      LaterTransitive(old(fs), met, fs);
      links := links + [LinkRecord(name, i, |history|)];
      history := history + [fs];
      r := Done;
    }

    // Some(true): removed; Some(false): it was not there; None: error.
    method Unlink(name: Name) returns (r: Option<bool>)
      requires Valid()
      modifies this`fs, this`time, this`history
      ensures time == old(time) + 1 && (r.None? <==> fails(old(time)))
      ensures Valid() && Later(old(fs), fs) && Prefix(old(history), history)
      ensures Stepped(old(history), history, r == Some(true), fs)
      ensures r.Some? ==> r.value == (name in history[|old(history)|].entries)
                          && fs.entries == history[|old(history)|].entries - {name}
                          && SameBytes(history[|old(history)|], fs) && SameModes(history[|old(history)|], fs)
      ensures r == Some(true) ==> Touches(history[|old(history)|], fs, history[|old(history)|].entries[name])
      ensures r == Some(false) ==> fs == history[|old(history)|]
      ensures Alone() ==> history[|old(history)|] == old(fs)
      ensures Quiet() ==> r.Some?
    {
      hide Later, SameBytes, SameModes, Touches;
      var ok := Call();
      if !ok { return None; }
      SameBytesSelf(fs);
      if name !in fs.entries { return Some(false); }
      var i := fs.entries[name];
      ghost var met := fs;
      fs := Fs(fs.entries - {name}, fs.files[i := fs.files[i].(ctime := fs.files[i].ctime + 1)]);
      Changed(met, i, fs.files[i], fs.entries);
      LaterTransitive(old(fs), met, fs);
      history := history + [fs];
      r := Some(true);
    }

    // fsync of a held file, or of the open directory.
    method Fsync(file: Option<Inode>) returns (ok: bool)
      requires Valid()
      modifies this`fs, this`time, this`history, this`syncs
      ensures time == old(time) + 1 && (!ok <==> fails(old(time)))
      ensures Valid() && Later(old(fs), fs) && history == old(history) + [fs] && Prefix(old(history), history)
      ensures syncs == old(syncs) + if ok then [Sync(file, |history| - 1)] else []
      ensures Alone() ==> fs == old(fs)
      ensures Quiet() ==> ok
    {
      ok := Call();
      if ok { syncs := syncs + [Sync(file, |history| - 1)]; }
    }

    method Open() returns (ok: bool)
      requires Valid()
      modifies this`fs, this`time, this`history, this`openCount
      ensures time == old(time) + 1 && (!ok <==> fails(old(time)))
      ensures Valid() && Later(old(fs), fs) && history == old(history) + [fs] && Prefix(old(history), history)
      ensures openCount == old(openCount) + if ok then 1 else 0
      ensures Alone() ==> fs == old(fs)
      ensures Quiet() ==> ok
    {
      ok := Call();
      if ok { openCount := openCount + 1; }
    }

    method Close() returns (ok: bool)
      requires Valid()
      modifies this`fs, this`time, this`history, this`closeCount
      ensures time == old(time) + 1 && (!ok <==> fails(old(time)))
      ensures Valid() && Later(old(fs), fs) && history == old(history) + [fs] && Prefix(old(history), history)
      ensures closeCount == old(closeCount) + 1
      ensures Alone() ==> fs == old(fs)
      ensures Quiet() ==> ok
    {
      ok := Call();
      closeCount := closeCount + 1;
    }
  }

  lemma PrefixSelf(a: seq<Fs>)
    ensures Prefix(a, a)
  {
  }

  lemma PrefixTransitive(a: seq<Fs>, b: seq<Fs>, c: seq<Fs>)
    requires Prefix(a, b) && Prefix(b, c)
    ensures Prefix(a, c)
  {
    assert c[..|a|] == c[..|b|][..|a|];
  }

  // ---------------------------------------------------------------- verifying a held file

  type Digest = seq<Byte> -> Text

  const CHUNK: nat := 128 * 1024

  // The file was not touched between the two moments.
  ghost predicate Unchanged(a: Fs, b: Fs, i: Inode)
  {
    i in a.files && i in b.files && a.files[i].ctime == b.files[i].ctime
  }

  lemma UnchangedBetween(a: Fs, b: Fs, c: Fs, i: Inode)
    requires Later(a, b) && Later(b, c) && i in a.files
    ensures Later(a, c)
    ensures Unchanged(a, c, i) ==> Unchanged(a, b, i) && b.files[i] == a.files[i] && c.files[i] == a.files[i]
  {
    LaterTransitive(a, b, c);
    assert i in b.files;
  }

  // The pread loop of both verifications: the bytes read are those at the start, unless the file changed.
  method ReadAll(os: Host, i: Inode, size: nat, ghost start: Fs) returns (r: Option<seq<Byte>>)
    requires os.Valid() && Later(start, os.fs) && i in start.files
    modifies os`fs, os`time, os`history
    ensures os.time >= old(os.time)
    ensures os.Valid() && Later(start, os.fs) && Later(old(os.fs), os.fs) && Prefix(old(os.history), os.history)
    ensures r.Some? ==> |r.value| == size && NoneFailed(os.fails, old(os.time), os.time)
    ensures r.Some? && Unchanged(start, os.fs, i) ==>
              size <= |start.files[i].content| && r.value == start.files[i].content[..size]
    ensures os.Alone() ==> os.fs == old(os.fs)
    ensures os.Quiet() && size <= |old(os.fs).files[i].content| ==> r.Some?
  {
    hide Host.Alone, Host.Valid, WellFormed, Later, Prefix, Unchanged, NoneFailed;
    var captured: seq<Byte> := [];
    OneCall(os.fails, os.time);
    ValidLater(os);
    PrefixSelf(os.history);
    LaterKeeps(start, os.fs, i);
    while |captured| < size
      invariant os.Valid() && Later(start, os.fs) && Prefix(old(os.history), os.history) && |captured| <= size
      invariant Later(old(os.fs), os.fs) && i in os.fs.files && os.time >= old(os.time)
      invariant Unchanged(start, os.fs, i) && captured != [] ==>
                  |captured| <= |start.files[i].content| && captured == start.files[i].content[..|captured|]
      invariant os.Alone() ==> os.fs == old(os.fs)
      invariant NoneFailed(os.fails, old(os.time), os.time)
      decreases size - |captured|
    {
      ghost var before, read, t := os.fs, os.history, os.time;
      var chunk := os.Pread(i, if size - |captured| < CHUNK then size - |captured| else CHUNK, |captured|);
      OneCall(os.fails, t);
      UnchangedBetween(start, before, os.fs, i);
      LaterTransitive(old(os.fs), before, os.fs);
      PrefixTransitive(old(os.history), read, os.history);
      LaterKeeps(start, os.fs, i);
      if chunk == None || chunk.value == [] { return None; }
      NoneFailedJoins(os.fails, old(os.time), t, os.time);
      GrowCapture(start.files[i].content, captured, chunk.value);
      captured := captured + chunk.value;
    }
    r := Some(captured);
  }

  lemma GrowCapture(content: seq<Byte>, captured: seq<Byte>, chunk: seq<Byte>)
    ensures |captured| <= |content| && captured == content[..|captured|] && |captured| + |chunk| <= |content|
            && chunk == content[|captured|..|captured| + |chunk|]
            ==> captured + chunk == content[..|captured| + |chunk|]
  {
  }

  lemma LaterSelf(a: Fs)
    ensures WellFormed(a) ==> Later(a, a)
  {
  }

  // At that moment the entry names the file, and the file is regular with these bytes.
  ghost predicate Holds(fs: Fs, name: Name, i: Inode, content: seq<Byte>)
  {
    name in fs.entries && fs.entries[name] == i && i in fs.files && fs.files[i].regular && fs.files[i].content == content
  }

  predicate Matches(s: Stat, i: Inode, size: nat) { s.regular && s.inode == i && s.size == size }

  lemma LaterKeeps(a: Fs, b: Fs, i: Inode)
    requires Later(a, b) && i in a.files
    ensures i in b.files
  {
  }

  // The stat of the held file, then of the name; `first` is the moment of the former.
  method TwoStats(os: Host, i: Inode, name: Name) returns (held: Option<Stat>, named: Looked, ghost first: Fs)
    requires os.Valid() && i in os.fs.files
    modifies os`fs, os`time, os`history
    ensures os.time >= old(os.time)
    ensures os.Valid() && Later(old(os.fs), first) && Later(first, os.fs) && Later(old(os.fs), os.fs)
    ensures os.history == old(os.history) + [first, os.fs] && i in first.files && i in os.fs.files
    ensures held.Some? ==> held.value == StatOf(first, i)
    ensures named.Found? ==> name in os.fs.entries && os.fs.entries[name] in os.fs.files
                             && named.stat == StatOf(os.fs, os.fs.entries[name])
    ensures held.Some? && !named.Failed? ==> NoneFailed(os.fails, old(os.time), os.time)
    ensures os.Alone() ==> first == os.fs == old(os.fs)
    ensures os.Quiet() ==> held.Some? && !named.Failed?
    ensures os.Quiet() && name in os.fs.entries ==> named.Found?
  {
    hide Later, WellFormed, StatOf, Host.Alone, Host.Valid, NoneFailed;
    ghost var t := os.time;
    held := os.Fstat(i);
    first := os.fs;
    LaterKeeps(old(os.fs), first, i);
    named := os.Lstat(name);
    LaterKeeps(first, os.fs, i);
    LaterTransitive(old(os.fs), first, os.fs);
    OneCall(os.fails, t);
    OneCall(os.fails, t + 1);
    if held.Some? && !named.Failed? { NoneFailedJoins(os.fails, t, t + 1, t + 2); }
    NamesKnown(os, name);
  }

  lemma NamesKnown(os: Host, name: Name)
    requires os.Valid()
    ensures name in os.fs.entries ==> os.fs.entries[name] in os.fs.files
  {
  }

  // What the two pairs of stats and the bytes read in between prove together.
  lemma Witnessed(start: Fs, read: Fs, again: Fs, end: Fs, name: Name, i: Inode, captured: seq<Byte>, s: Stat)
    requires Later(start, read) && Later(read, again) && Later(again, end) && i in start.files
    requires i in again.files && i in end.files && name in end.entries && end.entries[name] in end.files
    requires Unchanged(start, read, i) ==>
               |captured| <= |start.files[i].content| && captured == start.files[i].content[..|captured|]
    requires StatOf(start, i) == s && StatOf(end, end.entries[name]) == s && Matches(s, i, |captured|)
    ensures Holds(end, name, i, captured) && StatOf(end, i) == s
  {
    UnchangedBetween(read, again, end, i);
    UnchangedBetween(start, read, end, i);
    assert Unchanged(start, end, i);
    assert captured == start.files[i].content;
  }

  // Both verifications: two stats before, the bytes, two stats after, all the same.
  method Reverify(os: Host, i: Inode, name: Name, size: nat)
    returns (r: Option<(seq<Byte>, Stat)>)
    requires os.Valid() && i in os.fs.files
    modifies os`fs, os`time, os`history
    ensures os.time >= old(os.time)
    ensures os.Valid() && Later(old(os.fs), os.fs) && Prefix(old(os.history), os.history)
    ensures r.Some? ==> NoneFailed(os.fails, old(os.time), os.time)
    ensures r.Some? ==> |os.history| > |old(os.history)| && |r.value.0| == size && i in os.fs.files
                        && os.history[|os.history| - 1] == os.fs
                        && Holds(os.fs, name, i, r.value.0) && StatOf(os.fs, i) == r.value.1
    ensures os.Alone() ==> os.fs == old(os.fs)
    ensures os.Quiet() && Holds(os.fs, name, i, os.fs.files[i].content) && |os.fs.files[i].content| == size ==>
              r == Some((os.fs.files[i].content, StatOf(os.fs, i)))
  {
    hide Later, WellFormed, Unchanged, Host.Valid, Host.Alone, NoneFailed;
    var before, namedBefore, start := TwoStats(os, i, name);
    ghost var t1 := os.time;
    if before == None || !namedBefore.Found? { return None; }
    if !Matches(before.value, i, size) || !Matches(namedBefore.stat, i, size) { return None; }
    ghost var middle := os.fs;
    var captured := ReadAll(os, i, size, start);
    ghost var read, t2 := os.fs, os.time;
    LaterTransitive(old(os.fs), middle, read);
    if captured == None { return None; }
    NoneFailedJoins(os.fails, old(os.time), t1, t2);
    LaterKeeps(middle, read, i);
    var after, namedAfter, again := TwoStats(os, i, name);
    LaterTransitive(old(os.fs), read, os.fs);
    if after == None || !namedAfter.Found? { return None; }
    NoneFailedJoins(os.fails, old(os.time), t2, os.time);
    if after.value != before.value || namedBefore.stat != before.value || namedAfter.stat != before.value { return None; }
    Witnessed(start, read, again, os.fs, name, i, captured.value, before.value);
    r := Some((captured.value, before.value));
  }

  // _verify_bound_manifest: the temporary name holds the payload; the stat is the later fingerprint.
  method VerifyBound(os: Host, i: Inode, temporary: Name, payload: seq<Byte>) returns (r: Option<Stat>)
    requires os.Valid() && i in os.fs.files
    modifies os`fs, os`time, os`history
    ensures os.time >= old(os.time)
    ensures os.Valid() && Later(old(os.fs), os.fs) && Prefix(old(os.history), os.history)
    ensures r.Some? ==> NoneFailed(os.fails, old(os.time), os.time)
    ensures r.Some? ==> |os.history| > |old(os.history)| && i in os.fs.files && os.history[|os.history| - 1] == os.fs
                        && Holds(os.fs, temporary, i, payload) && StatOf(os.fs, i) == r.value
    ensures os.Alone() ==> os.fs == old(os.fs)
    ensures os.Quiet() && Holds(os.fs, temporary, i, payload) ==> r == Some(StatOf(os.fs, i))
  {
    hide Later, WellFormed, Host.Valid, Host.Alone, NoneFailed;
    var read := Reverify(os, i, temporary, |payload|);
    if read == None || read.value.0 != payload { return None; }
    r := Some(read.value.1);
  }

  // At some moment of the history, from an index on, the entry named the file, whose bytes had the digest.
  ghost predicate Confirmed(history: seq<Fs>, since: nat, name: Name, i: Inode, size: nat, digest: Digest, expected: Text)
  {
    exists k, content :: since <= k < |history| && Holds(history[k], name, i, content) && |content| == size
                      && digest(content) == expected
  }

  // _verify_installed_manifest; false stands for its exception.
  method VerifyInstalled(os: Host, i: Inode, name: Name, size: nat, digest: Digest, expected: Text) returns (ok: bool)
    requires os.Valid() && i in os.fs.files
    modifies os`fs, os`time, os`history
    ensures os.time >= old(os.time)
    ensures os.Valid() && Later(old(os.fs), os.fs) && Prefix(old(os.history), os.history)
    ensures ok ==> Confirmed(os.history, |old(os.history)|, name, i, size, digest, expected)
    ensures ok ==> NoneFailed(os.fails, old(os.time), os.time)
    ensures os.Alone() ==> os.fs == old(os.fs)
    ensures (os.Quiet() && Holds(os.fs, name, i, os.fs.files[i].content) && |os.fs.files[i].content| == size
             && digest(os.fs.files[i].content) == expected) ==> ok
  {
    hide Later, WellFormed, Host.Valid, Host.Alone, NoneFailed;
    var read := Reverify(os, i, name, size);
    if read == None { return false; }
    ok := digest(read.value.0) == expected;
    if ok { assert Holds(os.history[|os.history| - 1], name, i, read.value.0); }
  }

  // ---------------------------------------------------------------- writing, unlinking, closing

  // _write_manifest_payload; false stands for its exception.
  method WritePayload(os: Host, i: Inode, payload: seq<Byte>) returns (ok: bool)
    requires os.Valid() && i in os.fs.files
    modifies os`fs, os`time, os`history, os`syncs
    ensures os.time >= old(os.time)
    ensures os.Valid() && Later(old(os.fs), os.fs) && Prefix(old(os.history), os.history)
    ensures |os.syncs| >= |old(os.syncs)|
    ensures ok ==> NoneFailed(os.fails, old(os.time), os.time)
    ensures ok ==> os.history != [] && os.fs == os.history[|os.history| - 1]
                   && os.syncs == old(os.syncs) + [Sync(Some(i), |os.history| - 1)] && |os.history| > |old(os.history)|
    ensures os.Alone() ==> os.fs.entries == old(os.fs).entries && Touches(old(os.fs), os.fs, i)
                           && os.fs.files[i].mode == old(os.fs).files[i].mode
    ensures os.Alone() && old(os.fs).files[i].content == [] && ok ==>
              i in os.fs.files && os.fs.files[i].content == payload && os.fs.files[i].regular == old(os.fs).files[i].regular
    ensures os.Quiet() ==> ok
  {
    hide Host.Alone, WellFormed, Later, Host.Valid, Prefix, Touches, NoneFailed, Wrote, Overwrite, Written;
    ValidLater(os);
    PrefixSelf(os.history);
    NothingWritten(os.fs, i);
    OneCall(os.fails, os.time);
    var offset := 0;
    while offset < |payload|
      invariant os.Valid() && Later(old(os.fs), os.fs) && Prefix(old(os.history), os.history) && offset <= |payload|
      invariant i in os.fs.files && os.time >= old(os.time) && os.syncs == old(os.syncs)
      invariant NoneFailed(os.fails, old(os.time), os.time)
      invariant os.Alone() ==> Written(old(os.fs), os.fs, i, payload[..offset])
      decreases |payload| - offset
    {
      ghost var before, written0, t := os.fs, os.history, os.time;
      var written := os.Write(i, offset, payload[offset..]);
      OneCall(os.fails, t);
      LaterTransitive(old(os.fs), before, os.fs);
      PrefixTransitive(old(os.history), written0, os.history);
      LaterKeeps(before, os.fs, i);
      if written == None {
        if os.Alone() { WrittenMeans(old(os.fs), os.fs, i, payload[..offset]); }
        return false;
      }
      if os.Alone() { WrittenMore(old(os.fs), before, os.fs, i, payload, offset, written.value); }
      offset := offset + written.value;
      if written.value < 1 {
        if os.Alone() { WrittenMeans(old(os.fs), os.fs, i, payload[..offset]); }
        return false;
      }
      NoneFailedJoins(os.fails, old(os.time), t, os.time);
    }
    ghost var before, all, t := os.fs, os.history, os.time;
    assert payload[..offset] == payload;
    if os.Alone() { WrittenMeans(old(os.fs), before, i, payload); }
    ok := os.Fsync(Some(i));
    OneCall(os.fails, t);
    if ok { NoneFailedJoins(os.fails, old(os.time), t, os.time); }
    LaterTransitive(old(os.fs), before, os.fs);
    PrefixTransitive(old(os.history), all, os.history);
    PrefixLength(old(os.history), all);
    LaterKeeps(before, os.fs, i);
  }

  // Only the bytes of the file have changed; an empty file now holds this much.
  ghost predicate Written(a: Fs, b: Fs, i: Inode, part: seq<Byte>)
  {
    && i in a.files && i in b.files && b.entries == a.entries && Touches(a, b, i)
    && b.files[i].mode == a.files[i].mode && b.files[i].regular == a.files[i].regular
    && (a.files[i].content == [] ==> b.files[i].content == part)
  }

  lemma NothingWritten(a: Fs, i: Inode)
    requires i in a.files
    ensures forall payload: seq<Byte> :: Written(a, a, i, payload[..0])
  {
  }

  lemma WrittenMeans(a: Fs, b: Fs, i: Inode, part: seq<Byte>)
    requires Written(a, b, i, part)
    ensures i in a.files && i in b.files && b.entries == a.entries && Touches(a, b, i)
    ensures b.files[i].mode == a.files[i].mode && b.files[i].regular == a.files[i].regular
    ensures a.files[i].content == [] ==> b.files[i].content == part
  {
  }

  lemma WrittenMore(a: Fs, b: Fs, c: Fs, i: Inode, payload: seq<Byte>, offset: nat, n: nat)
    requires offset + n <= |payload|
    requires Written(a, b, i, payload[..offset]) && Wrote(b, c, i, offset, payload[offset..][..n])
    ensures Written(a, c, i, payload[..offset + n])
  {
    hide Overwrite;
    AppendedBytes(payload, offset, n);
  }

  lemma AppendedBytes(payload: seq<Byte>, offset: nat, n: nat)
    requires offset + n <= |payload|
    ensures Overwrite(payload[..offset], offset, payload[offset..][..n]) == payload[..offset + n]
  {
  }

  lemma ValidLater(os: Host)
    requires os.Valid()
    ensures Later(os.fs, os.fs)
  {
  }

  datatype Warning = IntegrityUnconfirmed | ProcCloseFailed | DirectoryCloseFailed | InspectFailed | IdentityChanged
                   | UnlinkFailed | FsyncFailed | DescriptorCloseFailed

  // At some moment of the history, from an index on, the name was absent.
  ghost predicate AbsentSince(history: seq<Fs>, since: nat, name: Name)
  {
    exists k :: since <= k < |history| && name !in history[k].entries
  }

  // At that moment the name was absent or named the file.
  ghost predicate NamesAtMost(history: seq<Fs>, k: nat, name: Name, i: Inode)
  {
    k < |history| && (name in history[k].entries ==> history[k].entries[name] == i)
  }

  // _unlink_bound_path: whether the name is gone, and the warning otherwise.
  method UnlinkBound(os: Host, name: Name, i: Inode) returns (gone: bool, warning: Option<Warning>)
    requires os.Valid()
    modifies os`fs, os`time, os`history
    ensures os.time >= old(os.time)
    ensures os.Valid() && Later(old(os.fs), os.fs) && Prefix(old(os.history), os.history)
    ensures gone <==> warning == None
    ensures gone ==> AbsentSince(os.history, |old(os.history)|, name)
    ensures gone ==> NamesAtMost(os.history, |old(os.history)|, name, i)
    ensures warning == Some(IdentityChanged) ==> os.history == old(os.history) + [os.fs]
                                                 && name in os.fs.entries && os.fs.entries[name] != i
    ensures warning in {None, Some(IdentityChanged), Some(InspectFailed), Some(UnlinkFailed)}
    ensures warning in {Some(InspectFailed), Some(UnlinkFailed)} ==> os.FailedSince(old(os.time))
    ensures gone ==> NoneFailed(os.fails, old(os.time), os.time)
    ensures (os.Alone() && gone) ==>
              os.fs.entries == old(os.fs).entries - {name} && SameBytes(old(os.fs), os.fs) && SameModes(old(os.fs), os.fs)
              && Touches(old(os.fs), os.fs, i)
    ensures os.Quiet() && (name in old(os.fs).entries ==> old(os.fs).entries[name] == i) ==> gone
  {
    hide Host.Alone, Later, SameBytes, SameModes, Touches, NoneFailed, Stepped;
    SameBytesSelf(os.fs);
    ghost var t := os.time;
    OneCall(os.fails, t);
    var details := os.Lstat(name);
    assert os.history[|old(os.history)|] == os.fs;
    match details {
      case Missing => return true, None;
      case Failed => return false, Some(InspectFailed);
      case Found(s) =>
        if s.inode != i { return false, Some(IdentityChanged); }
    }
    ghost var before, looked := os.fs, os.history;
    StatInode(os.fs, os.fs.entries[name]);
    var removed := os.Unlink(name);
    LaterTransitive(old(os.fs), before, os.fs);
    OneCall(os.fails, t + 1);
    if removed == None { return false, Some(UnlinkFailed); }
    NoneFailedJoins(os.fails, t, t + 1, os.time);
    UnlinkSteps(looked, os.history, removed == Some(true), os.fs);
    return true, None;
  }

  lemma UnlinkSteps(before: seq<Fs>, after: seq<Fs>, changed: bool, now: Fs)
    requires Stepped(before, after, changed, now)
    ensures |after| > |before| && after[..|before|] == before && after[|after| - 1] == now
    ensures !changed ==> after[|before|] == now
  {
  }

  // ---------------------------------------------------------------- the commit

  datatype LinkResult = LinkResult(integrity: bool, warnings: seq<Warning>)

  // The finally clause: both directories are closed; failures only warn, and only after the commit.
  method CloseDirectories(os: Host, proc: bool, directory: bool, committed: bool) returns (warnings: seq<Warning>)
    requires os.Valid()
    modifies os`fs, os`time, os`history, os`closeCount
    ensures os.time >= old(os.time)
    ensures os.Valid() && Later(old(os.fs), os.fs) && Prefix(old(os.history), os.history)
    ensures os.closeCount == old(os.closeCount) + (if proc then 1 else 0) + (if directory then 1 else 0)
    ensures os.Alone() ==> os.fs == old(os.fs)
    ensures forall w | w in warnings :: w == ProcCloseFailed || w == DirectoryCloseFailed
    ensures os.time == old(os.time) + (if proc then 1 else 0) + (if directory then 1 else 0)
    ensures ProcCloseFailed in warnings <==> committed && proc && os.fails(old(os.time))
    ensures DirectoryCloseFailed in warnings <==> committed && directory && os.fails(old(os.time) + if proc then 1 else 0)
    ensures committed && warnings == [] ==> NoneFailed(os.fails, old(os.time), os.time)
    ensures os.Quiet() ==> warnings == []
  {
    hide Host.Alone, WellFormed, Later;
    warnings := [];
    ValidLater(os);
    if proc {
      var ok := os.Close();
      if !ok && committed { warnings := warnings + [ProcCloseFailed]; }
    }
    ghost var middle := os.fs;
    if directory {
      var ok := os.Close();
      LaterTransitive(old(os.fs), middle, os.fs);
      if !ok && committed { warnings := warnings + [DirectoryCloseFailed]; }
    }
  }

  method OpenBoth(os: Host) returns (proc: bool, directory: bool)
    requires os.Valid()
    modifies os`fs, os`time, os`history, os`openCount
    ensures os.time >= old(os.time)
    ensures os.Valid() && Later(old(os.fs), os.fs) && Prefix(old(os.history), os.history)
    ensures os.openCount == old(os.openCount) + (if proc then 1 else 0) + (if directory then 1 else 0)
    ensures directory ==> proc && NoneFailed(os.fails, old(os.time), os.time)
    ensures !proc ==> os.time == old(os.time) + 1
    ensures os.Alone() ==> os.fs == old(os.fs)
    ensures os.Quiet() ==> proc && directory
  {
    hide Host.Alone, WellFormed, Later;
    directory := false;
    proc := os.Open();
    if !proc { return; }
    ghost var middle := os.fs;
    directory := os.Open();
    LaterTransitive(old(os.fs), middle, os.fs);
  }

  // The held file, looked at directly and through its /proc entry, still has the verified fingerprint.
  method StillSame(os: Host, i: Inode, fingerprint: Stat, size: nat) returns (same: bool)
    requires os.Valid() && i in os.fs.files
    modifies os`fs, os`time, os`history
    ensures os.time >= old(os.time)
    ensures os.Valid() && Later(old(os.fs), os.fs) && Prefix(old(os.history), os.history)
    ensures same ==> NoneFailed(os.fails, old(os.time), os.time)
    ensures same ==> i in os.fs.files && StatOf(os.fs, i) == fingerprint && fingerprint.size == size
                     && |os.history| > |old(os.history)| && os.history[|os.history| - 1] == os.fs
    ensures os.Alone() ==> os.fs == old(os.fs)
    ensures os.Quiet() && StatOf(old(os.fs), i) == fingerprint && fingerprint.size == size ==> same
  {
    hide Host.Alone, WellFormed, Later, StatOf;
    StatInode(os.fs, i);
    var details := os.Fstat(i);
    ghost var middle := os.fs;
    LaterKeeps(old(os.fs), middle, i);
    if details == None { return false; }
    var procDetails := os.Fstat(i);
    LaterTransitive(old(os.fs), middle, os.fs);
    if procDetails == None { return false; }
    same := details.value == fingerprint && procDetails.value == fingerprint && details.value.inode == i
            && details.value.size == size;
  }

  lemma StatInode(fs: Fs, i: Inode)
    requires i in fs.files
    ensures StatOf(fs, i).inode == i
  {
  }

  // Open both directories, look at the held file again, and link it. True: this call linked it.
  method OpenAndLink(os: Host, i: Inode, destination: Name, fingerprint: Stat, size: nat)
    returns (proc: bool, directory: bool, committed: bool)
    requires os.Valid() && i in os.fs.files
    modifies os`fs, os`time, os`history, os`links, os`openCount
    ensures os.time >= old(os.time)
    ensures os.Valid() && Later(old(os.fs), os.fs) && Prefix(old(os.history), os.history)
    ensures os.openCount == old(os.openCount) + (if proc then 1 else 0) + (if directory then 1 else 0)
    ensures !committed ==> os.links == old(os.links)
    ensures committed ==> proc && directory && NoneFailed(os.fails, old(os.time), os.time)
    ensures committed ==> LinkedOnce(old(os.links), os.links, os.history, |old(os.history)|, destination, i)
                          && os.links[|old(os.links)|].at == |os.history| - 1
                          && LastLook(old(os.fs), os.history, os.links[|old(os.links)|].at, i, fingerprint)
    ensures (os.Quiet() && StatOf(old(os.fs), i) == fingerprint && fingerprint.size == size
             && destination !in old(os.fs).entries)
            ==> committed && Installed(old(os.fs), os.fs, destination, i)
    ensures os.Alone() ==> Touches(old(os.fs), os.fs, i) && (!committed ==> os.fs.entries == old(os.fs).entries)
  {
    hide Host.Alone, Host.Valid, WellFormed, Later, StatOf, Prefix, LinkedState, LinkedOnce, LastLook, Installed, Touches,
         NoneFailed;
    SameBytesSelf(os.fs);
    committed := false;
    proc, directory := OpenBoth(os);
    if !proc || !directory { return; }
    ghost var a, ha, t1 := os.fs, os.history, os.time;
    LaterKeeps(old(os.fs), a, i);
    var same := StillSame(os, i, fingerprint, size);
    ghost var b, hb, t2 := os.fs, os.history, os.time;
    LaterTransitive(old(os.fs), a, b);
    PrefixTransitive(old(os.history), ha, hb);
    if !same { return; }
    NoneFailedJoins(os.fails, old(os.time), t1, t2);
    PrefixLength(old(os.history), ha);
    var linked := os.Link(i, destination);
    LaterTransitive(old(os.fs), b, os.fs);
    PrefixTransitive(old(os.history), hb, os.history);
    committed := linked.Done?;
    if committed {
      OneCall(os.fails, t2);
      NoneFailedJoins(os.fails, old(os.time), t2, os.time);
      LinkMade(old(os.links), os.links, old(os.fs), |old(os.history)|, hb, os.history, destination, i, fingerprint);
      LinkInstalls(os.history[|hb|], os.fs, destination, i);
    }
  }

  lemma PrefixLength(a: seq<Fs>, b: seq<Fs>)
    requires Prefix(a, b)
    ensures |a| <= |b|
  {
  }

  // What the last look and the link that follows it put on record.
  lemma LinkMade(before: seq<LinkRecord>, after: seq<LinkRecord>, start: Fs, since: nat, looked: seq<Fs>, now: seq<Fs>,
                 name: Name, i: Inode, fingerprint: Stat)
    requires since < |looked| && |now| == |looked| + 2 && now[..|looked|] == looked
    requires after == before + [LinkRecord(name, i, |now| - 1)] && LinkedState(now[|looked|], now[|now| - 1], name, i)
    requires Later(start, looked[|looked| - 1]) && i in looked[|looked| - 1].files
    requires StatOf(looked[|looked| - 1], i) == fingerprint
    ensures LinkedOnce(before, after, now, since, name, i)
    ensures |after| == |before| + 1 && after[|before|].at == |now| - 1
    ensures LastLook(start, now, |now| - 1, i, fingerprint)
  {
    hide Later, LinkedState, StatOf;
    assert now[..|looked|][|looked| - 1] == now[|looked| - 1];
  }

  lemma LinkInstalls(a: Fs, b: Fs, name: Name, i: Inode)
    requires LinkedState(a, b, name, i)
    ensures Installed(a, b, name, i) && Touches(a, b, i)
  {
  }

  // What a quiet link leaves: one more entry, the same bytes.
  ghost predicate Installed(a: Fs, b: Fs, name: Name, i: Inode)
  {
    && b.entries == a.entries[name := i] && i in a.files && i in b.files
    && b.files[i].content == a.files[i].content && b.files[i].regular == a.files[i].regular
    && b.files[i].mode == a.files[i].mode && Touches(a, b, i)
  }

  // Exactly one more link, made in one step since the given moment, to a name that was absent just before.
  ghost predicate LinkedOnce(before: seq<LinkRecord>, after: seq<LinkRecord>, history: seq<Fs>, since: nat, name: Name,
                             i: Inode)
  {
    && |after| == |before| + 1 && after[..|before|] == before
    && after[|before|].name == name && after[|before|].inode == i
    && since + 2 <= after[|before|].at < |history|
    && LinkedState(history[after[|before|].at - 1], history[after[|before|].at], name, i)
  }

  // The last state looked at before the link: the held file still had the fingerprint.
  ghost predicate LastLook(start: Fs, history: seq<Fs>, at: nat, i: Inode, fingerprint: Stat)
  {
    && 2 <= at < |history| && Later(start, history[at - 2])
    && i in history[at - 2].files && StatOf(history[at - 2], i) == fingerprint
  }

  // At that last look the held file was regular and had exactly these bytes.
  ghost predicate HeldBytes(history: seq<Fs>, at: nat, i: Inode, payload: seq<Byte>)
  {
    && 2 <= at < |history| && i in history[at - 2].files
    && history[at - 2].files[i].regular && history[at - 2].files[i].content == payload
  }

  // At some moment between two indices the temporary name held exactly these bytes.
  ghost predicate Staged(history: seq<Fs>, since: nat, upto: nat, temporary: Name, i: Inode, payload: seq<Byte>)
  {
    exists k :: since <= k < upto && k < |history| && Holds(history[k], temporary, i, payload)
  }

  lemma LinkStays(before: seq<LinkRecord>, after: seq<LinkRecord>, a: seq<Fs>, b: seq<Fs>, since: nat, name: Name, i: Inode)
    requires Prefix(a, b) && exists later: nat :: since <= later && LinkedOnce(before, after, a, later, name, i)
    ensures LinkedOnce(before, after, b, since, name, i)
  {
    var at := after[|before|].at;
    assert b[..|a|][at - 1] == b[at - 1] && b[..|a|][at] == b[at];
  }

  lemma LookStays(start: Fs, a: seq<Fs>, b: seq<Fs>, at: nat, i: Inode, fingerprint: Stat)
    requires Prefix(a, b) && LastLook(start, a, at, i, fingerprint)
    ensures LastLook(start, b, at, i, fingerprint)
  {
    assert b[..|a|][at - 2] == b[at - 2];
  }

  // What is known of the link a call made: one new link, the bytes at the last look before it, the staged
  // file some time before it and, when integrity was confirmed, the entry some time after it.
  ghost predicate Committed(before: seq<LinkRecord>, after: seq<LinkRecord>, history: seq<Fs>, since: nat, temporary: Name,
                            destination: Name, i: Inode, payload: seq<Byte>)
  {
    && LinkedOnce(before, after, history, since, destination, i)
    && HeldBytes(history, after[|before|].at, i, payload)
    && Staged(history, since, after[|before|].at, temporary, i, payload)
  }

  lemma CommittedStays(before: seq<LinkRecord>, after: seq<LinkRecord>, a: seq<Fs>, b: seq<Fs>, earlier: nat, since: nat,
                       temporary: Name, destination: Name, i: Inode, payload: seq<Byte>)
    requires Prefix(a, b) && since <= earlier && Committed(before, after, a, earlier, temporary, destination, i, payload)
    ensures Committed(before, after, b, since, temporary, destination, i, payload)
    ensures |after| == |before| + 1 && after[|before|].at < |a|
  {
    var at := after[|before|].at;
    LinkStays(before, after, a, b, since, destination, i);
    assert b[..|a|][at - 2] == b[at - 2];
    var k :| earlier <= k < at && k < |a| && Holds(a[k], temporary, i, payload);
    assert b[..|a|][k] == b[k];
    assert Holds(b[k], temporary, i, payload);
  }

  // A fingerprint seen again means the same bytes.
  lemma LookedBytes(start: Fs, history: seq<Fs>, at: nat, temporary: Name, i: Inode, fingerprint: Stat, payload: seq<Byte>)
    requires LastLook(start, history, at, i, fingerprint)
    requires Holds(start, temporary, i, payload) && StatOf(start, i) == fingerprint
    ensures HeldBytes(history, at, i, payload)
  {
  }

  // _link_bound_descriptor; None stands for its exception.
  method LinkBound(os: Host, i: Inode, destination: Name, fingerprint: Stat, size: nat, digest: Digest, expected: Text)
    returns (r: Option<LinkResult>)
    requires os.Valid() && i in os.fs.files
    modifies os`fs, os`time, os`history, os`links, os`openCount, os`closeCount
    ensures os.time >= old(os.time)
    ensures os.Valid() && Later(old(os.fs), os.fs) && Prefix(old(os.history), os.history)
    ensures os.openCount - old(os.openCount) == os.closeCount - old(os.closeCount)
    ensures r == None ==> os.links == old(os.links)
    ensures r.Some? ==> LinkedOnce(old(os.links), os.links, os.history, |old(os.history)|, destination, i)
                        && LastLook(old(os.fs), os.history, os.links[|old(os.links)|].at, i, fingerprint)
    ensures r.Some? && r.value.integrity ==>
              Confirmed(os.history, os.links[|old(os.links)|].at + 1, destination, i, size, digest, expected)
    ensures r.Some? ==> LinkWarnings(r.value)
    ensures r.Some? && r.value.warnings == [] ==> NoneFailed(os.fails, old(os.time), os.time)
    ensures (os.Quiet() && StatOf(old(os.fs), i) == fingerprint && fingerprint.size == size
             && destination !in old(os.fs).entries && fingerprint.regular && digest(old(os.fs).files[i].content) == expected)
            ==> r == Some(LinkResult(true, [])) && Installed(old(os.fs), os.fs, destination, i)
    ensures os.Alone() ==> Touches(old(os.fs), os.fs, i) && (r == None ==> os.fs.entries == old(os.fs).entries)
    ensures r.Some? ==> |os.links| == |old(os.links)| + 1 && os.links[|old(os.links)|].at >= |old(os.history)|
  {
    hide Host.Alone, WellFormed, Later, Confirmed, Host.Valid, LinkedState, Touches, NoneFailed;
    var proc, directory, committed := OpenAndLink(os, i, destination, fingerprint, size);
    ghost var linked, atLink, t1 := os.fs, os.history, os.time;
    LaterKeeps(old(os.fs), linked, i);
    if !committed {
      var ignored := CloseDirectories(os, proc, directory, false);
      LaterTransitive(old(os.fs), linked, os.fs);
      return None;
    }
    var done := ConfirmAndClose(os, i, destination, size, digest, expected, proc, directory);
    LaterTransitive(old(os.fs), linked, os.fs);
    PrefixTransitive(old(os.history), atLink, os.history);
    LinkStays(old(os.links), os.links, atLink, os.history, |old(os.history)|, destination, i);
    LookStays(old(os.fs), atLink, os.history, os.links[|old(os.links)|].at, i, fingerprint);
    if done.warnings == [] { NoneFailedJoins(os.fails, old(os.time), t1, os.time); }
    r := Some(done);
  }

  // What follows the link: the installed entry is read back and both directories are closed.
  method ConfirmAndClose(os: Host, i: Inode, destination: Name, size: nat, digest: Digest, expected: Text, proc: bool,
                         directory: bool)
    returns (r: LinkResult)
    requires os.Valid() && i in os.fs.files
    modifies os`fs, os`time, os`history, os`closeCount
    ensures os.time >= old(os.time)
    ensures os.Valid() && Later(old(os.fs), os.fs) && Prefix(old(os.history), os.history)
    ensures os.closeCount == old(os.closeCount) + (if proc then 1 else 0) + (if directory then 1 else 0)
    ensures r.integrity ==> Confirmed(os.history, |old(os.history)|, destination, i, size, digest, expected)
    ensures LinkWarnings(r)
    ensures r.warnings == [] ==> NoneFailed(os.fails, old(os.time), os.time)
    ensures os.Alone() ==> os.fs == old(os.fs)
    ensures (os.Quiet() && Holds(os.fs, destination, i, os.fs.files[i].content) && |os.fs.files[i].content| == size
             && digest(os.fs.files[i].content) == expected) ==> r == LinkResult(true, [])
  {
    hide Host.Alone, WellFormed, Later, Confirmed, Host.Valid, Holds, NoneFailed, Prefix;
    var integrity := VerifyInstalled(os, i, destination, size, digest, expected);
    ghost var since, verified, t := os.fs, os.history, os.time;
    var warnings := CloseDirectories(os, proc, directory, true);
    LaterTransitive(old(os.fs), since, os.fs);
    PrefixTransitive(old(os.history), verified, os.history);
    if integrity {
      StillConfirmed(verified, os.history, |old(os.history)|, destination, i, size, digest, expected);
      if warnings == [] { NoneFailedJoins(os.fails, old(os.time), t, os.time); }
    }
    r := LinkResult(integrity, (if integrity then [] else [IntegrityUnconfirmed]) + warnings);
  }

  // A confirmation outlives later calls, and holds since any earlier moment.
  lemma StillConfirmed(a: seq<Fs>, b: seq<Fs>, since: nat, name: Name, i: Inode, size: nat, digest: Digest, expected: Text)
    requires Prefix(a, b) && exists later: nat :: since <= later && Confirmed(a, later, name, i, size, digest, expected)
    ensures Confirmed(b, since, name, i, size, digest, expected)
  {
    var later: nat :| since <= later && Confirmed(a, later, name, i, size, digest, expected);
    var k, content :| later <= k < |a| && Holds(a[k], name, i, content) && |content| == size && digest(content) == expected;
    assert a[k] == b[..|a|][k];
    assert Holds(b[k], name, i, content);
  }

  // ---------------------------------------------------------------- the whole build

  datatype Outcome = Raised | Built(inode: Inode, integrity: bool, cleanup: bool, durable: bool, warnings: seq<Warning>)

  // What is decided outside this protocol: whether the publication validator accepts the temporary
  // manifest and binds its digest, and whether the checkout is clean.
  datatype Checks = Checks(validated: bool, clean: bool)

  const MODE: int := 0x1A4

  // The mode is fixed, the payload written and synced.
  method FixAndWrite(os: Host, i: Inode, payload: seq<Byte>) returns (ok: bool)
    requires os.Valid() && i in os.fs.files
    modifies os`fs, os`time, os`history, os`syncs
    ensures os.time >= old(os.time)
    ensures os.Valid() && Later(old(os.fs), os.fs) && Prefix(old(os.history), os.history)
    ensures |os.syncs| >= |old(os.syncs)|
    ensures ok ==> Synced(old(os.syncs), os.syncs, Some(i), |old(os.history)|, |os.history|)
    ensures ok ==> NoneFailed(os.fails, old(os.time), os.time)
    ensures os.Alone() ==> os.fs.entries == old(os.fs).entries && Touches(old(os.fs), os.fs, i)
    ensures os.Alone() && ok ==> i in os.fs.files && os.fs.files[i].mode == MODE
    ensures os.Alone() && old(os.fs).files[i].content == [] && ok ==>
              os.fs.files[i].content == payload && os.fs.files[i].regular == old(os.fs).files[i].regular
    ensures os.Quiet() ==> ok
  {
    hide Host.Alone, WellFormed, Later, Host.Valid, Prefix, Touches, SameBytes, NoneFailed;
    ValidLater(os);
    PrefixSelf(os.history);
    SameBytesSelf(os.fs);
    OneCall(os.fails, os.time);
    var fixed := os.Fchmod(i, MODE);
    ghost var a, ha, t := os.fs, os.history, os.time;
    LaterKeeps(old(os.fs), a, i);
    if !fixed { return false; }
    PrefixLength(old(os.history), ha);
    if os.Alone() { FixedBytes(old(os.fs), a, i); }
    ok := WritePayload(os, i, payload);
    LaterTransitive(old(os.fs), a, os.fs);
    PrefixTransitive(old(os.history), ha, os.history);
    LaterKeeps(a, os.fs, i);
    if os.Alone() { TouchesTransitive(old(os.fs), a, os.fs, i); }
    if ok {
      assert os.syncs[|old(os.syncs)|] == Sync(Some(i), |os.history| - 1);
      NoneFailedJoins(os.fails, old(os.time), t, os.time);
    }
  }

  // The guarded part of build_calibration_manifest before the link: mode, bytes, the checks, the verification.
  method Stage(os: Host, i: Inode, temporary: Name, created: Stat, payload: seq<Byte>, checks: Checks)
    returns (r: Option<Stat>)
    requires os.Valid() && i in os.fs.files
    modifies os`fs, os`time, os`history, os`syncs
    ensures os.time >= old(os.time)
    ensures os.Valid() && Later(old(os.fs), os.fs) && Prefix(old(os.history), os.history)
    ensures |os.syncs| >= |old(os.syncs)|
    ensures r.Some? ==> Synced(old(os.syncs), os.syncs, Some(i), |old(os.history)|, |os.history|)
    ensures r.Some? ==> created.regular && checks.validated && checks.clean
    ensures r.Some? ==> NoneFailed(os.fails, old(os.time), os.time)
    ensures r.Some? ==> |os.history| > |old(os.history)| && i in os.fs.files && os.history[|os.history| - 1] == os.fs
                        && Holds(os.fs, temporary, i, payload) && StatOf(os.fs, i) == r.value
    ensures os.Alone() ==> os.fs.entries == old(os.fs).entries && Touches(old(os.fs), os.fs, i)
    ensures os.Alone() && r.Some? ==> os.fs.files[i].mode == MODE
    ensures (os.Quiet() && checks.validated && checks.clean && created == StatOf(old(os.fs), i) && created.regular
             && Holds(old(os.fs), temporary, i, [])) ==> r.Some?
  {
    hide Host.Alone, WellFormed, Later, Host.Valid, Prefix, StatOf, Touches, Synced, NoneFailed;
    ValidLater(os);
    PrefixSelf(os.history);
    SameBytesSelf(os.fs);
    if !created.regular { return None; }
    var written := FixAndWrite(os, i, payload);
    ghost var b, hb, t1 := os.fs, os.history, os.time;
    if !written { return None; }
    LaterKeeps(old(os.fs), b, i);
    r := Recheck(os, i, temporary, payload, checks);
    LaterTransitive(old(os.fs), b, os.fs);
    PrefixTransitive(old(os.history), hb, os.history);
    PrefixLength(hb, os.history);
    SyncedLonger(old(os.syncs), os.syncs, Some(i), |old(os.history)|, |hb|, |os.history|);
    if r.Some? { NoneFailedJoins(os.fails, old(os.time), t1, os.time); }
  }

  // The publication validator is called, both checks are taken, and the temporary manifest is read back.
  method Recheck(os: Host, i: Inode, temporary: Name, payload: seq<Byte>, checks: Checks) returns (r: Option<Stat>)
    requires os.Valid() && i in os.fs.files
    modifies os`fs, os`time, os`history
    ensures os.time >= old(os.time)
    ensures os.Valid() && Later(old(os.fs), os.fs) && Prefix(old(os.history), os.history)
    ensures r.Some? ==> checks.validated && checks.clean && NoneFailed(os.fails, old(os.time), os.time)
    ensures r.Some? ==> |os.history| > |old(os.history)| && i in os.fs.files && os.history[|os.history| - 1] == os.fs
                        && Holds(os.fs, temporary, i, payload) && StatOf(os.fs, i) == r.value
    ensures os.Alone() ==> os.fs == old(os.fs)
    ensures os.Quiet() && checks.validated && checks.clean && Holds(os.fs, temporary, i, payload) ==> r.Some?
  {
    hide Host.Alone, WellFormed, Later, Host.Valid, Prefix, StatOf, NoneFailed;
    OneCall(os.fails, os.time);
    var reachable := os.Call();
    ghost var c, hc, t := os.fs, os.history, os.time;
    if !reachable || !checks.validated || !checks.clean { return None; }
    LaterKeeps(old(os.fs), c, i);
    r := VerifyBound(os, i, temporary, payload);
    LaterTransitive(old(os.fs), c, os.fs);
    PrefixTransitive(old(os.history), hc, os.history);
    PrefixLength(old(os.history), hc);
    PrefixLength(hc, os.history);
    if r.Some? { NoneFailedJoins(os.fails, old(os.time), t, os.time); }
  }

  lemma FixedBytes(a: Fs, b: Fs, i: Inode)
    requires SameBytes(a, b) && i in a.files
    ensures i in b.files && b.files[i].content == a.files[i].content && b.files[i].regular == a.files[i].regular
  {
  }

  // The whole guarded part, up to and including the link; None stands for its exception.
  method Prepare(os: Host, i: Inode, temporary: Name, created: Stat, payload: seq<Byte>, destination: Name, digest: Digest,
                 checks: Checks)
    returns (r: Option<LinkResult>)
    requires os.Valid() && i in os.fs.files
    modifies os`fs, os`time, os`history, os`links, os`syncs, os`openCount, os`closeCount
    ensures os.time >= old(os.time)
    ensures os.Valid() && Later(old(os.fs), os.fs) && Prefix(old(os.history), os.history)
    ensures os.openCount - old(os.openCount) == os.closeCount - old(os.closeCount)
    ensures r == None ==> os.links == old(os.links)
    ensures |os.syncs| >= |old(os.syncs)|
    ensures r.Some? ==> checks.validated && checks.clean && |os.links| == |old(os.links)| + 1
                        && Synced(old(os.syncs), os.syncs, Some(i), |old(os.history)|, os.links[|old(os.links)|].at)
    ensures r.Some? ==> Committed(old(os.links), os.links, os.history, |old(os.history)|, temporary, destination, i, payload)
    ensures r.Some? && r.value.integrity ==>
              Confirmed(os.history, os.links[|old(os.links)|].at + 1, destination, i, |payload|, digest, digest(payload))
    ensures r.Some? ==> LinkWarnings(r.value)
    ensures r.Some? && r.value.warnings == [] ==> NoneFailed(os.fails, old(os.time), os.time)
    ensures (os.Quiet() && checks.validated && checks.clean && created == StatOf(old(os.fs), i) && created.regular
             && destination !in old(os.fs).entries && Holds(old(os.fs), temporary, i, []))
            ==> r == Some(LinkResult(true, [])) && i in os.fs.files && os.fs.files[i].content == payload
                && os.fs.entries == old(os.fs).entries[destination := i] && os.fs.files[i].mode == MODE
    ensures os.Alone() && r == None ==> os.fs.entries == old(os.fs).entries
    ensures os.Alone() ==> Touches(old(os.fs), os.fs, i)
  {
    hide Host.Alone, WellFormed, Later, Confirmed, Host.Valid, LinkedState, LastLook, LinkedOnce, Committed, Touches,
         Synced, NoneFailed;
    var fingerprint := Stage(os, i, temporary, created, payload, checks);
    ghost var d, hd, t := os.fs, os.history, os.time;
    if fingerprint == None { return None; }
    r := LinkBound(os, i, destination, fingerprint.value, |payload|, digest, digest(payload));
    LaterTransitive(old(os.fs), d, os.fs);
    PrefixTransitive(old(os.history), hd, os.history);
    if os.Alone() { TouchesTransitive(old(os.fs), d, os.fs, i); }
    if r.Some? {
      if r.value.warnings == [] { NoneFailedJoins(os.fails, old(os.time), t, os.time); }
      SyncedLonger(old(os.syncs), os.syncs, Some(i), |old(os.history)|, |hd|, os.links[|old(os.links)|].at);
      LinkBoundCommits(old(os.links), os.links, |old(os.history)|, hd, os.history, temporary, destination, i,
                       fingerprint.value, payload);
    }
  }

  lemma SyncedLonger(before: seq<Sync>, after: seq<Sync>, file: Option<Inode>, since: nat, upto: nat, more: nat)
    requires Synced(before, after, file, since, upto) && upto <= more
    ensures Synced(before, after, file, since, more)
  {
  }

  lemma LinkBoundCommits(before: seq<LinkRecord>, after: seq<LinkRecord>, since: nat, verified: seq<Fs>, now: seq<Fs>,
                         temporary: Name, destination: Name, i: Inode, fingerprint: Stat, payload: seq<Byte>)
    requires since < |verified| && Prefix(verified, now) && i in verified[|verified| - 1].files
    requires Holds(verified[|verified| - 1], temporary, i, payload) && StatOf(verified[|verified| - 1], i) == fingerprint
    requires LinkedOnce(before, after, now, |verified|, destination, i)
    requires LastLook(verified[|verified| - 1], now, after[|before|].at, i, fingerprint)
    ensures Committed(before, after, now, since, temporary, destination, i, payload)
  {
    LinkStays(before, after, now, now, since, destination, i);
    LookedBytes(verified[|verified| - 1], now, after[|before|].at, temporary, i, fingerprint, payload);
    assert now[..|verified|][|verified| - 1] == now[|verified| - 1];
  }

  // _fsync_directory; false stands for an OSError.
  method FsyncDirectory(os: Host) returns (ok: bool)
    requires os.Valid()
    modifies os`fs, os`time, os`history, os`syncs, os`openCount, os`closeCount
    ensures os.time >= old(os.time)
    ensures os.Valid() && Later(old(os.fs), os.fs) && Prefix(old(os.history), os.history)
    ensures os.openCount - old(os.openCount) == os.closeCount - old(os.closeCount)
    ensures |os.syncs| >= |old(os.syncs)| && os.syncs[..|old(os.syncs)|] == old(os.syncs)
    ensures ok ==> Synced(old(os.syncs), os.syncs, None, |old(os.history)|, |os.history|)
    ensures !ok ==> os.FailedSince(old(os.time))
    ensures ok ==> NoneFailed(os.fails, old(os.time), os.time)
    ensures os.Alone() ==> os.fs == old(os.fs)
    ensures os.Quiet() ==> ok
  {
    hide Host.Alone, WellFormed, Later;
    var found := os.Open();
    if !found { return false; }
    ghost var a := os.fs;
    var synced := os.Fsync(None);
    ghost var b := os.fs;
    LaterTransitive(old(os.fs), a, b);
    var closed := os.Close();
    LaterTransitive(old(os.fs), b, os.fs);
    ok := synced && closed;
    if ok { assert os.syncs[|old(os.syncs)|].file == None; }
  }

  // What follows the commit: every failure becomes a warning.
  method Finish(os: Host, i: Inode, temporary: Name, linked: LinkResult) returns (r: Outcome)
    requires os.Valid() && LinkWarnings(linked)
    modifies os`fs, os`time, os`history, os`syncs, os`openCount, os`closeCount
    ensures os.time >= old(os.time)
    ensures os.Valid() && Prefix(old(os.history), os.history)
    ensures os.openCount - old(os.openCount) == os.closeCount - old(os.closeCount) - 1
    ensures r.Built? && r.inode == i && r.integrity == linked.integrity && WarningsSay(r)
    ensures r.warnings == [] ==> linked.warnings == [] && NoneFailed(os.fails, old(os.time), os.time)
    ensures r.cleanup ==> AbsentSince(os.history, |old(os.history)|, temporary)
    ensures |os.syncs| >= |old(os.syncs)| && os.syncs[..|old(os.syncs)|] == old(os.syncs)
    ensures r.durable ==> Synced(old(os.syncs), os.syncs, None, |old(os.history)|, |os.history|)
    ensures (os.Quiet() && linked == LinkResult(true, [])
             && temporary in old(os.fs).entries && old(os.fs).entries[temporary] == i)
            ==> r == Built(i, true, true, true, []) && os.fs.entries == old(os.fs).entries - {temporary}
                && SameBytes(old(os.fs), os.fs) && SameModes(old(os.fs), os.fs) && Touches(old(os.fs), os.fs, i)
  {
    hide Host.Alone, WellFormed, Later, SameBytes, SameModes, Touches, Host.Valid, Prefix, WarningsSay, LinkWarnings, Synced,
         AbsentSince, NoneFailed;
    var warnings := linked.warnings;
    var cleanup, cleanupWarning := UnlinkBound(os, temporary, i);
    ghost var removed, t1 := os.history, os.time;
    if cleanupWarning.Some? { warnings := warnings + [cleanupWarning.value]; }
    var durable := FsyncDirectory(os);
    ghost var synced, t2 := os.history, os.time;
    PrefixLength(old(os.history), removed);
    PrefixTransitive(old(os.history), removed, synced);
    if !durable { warnings := warnings + [FsyncFailed]; }
    var closed := os.Close();
    PrefixTransitive(removed, synced, os.history);
    PrefixTransitive(old(os.history), synced, os.history);
    PrefixLength(synced, os.history);
    if durable { SyncedBetween(old(os.syncs), os.syncs, None, |removed|, |synced|, |old(os.history)|, |os.history|); }
    if !closed { warnings := warnings + [DescriptorCloseFailed]; }
    if cleanup { StillAbsent(removed, os.history, |old(os.history)|, temporary); }
    if cleanup && durable && closed {
      OneCall(os.fails, t2);
      NoneFailedJoins(os.fails, old(os.time), t1, t2);
      NoneFailedJoins(os.fails, old(os.time), t2, os.time);
    }
    r := Built(i, linked.integrity, cleanup, durable, warnings);
    WarningsAdd(linked, cleanupWarning, durable, closed, r);
  }

  lemma WarningsAdd(linked: LinkResult, cleanup: Option<Warning>, durable: bool, closed: bool, r: Outcome)
    requires LinkWarnings(linked) && r.Built? && r.integrity == linked.integrity
    requires cleanup in {None, Some(IdentityChanged), Some(InspectFailed), Some(UnlinkFailed)}
    requires r.cleanup == (cleanup == None) && r.durable == durable
    requires var a := linked.warnings;
             var b := if cleanup.Some? then a + [cleanup.value] else a;
             var c := if !durable then b + [FsyncFailed] else b;
             r.warnings == if !closed then c + [DescriptorCloseFailed] else c
    ensures WarningsSay(r)
  {
    var a := linked.warnings;
    var b := if cleanup.Some? then a + [cleanup.value] else a;
    var c := if !durable then b + [FsyncFailed] else b;
    OneMore(a, cleanup, b);
    OneMore(b, if !durable then Some(FsyncFailed) else None, c);
    OneMore(c, if !closed then Some(DescriptorCloseFailed) else None, r.warnings);
  }

  lemma OneMore(before: seq<Warning>, more: Option<Warning>, after: seq<Warning>)
    requires after == if more.Some? then before + [more.value] else before
    ensures forall w :: w in after <==> w in before || more == Some(w)
    ensures after == [] <==> before == [] && more == None
  {
  }

  lemma SyncedBetween(before: seq<Sync>, after: seq<Sync>, file: Option<Inode>, since: nat, upto: nat, earlier: nat, later: nat)
    requires Synced(before, after, file, since, upto) && earlier <= since && upto <= later
    ensures Synced(before, after, file, earlier, later)
  {
  }

  // The warnings of the link, and those of a whole outcome: one for each thing left unconfirmed.
  predicate LinkWarnings(linked: LinkResult)
  {
    && (IntegrityUnconfirmed in linked.warnings <==> !linked.integrity)
    && forall w | w in linked.warnings :: w == IntegrityUnconfirmed || w == ProcCloseFailed || w == DirectoryCloseFailed
  }

  predicate WarningsSay(r: Outcome)
    requires r.Built?
  {
    && (IntegrityUnconfirmed in r.warnings <==> !r.integrity)
    && ((InspectFailed in r.warnings || IdentityChanged in r.warnings || UnlinkFailed in r.warnings) <==> !r.cleanup)
    && (FsyncFailed in r.warnings <==> !r.durable)
    && (r.warnings == [] ==> r.integrity && r.cleanup && r.durable)
  }

  lemma StillAbsent(a: seq<Fs>, b: seq<Fs>, since: nat, name: Name)
    requires Prefix(a, b) && exists later: nat :: since <= later && AbsentSince(a, later, name)
    ensures AbsentSince(b, since, name)
  {
    var later: nat :| since <= later && AbsentSince(a, later, name);
    var k :| later <= k < |a| && name !in a[k].entries;
    assert a[k] == b[..|a|][k];
  }

  // What is done before an exception goes on: the temporary name is removed if it is still ours, and the
  // descriptor is closed; failures are ignored.
  method Abandon(os: Host, temporary: Name, i: Inode)
    requires os.Valid()
    modifies os`fs, os`time, os`history, os`closeCount
    ensures os.time >= old(os.time)
    ensures os.Valid() && Later(old(os.fs), os.fs)
    ensures Prefix(old(os.history), os.history) && os.closeCount == old(os.closeCount) + 1
    ensures AbsentSince(os.history, |old(os.history)|, temporary)
            || ForeignSince(os.history, |old(os.history)|, temporary, i) || os.FailedSince(old(os.time))
    ensures os.Quiet() && (temporary in old(os.fs).entries ==> old(os.fs).entries[temporary] == i) ==>
              os.fs.entries == old(os.fs).entries - {temporary} && Touches(old(os.fs), os.fs, i)
  {
    hide Host.Alone;
    var gone, warning := UnlinkBound(os, temporary, i);
    ghost var after, removed := os.fs, os.history;
    var closed := os.Close();
    LaterTransitive(old(os.fs), after, os.fs);
    if gone { StillAbsent(removed, os.history, |old(os.history)|, temporary); }
    if warning == Some(IdentityChanged) { assert os.history[|old(os.history)|].entries[temporary] != i; }
  }

  // At some moment of the history, from an index on, the name belonged to another file.
  ghost predicate ForeignSince(history: seq<Fs>, since: nat, name: Name, i: Inode)
  {
    exists k :: since <= k < |history| && name in history[k].entries && history[k].entries[name] != i
  }

  // The temporary name was created in this call for the file and later was absent, or another file's.
  ghost predicate CleanedUp(history: seq<Fs>, since: nat, temporary: Name, i: Inode)
  {
    exists m :: since <= m < |history| && temporary in history[m].entries && history[m].entries[temporary] == i
             && (AbsentSince(history, m + 1, temporary) || ForeignSince(history, m + 1, temporary, i))
  }

  lemma CleanedAfter(history: seq<Fs>, since: nat, made: nat, from: nat, temporary: Name, i: Inode)
    requires since <= made < from && made < |history|
    requires temporary in history[made].entries && history[made].entries[temporary] == i
    requires AbsentSince(history, from, temporary) || ForeignSince(history, from, temporary, i)
    ensures CleanedUp(history, since, temporary, i)
  {
    assert AbsentSince(history, made + 1, temporary) || ForeignSince(history, made + 1, temporary, i);
  }

  // What the whole call promises of the link it made, given the links and syncs before it.
  ghost predicate Delivered(links0: seq<LinkRecord>, syncs0: seq<Sync>, since: nat, links: seq<LinkRecord>, syncs: seq<Sync>,
                            history: seq<Fs>, r: Outcome, temporary: Name, destination: Name, payload: seq<Byte>,
                            digest: Digest)
    requires r.Built?
  {
    && Committed(links0, links, history, since, temporary, destination, r.inode, payload)
    && |links| == |links0| + 1
    && var at := links[|links0|].at;
    && Synced(syncs0, syncs, Some(r.inode), since, at)
    && (r.integrity ==> Confirmed(history, at + 1, destination, r.inode, |payload|, digest, digest(payload)))
    && (r.cleanup ==> AbsentSince(history, at + 1, temporary))
    && (r.durable ==> Synced(syncs0, syncs, None, at + 1, |history|))
  }

  // The part after the link, with what was known before it.
  method Conclude(os: Host, temporary: Name, i: Inode, linked: LinkResult, payload: seq<Byte>, destination: Name,
                  digest: Digest, ghost links0: seq<LinkRecord>, ghost syncs0: seq<Sync>, ghost since: nat)
    returns (r: Outcome)
    requires os.Valid() && LinkWarnings(linked) && |os.links| == |links0| + 1 && |syncs0| <= |os.syncs|
    requires Committed(links0, os.links, os.history, since, temporary, destination, i, payload)
    requires Synced(syncs0, os.syncs, Some(i), since, os.links[|links0|].at)
    requires linked.integrity ==>
               Confirmed(os.history, os.links[|links0|].at + 1, destination, i, |payload|, digest, digest(payload))
    modifies os`fs, os`time, os`history, os`syncs, os`openCount, os`closeCount
    ensures os.time >= old(os.time)
    ensures os.Valid() && Prefix(old(os.history), os.history)
    ensures os.openCount - old(os.openCount) == os.closeCount - old(os.closeCount) - 1
    ensures r.Built? && r.inode == i && WarningsSay(r)
    ensures r.warnings == [] ==> linked.warnings == [] && NoneFailed(os.fails, old(os.time), os.time)
    ensures Delivered(links0, syncs0, since, os.links, os.syncs, os.history, r, temporary, destination, payload, digest)
    ensures (os.Quiet() && linked == LinkResult(true, [])
             && temporary in old(os.fs).entries && old(os.fs).entries[temporary] == i)
            ==> r.warnings == [] && os.fs.entries == old(os.fs).entries - {temporary}
                && SameBytes(old(os.fs), os.fs) && SameModes(old(os.fs), os.fs) && Touches(old(os.fs), os.fs, i)
  {
    hide Host.Alone, WellFormed, Later, Confirmed, AbsentSince, Host.Valid, Prefix, LinkedOnce, Synced, Touches, SameBytes,
         SameModes, WarningsSay, LinkWarnings, Committed, NoneFailed;
    ghost var before, synced := os.history, os.syncs;
    ghost var at := os.links[|links0|].at;
    r := Finish(os, i, temporary, linked);
    CommittedStays(links0, os.links, before, os.history, since, since, temporary, destination, i, payload);
    SyncedGrows(syncs0, synced, os.syncs, Some(i), since, at, since);
    if r.durable { SyncedLate(syncs0, synced, os.syncs, None, |before|, |os.history|, at + 1); }
    if r.integrity { StillConfirmed(before, os.history, at + 1, destination, i, |payload|, digest, digest(payload)); }
    if r.cleanup { StillAbsent(os.history, os.history, at + 1, temporary); }
  }

  // From fstat to the link, with the clean-up when an exception goes on; None stands for that exception.
  method Guarded(os: Host, temporary: Name, i: Inode, payload: seq<Byte>, destination: Name, digest: Digest, checks: Checks)
    returns (r: Option<LinkResult>)
    requires os.Valid() && i in os.fs.files
    modifies os`fs, os`time, os`history, os`links, os`syncs, os`openCount, os`closeCount
    ensures os.time >= old(os.time) && |os.syncs| >= |old(os.syncs)| && i in os.fs.files
    ensures os.Valid() && Prefix(old(os.history), os.history)
    ensures os.openCount - old(os.openCount) == os.closeCount - old(os.closeCount) - if r == None then 1 else 0
    ensures r == None ==> os.links == old(os.links)
    ensures r == None ==>
              os.FailedSince(old(os.time)) || AbsentSince(os.history, |old(os.history)|, temporary)
              || ForeignSince(os.history, |old(os.history)|, temporary, i)
    ensures r.Some? ==> checks.validated && checks.clean && LinkWarnings(r.value) && |os.links| == |old(os.links)| + 1
    ensures r.Some? ==> Committed(old(os.links), os.links, os.history, |old(os.history)|, temporary, destination, i, payload)
                        && Synced(old(os.syncs), os.syncs, Some(i), |old(os.history)|, os.links[|old(os.links)|].at)
    ensures r.Some? && r.value.integrity ==>
              Confirmed(os.history, os.links[|old(os.links)|].at + 1, destination, i, |payload|, digest, digest(payload))
    ensures r.Some? && r.value.warnings == [] ==> NoneFailed(os.fails, old(os.time), os.time)
    ensures os.Quiet() && r == None && temporary in old(os.fs).entries && old(os.fs).entries[temporary] == i ==>
              os.fs.entries == old(os.fs).entries - {temporary} && Touches(old(os.fs), os.fs, i)
    ensures os.Quiet() && r.Some? ==> Touches(old(os.fs), os.fs, i)
    ensures (os.Quiet() && checks.validated && checks.clean && destination !in old(os.fs).entries
             && Holds(old(os.fs), temporary, i, []))
            ==> r == Some(LinkResult(true, [])) && os.fs.entries == old(os.fs).entries[destination := i]
                && os.fs.files[i].content == payload && os.fs.files[i].mode == MODE
  {
    hide Host.Alone, WellFormed, Later, Confirmed, Committed, AbsentSince, Host.Valid, Prefix, Synced,
         ForeignSince, Touches, LinkWarnings, Host.FailedSince, NoneFailed;
    OneCall(os.fails, os.time);
    var created := os.Fstat(i);
    ghost var looked, inspected, t := os.fs, os.history, os.time;
    if created == None {
      var ignored := os.Close();
      FailedAt(os, old(os.time));
      PrefixTransitive(old(os.history), inspected, os.history);
      LaterKeeps(looked, os.fs, i);
      return None;
    }
    r := Prepare(os, i, temporary, created.value, payload, destination, digest, checks);
    ghost var prepared, before := os.fs, os.history;
    PrefixTransitive(old(os.history), inspected, before);
    PrefixLength(old(os.history), inspected);
    PrefixLength(old(os.history), before);
    LaterKeeps(looked, prepared, i);
    if r == None {
      ghost var start := os.time;
      Abandon(os, temporary, i);
      LaterKeeps(prepared, os.fs, i);
      PrefixTransitive(old(os.history), before, os.history);
      if os.FailedSince(start) { FailedEarlier(os, start, old(os.time)); }
      if AbsentSince(os.history, |before|, temporary) {
        StillAbsent(os.history, os.history, |old(os.history)|, temporary);
      }
      if ForeignSince(os.history, |before|, temporary, i) { ForeignLonger(os.history, |before|, |old(os.history)|, temporary, i); }
      if os.Quiet() && Touches(prepared, os.fs, i) { TouchesTransitive(old(os.fs), prepared, os.fs, i); }
      return;
    }
    if r.value.warnings == [] { NoneFailedJoins(os.fails, old(os.time), t, os.time); }
    CommittedStays(old(os.links), os.links, before, before, |inspected|, |old(os.history)|, temporary, destination, i, payload);
    SyncedGrows(old(os.syncs), os.syncs, os.syncs, Some(i), |inspected|, os.links[|old(os.links)|].at, |old(os.history)|);
  }

  // Everything after mkstemp, on the created file.
  method BuildFrom(os: Host, temporary: Name, i: Inode, payload: seq<Byte>, destination: Name, digest: Digest, checks: Checks)
    returns (r: Outcome)
    requires os.Valid() && i in os.fs.files
    modifies os`fs, os`time, os`history, os`links, os`syncs, os`openCount, os`closeCount
    ensures os.time >= old(os.time)
    ensures os.Valid() && Prefix(old(os.history), os.history)
    ensures os.openCount - old(os.openCount) == os.closeCount - old(os.closeCount) - 1
    ensures r.Raised? <==> os.links == old(os.links)
    ensures r.Raised? ==>
              os.FailedSince(old(os.time)) || AbsentSince(os.history, |old(os.history)|, temporary)
              || ForeignSince(os.history, |old(os.history)|, temporary, i)
    ensures r.Built? ==> r.inode == i && checks.validated && checks.clean && WarningsSay(r)
    ensures r.Built? && r.warnings == [] ==> NoneFailed(os.fails, old(os.time), os.time)
    ensures r.Built? ==> Delivered(old(os.links), old(os.syncs), |old(os.history)|, os.links, os.syncs, os.history, r, temporary,
                                   destination, payload, digest)
    ensures os.Quiet() && r.Raised? && temporary in old(os.fs).entries && old(os.fs).entries[temporary] == i ==>
              os.fs.entries == old(os.fs).entries - {temporary} && Touches(old(os.fs), os.fs, i)
    ensures (os.Quiet() && checks.validated && checks.clean && destination !in old(os.fs).entries
             && destination != temporary && Holds(old(os.fs), temporary, i, []))
            ==> r.Built? && r.warnings == [] && os.fs.entries == old(os.fs).entries[destination := i] - {temporary}
                && i in os.fs.files && os.fs.files[i].content == payload && os.fs.files[i].mode == MODE
                && Touches(old(os.fs), os.fs, i)
  {
    hide Host.Alone, WellFormed, Later, Confirmed, Committed, AbsentSince, Host.Valid, Prefix, Synced,
         ForeignSince, Touches, SameBytes, SameModes, WarningsSay, LinkWarnings, Delivered, Host.FailedSince, Holds,
         NoneFailed;
    if Holds(os.fs, temporary, i, []) { HoldsEmpty(os.fs, temporary, i); }
    var linked := Guarded(os, temporary, i, payload, destination, digest, checks);
    ghost var prepared, before, t := os.fs, os.history, os.time;
    if linked == None { return Raised; }
    r := Conclude(os, temporary, i, linked.value, payload, destination, digest, old(os.links), old(os.syncs), |old(os.history)|);
    PrefixTransitive(old(os.history), before, os.history);
    if r.warnings == [] { NoneFailedJoins(os.fails, old(os.time), t, os.time); }
    if os.Quiet() && Touches(prepared, os.fs, i) { TouchesTransitive(old(os.fs), prepared, os.fs, i); }
    if SameBytes(prepared, os.fs) && SameModes(prepared, os.fs) { KeptFile(prepared, os.fs, i); }
  }

  lemma DeliveredSince(links0: seq<LinkRecord>, syncs0: seq<Sync>, since: nat, earlier: nat, links: seq<LinkRecord>,
                       syncs: seq<Sync>, history: seq<Fs>, r: Outcome, temporary: Name, destination: Name,
                       payload: seq<Byte>, digest: Digest)
    requires r.Built? && earlier <= since
    requires Delivered(links0, syncs0, since, links, syncs, history, r, temporary, destination, payload, digest)
    ensures Delivered(links0, syncs0, earlier, links, syncs, history, r, temporary, destination, payload, digest)
  {
    hide Confirmed, AbsentSince, LinkedOnce, Committed;
    CommittedStays(links0, links, history, history, since, earlier, temporary, destination, r.inode, payload);
    SyncedGrows(syncs0, syncs, syncs, Some(r.inode), since, links[|links0|].at, earlier);
  }

  lemma FailedAt(os: Host, t: nat)
    requires t < os.time && os.fails(t)
    ensures os.FailedSince(t)
  {
  }

  lemma FailedEarlier(os: Host, start: nat, earlier: nat)
    requires os.FailedSince(start) && earlier <= start
    ensures os.FailedSince(earlier)
  {
  }

  lemma HoldsEmpty(fs: Fs, name: Name, i: Inode)
    requires Holds(fs, name, i, [])
    ensures name in fs.entries && fs.entries[name] == i && i in fs.files && fs.files[i].regular
  {
  }

  lemma ForeignLonger(history: seq<Fs>, since: nat, earlier: nat, name: Name, i: Inode)
    requires ForeignSince(history, since, name, i) && earlier <= since
    ensures ForeignSince(history, earlier, name, i)
  {
  }

  lemma SyncedGrows(before: seq<Sync>, middle: seq<Sync>, after: seq<Sync>, file: Option<Inode>, since: nat, upto: nat, earlier: nat)
    requires Synced(before, middle, file, since, upto) && earlier <= since
    requires |middle| <= |after| && after[..|middle|] == middle
    ensures Synced(before, after, file, earlier, upto)
  {
    var k :| |before| <= k < |middle| && middle[k].file == file && since <= middle[k].at < upto;
    assert after[..|middle|][k] == after[k];
  }

  lemma SyncedLate(before: seq<Sync>, middle: seq<Sync>, after: seq<Sync>, file: Option<Inode>, since: nat, upto: nat, earlier: nat)
    requires Synced(middle, after, file, since, upto) && earlier <= since && |before| <= |middle|
    ensures Synced(before, after, file, earlier, upto)
  {
  }

  // Raising means that this call linked nothing and, unless some call failed, that the temporary name was
  // removed or had become another file's. Returning means that it linked the destination exactly once, to a
  // name absent just before, after both outside checks, and that at the last look before the link the held
  // file had exactly the payload, which had been synced; whatever fails afterwards becomes a warning.
  // Confirmed integrity means that after the link the destination named the held file with the validated
  // bytes' digest, complete clean-up that after the link the temporary name was absent, durability that
  // after the link the directory was synced.
  method Build(os: Host, payload: seq<Byte>, destination: Name, digest: Digest, checks: Checks)
    returns (r: Outcome, ghost temporary: Name)
    requires os.Valid()
    modifies os`fs, os`time, os`history, os`links, os`syncs, os`openCount, os`closeCount
    ensures os.time >= old(os.time)
    ensures os.Valid() && Prefix(old(os.history), os.history)
    ensures os.openCount - old(os.openCount) == os.closeCount - old(os.closeCount)
    ensures r.Raised? <==> os.links == old(os.links)
    ensures r.Raised? ==>
              os.FailedSince(old(os.time)) || exists i :: CleanedUp(os.history, |old(os.history)|, temporary, i)
    ensures r.Built? ==> checks.validated && checks.clean && WarningsSay(r)
    ensures r.Built? && r.warnings == [] ==> NoneFailed(os.fails, old(os.time), os.time)
    ensures r.Built? ==>
              Committed(old(os.links), os.links, os.history, |old(os.history)|, temporary, destination, r.inode, payload)
    ensures r.Built? ==>
              Synced(old(os.syncs), os.syncs, Some(r.inode), |old(os.history)|, os.links[|old(os.links)|].at)
    ensures r.Built? && r.integrity ==>
              Confirmed(os.history, os.links[|old(os.links)|].at + 1, destination, r.inode, |payload|, digest, digest(payload))
    ensures r.Built? && r.cleanup ==> AbsentSince(os.history, os.links[|old(os.links)|].at + 1, temporary)
    ensures r.Built? && r.durable ==>
              Synced(old(os.syncs), os.syncs, None, os.links[|old(os.links)|].at + 1, |os.history|)
    ensures os.Quiet() && r.Raised? ==> os.fs.entries == old(os.fs).entries && OldFilesSame(old(os.fs), os.fs)
    ensures (os.Quiet() && checks.validated && checks.clean && destination !in old(os.fs).entries
             && destination != os.unused(old(os.fs)).0)
            ==> r.Built? && r.warnings == [] && os.fs.entries == old(os.fs).entries[destination := r.inode]
                && r.inode in os.fs.files && os.fs.files[r.inode].content == payload && os.fs.files[r.inode].mode == MODE
                && OldFilesSame(old(os.fs), os.fs)
  {
    hide Host.Alone, WellFormed, Later, Confirmed, Committed, AbsentSince, Host.Valid, Prefix, LinkedOnce, Synced,
         CleanedUp, ForeignSince, Touches, SameBytes, SameModes, OldFilesSame, WarningsSay, NoneFailed;
    OneCall(os.fails, os.time);
    var made := os.Mkstemp();
    if made == None { return Raised, []; }
    var (name, i) := made.value;
    temporary := name;
    ghost var a, first, t := os.fs, os.history, os.time;
    r := BuildFrom(os, name, i, payload, destination, digest, checks);
    PrefixTransitive(old(os.history), first, os.history);
    PrefixLength(old(os.history), first);
    PrefixLast(first, os.history);
    if os.Quiet() {
      AddedRemoved(old(os.fs).entries, name, i);
      TemporaryGone(old(os.fs).entries, name, destination, i);
      if Touches(a, os.fs, i) { OldAfterNew(old(os.fs), a, os.fs, i, a.files[i]); }
    }
    if r.Raised? {
      if AbsentSince(os.history, |first|, name) || ForeignSince(os.history, |first|, name, i) {
        CleanedAfter(os.history, |old(os.history)|, |first| - 1, |first|, name, i);
      }
      return;
    }
    if r.warnings == [] { NoneFailedJoins(os.fails, old(os.time), t, os.time); }
    DeliveredSince(old(os.links), old(os.syncs), |first|, |old(os.history)|, os.links, os.syncs, os.history, r, name,
                   destination, payload, digest);
  }

  // Adding two new names and removing the first adds the second.
  lemma TemporaryGone(entries: map<Name, Inode>, temporary: Name, destination: Name, i: Inode)
    ensures temporary !in entries && temporary != destination ==>
              entries[temporary := i][destination := i] - {temporary} == entries[destination := i]
  {
  }

  lemma AddedRemoved(entries: map<Name, Inode>, name: Name, i: Inode)
    ensures name !in entries ==> entries[name := i] - {name} == entries
  {
  }

  lemma PrefixLast(a: seq<Fs>, b: seq<Fs>)
    requires Prefix(a, b) && a != []
    ensures |a| <= |b| && b[|a| - 1] == a[|a| - 1]
  {
    assert b[..|a|][|a| - 1] == b[|a| - 1];
  }

  lemma KeptFile(a: Fs, b: Fs, i: Inode)
    requires SameBytes(a, b) && SameModes(a, b) && i in a.files
    ensures i in b.files && b.files[i].content == a.files[i].content && b.files[i].mode == a.files[i].mode
  {
  }

  // No file that was there before has changed.
  ghost predicate OldFilesSame(a: Fs, b: Fs)
  {
    forall j | j in a.files :: j in b.files && b.files[j] == a.files[j]
  }

  lemma OldAfterNew(a: Fs, made: Fs, b: Fs, i: Inode, f: File)
    requires i !in a.files && made.files == a.files[i := f] && Touches(made, b, i)
    ensures OldFilesSame(a, b)
  {
    forall j | j in a.files ensures j in b.files && b.files[j] == a.files[j] {
      assert j in made.files && j != i;
    }
  }

  // An undisturbed run from any directory: the destination is added, holds the payload, and nothing else
  // in the directory changes.
  method Undisturbed(fs: Fs, others: (nat, Fs) -> Fs, fails: nat -> bool, portion: (nat, nat) -> nat,
                     unused: Fs -> (Name, Inode), payload: seq<Byte>, destination: Name, digest: Digest)
    returns (r: Outcome, after: Fs)
    requires WellFormed(fs) && Lawful(others) && Bounded(portion) && GivesNew(unused)
    requires Idle(others) && (forall t :: !fails(t)) && Progressing(portion)
    requires destination !in fs.entries && destination != unused(fs).0
    ensures r.Built? && r.warnings == [] && after.entries == fs.entries[destination := r.inode]
    ensures r.inode in after.files && after.files[r.inode].content == payload && after.files[r.inode].mode == 6 * 64 + 4 * 8 + 4
    ensures forall j | j in fs.files :: j in after.files && after.files[j] == fs.files[j]
  {
    var os := new Host(fs, others, fails, portion, unused);
    ghost var temporary: Name;
    r, temporary := Build(os, payload, destination, digest, Checks(true, true));
    after := os.fs;
  }
}
