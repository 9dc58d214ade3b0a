/** The snapshot buffer that the collector writes and the IPC and HTTP threads read,
    without a lock (daemon.c, json.c, ipc_server.c): a state machine whose steps are
    single byte accesses, interleaved in any order. */
module SharedSnapshot {
  import opened Text

  /** sizeof(g_current_snapshot), and what fits behind the header of a reply. */
  const SIZE: nat := 262144
  const LIMIT: nat := 262128

  /** Where the collector stands inside the builder: json_init before its store,
      memcpy of `s` with the bytes in `done` stored, or json_write before its NUL. */
  datatype Phase =
    | Idle
    | Resetting
    | Copying(s: string, done: set<nat>)
    | Terminating

  /** The collector's builder; `text` is what it has written since json_init. */
  datatype Collector = Collector(pos: nat, error: bool, step: Phase, text: string)

  /** A thread that runs strlen over the buffer, copies that many bytes, and sends
      them with that length declared. */
  datatype Reader =
    | Resting
    | Scanning(k: nat)
    | Fetching(len: nat, copied: string)
    | Sent(payload: string, declared: nat)

  datatype System = System(buf: seq<char>, collector: Collector, readers: seq<Reader>)

  datatype Action =
    | Restart
    | StoreFirst
    | Write(s: string)
    | StoreByte(i: nat)
    | EndCopy
    | StoreNul
    | Begin(r: nat)
    | Look(r: nat)
    | Fetch(r: nat)
    | Send(r: nat)

  predicate IsReaderAction(a: Action) {
    a.Begin? || a.Look? || a.Fetch? || a.Send?
  }

  predicate Enabled(y: System, a: Action) {
    match a
    case Restart => y.collector.step.Idle?
    case StoreFirst => y.collector.step.Resetting? && 0 < |y.buf|
    case Write(_) => y.collector.step.Idle?
    case StoreByte(i) => y.collector.step.Copying? && i < |y.collector.step.s| && y.collector.pos + i < |y.buf|
    case EndCopy => y.collector.step.Copying? && forall i: nat :: i < |y.collector.step.s| ==> i in y.collector.step.done
    case StoreNul => y.collector.step.Terminating? && y.collector.pos < |y.buf|
    case Begin(r) => r < |y.readers| && (y.readers[r].Resting? || y.readers[r].Sent?)
    case Look(r) => r < |y.readers| && y.readers[r].Scanning? && y.readers[r].k < |y.buf|
    case Fetch(r) => r < |y.readers| && y.readers[r].Fetching?
                     && |y.readers[r].copied| < y.readers[r].len <= |y.buf|
    case Send(r) => r < |y.readers| && y.readers[r].Fetching? && |y.readers[r].copied| == y.readers[r].len
  }

  function Next(y: System, a: Action): System
    requires Enabled(y, a)
  {
    var c := y.collector;
    match a
    case Restart => y.(collector := Collector(0, false, Resetting, ""))
    case StoreFirst => y.(buf := y.buf[0 := '\0'], collector := c.(step := Idle))
    case Write(s) =>
      if c.error then y
      else if c.pos + |s| >= SIZE then y.(collector := c.(error := true))
      else y.(collector := c.(step := Copying(s, {})))
    case StoreByte(i) =>
      y.(buf := y.buf[c.pos + i := c.step.s[i]], collector := c.(step := Copying(c.step.s, c.step.done + {i})))
    case EndCopy =>
      y.(collector := Collector(c.pos + |c.step.s|, c.error, Terminating, c.text + c.step.s))
    case StoreNul => y.(buf := y.buf[c.pos := '\0'], collector := c.(step := Idle))
    case Begin(r) => y.(readers := y.readers[r := Scanning(0)])
    case Look(r) =>
      var k := y.readers[r].k;
      y.(readers := y.readers[r :=
        if y.buf[k] != '\0' then Scanning(k + 1)
        else if k < LIMIT then Fetching(k, "")
        else Sent("", 0)])
    case Fetch(r) =>
      var f := y.readers[r];
      y.(readers := y.readers[r := Fetching(f.len, f.copied + [y.buf[|f.copied|]])])
    case Send(r) => y.(readers := y.readers[r := Sent(y.readers[r].copied, y.readers[r].len)])
  }

  predicate Possible(y: System, run: seq<Action>)
    decreases run
  {
    run == [] || (Enabled(y, run[0]) && Possible(Next(y, run[0]), run[1..]))
  }

  function After(y: System, run: seq<Action>): System
    requires Possible(y, run)
    decreases run
  {
    if run == [] then y else After(Next(y, run[0]), run[1..])
  }

  // ----- Safety in every interleaving -----

  predicate ReaderSafe(r: Reader) {
    match r
    case Resting => true
    case Scanning(k) => k < SIZE
    case Fetching(len, copied) => |copied| <= len < LIMIT
    case Sent(payload, declared) => |payload| == declared < LIMIT
  }

  /** The collector's bytes up to `pos` are its text, and NUL-terminated when it is
      between two writes. */
  predicate CollectorSafe(buf: seq<char>, c: Collector)
    requires |buf| == SIZE
  {
    && c.pos < SIZE && |c.text| == c.pos && buf[..c.pos] == c.text
    && match c.step
       case Idle => buf[c.pos] == '\0'
       case Resetting => c.pos == 0
       case Copying(s, done) =>
         c.pos + |s| < SIZE && forall i: nat :: i in done && i < |s| ==> buf[c.pos + i] == s[i]
       case Terminating => true
  }

  /** The last byte of the buffer is NUL, whoever does what. */
  ghost predicate Safe(y: System) {
    && |y.buf| == SIZE && y.buf[SIZE - 1] == '\0'
    && CollectorSafe(y.buf, y.collector)
    && forall r :: 0 <= r < |y.readers| ==> ReaderSafe(y.readers[r])
  }

  /** The zero-initialised daemon. */
  predicate Initial(y: System) {
    && |y.buf| == SIZE && (forall i :: 0 <= i < SIZE ==> y.buf[i] == '\0')
    && y.collector == Collector(0, false, Idle, "")
    && forall r :: 0 <= r < |y.readers| ==> y.readers[r] == Resting
  }

  lemma CollectorStepSafe(y: System, a: Action)
    requires Safe(y) && Enabled(y, a) && !IsReaderAction(a)
    ensures Safe(Next(y, a))
  {
    var c, z := y.collector, Next(y, a);
    match a {
      case StoreByte(i) => assert z.buf[..c.pos] == y.buf[..c.pos];
      case EndCopy => assert y.buf[..c.pos + |c.step.s|] == c.text + c.step.s;
      case StoreNul => assert z.buf[..c.pos] == y.buf[..c.pos];
      case StoreFirst => assert z.buf[..0] == [];
      case Restart => assert y.buf[..0] == [];
      case Write(s) =>
    }
  }

  lemma StepSafe(y: System, a: Action)
    requires Safe(y) && Enabled(y, a)
    ensures Safe(Next(y, a))
  {
    if !IsReaderAction(a) {
      CollectorStepSafe(y, a);
    }
  }

  /** Every interleaving of the collector's byte stores with any readers keeps the
      buffer terminated at its last byte, every strlen inside it, and every reply's
      declared length equal to the bytes sent and below the reply limit. */
  lemma {:induction false} RunSafe(y: System, run: seq<Action>)
    requires Safe(y) && Possible(y, run)
    ensures Safe(After(y, run))
    decreases run
  {
    if run != [] {
      StepSafe(y, run[0]);
      RunSafe(Next(y, run[0]), run[1..]);
    }
  }

  lemma InitiallySafe(y: System)
    requires Initial(y)
    ensures Safe(y)
  {
  }

  /** A scanning reader can always take its next look, and the look at the last byte
      ends the scan: strlen makes at most SIZE looks. */
  lemma ScanStops(y: System, r: nat)
    requires Safe(y) && r < |y.readers| && y.readers[r].Scanning?
    ensures Enabled(y, Look(r))
    ensures y.readers[r].k == SIZE - 1 ==> !Next(y, Look(r)).readers[r].Scanning?
    ensures Next(y, Look(r)).readers[r].Scanning? ==> Next(y, Look(r)).readers[r].k == y.readers[r].k + 1
  {
  }

  // ----- Without a concurrent write -----

  /** The string a C function sees in the buffer. */
  function CString(buf: seq<char>): string {
    match StrChr(buf, '\0')
    case Some(k) => buf[..k]
    case None => buf
  }

  /** What reader `r` has so far agrees with a buffer that stands still. */
  predicate Faithful(buf: seq<char>, r: Reader) {
    match r
    case Resting => true
    case Scanning(k) => k <= |buf| && '\0' !in buf[..k]
    case Fetching(len, copied) => len == |CString(buf)| < LIMIT && |copied| <= len && copied == CString(buf)[..|copied|]
    case Sent(payload, _) => payload == if |CString(buf)| < LIMIT then CString(buf) else ""
  }

  lemma FirstNul(buf: seq<char>, k: nat)
    requires k < |buf| && buf[k] == '\0' && '\0' !in buf[..k]
    ensures CString(buf) == buf[..k]
  {
    StrChrIs(buf, '\0', k);
  }

  lemma ReaderStepFaithful(y: System, a: Action, r: nat)
    requires Safe(y) && Enabled(y, a) && IsReaderAction(a)
    requires r < |y.readers| && Faithful(y.buf, y.readers[r])
    ensures Next(y, a).buf == y.buf && |Next(y, a).readers| == |y.readers|
    ensures Next(y, a).collector == y.collector
    ensures Faithful(y.buf, Next(y, a).readers[r])
  {
    if a.r == r {
      match a {
        case Look(_) =>
          var k := y.readers[r].k;
          if y.buf[k] == '\0' {
            FirstNul(y.buf, k);
          } else {
            assert y.buf[..k + 1] == y.buf[..k] + [y.buf[k]];
          }
        case Fetch(_) =>
          var f := y.readers[r];
          var n := |f.copied|;
          assert CString(y.buf)[..n + 1] == CString(y.buf)[..n] + [CString(y.buf)[n]];
        case Send(_) =>
          assert y.readers[r].copied == CString(y.buf);
        case Begin(_) =>
      }
    }
  }

  /** If the collector rests between two writes while a reader works, the reader
      sends the whole text, or nothing when the text is too long for a reply. */
  lemma {:induction false} QuietRead(y: System, run: seq<Action>, r: nat)
    requires Safe(y) && Possible(y, run) && forall k :: 0 <= k < |run| ==> IsReaderAction(run[k])
    requires y.collector.step == Idle && '\0' !in y.collector.text
    requires r < |y.readers| && Faithful(y.buf, y.readers[r])
    ensures var z := After(y, run);
            && r < |z.readers|
            && (z.readers[r].Sent? ==>
                  z.readers[r].payload == if |y.collector.text| < LIMIT then y.collector.text else "")
    decreases run
  {
    if run == [] {
      FirstNul(y.buf, y.collector.pos);
    } else {
      ReaderStepFaithful(y, run[0], r);
      StepSafe(y, run[0]);
      QuietRead(Next(y, run[0]), run[1..], r);
    }
  }

  // ----- What the collector has written -----

  /** The json_write calls since the last json_init. */
  function PiecesAfter(pieces: seq<string>, run: seq<Action>): seq<string>
    decreases run
  {
    if run == [] then pieces
    else match run[0]
      case Restart => PiecesAfter([], run[1..])
      case Write(s) => PiecesAfter(pieces + [s], run[1..])
      case _ => PiecesAfter(pieces, run[1..])
  }

  function Concat(pieces: seq<string>): string {
    if pieces == [] then "" else Concat(pieces[..|pieces| - 1]) + pieces[|pieces| - 1]
  }

  /** What a bounded buffer keeps of a sequence of writes, and its error flag. */
  datatype Held = Held(text: string, error: bool)

  function Hold(pieces: seq<string>): Held {
    if pieces == [] then Held("", false)
    else
      var h, s := Hold(pieces[..|pieces| - 1]), pieces[|pieces| - 1];
      if h.error || |h.text| + |s| >= SIZE then Held(h.text, true) else Held(h.text + s, false)
  }

  /** The collector between and within its writes. */
  predicate InStep(c: Collector, pieces: seq<string>) {
    && c.error == Hold(pieces).error
    && match c.step
       case Idle => c.text == Hold(pieces).text
       case Resetting => pieces == [] && c.text == ""
       case Copying(s, _) => !c.error && c.text + s == Hold(pieces).text
       case Terminating => c.text == Hold(pieces).text
  }

  lemma StepInStep(y: System, a: Action, pieces: seq<string>)
    requires Safe(y) && Enabled(y, a) && InStep(y.collector, pieces)
    ensures InStep(Next(y, a).collector, PiecesAfter(pieces, [a]))
  {
    assert [a][1..] == [];
    if a.Write? {
      assert PiecesAfter(pieces, [a]) == PiecesAfter(pieces + [a.s], []);
      assert (pieces + [a.s])[..|pieces|] == pieces;
    } else if a.Restart? {
      assert PiecesAfter(pieces, [a]) == PiecesAfter([], []);
    } else {
      assert PiecesAfter(pieces, [a]) == PiecesAfter(pieces, []);
    }
  }

  lemma PiecesStep(pieces: seq<string>, run: seq<Action>)
    requires run != []
    ensures PiecesAfter(pieces, run) == PiecesAfter(PiecesAfter(pieces, [run[0]]), run[1..])
  {
    assert [run[0]][1..] == [];
  }

  /** In every interleaving with readers the collector holds what the bounded buffer
      of a single thread would hold of the same writes. */
  lemma {:induction false} RunInStep(y: System, run: seq<Action>, pieces: seq<string>)
    requires Safe(y) && Possible(y, run) && InStep(y.collector, pieces)
    ensures InStep(After(y, run).collector, PiecesAfter(pieces, run))
    decreases run
  {
    hide Hold;
    hide InStep;
    if run != [] {
      StepInStep(y, run[0], pieces);
      StepSafe(y, run[0]);
      PiecesStep(pieces, run);
      RunInStep(Next(y, run[0]), run[1..], PiecesAfter(pieces, [run[0]]));
    }
  }

  /** All of the text, and no error, exactly if text and NUL fit; otherwise a proper
      prefix, which can be cut below the reply limit only by a piece of more than 16
      bytes. */
  lemma {:induction false} HoldIs(pieces: seq<string>)
    ensures Hold(pieces).error <==> |Concat(pieces)| >= 262144
    ensures !Hold(pieces).error ==> Hold(pieces).text == Concat(pieces)
    ensures Hold(pieces).error ==> Hold(pieces).text < Concat(pieces)
    ensures |Hold(pieces).text| < SIZE
    ensures Hold(pieces).error && (forall k :: 0 <= k < |pieces| ==> |pieces[k]| <= SIZE - LIMIT)
            ==> |Hold(pieces).text| >= LIMIT
  {
    if pieces != [] {
      HoldIs(pieces[..|pieces| - 1]);
    }
  }

  /** Of writes that follow `start` bytes, number `k` begins below the reply limit and
      runs past the end of the buffer. */
  predicate CrossesAt(start: nat, pieces: seq<string>, k: nat)
    requires k < |pieces|
  {
    var at := start + |Concat(pieces[..k])|;
    at < LIMIT && at + |pieces[k]| >= SIZE
  }

  ghost predicate Crosses(start: nat, pieces: seq<string>) {
    exists k :: 0 <= k < |pieces| && CrossesAt(start, pieces, k)
  }

  /** What is kept of a text that does not fit is short enough for a reply if and only
      if one write starts below the reply limit and runs past the end. */
  lemma {:induction false} HoldIsCutIff(pieces: seq<string>)
    requires |Concat(pieces)| >= SIZE
    ensures |Hold(pieces).text| < LIMIT <==> Crosses(0, pieces)
  {
    var n := |pieces| - 1;
    var short := pieces[..n];
    forall k | 0 <= k < n
      ensures CrossesAt(0, short, k) == CrossesAt(0, pieces, k)
    {
      assert short[..k] == pieces[..k];
    }
    HoldIs(short);
    if |Concat(short)| >= SIZE {
      HoldIsCutIff(short);
      if k :| 0 <= k < |short| && CrossesAt(0, short, k) {
        assert CrossesAt(0, pieces, k);
      }
      assert !CrossesAt(0, pieces, n);
    } else {
      if |Concat(short)| < LIMIT {
        assert CrossesAt(0, pieces, n);
      }
      forall k | 0 <= k < n
        ensures !CrossesAt(0, pieces, k)
      {
        ConcatGrows(short, k);
      }
    }
  }

  lemma {:induction false} ConcatGrows(pieces: seq<string>, k: nat)
    requires k < |pieces|
    ensures |Concat(pieces[..k])| + |pieces[k]| <= |Concat(pieces)|
  {
    var n := |pieces| - 1;
    if k < n {
      ConcatGrows(pieces[..n], k);
      assert pieces[..n][..k] == pieces[..k];
    }
  }

  /** Once a piece does not fit, the buffer keeps what was written before it. */
  lemma {:induction false} HoldStops(before: seq<string>, s: string, more: seq<string>)
    requires |Concat(before)| < SIZE <= |Concat(before)| + |s|
    ensures Hold(before + [s] + more) == Held(Concat(before), true)
    decreases |more|
  {
    var all := before + [s] + more;
    if more == [] {
      HoldIs(before);
      assert all[..|all| - 1] == before && all[|all| - 1] == s;
    } else {
      HoldStops(before, s, more[..|more| - 1]);
      assert all[..|all| - 1] == before + [s] + more[..|more| - 1];
    }
  }
}
