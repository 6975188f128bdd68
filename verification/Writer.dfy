/** Streaming writes: the writer behind the FFI (opendal/src/writer.rs) driven by the file
    handle in front of it (src/opendal_filesystem.cpp, `OpenFile`, `Write`, `FileSync`,
    `CloseInternal`).

    The backend may fail at any call. Each call draws an `Outcome`, on which nothing is
    assumed, and every call the backend sees is recorded in a log. */
module Writer {
  import opened Bytes

  // ---- The backend ----

  datatype Call = Write(data: Str, ok: bool) | Close(ok: bool) | Abort(ok: bool)

  /** What the backend answers: to the call itself, and to the abort after a failure. */
  datatype Outcome = Outcome(ok: bool, abortOk: bool)

  /** The bytes of the writes that succeeded. */
  function Accepted(log: seq<Call>): Str
  {
    if log == [] then []
    else
      var last := log[|log| - 1];
      Accepted(log[..|log| - 1]) + if last.Write? && last.ok then last.data else []
  }

  /** The object visible under the path: a successful close publishes what is buffered, an abort
      discards it. */
  datatype Backend = Backend(buffer: Str, published: Option<Str>)

  function Replay(log: seq<Call>): Backend
  {
    if log == [] then Backend([], None)
    else
      var b := Replay(log[..|log| - 1]);
      match log[|log| - 1]
      case Write(data, ok) => if ok then b.(buffer := b.buffer + data) else b
      case Close(ok) => if ok then Backend([], Some(b.buffer)) else b
      case Abort(_) => b.(buffer := [])
  }

  function Object(log: seq<Call>): Option<Str>
  {
    Replay(log).published
  }

  // ---- The Rust writer ----

  datatype WriterState = Open | Closed | Aborted | Failed

  datatype Rust = Rust(state: WriterState, log: seq<Call>)

  datatype RustResult = RustResult(writer: Rust, ok: bool)

  function AbortAfterFailure(w: Rust, abortOk: bool): RustResult
  {
    RustResult(Rust(if abortOk then Aborted else Failed, w.log + [Abort(abortOk)]), false)
  }

  function OdWrite(w: Rust, data: Str, outcome: Outcome): RustResult
  {
    if data == [] then RustResult(w, true)
    else if |data| > MAX_I64 || w.state != Open then RustResult(w, false)
    else
      var called := w.(log := w.log + [Write(data, outcome.ok)]);
      if outcome.ok then RustResult(called, true) else AbortAfterFailure(called, outcome.abortOk)
  }

  function OdClose(w: Rust, outcome: Outcome): RustResult
  {
    if w.state != Open then RustResult(w, false)
    else
      var called := w.(log := w.log + [Close(outcome.ok)]);
      if outcome.ok then RustResult(called.(state := Closed), true) else AbortAfterFailure(called, outcome.abortOk)
  }

  function OdAbort(w: Rust, outcome: Outcome): RustResult
  {
    if w.state != Open then RustResult(w, false)
    else RustResult(Rust(if outcome.ok then Aborted else Failed, w.log + [Abort(outcome.ok)]), outcome.ok)
  }

  /** The writer object, updated in place. */
  class OdWriter {
    var state: WriterState
    ghost var log: seq<Call>

    constructor ()
      ensures View() == Rust(Open, [])
    {
      state, log := Open, [];
    }

    ghost function View(): Rust
      reads this
    {
      Rust(state, log)
    }

    method FailAndAbort(abortOk: bool)
      modifies this
      ensures RustResult(View(), false) == AbortAfterFailure(old(View()), abortOk)
    {
      log := log + [Call.Abort(abortOk)];
      state := if abortOk then Aborted else Failed;
    }

    method Write(data: Str, outcome: Outcome) returns (ok: bool)
      modifies this
      ensures RustResult(View(), ok) == OdWrite(old(View()), data, outcome)
    {
      if data == [] {
        return true;
      }
      if |data| > MAX_I64 || state != Open {
        return false;
      }
      log := log + [Call.Write(data, outcome.ok)];
      if !outcome.ok {
        FailAndAbort(outcome.abortOk);
      }
      ok := outcome.ok;
    }

    method Close(outcome: Outcome) returns (ok: bool)
      modifies this
      ensures RustResult(View(), ok) == OdClose(old(View()), outcome)
    {
      if state != Open {
        return false;
      }
      log := log + [Call.Close(outcome.ok)];
      if outcome.ok {
        state := Closed;
      } else {
        FailAndAbort(outcome.abortOk);
      }
      ok := outcome.ok;
    }

    method Abort(outcome: Outcome) returns (ok: bool)
      modifies this
      ensures RustResult(View(), ok) == OdAbort(old(View()), outcome)
    {
      if state != Open {
        return false;
      }
      log := log + [Call.Abort(outcome.ok)];
      state := if outcome.ok then Aborted else Failed;
      ok := outcome.ok;
    }
  }

  // ---- The file handle ----

  datatype Handle = Handle(
    rust: Rust,
    attached: bool,          // `writer` is not null
    bytesWritten: int,
    committable: bool,
    finished: bool)

  datatype HandleResult = HandleResult(handle: Handle, thrown: bool)

  /** `Write` at an explicit offset, an unsigned 64-bit number. */
  function WriteAt(h: Handle, data: Str, location: nat, outcome: Outcome): HandleResult
  {
    if |data| > MAX_I64 || location > MAX_I64 || !h.attached || h.finished
       || location != h.bytesWritten || |data| > MAX_I64 - h.bytesWritten then
      HandleResult(h, true)
    else
      var result := OdWrite(h.rust, data, outcome);
      if result.ok then
        HandleResult(h.(rust := result.writer, bytesWritten := h.bytesWritten + |data|), false)
      else
        HandleResult(h.(rust := result.writer, finished := true), true)
  }

  function FileSync(h: Handle, outcome: Outcome): HandleResult
  {
    if !h.attached || h.finished then HandleResult(h, false)
    else
      var result := OdClose(h.rust, outcome);
      HandleResult(h.(rust := result.writer, finished := true), !result.ok)
  }

  /** Finishes the writer unless it is finished, and frees it. */
  function CloseInternal(h: Handle, throwOnError: bool, outcome: Outcome): HandleResult
  {
    if !h.attached then HandleResult(h, false)
    else if h.finished then HandleResult(h.(attached := false), false)
    else
      var result := if h.committable then OdClose(h.rust, outcome) else OdAbort(h.rust, outcome);
      HandleResult(h.(rust := result.writer, finished := true, attached := false), throwOnError && !result.ok)
  }

  /** The handle object. The ghost pointer keeps sight of the writer after it has been freed. */
  class FileHandle {
    var writer: OdWriter?
    var bytesWritten: int
    var committable: bool
    var finished: bool
    ghost const rust: OdWriter

    ghost predicate Valid()
      reads this
    {
      writer != null ==> writer == rust
    }

    ghost function View(): Handle
      reads this, rust
    {
      Handle(rust.View(), writer != null, bytesWritten, committable, finished)
    }

    constructor (writer: OdWriter)
      ensures Valid() && rust == writer
      ensures View() == Handle(writer.View(), true, 0, false, false)
    {
      this.writer, rust := writer, writer;
      bytesWritten, committable, finished := 0, false, false;
    }

    method Write(data: Str, location: nat, outcome: Outcome) returns (thrown: bool)
      requires Valid() && 0 <= bytesWritten
      modifies this, rust
      ensures Valid()
      ensures HandleResult(View(), thrown) == WriteAt(old(View()), data, location, outcome)
    {
      if |data| > MAX_I64 || location > MAX_I64 || writer == null || finished {
        return true;
      }
      if location != bytesWritten || |data| > MAX_I64 - bytesWritten {
        return true;
      }
      var ok := writer.Write(data, outcome);
      if !ok {
        finished := true;
        return true;
      }
      bytesWritten := bytesWritten + |data|;
      thrown := false;
    }

    method Sync(outcome: Outcome) returns (thrown: bool)
      requires Valid()
      modifies this, rust
      ensures Valid()
      ensures HandleResult(View(), thrown) == FileSync(old(View()), outcome)
    {
      if writer == null || finished {
        return false;
      }
      var ok := writer.Close(outcome);
      finished := true;
      thrown := !ok;
    }

    /** `Close` throws on error, the destructor does not. */
    method Close(throwOnError: bool, outcome: Outcome) returns (thrown: bool)
      requires Valid()
      modifies this, rust
      ensures Valid()
      ensures HandleResult(View(), thrown) == CloseInternal(old(View()), throwOnError, outcome)
    {
      thrown := false;
      if writer != null {
        if !finished {
          var ok;
          if committable {
            ok := writer.Close(outcome);
          } else {
            ok := writer.Abort(outcome);
          }
          thrown := throwOnError && !ok;
          finished := true;
        }
        writer := null;
      }
    }
  }

  /** `OpenFile` for writing: the handle is marked committable in the last step. If anything
      fails before that, the handle is destroyed and with it the writer aborted. */
  method OpenForWriting(writer: OdWriter, completes: bool, outcome: Outcome) returns (handle: FileHandle?)
    requires writer.View() == Rust(Open, [])
    modifies writer
    ensures completes ==> handle != null && fresh(handle) && handle.Valid() && handle.View() == Opened(true)
    ensures !completes ==> handle == null && writer.View() == OdAbort(Rust(Open, []), outcome).writer
  {
    handle := new FileHandle(writer);
    if !completes {
      var _ := handle.Close(false, outcome);
      return null;
    }
    handle.committable := true;
  }

  // ---- Whole runs ----

  datatype Op =
    | Append(data: Str)                        // `Write` at the running offset
    | AppendAt(data: Str, location: nat)
    | Sync
    | Finish                                   // `Close`
    | Destroy

  function Do(h: Handle, op: Op, outcome: Outcome): HandleResult
  {
    match op
    case Append(data) => if h.bytesWritten < 0 then HandleResult(h, true) else WriteAt(h, data, h.bytesWritten, outcome)
    case AppendAt(data, location) => WriteAt(h, data, location, outcome)
    case Sync => FileSync(h, outcome)
    case Finish => CloseInternal(h, true, outcome)
    case Destroy => CloseInternal(h, false, outcome)
  }

  datatype Event = Event(op: Op, outcome: Outcome)

  function Run(h: Handle, events: seq<Event>): Handle
    decreases |events|
  {
    if events == [] then h else Run(Do(h, events[0].op, events[0].outcome).handle, events[1..])
  }

  /** Whether some call of the run threw. */
  predicate Throws(h: Handle, events: seq<Event>)
    decreases |events|
  {
    events != [] &&
    (Do(h, events[0].op, events[0].outcome).thrown || Throws(Do(h, events[0].op, events[0].outcome).handle, events[1..]))
  }

  /** A handle as `OpenFile` returns it (committable), or gives it up when opening fails later. */
  function Opened(committable: bool): Handle
  {
    Handle(Rust(Open, []), true, 0, committable, false)
  }

  // ---- The invariant ----

  /** All writes succeeded and nothing else was called. */
  predicate OnlyWrites(log: seq<Call>)
  {
    forall i :: 0 <= i < |log| ==> log[i].Write? && log[i].ok
  }

  /** The only ways the backend's log can end: a failed write or close is followed by one abort,
      and after a close or an abort there is nothing. */
  predicate Ending(tail: seq<Call>)
  {
    || tail == []
    || (|tail| == 1 && tail[0].Close? && tail[0].ok)
    || (|tail| == 1 && tail[0].Abort?)
    || (|tail| == 2 && tail[0].Write? && !tail[0].ok && tail[1].Abort?)
    || (|tail| == 2 && tail[0].Close? && !tail[0].ok && tail[1].Abort?)
  }

  predicate WellFormedLog(log: seq<Call>)
  {
    exists n :: 0 <= n <= |log| && OnlyWrites(log[..n]) && Ending(log[n..])
  }

  ghost predicate Inv(h: Handle)
  {
    && h.bytesWritten == |Accepted(h.rust.log)| <= MAX_I64
    && (h.finished <==> h.rust.state != Open)
    && (!h.attached ==> h.finished)
    && (if h.rust.state == Open then OnlyWrites(h.rust.log) && Object(h.rust.log) == None
        else WellFormedLog(h.rust.log))
    && (if h.rust.state == Closed then
          |h.rust.log| > 0 && h.rust.log[|h.rust.log| - 1] == Close(true)
          && Object(h.rust.log) == Some(Accepted(h.rust.log))
        else Object(h.rust.log) == None)
  }

  lemma OpenedInv(committable: bool)
    ensures Inv(Opened(committable))
  {
  }

  lemma Snoc(log: seq<Call>, call: Call)
    ensures (log + [call])[..|log|] == log && (log + [call])[|log|] == call
    ensures Accepted(log + [call]) == Accepted(log) + if call.Write? && call.ok then call.data else []
  {
    assert (log + [call])[..|log|] == log;
  }

  /** While only writes have succeeded, the backend has buffered exactly the accepted bytes. */
  lemma {:induction false} BufferIsAccepted(log: seq<Call>)
    requires OnlyWrites(log)
    ensures Replay(log) == Backend(Accepted(log), None)
  {
    if log != [] {
      BufferIsAccepted(log[..|log| - 1]);
    }
  }

  lemma CloseEnds(log: seq<Call>)
    requires OnlyWrites(log)
    ensures WellFormedLog(log + [Close(true)])
    ensures Object(log + [Close(true)]) == Some(Accepted(log))
    ensures Accepted(log + [Close(true)]) == Accepted(log)
  {
    Snoc(log, Close(true));
    BufferIsAccepted(log);
    var all := log + [Close(true)];
    assert all[|log|..] == [Close(true)];
    assert OnlyWrites(all[..|log|]) && Ending(all[|log|..]);
  }

  lemma AbortEnds(log: seq<Call>, ok: bool)
    requires OnlyWrites(log)
    ensures WellFormedLog(log + [Abort(ok)])
    ensures Object(log + [Abort(ok)]) == None
    ensures Accepted(log + [Abort(ok)]) == Accepted(log)
  {
    Snoc(log, Abort(ok));
    BufferIsAccepted(log);
    var all := log + [Abort(ok)];
    assert all[|log|..] == [Abort(ok)];
    assert OnlyWrites(all[..|log|]) && Ending(all[|log|..]);
  }

  lemma FailureEnds(log: seq<Call>, failed: Call, abortOk: bool)
    requires OnlyWrites(log) && !failed.ok && !failed.Abort?
    ensures WellFormedLog(log + [failed] + [Abort(abortOk)])
    ensures Object(log + [failed] + [Abort(abortOk)]) == None
    ensures Accepted(log + [failed] + [Abort(abortOk)]) == Accepted(log)
  {
    Snoc(log, failed);
    Snoc(log + [failed], Abort(abortOk));
    BufferIsAccepted(log);
    var all := log + [failed] + [Abort(abortOk)];
    assert all[|log|..] == [failed, Abort(abortOk)];
    assert all[..|log|] == log && all[..|log| + 1] == log + [failed];
    assert Replay(log + [failed]) == Replay(log);
    assert OnlyWrites(all[..|log|]) && Ending(all[|log|..]);
  }

  lemma WriteContinues(log: seq<Call>, data: Str)
    requires OnlyWrites(log)
    ensures OnlyWrites(log + [Write(data, true)])
    ensures Accepted(log + [Write(data, true)]) == Accepted(log) + data
    ensures Object(log + [Write(data, true)]) == None
  {
    Snoc(log, Write(data, true));
    BufferIsAccepted(log + [Write(data, true)]);
  }

  lemma DoKeepsInv(h: Handle, op: Op, outcome: Outcome)
    requires Inv(h)
    ensures Inv(Do(h, op, outcome).handle)
  {
    hide Accepted, Object, WellFormedLog, OnlyWrites;
    if h.rust.state == Open {
      var log := h.rust.log;
      match op
      case Append(data) =>
        WriteContinues(log, data);
        FailureEnds(log, Write(data, false), outcome.abortOk);
      case AppendAt(data, _) =>
        WriteContinues(log, data);
        FailureEnds(log, Write(data, false), outcome.abortOk);
      case _ =>
        CloseEnds(log);
        AbortEnds(log, outcome.ok);
        FailureEnds(log, Close(false), outcome.abortOk);
    }
  }

  lemma {:induction false} RunKeepsInv(h: Handle, events: seq<Event>)
    requires Inv(h)
    ensures Inv(Run(h, events))
    decreases |events|
  {
    if events != [] {
      DoKeepsInv(h, events[0].op, events[0].outcome);
      RunKeepsInv(Do(h, events[0].op, events[0].outcome).handle, events[1..]);
    }
  }

  // ---- Safety ----

  /** Call `j` is the abort that the failure of call `i` drew. */
  predicate IsAbortOf(log: seq<Call>, i: nat, j: nat)
    requires i < |log| && j < |log|
  {
    !log[i].ok && j == i + 1 && log[j].Abort?
  }

  /** What a well-formed log looks like call by call. */
  lemma WellFormedCalls(log: seq<Call>, i: nat, j: nat)
    requires WellFormedLog(log) && i < j < |log|
    ensures !log[i].Abort?
    ensures log[i].Close? || !log[i].ok ==> IsAbortOf(log, i, j)
  {
    hide Accepted, Object;
    var n :| 0 <= n <= |log| && OnlyWrites(log[..n]) && Ending(log[n..]);
    var tail := log[n..];
    assert forall k :: 0 <= k < n ==> log[k] == log[..n][k];
    assert forall k :: n <= k < |log| ==> log[k] == tail[k - n];
  }

  lemma WellFormedEnd(log: seq<Call>)
    requires WellFormedLog(log) && log != []
    ensures !log[|log| - 1].ok ==> log[|log| - 1].Abort?
  {
    hide Accepted, Object;
    var n :| 0 <= n <= |log| && OnlyWrites(log[..n]) && Ending(log[n..]);
    var tail := log[n..];
    assert forall k :: 0 <= k < n ==> log[k] == log[..n][k];
    assert forall k :: n <= k < |log| ==> log[k] == tail[k - n];
  }

  /** In every run the backend sees nothing after an abort, nothing after a close or a failed
      write but the abort that a failure always draws; so at most one close and one abort, and no
      close after an abort. */
  lemma BackendSeesWellFormedLog(committable: bool, events: seq<Event>)
    ensures var log := Run(Opened(committable), events).rust.log;
            && WellFormedLog(log)
            && (forall i :: 0 <= i < |log| - 1 ==> !log[i].Abort?)
            && (forall i, j :: 0 <= i < j < |log| && (log[i].Close? || !log[i].ok) ==> IsAbortOf(log, i, j))
            && (log != [] && !log[|log| - 1].ok ==> log[|log| - 1].Abort?)
            && (forall i, j :: 0 <= i < |log| && 0 <= j < |log| && log[i].Close? && log[j].Close? ==> i == j)
            && (forall i, j :: 0 <= i < |log| && 0 <= j < |log| && log[i].Abort? && log[j].Abort? ==> i == j)
  {
    hide Run, WellFormedLog;
    var h := Run(Opened(committable), events);
    OpenedInv(committable);
    RunKeepsInv(Opened(committable), events);
    var log := h.rust.log;
    OnlyWritesIsWellFormed(log);
    forall i, j | 0 <= i < j < |log|
      ensures !log[i].Abort?
      ensures log[i].Close? || !log[i].ok ==> IsAbortOf(log, i, j)
    {
      WellFormedCalls(log, i, j);
    }
    if log != [] {
      WellFormedEnd(log);
      forall i | 0 <= i < |log| - 1 ensures !log[i].Abort? {
        WellFormedCalls(log, i, |log| - 1);
      }
    }
    forall i, j | 0 <= i < |log| && 0 <= j < |log| && ((log[i].Close? && log[j].Close?) || (log[i].Abort? && log[j].Abort?))
      ensures i == j
    {
      if i != j {
        WellFormedCalls(log, if i < j then i else j, if i < j then j else i);
      }
    }
  }

  lemma OnlyWritesIsWellFormed(log: seq<Call>)
    ensures OnlyWrites(log) ==> WellFormedLog(log)
  {
    assert log[..|log|] == log && log[|log|..] == [];
  }

  /** What a run publishes, if anything, is exactly the accepted bytes, and their number is the
      handle's counter, which stays within 64 bits; a run with a failed write publishes nothing. */
  lemma PublishedIsAccepted(committable: bool, events: seq<Event>)
    ensures var h := Run(Opened(committable), events);
            && (Object(h.rust.log).Some? ==> Object(h.rust.log).value == Accepted(h.rust.log))
            && h.bytesWritten == |Accepted(h.rust.log)| <= MAX_I64
            && ((exists i :: 0 <= i < |h.rust.log| && h.rust.log[i].Write? && !h.rust.log[i].ok) ==>
                  Object(h.rust.log) == None)
            && (h.attached ==> (h.finished <==> h.rust.state != Open))
  {
    var h := Run(Opened(committable), events);
    var log := h.rust.log;
    OpenedInv(committable);
    RunKeepsInv(Opened(committable), events);
    if i :| 0 <= i < |log| && log[i].Write? && !log[i].ok {
      FailedWriteIsLast(log, i);
    }
  }

  lemma FailedWriteIsLast(log: seq<Call>, i: nat)
    requires i < |log| && log[i].Write? && !log[i].ok
    ensures OnlyWrites(log) ==> false
    ensures WellFormedLog(log) ==> log[|log| - 1].Abort?
  {
    if WellFormedLog(log) {
      var n :| 0 <= n <= |log| && OnlyWrites(log[..n]) && Ending(log[n..]);
      assert forall k :: 0 <= k < n ==> log[k] == log[..n][k];
      assert log[n..][i - n] == log[i];
      assert log[n..][|log| - n - 1] == log[|log| - 1];
    }
  }

  /** The bytes handed to the write calls of a run. */
  function Data(events: seq<Event>): Str
  {
    if events == [] then []
    else (match events[0].op case Append(data) => data case AppendAt(data, _) => data case _ => []) + Data(events[1..])
  }

  predicate Finishes(events: seq<Event>)
  {
    exists i :: 0 <= i < |events| && (events[i].op == Sync || events[i].op == Finish)
  }

  predicate IsWrite(op: Op)
  {
    op.Append? || op.AppendAt?
  }

  /** A call that does not throw has accepted its bytes, and one that finishes has published. */
  lemma QuietStep(h: Handle, op: Op, outcome: Outcome)
    requires Inv(h) && h.committable && op != Destroy && !Do(h, op, outcome).thrown
    requires h.rust.state == Open || h.rust.state == Closed
    ensures var h' := Do(h, op, outcome).handle;
            && h'.committable
            && Accepted(h'.rust.log) == Accepted(h.rust.log) + Data([Event(op, outcome)])
            && h'.rust.state == (if IsWrite(op) then Open else Closed)
            && (IsWrite(op) ==> h.rust.state == Open)
  {
    hide Object, WellFormedLog, OnlyWrites;
    var log := h.rust.log;
    assert Data([]) == [];
    match op
    case Append(data) => Snoc(log, Write(data, true));
    case AppendAt(data, _) => Snoc(log, Write(data, true));
    case _ => Snoc(log, Close(true));
  }

  lemma DataCons(events: seq<Event>)
    requires events != []
    ensures Data(events) == Data([Event(events[0].op, events[0].outcome)]) + Data(events[1..])
  {
    var e := events[0];
    assert [e][1..] == [] && Data([]) == [];
  }

  lemma NoData(log: seq<Call>)
    ensures Accepted(log) + Data([]) == Accepted(log)
  {
  }

  lemma {:induction false} QuietRun(h: Handle, events: seq<Event>)
    requires Inv(h) && h.committable && !Throws(h, events)
    requires h.rust.state == Open || h.rust.state == Closed
    requires forall i :: 0 <= i < |events| ==> events[i].op != Destroy
    ensures var h' := Run(h, events);
            && Accepted(h'.rust.log) == Accepted(h.rust.log) + Data(events)
            && (h'.rust.state == Open || h'.rust.state == Closed)
            && (h.rust.state == Closed || Finishes(events) ==> h'.rust.state == Closed)
    decreases |events|
  {
    hide Inv, Do, Accepted, Data;
    if events == [] {
      NoData(h.rust.log);
    } else {
      var op, outcome, rest := events[0].op, events[0].outcome, events[1..];
      var next := Do(h, op, outcome).handle;
      QuietStep(h, op, outcome);
      DoKeepsInv(h, op, outcome);
      QuietRun(next, rest);
      DataCons(events);
      if Finishes(events) && IsWrite(op) {
        var i :| 0 <= i < |events| && (events[i].op == Sync || events[i].op == Finish);
        assert rest[i - 1] == events[i];
      }
    }
  }

  /** Nothing gets lost in silence: if no call of a run on a committable handle threw and the run
      synced or closed the handle, the object holds all the bytes written, in order. */
  lemma {:induction false} NoSilentLoss(events: seq<Event>)
    requires !Throws(Opened(true), events) && Finishes(events)
    requires forall i :: 0 <= i < |events| ==> events[i].op != Destroy
    ensures Object(Run(Opened(true), events).rust.log) == Some(Data(events))
  {
    var h := Run(Opened(true), events);
    OpenedInv(true);
    QuietRun(Opened(true), events);
    RunKeepsInv(Opened(true), events);
    assert Accepted([]) + Data(events) == Data(events);
    assert h.rust.state == Closed;
  }

  /** Accepted bytes are never taken back. */
  lemma StepOnlyAppends(h: Handle, op: Op, outcome: Outcome)
    ensures Accepted(h.rust.log) <= Accepted(Do(h, op, outcome).handle.rust.log)
  {
    hide Accepted;
    var log := h.rust.log;
    match op
    case Append(data) => AppendedCalls(log, Write(data, outcome.ok), outcome.abortOk);
    case AppendAt(data, _) => AppendedCalls(log, Write(data, outcome.ok), outcome.abortOk);
    case _ =>
      AppendedCalls(log, Close(outcome.ok), outcome.abortOk);
      Snoc(log, Abort(outcome.ok));
  }

  lemma AppendedCalls(log: seq<Call>, call: Call, abortOk: bool)
    ensures Accepted(log) <= Accepted(log + [call])
    ensures Accepted(log) <= Accepted(log + [call] + [Abort(abortOk)])
  {
    Snoc(log, call);
    Snoc(log + [call], Abort(abortOk));
  }

  lemma {:induction false} RunOnlyAppends(h: Handle, events: seq<Event>)
    ensures Accepted(h.rust.log) <= Accepted(Run(h, events).rust.log)
    decreases |events|
  {
    hide Do, Accepted;
    if events != [] {
      StepOnlyAppends(h, events[0].op, events[0].outcome);
      RunOnlyAppends(Do(h, events[0].op, events[0].outcome).handle, events[1..]);
    }
  }

  /** A positioned write that did not throw put its bytes where it was asked to, and there they
      stay whatever the handle does next. */
  lemma WrittenWhereAsked(h: Handle, data: Str, location: nat, outcome: Outcome, events: seq<Event>)
    requires Inv(h) && !Do(h, AppendAt(data, location), outcome).thrown
    ensures var bytes := Accepted(Run(Do(h, AppendAt(data, location), outcome).handle, events).rust.log);
            location + |data| <= |bytes| && bytes[location..location + |data|] == data
  {
    hide Object, WellFormedLog, OnlyWrites, Accepted;
    var next := Do(h, AppendAt(data, location), outcome).handle;
    Snoc(h.rust.log, Write(data, true));
    RunOnlyAppends(next, events);
    assert Accepted(next.rust.log) == Accepted(h.rust.log) + data && |Accepted(h.rust.log)| == location;
    var bytes := Accepted(Run(next, events).rust.log);
    assert bytes[..location + |data|] == Accepted(next.rust.log);
    assert bytes[location..location + |data|] == bytes[..location + |data|][location..];
  }

  lemma {:induction false} RunKeepsCommittable(h: Handle, events: seq<Event>)
    ensures Run(h, events).committable == h.committable
    decreases |events|
  {
    if events != [] {
      RunKeepsCommittable(Do(h, events[0].op, events[0].outcome).handle, events[1..]);
    }
  }

  /** The destructor does not throw, so there the outcome decides: an unfinished handle publishes
      all it has accepted if and only if it is committable and the backend's close succeeds. */
  lemma DestroyPublishes(events: seq<Event>, committable: bool, outcome: Outcome)
    ensures var h := Run(Opened(committable), events);
            var h' := Do(h, Destroy, outcome).handle;
            && !h'.attached && h'.finished
            && (h.finished ==> h'.rust == h.rust)
            && (!h.finished ==>
                  Object(h'.rust.log) == if committable && outcome.ok then Some(Accepted(h.rust.log)) else None)
  {
    hide Accepted, Object, WellFormedLog, OnlyWrites;
    var h := Run(Opened(committable), events);
    OpenedInv(committable);
    RunKeepsInv(Opened(committable), events);
    RunKeepsCommittable(Opened(committable), events);
    if !h.finished {
      CloseEnds(h.rust.log);
      AbortEnds(h.rust.log, outcome.ok);
      FailureEnds(h.rust.log, Close(false), outcome.abortOk);
    }
  }

  // ---- When a call throws ----

  /** A positioned write is accepted exactly if the handle is open for it, the offset is the running
      one, the counter stays within 64 bits, and the backend takes the bytes. */
  lemma AppendAtThrowsFor(h: Handle, data: Str, location: nat, outcome: Outcome)
    requires Inv(h)
    ensures Do(h, AppendAt(data, location), outcome).thrown <==>
            || !h.attached || h.finished || location != h.bytesWritten || location + |data| > MAX_I64
            || (data != [] && !outcome.ok)
  {
    hide Accepted, Object, WellFormedLog, OnlyWrites;
  }

  /** Every other call throws only where the backend fails it, or a write meets a closed handle or
      the end of the counter. */
  lemma CallsThrowFor(h: Handle, op: Op, outcome: Outcome)
    requires Inv(h)
    ensures op.Append? ==>
              (Do(h, op, outcome).thrown <==>
                 !h.attached || h.finished || h.bytesWritten + |op.data| > MAX_I64 || (op.data != [] && !outcome.ok))
    ensures op == Sync || op == Finish ==> (Do(h, op, outcome).thrown <==> h.attached && !h.finished && !outcome.ok)
    ensures op == Destroy ==> !Do(h, op, outcome).thrown
    ensures op == Finish || op == Destroy ==> !Do(h, op, outcome).handle.attached
  {
    hide Accepted, Object, WellFormedLog, OnlyWrites;
  }

  /** What the writer itself accepts, whoever drives it; what it refuses changes nothing. */
  lemma WriterAccepts(w: Rust, data: Str, outcome: Outcome)
    ensures OdWrite(w, data, outcome).ok <==> data == [] || (|data| <= MAX_I64 && w.state == Open && outcome.ok)
    ensures OdClose(w, outcome).ok <==> w.state == Open && outcome.ok
    ensures OdAbort(w, outcome).ok <==> w.state == Open && outcome.ok
    ensures data == [] || |data| > MAX_I64 || w.state != Open ==> OdWrite(w, data, outcome).writer == w
    ensures w.state != Open ==> OdClose(w, outcome).writer == w && OdAbort(w, outcome).writer == w
  {
  }

  /** The calls that reach the backend, for every operation. */
  lemma CallsReachBackend(h: Handle, op: Op, outcome: Outcome)
    requires Inv(h)
    ensures var log, log' := h.rust.log, Do(h, op, outcome).handle.rust.log;
            var aborted := [Abort(outcome.abortOk)];
            var closing := if outcome.ok then [Close(true)] else [Close(false)] + aborted;
            match op
            case Append(data) =>
              log' == log + if !h.attached || h.finished || h.bytesWritten + |data| > MAX_I64 || data == [] then []
                            else if outcome.ok then [Write(data, true)] else [Write(data, false)] + aborted
            case AppendAt(data, location) =>
              log' == log + if !h.attached || h.finished || location != h.bytesWritten || location + |data| > MAX_I64 || data == [] then []
                            else if outcome.ok then [Write(data, true)] else [Write(data, false)] + aborted
            case Sync => log' == log + if !h.attached || h.finished then [] else closing
            case Finish => log' == log + if !h.attached || h.finished then [] else if h.committable then closing else [Abort(outcome.ok)]
            case Destroy => log' == log + if !h.attached || h.finished then [] else if h.committable then closing else [Abort(outcome.ok)]
  {
    hide Accepted, Object, WellFormedLog, OnlyWrites;
    assert h.rust.log + [] == h.rust.log;
  }

  /** The state of the Rust writer tells how the log ends. */
  predicate Tells(r: Rust)
  {
    var last := if r.log == [] then Write([], true) else r.log[|r.log| - 1];
    && (r.state == Open <==> last.Write?)
    && (r.state == Closed <==> last == Close(true))
    && (r.state == Aborted <==> last == Abort(true))
    && (r.state == Failed <==> last == Abort(false))
  }

  lemma {:induction false} StateTellsTheEnd(h: Handle, events: seq<Event>)
    requires Tells(h.rust)
    ensures Tells(Run(h, events).rust)
    decreases |events|
  {
    if events != [] {
      DoTells(h, events[0].op, events[0].outcome);
      StateTellsTheEnd(Do(h, events[0].op, events[0].outcome).handle, events[1..]);
    }
  }

  lemma DoTells(h: Handle, op: Op, outcome: Outcome)
    requires Tells(h.rust)
    ensures Tells(Do(h, op, outcome).handle.rust)
  {
  }

  // ---- Runs that succeed ----

  predicate OnlyAppends(events: seq<Event>)
  {
    forall i :: 0 <= i < |events| ==> events[i].op.Append? && events[i].outcome.ok
  }

  /** Appends within 64 bits that the backend takes are accepted, however many. */
  lemma {:induction false} AppendsAreAccepted(h: Handle, events: seq<Event>)
    requires Inv(h) && h.attached && !h.finished && OnlyAppends(events)
    requires h.bytesWritten + |Data(events)| <= MAX_I64
    ensures !Throws(h, events)
    ensures var h' := Run(h, events);
            && h'.attached && !h'.finished && h'.committable == h.committable
            && h'.bytesWritten == h.bytesWritten + |Data(events)|
    decreases |events|
  {
    hide Inv, Accepted;
    if events != [] {
      var op, outcome, rest := events[0].op, events[0].outcome, events[1..];
      OneAppend(h, op.data, outcome);
      DoKeepsInv(h, op, outcome);
      AppendsAreAccepted(Do(h, op, outcome).handle, rest);
    }
  }

  lemma OneAppend(h: Handle, data: Str, outcome: Outcome)
    requires Inv(h) && h.attached && !h.finished && outcome.ok && h.bytesWritten + |data| <= MAX_I64
    ensures var result := Do(h, Append(data), outcome);
            && !result.thrown && result.handle.attached && !result.handle.finished
            && result.handle.committable == h.committable && result.handle.bytesWritten == h.bytesWritten + |data|
  {
    hide Accepted, Object, WellFormedLog, OnlyWrites;
  }

  lemma {:induction false} RunConcat(h: Handle, events: seq<Event>, more: seq<Event>)
    ensures Run(h, events + more) == Run(Run(h, events), more)
    ensures Throws(h, events + more) <==> Throws(h, events) || Throws(Run(h, events), more)
    decreases |events|
  {
    hide Do;
    if events == [] {
      assert events + more == more;
    } else {
      assert (events + more)[1..] == events[1..] + more;
      RunConcat(Do(h, events[0].op, events[0].outcome).handle, events[1..], more);
    }
  }

  lemma {:induction false} DataConcat(events: seq<Event>, more: seq<Event>)
    ensures Data(events + more) == Data(events) + Data(more)
    decreases |events|
  {
    if events == [] {
      assert events + more == more;
    } else {
      assert (events + more)[1..] == events[1..] + more;
      DataConcat(events[1..], more);
    }
  }

  /** A file written in any number of pieces within 64 bits, to a backend that never fails, and then
      synced or closed: nothing throws, and the object holds the pieces in order. */
  lemma WrittenFileIsPublished(events: seq<Event>, finish: Event)
    requires OnlyAppends(events) && |Data(events)| <= MAX_I64
    requires (finish.op == Sync || finish.op == Finish) && finish.outcome.ok
    ensures !Throws(Opened(true), events + [finish])
    ensures Object(Run(Opened(true), events + [finish]).rust.log) == Some(Data(events))
  {
    hide Inv, Do, Object, Data;
    var all := events + [finish];
    OpenedInv(true);
    AppendsAreAccepted(Opened(true), events);
    RunKeepsInv(Opened(true), events);
    RunConcat(Opened(true), events, [finish]);
    DataConcat(events, [finish]);
    var h := Run(Opened(true), events);
    CallsThrowFor(h, finish.op, finish.outcome);
    OneEvent(h, finish);
    assert all[|events|] == finish;
    assert Data(events) + [] == Data(events);
    NoSilentLoss(all);
  }

  lemma OneEvent(h: Handle, e: Event)
    requires e.op == Sync || e.op == Finish
    ensures Throws(h, [e]) <==> Do(h, e.op, e.outcome).thrown
    ensures Data([e]) == []
  {
    hide Do;
    assert [e][1..] == [];
  }
}
