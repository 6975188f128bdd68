/** Ranged reads of an object that does not change while it is open: the reader behind the FFI
    (opendal/src/reader.rs) and the two `Read`s and `Seek` of the file handle in front of it
    (src/opendal_filesystem.cpp).

    Integers are unbounded here; every place where the source computes in 64 bits either checks
    first or is shown to stay in range. */
module Reader {
  import opened Bytes

  function ToU64(x: int): int
  {
    if x < 0 then x + MAX_U64 + 1 else x
  }

  function ToI64(x: int): int
  {
    if x > MAX_I64 then x - MAX_U64 - 1 else x
  }

  // ---- The backend ----

  /** What a ranged read of the backend does: it delivers the bytes of the range that exist,
      except perhaps the last few, or fails after filling part of the buffer. */
  datatype Delivery = Fails(missing: nat) | Delivers(missing: nat)

  const COMPLETE := Delivers(0)

  /** How many bytes of a range exist. */
  function Available(content: Str, offset: nat, len: nat): (n: nat)
    ensures n <= len
    ensures n > 0 ==> offset + n <= |content|
    ensures n < len ==> offset + n >= |content|
  {
    if offset >= |content| then 0
    else if len <= |content| - offset then len
    else |content| - offset
  }

  function Filled(content: Str, offset: nat, len: nat, d: Delivery): (n: nat)
    ensures n <= Available(content, offset, len)
  {
    var available := Available(content, offset, len);
    if d.missing <= available then available - d.missing else 0
  }

  function Slice(content: Str, offset: nat, n: nat): (s: Str)
    requires n > 0 ==> offset + n <= |content|
    ensures |s| == n
  {
    if n == 0 then [] else content[offset..offset + n]
  }

  // ---- The FFI call ----

  /** The number `od_reader_read` returns. */
  function Returned(content: Str, offset: nat, len: nat, d: Delivery): (n: int)
    ensures -1 <= n <= Available(content, offset, len)
  {
    if len == 0 then 0
    else if len > MAX_I64 || offset + len > MAX_U64 then -1
    else if d.Fails? || Filled(content, offset, len, d) > MAX_I64 then -1
    else Filled(content, offset, len, d)
  }

  /** A call fails exactly if its range leaves 64 bits or the backend fails it; otherwise the bytes of
      the range that exist have arrived, but for those the backend still owes. */
  lemma ReturnedMeans(content: Str, offset: nat, len: nat, d: Delivery)
    ensures Returned(content, offset, len, d) == -1 <==> len > 0 && (len > MAX_I64 || offset + len > MAX_U64 || d.Fails?)
    ensures var end := if offset + len <= |content| then offset + len else |content|;
            Returned(content, offset, len, d) > 0 ==> Returned(content, offset, len, d) == end - offset - d.missing
    ensures Returned(content, offset, len, COMPLETE) == 0 <==> len == 0 || (len <= MAX_I64 && offset + len <= MAX_U64 && offset >= |content|)
  {
  }

  class OdReader {
    const content: Str

    constructor (content: Str)
      ensures this.content == content
    {
      this.content := content;
    }

    /** `od_reader_read`: the bytes go straight into the caller's buffer. */
    method Read(offset: nat, len: nat, buffer: array<Byte>, d: Delivery) returns (n: int)
      requires len <= buffer.Length
      modifies buffer
      ensures n == Returned(content, offset, len, d)
      ensures n >= 0 ==> buffer[..] == Slice(content, offset, n) + old(buffer[n..])
      ensures buffer[len..] == old(buffer[len..])
    {
      if len == 0 {
        return 0;
      }
      if len > MAX_I64 || offset + len > MAX_U64 {
        return -1;
      }
      var count := Filled(content, offset, len, d);
      for i := 0 to count
        invariant forall k :: 0 <= k < i ==> buffer[k] == content[offset + k]
        invariant forall k :: i <= k < buffer.Length ==> buffer[k] == old(buffer[k])
      {
        buffer[i] := content[offset + i];
      }
      n := if d.Fails? || count > MAX_I64 then -1 else count;
    }
  }

  // ---- The file handle ----

  datatype State = State(fileSize: int, position: int, attached: bool)

  /** `Overflowed` marks an answer the source does not define: signed arithmetic left its range. */
  datatype Answer = Bytes(data: Str) | Done | Threw | Overflowed

  datatype Step = Step(state: State, answer: Answer)

  function NextStep(s: State, content: Str, count: int, d: Delivery): Step
  {
    if count < 0 || !s.attached then Step(s, Threw)
    else if s.fileSize - s.position > MAX_I64 then Step(s, Overflowed)
    else if s.fileSize <= s.position then Step(s, Bytes([]))
    else
      var len := if count < s.fileSize - s.position then count else s.fileSize - s.position;
      var offset := ToU64(s.position);
      if offset < 0 then Step(s, Overflowed)
      else
        var n := Returned(content, offset, len, d);
        if n < 0 then Step(s, Threw)
        else Step(s.(position := s.position + n), Bytes(Slice(content, offset, n)))
  }

  function AtStep(s: State, content: Str, count: int, location: nat, d: Delivery): Step
  {
    if count < 0 || location > MAX_I64 || count > MAX_U64 - location || !s.attached then Step(s, Threw)
    else
      var n := Returned(content, location, count, d);
      if n < 0 || n != count then Step(s, Threw)
      else Step(s.(position := location + n), Bytes(Slice(content, location, n)))
  }

  class ReadHandle {
    var reader: OdReader?
    const fileSize: int
    var position: int

    ghost function Now(): State
      reads this
    {
      State(fileSize, position, reader != null)
    }

    constructor (reader: OdReader)
      ensures this.reader == reader
      ensures Now() == State(|reader.content|, 0, true)
    {
      this.reader, fileSize, position := reader, |reader.content|, 0;
    }

    /** Sequential read from the current position. */
    method ReadNext(count: int, buffer: array<Byte>, d: Delivery) returns (answer: Answer)
      requires count <= buffer.Length && position + MAX_I64 + 1 >= 0
      modifies this`position, buffer
      ensures var content := if reader == null then [] else reader.content;
              Step(Now(), answer) == NextStep(old(Now()), content, count, d)
      ensures answer.Bytes? ==> buffer[..] == answer.data + old(buffer[|answer.data|..])
    {
      if count < 0 || reader == null {
        return Threw;
      }
      if fileSize - position > MAX_I64 {
        return Overflowed;
      }
      var remaining := fileSize - position;
      if remaining <= 0 {
        return Bytes([]);
      }
      var toRead := if count < remaining then count else remaining;
      var n := reader.Read(ToU64(position), toRead, buffer, d);
      if n < 0 {
        return Threw;
      }
      position := position + n;
      return Bytes(buffer[..n]);
    }

    /** Positioned read: the whole buffer or nothing. */
    method ReadAt(count: int, location: nat, buffer: array<Byte>, d: Delivery) returns (answer: Answer)
      requires count <= buffer.Length
      modifies this`position, buffer
      ensures var content := if reader == null then [] else reader.content;
              Step(Now(), answer) == AtStep(old(Now()), content, count, location, d)
      ensures answer.Bytes? ==> buffer[..] == answer.data + old(buffer[|answer.data|..])
    {
      if count < 0 {
        return Threw;
      }
      if location > MAX_I64 || count > MAX_U64 - location {
        return Threw;
      }
      if reader == null {
        return Threw;
      }
      var n := reader.Read(location, count, buffer, d);
      if n < 0 {
        return Threw;
      }
      if n != count {
        return Threw;
      }
      position := location + n;
      return Bytes(buffer[..n]);
    }

    method Seek(location: nat)
      requires location <= MAX_U64
      modifies this`position
      ensures Now() == old(Now()).(position := ToI64(location))
    {
      position := ToI64(location);
    }

    method Close()
      modifies this`reader
      ensures Now() == old(Now()).(attached := false)
    {
      reader := null;
    }
  }

  // ---- Runs ----

  datatype Op = Next(count: int, d: Delivery) | At(count: int, location: nat, d: Delivery) | SeekTo(location: nat) | CloseIt

  function Do(s: State, content: Str, op: Op): Step
  {
    match op
    case Next(count, d) => NextStep(s, content, count, d)
    case At(count, location, d) => AtStep(s, content, count, location, d)
    case SeekTo(location) => Step(s.(position := ToI64(location)), Done)
    case CloseIt => Step(s.(attached := false), Done)
  }

  function Run(s: State, content: Str, ops: seq<Op>): State
    decreases |ops|
  {
    if ops == [] then s else Run(Do(s, content, ops[0]).state, content, ops[1..])
  }

  function Answers(s: State, content: Str, ops: seq<Op>): (answers: seq<Answer>)
    ensures |answers| == |ops|
    decreases |ops|
  {
    if ops == [] then []
    else [Do(s, content, ops[0]).answer] + Answers(Do(s, content, ops[0]).state, content, ops[1..])
  }

  /** The bytes a run of reads returned, put together. */
  function Gathered(answers: seq<Answer>): Str
  {
    if answers == [] then []
    else (if answers[0].Bytes? then answers[0].data else []) + Gathered(answers[1..])
  }

  // ---- Nothing leaves its range ----

  predicate InRange(s: State, content: Str)
  {
    s.fileSize == |content| <= MAX_I64 && 0 <= s.position <= MAX_I64
  }

  /** Lengths are signed 64-bit, and no seek goes beyond the largest signed offset. */
  predicate Sane(op: Op)
  {
    match op
    case Next(count, _) => count <= MAX_I64
    case At(count, _, _) => count <= MAX_I64
    case SeekTo(location) => location <= MAX_I64
    case CloseIt => true
  }

  lemma StepStaysInRange(s: State, content: Str, op: Op)
    requires InRange(s, content) && Sane(op)
    ensures InRange(Do(s, content, op).state, content)
    ensures !Do(s, content, op).answer.Overflowed?
  {
  }

  /** No position, length or range of any run overflows. */
  lemma {:induction false} RunStaysInRange(s: State, content: Str, ops: seq<Op>)
    requires InRange(s, content) && forall i :: 0 <= i < |ops| ==> Sane(ops[i])
    ensures InRange(Run(s, content, ops), content)
    ensures Overflowed !in Answers(s, content, ops)
    decreases |ops|
  {
    if ops != [] {
      StepStaysInRange(s, content, ops[0]);
      RunStaysInRange(Do(s, content, ops[0]).state, content, ops[1..]);
    }
  }

  /** From such a state the range checks of `od_reader_read` never refuse a call: a read throws
      only for a negative length, a detached reader, a failed call or, when positioned, bytes
      missing or an offset beyond the signed range. */
  lemma ReadsThrowOnlyFor(s: State, content: Str, op: Op)
    requires InRange(s, content) && Sane(op)
    ensures op.Next? ==>
              (Do(s, content, op).answer.Threw? <==>
                 op.count < 0 || !s.attached || (op.d.Fails? && op.count > 0 && s.position < s.fileSize))
    ensures op.At? ==>
              (Do(s, content, op).answer.Threw? <==>
                 op.count < 0 || !s.attached || op.location > MAX_I64
                 || (op.count > 0 && (op.d.Fails? || Filled(content, op.location, op.count, op.d) < op.count)))
    ensures op.At? && op.count > 0 && op.d == COMPLETE ==>
              (Filled(content, op.location, op.count, op.d) == op.count <==> op.location + op.count <= |content|)
  {
  }

  /** `Seek` takes an unsigned offset and stores it signed. The next sequential read then computes
      `file_size - position`, which stays in range exactly when the offset was a signed one, or
      was so large that it wrapped to a position only slightly negative. */
  lemma SeekMayWrap(s: State, content: Str, location: nat, count: nat, d: Delivery)
    requires InRange(s, content) && s.attached && location <= MAX_U64
    ensures var sought := Do(s, content, SeekTo(location)).state;
            NextStep(sought, content, count, d).answer.Overflowed? <==>
              MAX_I64 < location < MAX_U64 + 1 + s.fileSize - MAX_I64
  {
  }

  // ---- What reads return ----

  /** Every successful read, in whatever company, returned a slice of the object that ends at the
      new position; a positioned one starts where it was asked to, a sequential one where the
      last operation left off. */
  lemma ReadsAreSlices(s: State, content: Str, op: Op)
    requires InRange(s, content) && Sane(op) && (op.Next? || op.At?)
    ensures var step := Do(s, content, op);
            var start := if op.At? then op.location else s.position;
            step.answer.Bytes? ==>
              && step.state.position == start + |step.answer.data|
              && (step.answer.data == [] || step.state.position <= |content|)
              && step.answer.data == Slice(content, start, |step.answer.data|)
              && (op.At? ==> |step.answer.data| == op.count)
    ensures !Do(s, content, op).answer.Bytes? ==> Do(s, content, op).state == s
  {
  }

  /** Any run of sequential reads, some of which may fail or fall short, returns consecutive
      slices: together they are the object between the first and the last position. */
  lemma {:induction false} SequentialReadsAreConsecutive(s: State, content: Str, ops: seq<Op>)
    requires InRange(s, content) && s.position <= |content|
    requires forall i :: 0 <= i < |ops| ==> ops[i].Next? && Sane(ops[i])
    ensures s.position <= Run(s, content, ops).position <= |content|
    ensures Gathered(Answers(s, content, ops)) == content[s.position..Run(s, content, ops).position]
    decreases |ops|
  {
    hide Do;
    if ops != [] {
      var step := Do(s, content, ops[0]);
      StepStaysInRange(s, content, ops[0]);
      ReadsAreSlices(s, content, ops[0]);
      SequentialReadsAreConsecutive(step.state, content, ops[1..]);
      var answers := Answers(s, content, ops);
      assert answers[1..] == Answers(step.state, content, ops[1..]);
      var end := Run(s, content, ops).position;
      assert content[s.position..step.state.position] + content[step.state.position..end] == content[s.position..end];
    }
  }

  function Requested(ops: seq<Op>): nat
  {
    if ops == [] then 0
    else (if ops[0].Next? && ops[0].count > 0 then ops[0].count else 0) + Requested(ops[1..])
  }

  /** With complete deliveries a run of sequential reads advances by exactly what was asked for,
      and stops exactly at the end of the file. */
  lemma {:induction false} CompleteReadsStopAtTheEnd(s: State, content: Str, ops: seq<Op>)
    requires InRange(s, content) && s.attached && s.position <= |content|
    requires forall i :: 0 <= i < |ops| ==> ops[i].Next? && 0 <= ops[i].count <= MAX_I64 && ops[i].d == COMPLETE
    ensures var asked := s.position + Requested(ops);
            Run(s, content, ops).position == if asked <= |content| then asked else |content|
    ensures Threw !in Answers(s, content, ops)
    decreases |ops|
  {
    if ops != [] {
      var step := Do(s, content, ops[0]);
      CompleteReadsStopAtTheEnd(step.state, content, ops[1..]);
    }
  }

  /** At the end, and beyond it, every sequential read returns nothing and moves nothing. */
  lemma {:induction false} NothingAfterTheEnd(s: State, content: Str, ops: seq<Op>)
    requires InRange(s, content) && s.attached && s.position >= |content|
    requires forall i :: 0 <= i < |ops| ==> ops[i].Next? && 0 <= ops[i].count
    ensures Run(s, content, ops) == s
    ensures forall i :: 0 <= i < |ops| ==> Answers(s, content, ops)[i] == Bytes([])
    decreases |ops|
  {
    if ops != [] {
      NothingAfterTheEnd(s, content, ops[1..]);
    }
  }

  /** A read behind a seek within the signed range starts where the seek went. */
  lemma SeekMeans(s: State, content: Str, location: nat, count: nat)
    requires InRange(s, content) && s.attached && location <= MAX_I64 && count <= MAX_I64
    ensures var sought := Do(s, content, SeekTo(location)).state;
            && sought == s.(position := location)
            && (var n := if location >= |content| then 0 else if count <= |content| - location then count else |content| - location;
                && NextStep(sought, content, count, COMPLETE).answer == Bytes(if n == 0 then [] else content[location..location + n])
                && NextStep(sought, content, count, COMPLETE).state.position == location + n)
  {
  }

  /** The two readings of 64 bits. */
  lemma CastMeans(x: int)
    ensures 0 <= x <= MAX_I64 ==> ToI64(x) == x == ToU64(x)
    ensures MAX_I64 < x <= MAX_U64 ==> ToI64(x) < 0 && ToU64(ToI64(x)) == x
  {
  }

  /** Closing detaches the reader and keeps the rest. */
  lemma CloseMeans(s: State, content: Str)
    ensures Do(s, content, CloseIt).state == s.(attached := false)
  {
  }
}
