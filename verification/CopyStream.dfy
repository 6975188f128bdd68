/** Copying one object (opendal/src/table.rs, `copy_options` and `copy_one`): by the service
    itself, or as a bounded stream from a reader to a writer. */
module CopyStream {
  import opened Bytes
  import Writer

  const DEFAULT_CHUNK: nat := 8 * 1024 * 1024

  // ---- Options ----

  datatype RawOptions = RawOptions(
    concurrent: Option<nat>,
    chunk: Option<nat>,
    sizeHint: Option<nat>,
    versioned: bool)

  datatype Options = Options(concurrent: nat, chunk: Option<nat>, sizeHint: Option<nat>, versioned: bool)

  function CopyOptions(raw: RawOptions): Option<Options>
  {
    if raw.concurrent == Some(0) || raw.chunk == Some(0) then None
    else Some(Options(if raw.concurrent.Some? then raw.concurrent.value else 0, raw.chunk, raw.sizeHint, raw.versioned))
  }

  function ChunkSize(options: Options): nat
  {
    if options.chunk.Some? then options.chunk.value else DEFAULT_CHUNK
  }

  /** Validation is what makes the transfer loop progress. */
  lemma ValidOptionsHaveChunk(raw: RawOptions)
    ensures CopyOptions(raw).Some? <==> raw.concurrent != Some(0) && raw.chunk != Some(0)
    ensures CopyOptions(raw).Some? ==> ChunkSize(CopyOptions(raw).value) > 0
    ensures CopyOptions(raw).Some? ==>
              var options := CopyOptions(raw).value;
              && (raw.chunk.Some? ==> ChunkSize(options) == raw.chunk.value)
              && (raw.chunk.None? ==> ChunkSize(options) == 8388608)
              && (raw.concurrent.Some? ==> options.concurrent == raw.concurrent.value)
              && (raw.concurrent.None? ==> options.concurrent == 0)
              && options.sizeHint == raw.sizeHint && options.versioned == raw.versioned
  {
  }

  // ---- The storage behind both operators ----

  /** An operator and a path on it. */
  type Place = (nat, Str)

  type Objects = map<Place, Str>

  class World {
    var objects: Objects

    constructor (objects: Objects)
      ensures this.objects == objects
    {
      this.objects := objects;
    }
  }

  /** What the services answer during one copy, call by call. */
  datatype Faults = Faults(
    opens: bool,
    read: nat -> bool,
    write: nat -> bool,
    close: bool,
    abort: bool,
    progress: seq<Option<nat>>)        // server-side progress reports, None for an error

  datatype Outcome = Copied(bytes: nat) | CopyFailed

  function Content(objects: Objects, place: Place): Str
  {
    if place in objects then objects[place] else []
  }

  /** A ranged read returns the exact range or fails. */
  function ReadRange(objects: Objects, place: Place, start: nat, end: nat, ok: bool): Option<Str>
    requires start <= end
  {
    if ok && end <= |Content(objects, place)| then Some(Content(objects, place)[start..end]) else None
  }

  function SaturatingAdd(a: nat, b: nat): nat
  {
    if a + b > MAX_U64 then MAX_U64 else a + b
  }

  function Min(a: nat, b: nat): (m: nat)
    ensures m <= a && m <= b && (m == a || m == b)
  {
    if a <= b then a else b
  }

  function Max(a: nat, b: nat): (m: nat)
    ensures m >= a && m >= b && (m == a || m == b)
  {
    if a <= b then b else a
  }

  type Span = (nat, nat)

  /** Consecutive non-empty spans from 0 to `end`, all but the last one chunk long. */
  ghost predicate Partition(spans: seq<Span>, end: nat, chunk: nat)
  {
    && (forall i :: 0 <= i < |spans| ==> spans[i].0 == i * chunk && spans[i].0 < spans[i].1 <= spans[i].0 + chunk)
    && (forall i :: 0 <= i < |spans| - 1 ==> spans[i].1 == spans[i + 1].0)
    && end == if spans == [] then 0 else spans[|spans| - 1].1
  }

  lemma PartitionGrows(spans: seq<Span>, start: nat, end: nat, chunk: nat)
    requires Partition(spans, start, chunk) && start < end <= start + chunk
    requires start == |spans| * chunk
    ensures Partition(spans + [(start, end)], end, chunk)
  {
  }

  /** No answer the streaming branch asks for is a failure: it makes one read and one write for
      every chunk that starts before the end. */
  ghost predicate StreamAnswered(faults: Faults, size: nat, chunk: nat)
  {
    faults.opens && faults.close && forall i: nat :: i * chunk < size ==> faults.read(i) && faults.write(i)
  }

  /** The streaming branch succeeds exactly when no answer is a failure and the source has `size`
      bytes. Then the destination holds these bytes, transferred in spans that partition them;
      otherwise the destination is untouched and the writer has been aborted. */
  method Stream(world: World, source: Place, destination: Place, size: nat, chunk: nat, faults: Faults)
    returns (outcome: Outcome, ghost spans: seq<Span>, ghost log: seq<Writer.Call>)
    requires 0 < chunk && size <= MAX_U64
    modifies world
    ensures outcome.Copied? <==> StreamAnswered(faults, size, chunk) && size <= |Content(old(world.objects), source)|
    ensures outcome.Copied? ==> faults.opens && faults.close && forall i: nat :: i * chunk < size ==> faults.read(i) && faults.write(i)
    ensures (faults.opens && faults.close && (forall i: nat :: i * chunk < size ==> faults.read(i) && faults.write(i))
             && source in old(world.objects) && size <= |old(world.objects)[source]|) ==> outcome.Copied?
    ensures outcome.Copied? ==>
              && outcome.bytes == size
              && world.objects == old(world.objects)[destination := Content(old(world.objects), source)[..size]]
              && Partition(spans, size, chunk)
              && Writer.Object(log) == Some(Content(old(world.objects), source)[..size])
    ensures outcome.CopyFailed? ==>
              && world.objects == old(world.objects)
              && Writer.Object(log) == None
              && (faults.opens ==> log != [] && log[|log| - 1].Abort?)
    ensures Writer.WellFormedLog(log)
  {
    hide Writer.WellFormedLog, Writer.OnlyWrites, Writer.Object, Writer.Accepted, Partition;
    outcome, spans, log := CopyFailed, [], [];
    OpenedLog(chunk);
    if !faults.opens {
      return;
    }
    ghost var content := Content(world.objects, source);
    var buffer: Str := [];
    var offset: nat := 0;
    var i: nat := 0;
    while offset < size
      invariant world.objects == old(world.objects)
      invariant offset <= size && offset <= |content| && buffer == content[..offset]
      invariant i == |spans| && Partition(spans, offset, chunk)
      invariant offset <= i * chunk && (offset < size ==> offset == i * chunk)
      invariant forall j :: 0 <= j < i ==> faults.read(j) && faults.write(j)
      invariant Writer.OnlyWrites(log) && Writer.Accepted(log) == buffer
      decreases size - offset
    {
      var end := Min(size, SaturatingAdd(offset, chunk));
      var data := ReadRange(world.objects, source, offset, end, faults.read(i));
      if data.None? {
        Writer.AbortEnds(log, faults.abort);
        log := log + [Writer.Abort(faults.abort)];
        return;
      }
      if !faults.write(i) {
        Writer.FailureEnds(log, Writer.Write(data.value, false), faults.abort);
        log := log + [Writer.Write(data.value, false)] + [Writer.Abort(faults.abort)];
        return;
      }
      Writer.WriteContinues(log, data.value);
      log := log + [Writer.Write(data.value, true)];
      ExtendPrefix(content, offset, end);
      buffer := buffer + data.value;
      PartitionGrows(spans, offset, end, chunk);
      NextOffset(i, chunk);
      spans := spans + [(offset, end)];
      offset, i := end, i + 1;
    }
    LaterChunks(i, size, chunk);
    if !faults.close {
      Writer.FailureEnds(log, Writer.Close(false), faults.abort);
      log := log + [Writer.Close(false)] + [Writer.Abort(faults.abort)];
      return;
    }
    Writer.CloseEnds(log);
    log := log + [Writer.Close(true)];
    world.objects := world.objects[destination := buffer];
    outcome := Copied(offset);
  }

  lemma ExtendPrefix(content: Str, start: nat, end: nat)
    requires start <= end <= |content|
    ensures content[..start] + content[start..end] == content[..end]
  {
  }

  lemma NextOffset(i: nat, chunk: nat)
    ensures i * chunk + chunk == (i + 1) * chunk
  {
  }

  lemma LaterChunks(i: nat, size: nat, chunk: nat)
    requires size <= i * chunk
    ensures forall j: nat :: j * chunk < size ==> j < i
  {
    forall j: nat | i <= j ensures size <= j * chunk {
      assert j * chunk == i * chunk + (j - i) * chunk;
    }
  }

  lemma OpenedLog(chunk: nat)
    ensures Partition([], 0, chunk)
    ensures Writer.WellFormedLog([]) && Writer.OnlyWrites([]) && Writer.Object([]) == None && Writer.Accepted([]) == []
  {
    var log: seq<Writer.Call> := [];
    assert Writer.OnlyWrites(log[..0]) && Writer.Ending(log[0..]);
  }

  /** Sum of the reports before the first error; None when there is an error or the sum leaves
      64 bits. */
  function Reported(progress: seq<Option<nat>>, copied: nat): Option<nat>
    decreases progress
  {
    if progress == [] then Some(copied)
    else if progress[0].None? || copied + progress[0].value > MAX_U64 then None
    else Reported(progress[1..], copied + progress[0].value)
  }

  function Sum(progress: seq<Option<nat>>): nat
  {
    if progress == [] then 0 else (if progress[0].Some? then progress[0].value else 0) + Sum(progress[1..])
  }

  /** The reports add up, unless one is an error or the sum leaves 64 bits. */
  lemma {:induction false} ReportedMeans(progress: seq<Option<nat>>, copied: nat)
    requires copied <= MAX_U64
    ensures Reported(progress, copied).Some? <==> None !in progress && copied + Sum(progress) <= MAX_U64
    ensures Reported(progress, copied).Some? ==> Reported(progress, copied).value == copied + Sum(progress)
    decreases progress
  {
    if progress != [] {
      assert progress == [progress[0]] + progress[1..];
      if progress[0].Some? && copied + progress[0].value <= MAX_U64 {
        ReportedMeans(progress[1..], copied + progress[0].value);
      }
    }
  }

  ghost predicate ServerAnswered(faults: Faults)
  {
    faults.opens && faults.close && Reported(faults.progress, 0).Some?
  }

  /** The server-side branch: the reports are only counted, closing commits the copy. */
  method ServerCopy(world: World, source: Place, destination: Place, size: nat, faults: Faults) returns (outcome: Outcome)
    modifies world
    ensures outcome.Copied? <==>
              faults.opens && faults.close && Reported(faults.progress, 0).Some? && source in old(world.objects)
    ensures outcome.Copied? ==>
              && world.objects == old(world.objects)[destination := old(world.objects)[source]]
              && outcome.bytes == Max(Reported(faults.progress, 0).value, size)
    ensures outcome.CopyFailed? ==> world.objects == old(world.objects)
  {
    outcome := CopyFailed;
    if !faults.opens || source !in world.objects {
      return;
    }
    var copied: nat := 0;
    for i := 0 to |faults.progress|
      invariant Reported(faults.progress, 0) == Reported(faults.progress[i..], copied)
    {
      assert faults.progress[i..][1..] == faults.progress[i + 1..];
      if faults.progress[i].None? || copied + faults.progress[i].value > MAX_U64 {
        return;
      }
      copied := copied + faults.progress[i].value;
    }
    if !faults.close {
      return;
    }
    world.objects := world.objects[destination := world.objects[source]];
    outcome := Copied(Max(copied, size));
  }

  // ---- Either branch ----

  /** What arrives at the destination: the service copies the whole object, a stream ends at the
      planned size. */
  function Moved(objects: Objects, source: Place, size: nat, serverSide: bool): Str
  {
    var content := Content(objects, source);
    if serverSide then content else content[..Min(size, |content|)]
  }

  /** Whether the source can supply that. */
  predicate Movable(objects: Objects, source: Place, size: nat, serverSide: bool)
  {
    if serverSide then source in objects else size <= |Content(objects, source)|
  }

  /** No answer that is asked for is a failure. */
  ghost predicate Answered(faults: Faults, size: nat, chunk: nat, serverSide: bool)
  {
    if serverSide then ServerAnswered(faults) else StreamAnswered(faults, size, chunk)
  }

  /** The count a successful copy reports: the planned size, unless the service reports more. */
  function BytesReported(faults: Faults, size: nat, serverSide: bool): nat
  {
    if !serverSide || Reported(faults.progress, 0).None? then size else Max(Reported(faults.progress, 0).value, size)
  }

  /** `copy_one`: the copy is made exactly when nothing it asks for fails; otherwise nothing has
      happened. */
  method CopyOne(world: World, source: Place, destination: Place, options: Options, serverSide: bool, size: nat, faults: Faults)
    returns (outcome: Outcome)
    requires size <= MAX_U64 && 0 < ChunkSize(options)
    modifies world
    ensures outcome.Copied? <==>
              Answered(faults, size, ChunkSize(options), serverSide) && Movable(old(world.objects), source, size, serverSide)
    ensures outcome.Copied? ==>
              && world.objects == old(world.objects)[destination := Moved(old(world.objects), source, size, serverSide)]
              && outcome.bytes == BytesReported(faults, size, serverSide)
    ensures outcome.CopyFailed? ==> world.objects == old(world.objects)
  {
    hide StreamAnswered;
    if serverSide {
      outcome := ServerCopy(world, source, destination, size, faults);
    } else {
      ghost var spans, log;
      outcome, spans, log := Stream(world, source, destination, size, ChunkSize(options), faults);
    }
  }

  /** Which part of the object moves: all of it if the service copies, as much as was planned if a
      stream does; the count is the planned size, unless the service reports more. */
  lemma MovedMeans(objects: Objects, source: Place, size: nat, faults: Faults)
    requires source in objects
    ensures Movable(objects, source, size, true) && Moved(objects, source, size, true) == objects[source]
    ensures Movable(objects, source, size, false) <==> size <= |objects[source]|
    ensures size <= |objects[source]| ==> Moved(objects, source, size, false) == objects[source][..size]
    ensures BytesReported(faults, size, false) == size
    ensures Reported(faults.progress, 0).Some? ==>
              BytesReported(faults, size, true) ==
              if Reported(faults.progress, 0).value <= size then size else Reported(faults.progress, 0).value
  {
  }

  /** An object of the planned size arrives whole on either branch. */
  lemma WholeObjectMoves(objects: Objects, source: Place, size: nat, serverSide: bool)
    requires source in objects && size == |objects[source]|
    ensures Movable(objects, source, size, serverSide)
    ensures Moved(objects, source, size, serverSide) == objects[source]
  {
    assert objects[source][..size] == objects[source];
  }
}
