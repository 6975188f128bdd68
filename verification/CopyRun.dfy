/** Executing a copy plan lazily: the cursor (opendal/src/table.rs, `od_copy_cursor_next`), the
    scan callback that drains it (src/opendal_table_functions.cpp, `CopyFunc`), and whole runs of
    callbacks.

    `faults(r)` are the answers of the services while the row with `r` rows left is copied. */
module CopyRun {
  import opened Bytes
  import opened Spaces
  import opened Store
  import opened GlobSearch
  import opened CopyStream
  import opened Copy
  import opened Paging

  datatype CopyRow = CopyRow(source: Str, destination: Str, bytes: nat)

  type Answers = nat -> Faults

  // ---- One row ----

  /** The copy of a step is committed. */
  ghost predicate StepCopied(objects: Objects, route: Route, step: Step, faults: Faults)
  {
    && Answered(faults, step.size, ChunkSize(route.options), route.serverSide)
    && Movable(objects, SourcePlace(route, step), step.size, route.serverSide)
  }

  /** A path with a NUL byte cannot be handed over. */
  predicate Reportable(step: Step)
  {
    NUL !in step.source && NUL !in step.destination
  }

  function RowFor(route: Route, step: Step, faults: Faults): CopyRow
  {
    CopyRow(step.source, step.destination, BytesReported(faults, step.size, route.serverSide))
  }

  datatype Next = Row(row: CopyRow) | End | Error

  /** Sizes are unsigned 64-bit numbers. */
  predicate Sized(steps: seq<Step>)
  {
    forall i :: 0 <= i < |steps| ==> steps[i].size <= MAX_U64
  }

  class CopyCursor {
    const world: World
    const route: Route
    var plan: seq<Step>              // rows not yet executed

    constructor (world: World, route: Route, plan: seq<Step>)
      ensures this.world == world && this.route == route && this.plan == plan
    {
      this.world, this.route, this.plan := world, route, plan;
    }

    /** Takes the next step off the plan and executes it. It is an error exactly when the copy
        fails or cannot be reported; in the second case it is committed all the same. */
    method Next(faults: Faults) returns (next: Next)
      requires 0 < ChunkSize(route.options) && Sized(plan)
      modifies this, world
      ensures old(plan) == [] ==> next == End && plan == [] && world.objects == old(world.objects)
      ensures old(plan) != [] ==>
                var step := old(plan)[0];
                var copied := StepCopied(old(world.objects), route, step, faults);
                && plan == old(plan)[1..]
                && world.objects == (if copied then Execute(old(world.objects), route, [step]) else old(world.objects))
                && next == (if copied && Reportable(step) then Row(RowFor(route, step, faults)) else Error)
                && (next == Error <==> !copied || NUL in step.source || NUL in step.destination)
                && (next.Row? ==> next.row.source == step.source && next.row.destination == step.destination)
                && (next.Row? ==>
                      next.row.bytes == if route.serverSide then Max(Sum(faults.progress), step.size) else step.size)
    {
      if plan == [] {
        return End;
      }
      var step := plan[0];
      plan := plan[1..];
      ghost var before := world.objects;
      var outcome := CopyOne(world, SourcePlace(route, step), Target(route, step), route.options, route.serverSide,
                             step.size, faults);
      ExecuteOne(before, route, step);
      ReportedMeans(faults.progress, 0);
      if outcome.CopyFailed? || NUL in step.source || NUL in step.destination {
        return Error;
      }
      next := Row(CopyRow(step.source, step.destination, outcome.bytes));
    }
  }

  lemma ExecuteOne(objects: Objects, route: Route, step: Step)
    ensures Execute(objects, route, [step]) == objects[Target(route, step) := Carried(objects, route, step)]
  {
    assert [step][..0] == [];
  }

  // ---- The rows of a plan ----

  /** Row `k` is committed, once the rows before it are. */
  ghost predicate Committed(objects: Objects, route: Route, steps: seq<Step>, faults: Answers, k: nat)
    requires k < |steps|
  {
    StepCopied(Execute(objects, route, steps[..k]), route, steps[k], faults(|steps| - k))
  }

  ghost predicate Returned(objects: Objects, route: Route, steps: seq<Step>, faults: Answers, k: nat)
    requires k < |steps|
  {
    Committed(objects, route, steps, faults, k) && Reportable(steps[k])
  }

  ghost predicate AllReturned(objects: Objects, route: Route, steps: seq<Step>, faults: Answers, n: nat)
    requires n <= |steps|
  {
    forall k :: 0 <= k < n ==> Returned(objects, route, steps, faults, k)
  }

  /** Row `k` is the first that fails. */
  ghost predicate FailsFirst(objects: Objects, route: Route, steps: seq<Step>, faults: Answers, k: nat)
  {
    k < |steps| && AllReturned(objects, route, steps, faults, k) && !Returned(objects, route, steps, faults, k)
  }

  /** The store when row `k` has failed: the rows before it are committed, and row `k` itself if
      only reporting it failed. */
  ghost function AfterFailure(objects: Objects, route: Route, steps: seq<Step>, faults: Answers, k: nat): Objects
    requires k < |steps|
  {
    Execute(objects, route, steps[..if Committed(objects, route, steps, faults, k) then k + 1 else k])
  }

  lemma NothingReturned(objects: Objects, route: Route, steps: seq<Step>, faults: Answers)
    ensures AllReturned(objects, route, steps, faults, 0)
  {
  }

  /** Row `k` decides how the run goes on. */
  lemma RowNext(objects: Objects, route: Route, steps: seq<Step>, faults: Answers, k: nat)
    requires k < |steps|
    ensures var now := Execute(objects, route, steps[..k]);
            var copied := StepCopied(now, route, steps[k], faults(|steps| - k));
            var all := AllReturned(objects, route, steps, faults, k);
            && Execute(now, route, [steps[k]]) == Execute(objects, route, steps[..k + 1])
            && (AllReturned(objects, route, steps, faults, k + 1) <==> all && copied && Reportable(steps[k]))
            && AfterFailure(objects, route, steps, faults, k) == Execute(objects, route, steps[..if copied then k + 1 else k])
            && (!(copied && Reportable(steps[k])) ==>
                  && (all ==> FailsFirst(objects, route, steps, faults, k))
                  && forall n :: k < n <= |steps| ==> !AllReturned(objects, route, steps, faults, n))
  {
    hide Execute, StepCopied, Reportable;
    ExecuteConcat(objects, route, steps[..k], [steps[k]]);
    assert steps[..k] + [steps[k]] == steps[..k + 1];
    if !Returned(objects, route, steps, faults, k) {
      forall n | k < n <= |steps| ensures !AllReturned(objects, route, steps, faults, n) {
      }
    }
  }

  function Rows(route: Route, steps: seq<Step>, faults: Answers): (rows: seq<CopyRow>)
    ensures |rows| == |steps|
    ensures forall k :: 0 <= k < |rows| ==> rows[k] == RowFor(route, steps[k], faults(|steps| - k))
  {
    seq(|steps|, k requires 0 <= k < |steps| => RowFor(route, steps[k], faults(|steps| - k)))
  }

  /** The rows behind the first `n` behave as a plan of their own. */
  lemma RowsBehind(objects: Objects, route: Route, steps: seq<Step>, faults: Answers, n: nat, k: nat)
    requires n <= n + k < |steps|
    ensures var rest, now := steps[n..], Execute(objects, route, steps[..n]);
            && Committed(now, route, rest, faults, k) == Committed(objects, route, steps, faults, n + k)
            && Returned(now, route, rest, faults, k) == Returned(objects, route, steps, faults, n + k)
            && Execute(now, route, rest[..k]) == Execute(objects, route, steps[..n + k])
            && Execute(now, route, rest[..k + 1]) == Execute(objects, route, steps[..n + k + 1])
  {
    hide Execute, StepCopied;
    ExecuteConcat(objects, route, steps[..n], steps[n..][..k]);
    ExecuteConcat(objects, route, steps[..n], steps[n..][..k + 1]);
    assert steps[..n] + steps[n..][..k] == steps[..n + k];
    assert steps[..n] + steps[n..][..k + 1] == steps[..n + k + 1];
  }

  // ---- One callback ----

  datatype Chunk = Chunk(rows: seq<CopyRow>) | ScanFailed

  class CopyScan {
    const world: World
    const route: Route
    var cursor: CopyCursor?
    var isOpen: bool
    var finished: bool

    constructor (world: World, route: Route)
      requires 0 < ChunkSize(route.options)
      ensures this.world == world && this.route == route
      ensures Valid() && !finished && cursor == null
    {
      this.world, this.route := world, route;
      cursor, isOpen, finished := null, false, false;
    }

    ghost predicate Valid()
      reads this, cursor
    {
      && 0 < ChunkSize(route.options)
      && (isOpen <==> cursor != null)
      && (cursor != null ==> cursor.world == world && cursor.route == route && Sized(cursor.plan))
      && (finished ==> isOpen && cursor.plan == [])
    }

    /** The steps still to be executed; before the first callback, those the cursor would plan. */
    ghost function Pending(plan: Plan): seq<Step>
      reads this, cursor
    {
      if cursor != null then cursor.plan else if plan.Planned? then plan.steps else []
    }

    /** One scan callback. The cursor is opened by the first one, so nothing is copied before it.
        It fails exactly when one of the rows that would fill its vector fails; the first of these
        decides how many committed copies go unreported. */
    method Scan(size: nat, plan: Plan, faults: Answers) returns (chunk: Chunk)
      requires Valid() && Sized(Pending(plan))
      modifies this, cursor, world
      ensures Valid() && (old(cursor) != null ==> cursor == old(cursor)) && (cursor != old(cursor) ==> fresh(cursor))
      ensures old(cursor) == null && !plan.Planned? ==>
                chunk == ScanFailed && cursor == null && world.objects == old(world.objects)
      ensures old(cursor) != null || plan.Planned? ==>
                var all, before := old(Pending(plan)), old(world.objects);
                var n := Clip(size, |all|);
                && cursor != null
                && (chunk.Chunk? <==> AllReturned(before, route, all, faults, n))
                && (chunk.Chunk? ==>
                      && chunk.rows == Rows(route, all, faults)[..n]
                      && Pending(plan) == all[n..]
                      && world.objects == Execute(before, route, all[..n])
                      && (finished <==> old(finished) || n < size))
                && (chunk == ScanFailed ==>
                      exists k :: 0 <= k < n
                        && FailsFirst(before, route, all, faults, k)
                        && Pending(plan) == all[k + 1..]
                        && world.objects == AfterFailure(before, route, all, faults, k))
    {
      hide Execute, Committed, Returned;
      if finished {
        NothingExecuted(world.objects, route, []);
        return Chunk([]);
      }
      if !isOpen {
        if !plan.Planned? {
          return ScanFailed;
        }
        cursor := new CopyCursor(world, route, plan.steps);
        isOpen := true;
      }
      chunk := Drain(size, faults);
    }

    /** The loop of the callback, on an open cursor. */
    method Drain(size: nat, faults: Answers) returns (chunk: Chunk)
      requires Valid() && cursor != null && !finished
      modifies this`finished, cursor, world
      ensures Valid()
      ensures var all, before := old(cursor.plan), old(world.objects);
              var n := Clip(size, |all|);
              && (chunk.Chunk? <==> AllReturned(before, route, all, faults, n))
              && (chunk.Chunk? ==>
                    && chunk.rows == Rows(route, all, faults)[..n]
                    && cursor.plan == all[n..]
                    && world.objects == Execute(before, route, all[..n])
                    && (finished <==> n < size))
              && (chunk == ScanFailed ==>
                    exists k :: 0 <= k < n
                      && FailsFirst(before, route, all, faults, k)
                      && cursor.plan == all[k + 1..]
                      && world.objects == AfterFailure(before, route, all, faults, k))
    {
      hide Execute, ChunkSize, StepCopied, Reportable, RowFor, Returned, AllReturned, FailsFirst, AfterFailure;
      ghost var all, before := cursor.plan, world.objects;
      NothingExecuted(before, route, all);
      assert AllReturned(before, route, all, faults, 0) by {
        NothingReturned(before, route, all, faults);
      }
      var rows: seq<CopyRow> := [];
      while |rows| < size
        invariant Valid() && !finished
        invariant |rows| <= size && |rows| <= |all| && cursor.plan == all[|rows|..]
        invariant rows == Rows(route, all, faults)[..|rows|]
        invariant AllReturned(before, route, all, faults, |rows|)
        invariant world.objects == Execute(before, route, all[..|rows|])
        decreases size - |rows|
      {
        ghost var k := |rows|;
        if k < |all| {
          RowNext(before, route, all, faults, k);
        }
        var next := cursor.Next(faults(|cursor.plan|));
        match next
        case Error =>
          return ScanFailed;
        case End =>
          finished := true;
          break;
        case Row(row) =>
          rows := rows + [row];
      }
      chunk := Chunk(rows);
    }
  }

  lemma NothingExecuted(objects: Objects, route: Route, steps: seq<Step>)
    ensures Execute(objects, route, steps[..0]) == objects
  {
  }

  // ---- Whole runs ----

  lemma AllReturnedBehind(objects: Objects, route: Route, steps: seq<Step>, faults: Answers, n: nat, m: nat)
    requires n + m <= |steps|
    ensures AllReturned(objects, route, steps, faults, n + m) <==>
              AllReturned(objects, route, steps, faults, n)
              && AllReturned(Execute(objects, route, steps[..n]), route, steps[n..], faults, m)
  {
    hide Returned, Committed, Execute;
    forall k | 0 <= k < m
      ensures Returned(Execute(objects, route, steps[..n]), route, steps[n..], faults, k) ==
              Returned(objects, route, steps, faults, n + k)
    {
      RowsBehind(objects, route, steps, faults, n, k);
    }
    if AllReturned(objects, route, steps, faults, n)
       && AllReturned(Execute(objects, route, steps[..n]), route, steps[n..], faults, m) {
      forall k | 0 <= k < n + m ensures Returned(objects, route, steps, faults, k) {
        if k >= n {
          assert Returned(Execute(objects, route, steps[..n]), route, steps[n..], faults, k - n);
        }
      }
    }
  }

  lemma FailureBehind(objects: Objects, route: Route, steps: seq<Step>, faults: Answers, n: nat, k: nat)
    requires n + k < |steps| && AllReturned(objects, route, steps, faults, n)
    requires FailsFirst(Execute(objects, route, steps[..n]), route, steps[n..], faults, k)
    ensures FailsFirst(objects, route, steps, faults, n + k)
    ensures AfterFailure(Execute(objects, route, steps[..n]), route, steps[n..], faults, k) ==
            AfterFailure(objects, route, steps, faults, n + k)
  {
    hide Returned, Committed, Execute, AllReturned;
    RowsBehind(objects, route, steps, faults, n, k);
    AllReturnedBehind(objects, route, steps, faults, n, k);
  }

  lemma DoneBehind(objects: Objects, route: Route, steps: seq<Step>, faults: Answers, n: nat, m: nat)
    requires n + m <= |steps|
    ensures Execute(Execute(objects, route, steps[..n]), route, steps[n..][..m]) == Execute(objects, route, steps[..n + m])
    ensures Rows(route, steps[n..], faults) == Rows(route, steps, faults)[n..]
  {
    hide Execute, RowFor;
    ExecuteConcat(objects, route, steps[..n], steps[n..][..m]);
    assert steps[..n] + steps[n..][..m] == steps[..n + m];
  }

  /** The first row that fails is one of the first `n`, and callback `c` (from 0) is to return it. */
  ghost predicate FailedIn(objects: Objects, route: Route, steps: seq<Step>, faults: Answers, size: nat, n: nat, c: nat, after: Objects)
  {
    exists k :: Start(c, size, |steps|) <= k < Start(c + 1, size, |steps|) && k < n
      && FailsFirst(objects, route, steps, faults, k)
      && after == AfterFailure(objects, route, steps, faults, k)
  }

  lemma FailureNow(objects: Objects, route: Route, steps: seq<Step>, faults: Answers, size: nat, n: nat, after: Objects)
    requires Clip(size, |steps|) <= n
    requires exists k :: 0 <= k < Clip(size, |steps|) && FailsFirst(objects, route, steps, faults, k)
                      && after == AfterFailure(objects, route, steps, faults, k)
    ensures FailedIn(objects, route, steps, faults, size, n, 0, after)
  {
    hide FailsFirst, AfterFailure, Start, Clip;
    StartNext(0, size, |steps|);
    ClipIsFirst(size, |steps|);
  }

  /** Any number of callbacks, up to the first that fails. As long as none does, the objects
      copied are the rows returned, chunk by chunk, and nothing else has happened; the chunks
      behind the last row are empty. If row `k` is the first that fails, the callbacks before its
      own have returned their rows, and its own callback returns none. */
  method RunScan(scan: CopyScan, size: nat, calls: nat, plan: Plan, faults: Answers)
    returns (chunks: seq<seq<CopyRow>>, failed: bool)
    requires scan.Valid() && Sized(scan.Pending(plan)) && (scan.cursor != null || plan.Planned?)
    modifies scan, scan.cursor, scan.world
    ensures scan.Valid()
    ensures var all, before, route := old(scan.Pending(plan)), old(scan.world.objects), scan.route;
            var n := Start(calls, size, |all|);
            && n <= |all|
            && (failed <==> !AllReturned(before, route, all, faults, n))
            && (!failed ==>
                  && chunks == Chunks(Rows(route, all, faults), size, calls)
                  && scan.Pending(plan) == all[n..]
                  && scan.world.objects == Execute(before, route, all[..n]))
            && (failed ==>
                  && chunks == Chunks(Rows(route, all, faults), size, |chunks|)
                  && FailedIn(before, route, all, faults, size, n, |chunks|, scan.world.objects))
    decreases calls
  {
    hide Execute, Committed, Returned, AllReturned, FailsFirst, AfterFailure, Rows, Start, Chunks, Clip, Sized, FailedIn;
    ghost var all, before, route := scan.Pending(plan), scan.world.objects, scan.route;
    NothingRun(before, route, all, faults, size);
    ClipIsFirst(size, |all|);
    if calls == 0 {
      return [], false;
    }
    ghost var n := Clip(size, |all|);
    ghost var m := Start(calls - 1, size, |all| - n);
    StartNext(calls - 1, size, |all|);
    StartOrder(calls - 1, size, |all| - n);
    AllReturnedBehind(before, route, all, faults, n, m);
    var chunk := scan.Scan(size, plan, faults);
    if chunk == ScanFailed {
      FailureNow(before, route, all, faults, size, n + m, scan.world.objects);
      return [], true;
    }
    DoneBehind(before, route, all, faults, n, m);
    var rest;
    rest, failed := RunScan(scan, size, calls - 1, plan, faults);
    chunks := [chunk.rows] + rest;
    ChunksNext(Rows(route, all, faults), size, |rest|);
    ChunksNext(Rows(route, all, faults), size, calls - 1);
    if failed {
      FailureComes(before, route, all, faults, size, m, |rest|, scan.world.objects);
    }
  }

  /** The first failure behind the first callback is the first of all. */
  lemma FailureComes(objects: Objects, route: Route, steps: seq<Step>, faults: Answers, size: nat, m: nat, c: nat, after: Objects)
    requires var n := Clip(size, |steps|);
             && n + m <= |steps| && AllReturned(objects, route, steps, faults, n)
             && FailedIn(Execute(objects, route, steps[..n]), route, steps[n..], faults, size, m, c, after)
    ensures FailedIn(objects, route, steps, faults, size, Clip(size, |steps|) + m, c + 1, after)
  {
    hide Execute, Committed, Returned, AllReturned, FailsFirst, AfterFailure, Start, Clip;
    var n := Clip(size, |steps|);
    var now, rest := Execute(objects, route, steps[..n]), steps[n..];
    var k :| Start(c, size, |rest|) <= k < Start(c + 1, size, |rest|) && k < m
             && FailsFirst(now, route, rest, faults, k) && after == AfterFailure(now, route, rest, faults, k);
    StartNext(c, size, |steps|);
    StartNext(c + 1, size, |steps|);
    FailureBehind(objects, route, steps, faults, n, k);
  }

  lemma NothingRun(objects: Objects, route: Route, steps: seq<Step>, faults: Answers, size: nat)
    ensures Start(0, size, |steps|) == 0 && Chunks(Rows(route, steps, faults), size, 0) == []
    ensures Execute(objects, route, steps[..0]) == objects
    ensures AllReturned(objects, route, steps, faults, 0)
  {
  }

  // ---- A whole copy ----

  /** The store that was listed is what the source operator holds. */
  ghost predicate StoredAt(objects: Objects, operator: nat, store: map<Str, Str>)
  {
    && NormalStore(store)
    && forall path :: path in store ==>
         (operator, path) in objects && objects[(operator, path)] == store[path] && |store[path]| <= MAX_U64
  }

  /** Where the file at `path` is copied to. */
  function CopyOf(route: Route, prefix: Str, base: Str, path: Str): Place
  {
    (route.to, LandsAt(prefix, base, path))
  }

  ghost predicate EveryFileArrived(objects: Objects, route: Route, store: map<Str, Str>, source: Str, destination: Str)
  {
    forall path :: path in SourcesOf(store, source) && path in store ==>
      var place := CopyOf(route, destination, BaseOf(source), path);
      place in objects && objects[place] == store[path]
  }

  /** `opendal_copy` of a glob or a directory, scanned to its end with vectors of any size.
      Options that are refused, and a listing that fails, copy nothing. Otherwise it fails exactly
      when a row fails. If none does, it returns a row for every step of the plan and changes
      nothing but the copies. Files that land apart have all arrived whole if and only if the plan
      is harmless; in general, every file has been moved whole and still is if and only if the
      plan is lossless. */
  method CopyTree(world: World, from: nat, to: nat, serverSide: bool, raw: RawOptions, ghost store: map<Str, Str>,
                  source: Str, destination: Str, size: nat, stat: Str -> Metadata, list: (Str, bool) -> Listing, faults: Answers)
    returns (rows: seq<CopyRow>, failed: bool)
    requires StoredAt(world.objects, from, store) && Exact(store, BaseOf(source), list(BaseOf(source), true))
    requires 0 < size && (HasWildcard(source) || stat(source).DirectoryOf?)
    modifies world
    ensures CopyOptions(raw).None? || raw.sizeHint.Some? || raw.versioned || !list(BaseOf(source), true).Entries? ==>
              failed && rows == [] && world.objects == old(world.objects)
    ensures CopyOptions(raw).Some? && raw.sizeHint.None? && !raw.versioned && list(BaseOf(source), true).Entries? ==>
            var route := Route(from, to, serverSide, CopyOptions(raw).value);
            var steps := StepsOf(list(BaseOf(source), true).entries, PatternOf(source), destination, BaseOf(source));
            var before := old(world.objects);
            && PlanFor(steps, store, SourcesOf(store, source), destination, BaseOf(source))
            && (failed <==> !AllReturned(before, route, steps, faults, |steps|))
            && (!failed ==>
                  && rows == Rows(route, steps, faults)
                  && world.objects == Execute(before, route, steps)
                  && TreeCopied(before, world.objects, route, store, steps, source, destination))
  {
    hide Execute, AllReturned, FailsFirst, AfterFailure, Rows, Start, StepsOf, PlanFor, SourcesOf, Exact, TreeCopied,
         BaseOf, PatternOf, HasWildcard, ChunkSize;
    var options := CopyOptions(raw);
    ValidOptionsHaveChunk(raw);
    if options.None? {
      return [], true;
    }
    var route := Route(from, to, serverSide, options.value);
    ghost var before := world.objects;
    var plan := PlanCopy(store, source, destination, options.value, stat, list);
    if !plan.Planned? {
      return [], true;
    }
    ghost var steps := plan.steps;
    PlannedSteps(before, route, store, steps, source, destination);
    var scan := new CopyScan(world, route);
    var chunks;
    chunks, failed := RunScan(scan, size, |plan.steps|, plan, faults);
    rows := Flatten(chunks);
    DrainedAtLast(size, |steps|);
    if !failed {
      assert steps[..|steps|] == steps;
      PagingIsExact(Rows(route, steps, faults), size, |steps|);
      assert Rows(route, steps, faults)[..|steps|] == Rows(route, steps, faults);
      TreeArrives(before, route, store, steps, source, destination);
    }
  }

  /** What a finished copy has done to the store. */
  ghost predicate TreeCopied(before: Objects, after: Objects, route: Route, store: map<Str, Str>, steps: seq<Step>,
                             source: Str, destination: Str)
  {
    var arrived := EveryFileArrived(after, route, store, source, destination);
    && (LandApart(destination, BaseOf(source), SourcesOf(store, source)) ==> (arrived <==> Harmless(before, route, steps)))
    && (arrived && MovesOriginals(before, route, steps) <==> Lossless(before, route, steps))
    && OthersUntouched(before, after, route, store, source, destination)
  }

  /** Whatever is no copy is as it was. */
  ghost predicate OthersUntouched(before: Objects, after: Objects, route: Route, store: map<Str, Str>, source: Str, destination: Str)
  {
    forall place: Place ::
      (forall path :: path in SourcesOf(store, source) ==> place != CopyOf(route, destination, BaseOf(source), path)) ==>
        (place in after <==> place in before) && Content(after, place) == Content(before, place)
  }

  lemma DrainedAtLast(size: nat, total: nat)
    requires 0 < size
    ensures Start(total, size, total) == total
  {
    assert total * size >= total;
  }

  /** A plan for a store is executable on the operator that holds it. */
  lemma PlannedSteps(objects: Objects, route: Route, store: map<Str, Str>, steps: seq<Step>, source: Str, destination: Str)
    requires StoredAt(objects, route.from, store)
    requires PlanFor(steps, store, SourcesOf(store, source), destination, BaseOf(source))
    ensures Sized(steps) && AsPlanned(objects, route, steps)
    ensures DistinctTargets(route, steps) <==> LandApart(destination, BaseOf(source), SourcesOf(store, source))
  {
    hide Key, SourcesOf, BaseOf, Destination, Normal, DistinctTargets, LandApart;
    SourcesAreUnderBase(store, source);
    TargetsAreDistinct(route, steps, store, SourcesOf(store, source), destination, BaseOf(source));
    forall i | 0 <= i < |steps|
      ensures SourcePlace(route, steps[i]) == (route.from, steps[i].source)
    {
      KeyOfPrefix(steps[i].source, steps[i].source);
    }
  }

  lemma TreeArrives(objects: Objects, route: Route, store: map<Str, Str>, steps: seq<Step>, source: Str, destination: Str)
    requires StoredAt(objects, route.from, store)
    requires PlanFor(steps, store, SourcesOf(store, source), destination, BaseOf(source))
    ensures TreeCopied(objects, Execute(objects, route, steps), route, store, steps, source, destination)
  {
    hide *;
    var after := Execute(objects, route, steps);
    PlannedSteps(objects, route, store, steps, source, destination);
    LosslessExactly(objects, route, steps);
    if DistinctTargets(route, steps) {
      ExecuteCopiesOriginals(objects, route, steps);
    }
    ArrivedFiles(objects, route, store, steps, source, destination, after);
    OthersKept(objects, route, store, steps, source, destination);
    TreeCopiedIs(objects, route, store, steps, source, destination);
  }

  lemma TreeCopiedIs(objects: Objects, route: Route, store: map<Str, Str>, steps: seq<Step>, source: Str, destination: Str)
    requires var after := Execute(objects, route, steps);
             var arrived := EveryFileArrived(after, route, store, source, destination);
             && (LandApart(destination, BaseOf(source), SourcesOf(store, source)) ==> (arrived <==> Harmless(objects, route, steps)))
             && (arrived <==> OriginalsArrived(objects, route, steps, after))
             && (NothingLost(objects, route, steps) <==> Lossless(objects, route, steps))
    requires OthersUntouched(objects, Execute(objects, route, steps), route, store, source, destination)
    ensures TreeCopied(objects, Execute(objects, route, steps), route, store, steps, source, destination)
  {
    hide EveryFileArrived, LandApart, Harmless, OriginalsArrived, Lossless, MovesOriginals, Execute, SourcesOf, OthersUntouched;
  }

  /** The places the steps write to are those of the files, and hold what the files held. */
  lemma StepsAreFiles(objects: Objects, route: Route, store: map<Str, Str>, steps: seq<Step>, source: Str, destination: Str, i: nat)
    requires StoredAt(objects, route.from, store) && i < |steps|
    requires PlanFor(steps, store, SourcesOf(store, source), destination, BaseOf(source))
    ensures steps[i].source in SourcesOf(store, source) && steps[i].source in store
    ensures Target(route, steps[i]) == CopyOf(route, destination, BaseOf(source), steps[i].source)
    ensures Original(objects, route, steps[i]) == store[steps[i].source]
  {
    hide Key, SourcesOf, BaseOf, Destination, Normal, LandsAt;
    KeyOfPrefix(steps[i].source, steps[i].source);
    SourcesAreUnderBase(store, source);
    assert steps[i].source in SourcesOf(store, source);
    LandsThere(destination, BaseOf(source), steps[i].source);
  }

  lemma ArrivedFiles(objects: Objects, route: Route, store: map<Str, Str>, steps: seq<Step>, source: Str, destination: Str,
                     after: Objects)
    requires StoredAt(objects, route.from, store)
    requires PlanFor(steps, store, SourcesOf(store, source), destination, BaseOf(source))
    ensures EveryFileArrived(after, route, store, source, destination) <==> OriginalsArrived(objects, route, steps, after)
  {
    hide SourcesOf, BaseOf, StoredAt, CopyOf, Target, Original;
    forall i | 0 <= i < |steps|
      ensures steps[i].source in SourcesOf(store, source) && steps[i].source in store
      ensures Target(route, steps[i]) == CopyOf(route, destination, BaseOf(source), steps[i].source)
      ensures Original(objects, route, steps[i]) == store[steps[i].source]
    {
      StepsAreFiles(objects, route, store, steps, source, destination, i);
    }
  }

  lemma OthersKept(objects: Objects, route: Route, store: map<Str, Str>, steps: seq<Step>, source: Str, destination: Str)
    requires StoredAt(objects, route.from, store)
    requires PlanFor(steps, store, SourcesOf(store, source), destination, BaseOf(source))
    ensures OthersUntouched(objects, Execute(objects, route, steps), route, store, source, destination)
  {
    hide SourcesOf, BaseOf, StoredAt, CopyOf, Target, Original, Execute;
    forall place: Place | forall path :: path in SourcesOf(store, source) ==> place != CopyOf(route, destination, BaseOf(source), path)
      ensures var after := Execute(objects, route, steps);
              (place in after <==> place in objects) && Content(after, place) == Content(objects, place)
    {
      forall i | 0 <= i < |steps| ensures place != Target(route, steps[i]) {
        StepsAreFiles(objects, route, store, steps, source, destination, i);
      }
      ExecuteKeeps(objects, route, steps, place);
    }
  }
}
