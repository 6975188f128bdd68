/** `opendal_copy` (opendal/src/table.rs, `od_table_copy_open` and `od_copy_cursor_next`;
    src/opendal_table_functions.cpp, `CopyFunc`): a plan is made when the cursor is opened, and
    every scan callback executes as many rows of it as fit into an output vector. */
module Copy {
  import opened Bytes
  import opened Spaces
  import opened Store
  import opened Glob
  import opened GlobSearch
  import opened CopyStream
  import opened Paging

  // ---- The plan ----

  datatype Step = Step(source: Str, destination: Str, size: nat)

  datatype Plan = Planned(steps: seq<Step>) | InvalidInput | PlanFailed

  function StripBase(base: Str, path: Str): Str
  {
    if base <= path then path[|base|..] else path
  }

  function JoinDest(prefix: Str, rel: Str): Str
  {
    if prefix == [] then rel
    else if prefix[|prefix| - 1] == SLASH then prefix + rel
    else prefix + [SLASH] + rel
  }

  function Destination(prefix: Str, base: Str, path: Str): Str
  {
    JoinDest(prefix, StripBase(base, path))
  }

  /** Globs and directories are copied file by file, relative to a base. */
  function BaseOf(source: Str): Str
  {
    if HasWildcard(source) then GlobRoot(source) else DirBase(source)
  }

  function PatternOf(source: Str): Option<Str>
  {
    if HasWildcard(source) then Some(TrimStart(source)) else None
  }

  ghost function SourcesOf(store: map<Str, Str>, source: Str): set<Str>
  {
    if HasWildcard(source) then MatchingFiles(store, source) else FilesUnder(store, DirBase(source))
  }

  ghost predicate Selected(pattern: Option<Str>, e: Entry)
  {
    !e.isDir && (pattern.Some? ==> Matches(pattern.value, e.path))
  }

  function StepFor(e: Entry, prefix: Str, base: Str): Step
  {
    Step(e.path, Destination(prefix, base, e.path), e.size)
  }

  /** One step for every selected entry, in the order of the listing. */
  ghost function StepsOf(entries: seq<Entry>, pattern: Option<Str>, prefix: Str, base: Str): seq<Step>
  {
    if entries == [] then []
    else
      var last := entries[|entries| - 1];
      StepsOf(entries[..|entries| - 1], pattern, prefix, base)
      + if Selected(pattern, last) then [StepFor(last, prefix, base)] else []
  }

  /** A plan copies exactly the files of `sources`, once each, each to its place under the
      destination prefix and with its size. */
  ghost predicate PlanFor(steps: seq<Step>, store: map<Str, Str>, sources: set<Str>, prefix: Str, base: Str)
  {
    && (forall path :: path in sources <==> exists i :: 0 <= i < |steps| && steps[i].source == path)
    && (forall i, j :: 0 <= i < j < |steps| ==> steps[i].source != steps[j].source)
    && (forall i :: 0 <= i < |steps| ==>
          && steps[i].source in store
          && steps[i].destination == Destination(prefix, base, steps[i].source)
          && steps[i].size == |store[steps[i].source]|)
  }

  predicate SingleFileOnly(options: Options)
  {
    options.sizeHint.Some? || options.versioned
  }

  method PlanCopy(ghost store: map<Str, Str>, source: Str, destination: Str, options: Options,
                  stat: Str -> Metadata, list: (Str, bool) -> Listing) returns (plan: Plan)
    requires NormalStore(store) && Exact(store, BaseOf(source), list(BaseOf(source), true))
    ensures HasWildcard(source) || stat(source).DirectoryOf? ==>
              if options.sizeHint.Some? || options.versioned then plan == InvalidInput
              else if !list(BaseOf(source), true).Entries? then plan == PlanFailed
              else
                && plan == Planned(StepsOf(list(BaseOf(source), true).entries, PatternOf(source), destination, BaseOf(source)))
                && PlanFor(plan.steps, store, SourcesOf(store, source), destination, BaseOf(source))
    ensures !HasWildcard(source) && stat(source).Unavailable? ==> plan == PlanFailed
    ensures !HasWildcard(source) && stat(source).FileOf? ==>
              plan == if options.sizeHint.Some? && options.sizeHint.value != stat(source).size then InvalidInput
                      else Planned([Step(source, destination, stat(source).size)])
  {
    hide Matches, PlanFor, StepsOf, SourcesOf, Exact;
    if HasWildcard(source) {
      if SingleFileOnly(options) {
        return InvalidInput;
      }
      var listing := list(GlobRoot(source), true);
      if !listing.Entries? {
        return PlanFailed;
      }
      ListedStepsArePlan(store, source, listing.entries, destination);
      var steps := Collect(listing.entries, Some(TrimStart(source)), destination, GlobRoot(source));
      return Planned(steps);
    }
    match stat(source)
    case Unavailable => return PlanFailed;
    case FileOf(size) =>
      if options.sizeHint.Some? && options.sizeHint.value != size {
        return InvalidInput;
      }
      return Planned([Step(source, destination, size)]);
    case DirectoryOf =>
      if SingleFileOnly(options) {
        return InvalidInput;
      }
      var base := DirBase(source);
      var listing := list(base, true);
      if !listing.Entries? {
        return PlanFailed;
      }
      ListedStepsArePlan(store, source, listing.entries, destination);
      var steps := Collect(listing.entries, None, destination, base);
      return Planned(steps);
  }

  /** The loop over the listing, with or without a pattern. */
  method Collect(entries: seq<Entry>, pattern: Option<Str>, prefix: Str, base: Str) returns (steps: seq<Step>)
    ensures steps == StepsOf(entries, pattern, prefix, base)
  {
    hide Matches;
    steps := [];
    for i := 0 to |entries|
      invariant steps == StepsOf(entries[..i], pattern, prefix, base)
    {
      var e := entries[i];
      assert entries[..i + 1][..i] == entries[..i];
      if e.isDir {
        continue;
      }
      if pattern.Some? {
        var matched, _ := GlobMatches(pattern.value, e.path);
        if !matched {
          continue;
        }
      }
      steps := steps + [Step(e.path, JoinDest(prefix, StripBase(base, e.path)), e.size)];
    }
    assert entries[..|entries|] == entries;
  }

  /** The files selected from a listing. */
  ghost function SelectedFiles(entries: seq<Entry>, pattern: Option<Str>): set<Str>
  {
    set e | e in entries && Selected(pattern, e) :: e.path
  }

  lemma SourcesAreListed(store: map<Str, Str>, source: Str, entries: seq<Entry>)
    requires NormalStore(store) && Exact(store, BaseOf(source), Entries(entries))
    ensures SelectedFiles(entries, PatternOf(source)) == SourcesOf(store, source)
  {
    hide Matches, Under, TrimStart, GlobRoot;
    forall path | path in SourcesOf(store, source) ensures path in SelectedFiles(entries, PatternOf(source)) {
      if HasWildcard(source) {
        PruningIsComplete(source, path);
      }
      assert FileEntry(store, path) in entries;
    }
  }

  lemma ListedStepsArePlan(store: map<Str, Str>, source: Str, entries: seq<Entry>, prefix: Str)
    requires NormalStore(store) && Exact(store, BaseOf(source), Entries(entries))
    ensures PlanFor(StepsOf(entries, PatternOf(source), prefix, BaseOf(source)), store, SourcesOf(store, source),
                    prefix, BaseOf(source))
  {
    hide SourcesOf, PlanFor, Selected, Under;
    SourcesAreListed(store, source, entries);
    StepsArePlan(store, entries, PatternOf(source), prefix, BaseOf(source));
  }

  lemma {:induction false} StepsArePlan(store: map<Str, Str>, entries: seq<Entry>, pattern: Option<Str>, prefix: Str, base: Str)
    requires forall e :: e in entries && !e.isDir ==> e.path in store && e == FileEntry(store, e.path)
    requires forall i, j :: 0 <= i < j < |entries| ==> entries[i].path != entries[j].path
    ensures PlanFor(StepsOf(entries, pattern, prefix, base), store, SelectedFiles(entries, pattern), prefix, base)
  {
    hide Matches, PlanFor, Selected, SelectedFiles;
    if entries == [] {
      EmptyPlan(store, pattern, prefix, base);
    } else {
      var n := |entries| - 1;
      var front, last := entries[..n], entries[n];
      assert entries == front + [last];
      StepsArePlan(store, front, pattern, prefix, base);
      SelectNext(entries, n, pattern);
      OnlyFilesSelected(pattern, last);
      if Selected(pattern, last) {
        assert last in entries;
        PlanGrows(StepsOf(front, pattern, prefix, base), StepFor(last, prefix, base), store, SelectedFiles(front, pattern), prefix, base);
      } else {
        assert StepsOf(entries, pattern, prefix, base) == StepsOf(front, pattern, prefix, base);
      }
    }
  }

  lemma OnlyFilesSelected(pattern: Option<Str>, e: Entry)
    ensures Selected(pattern, e) ==> !e.isDir
  {
  }

  lemma EmptyPlan(store: map<Str, Str>, pattern: Option<Str>, prefix: Str, base: Str)
    ensures PlanFor([], store, SelectedFiles([], pattern), prefix, base)
  {
  }

  lemma SelectNext(entries: seq<Entry>, i: nat, pattern: Option<Str>)
    requires i < |entries|
    requires forall j, k :: 0 <= j < k < |entries| ==> entries[j].path != entries[k].path
    ensures var before := SelectedFiles(entries[..i], pattern);
            && entries[i].path !in before
            && SelectedFiles(entries[..i] + [entries[i]], pattern) ==
                 if Selected(pattern, entries[i]) then before + {entries[i].path} else before
  {
    hide Selected;
    assert entries[i] in entries[..i] + [entries[i]];
  }

  lemma PlanGrows(steps: seq<Step>, step: Step, store: map<Str, Str>, sources: set<Str>, prefix: Str, base: Str)
    requires PlanFor(steps, store, sources, prefix, base)
    requires step.source in store && step.source !in sources
    requires step == Step(step.source, Destination(prefix, base, step.source), |store[step.source]|)
    ensures PlanFor(steps + [step], store, sources + {step.source}, prefix, base)
  {
    var all := steps + [step];
    assert all[|steps|] == step;
    assert forall i :: 0 <= i < |steps| ==> all[i] == steps[i];
    forall path | path in sources ensures exists i :: 0 <= i < |all| && all[i].source == path {
      var i :| 0 <= i < |steps| && steps[i].source == path;
      assert all[i].source == path;
    }
  }

  // ---- Executing the plan ----

  /** The two operators and how bytes get from one to the other. */
  datatype Route = Route(from: nat, to: nat, serverSide: bool, options: Options)

  function SourcePlace(route: Route, step: Step): Place
  {
    (route.from, Key(step.source))
  }

  function Target(route: Route, step: Step): Place
  {
    (route.to, Key(step.destination))
  }

  /** The bytes a step moves when it is executed on `objects`. */
  function Carried(objects: Objects, route: Route, step: Step): Str
  {
    Moved(objects, SourcePlace(route, step), step.size, route.serverSide)
  }

  /** The effect of the first rows of a plan, one after the other. */
  function Execute(objects: Objects, route: Route, steps: seq<Step>): Objects
  {
    if steps == [] then objects
    else
      var last := steps[|steps| - 1];
      var before := Execute(objects, route, steps[..|steps| - 1]);
      before[Target(route, last) := Carried(before, route, last)]
  }

  lemma ExecuteLast(objects: Objects, route: Route, steps: seq<Step>)
    requires steps != []
    ensures var n := |steps| - 1;
            var before := Execute(objects, route, steps[..n]);
            Execute(objects, route, steps) == before[Target(route, steps[n]) := Carried(before, route, steps[n])]
  {
    hide Target, Carried;
  }

  /** A single file goes from the object its path names to the one the destination names. */
  lemma OneFileArrives(objects: Objects, route: Route, source: Str, destination: Str, size: nat)
    requires (route.from, Key(source)) in objects && |objects[(route.from, Key(source))]| == size
    ensures Execute(objects, route, [Step(source, destination, size)]) ==
            objects[(route.to, Key(destination)) := objects[(route.from, Key(source))]]
  {
    hide Key;
    var step := Step(source, destination, size);
    var content := objects[(route.from, Key(source))];
    assert [step][..0] == [] && content[..size] == content;
    assert Carried(objects, route, step) == content;
  }

  lemma ExecuteNothing(objects: Objects, route: Route)
    ensures Execute(objects, route, []) == objects
  {
  }

  lemma {:induction false} ExecuteConcat(objects: Objects, route: Route, a: seq<Step>, b: seq<Step>)
    ensures Execute(objects, route, a + b) == Execute(Execute(objects, route, a), route, b)
    decreases |b|
  {
    hide Execute, Target, Carried;
    if b == [] {
      assert a + b == a;
      ExecuteNothing(Execute(objects, route, a), route);
    } else {
      var n := |b| - 1;
      assert (a + b)[..|a| + n] == a + b[..n];
      ExecuteConcat(objects, route, a, b[..n]);
      ExecuteLast(objects, route, a + b);
      ExecuteLast(Execute(objects, route, a), route, b);
    }
  }

  predicate DistinctTargets(route: Route, steps: seq<Step>)
  {
    forall i, j :: 0 <= i < j < |steps| ==> Target(route, steps[i]) != Target(route, steps[j])
  }

  /** The sources exist and have the sizes that were planned. */
  predicate AsPlanned(objects: Objects, route: Route, steps: seq<Step>)
  {
    forall i :: 0 <= i < |steps| ==>
      SourcePlace(route, steps[i]) in objects && |objects[SourcePlace(route, steps[i])]| == steps[i].size
  }

  /** What the source of a step holds. */
  function Original(objects: Objects, route: Route, step: Step): Str
  {
    Content(objects, SourcePlace(route, step))
  }

  /** Places that are no target keep their content. */
  lemma {:induction false} ExecuteKeeps(objects: Objects, route: Route, steps: seq<Step>, place: Place)
    requires forall i :: 0 <= i < |steps| ==> place != Target(route, steps[i])
    ensures var after := Execute(objects, route, steps);
            (place in after <==> place in objects) && Content(after, place) == Content(objects, place)
  {
    if steps != [] {
      var n := |steps| - 1;
      assert place != Target(route, steps[n]);
      ExecuteKeeps(objects, route, steps[..n], place);
    }
  }

  /** Wherever a step writes to the source of a later one, it leaves there what the later one
      meant to copy: the same object if the service copies, an object that begins like it if a
      stream does. */
  predicate Harmless(objects: Objects, route: Route, steps: seq<Step>)
  {
    forall i, j :: 0 <= i < j < |steps| ==> HarmlessPair(objects, route, steps[i], steps[j])
  }

  predicate HarmlessPair(objects: Objects, route: Route, a: Step, b: Step)
  {
    Target(route, a) == SourcePlace(route, b) ==>
      if route.serverSide then Original(objects, route, a) == Original(objects, route, b)
      else Original(objects, route, b) <= Original(objects, route, a)
  }

  predicate Arrived(objects: Objects, route: Route, step: Step, after: Objects)
  {
    Target(route, step) in after && after[Target(route, step)] == Original(objects, route, step)
  }

  ghost predicate OriginalsArrived(objects: Objects, route: Route, steps: seq<Step>, after: Objects)
  {
    forall i :: 0 <= i < |steps| ==> Arrived(objects, route, steps[i], after)
  }

  /** Steps that write to one place leave the same bytes there. */
  predicate ApartPair(objects: Objects, route: Route, a: Step, b: Step)
  {
    Target(route, a) == Target(route, b) ==> Original(objects, route, a) == Original(objects, route, b)
  }

  predicate Lossless(objects: Objects, route: Route, steps: seq<Step>)
  {
    forall i, j :: 0 <= i < j < |steps| ==>
      HarmlessPair(objects, route, steps[i], steps[j]) && ApartPair(objects, route, steps[i], steps[j])
  }

  /** Every step, at its turn, moves what its source held in the beginning. */
  ghost predicate MovesOriginals(objects: Objects, route: Route, steps: seq<Step>)
  {
    forall k :: 0 <= k < |steps| ==>
      Carried(Execute(objects, route, steps[..k]), route, steps[k]) == Original(objects, route, steps[k])
  }

  ghost predicate NothingLost(objects: Objects, route: Route, steps: seq<Step>)
  {
    MovesOriginals(objects, route, steps) && OriginalsArrived(objects, route, steps, Execute(objects, route, steps))
  }

  /** The exact condition for a plan to move what its sources held when it was made, and to leave
      it all in place. */
  lemma {:induction false} LosslessExactly(objects: Objects, route: Route, steps: seq<Step>)
    requires AsPlanned(objects, route, steps)
    ensures NothingLost(objects, route, steps) <==> Lossless(objects, route, steps)
  {
    if steps != [] {
      hide Execute, Lossless, NothingLost, Carried, Original, HarmlessPair, ApartPair;
      var n := |steps| - 1;
      FrontIsPlanned(objects, route, steps);
      LosslessExactly(objects, route, steps[..n]);
      FrontOfLossless(objects, route, steps);
      FrontOfNothingLost(objects, route, steps);
      if NothingLost(objects, route, steps[..n]) {
        LastMovesOriginal(objects, route, steps);
      }
    }
  }

  lemma FrontIsPlanned(objects: Objects, route: Route, steps: seq<Step>)
    requires steps != [] && AsPlanned(objects, route, steps)
    ensures AsPlanned(objects, route, steps[..|steps| - 1])
  {
    hide Target, SourcePlace;
  }

  lemma FrontOfLossless(objects: Objects, route: Route, steps: seq<Step>)
    requires steps != []
    ensures var n := |steps| - 1;
            Lossless(objects, route, steps) <==>
              && Lossless(objects, route, steps[..n])
              && (forall i :: 0 <= i < n ==> HarmlessPair(objects, route, steps[i], steps[n]))
              && (forall i :: 0 <= i < n ==> ApartPair(objects, route, steps[i], steps[n]))
  {
    hide HarmlessPair, ApartPair;
  }

  lemma FrontOfNothingLost(objects: Objects, route: Route, steps: seq<Step>)
    requires steps != []
    ensures var n := |steps| - 1;
            var before, last := Execute(objects, route, steps[..n]), steps[n];
            NothingLost(objects, route, steps) <==>
              && NothingLost(objects, route, steps[..n])
              && Carried(before, route, last) == Original(objects, route, last)
              && (forall i :: 0 <= i < n ==> ApartPair(objects, route, steps[i], last))
  {
    hide Execute, Carried, Original, MovesOriginals, Arrived, Target, ApartPair;
    var n := |steps| - 1;
    var before, after := Execute(objects, route, steps[..n]), Execute(objects, route, steps);
    FrontMoves(objects, route, steps);
    LastOverwrites(objects, route, steps, steps[n]);
    assert forall i :: 0 <= i < n ==> steps[..n][i] == steps[i];
    if MovesOriginals(objects, route, steps) {
      forall i | 0 <= i < n
        ensures OriginalsArrived(objects, route, steps, after) ==>
                  Arrived(objects, route, steps[i], before) && ApartPair(objects, route, steps[i], steps[n])
        ensures Arrived(objects, route, steps[i], before) && ApartPair(objects, route, steps[i], steps[n]) ==>
                  Arrived(objects, route, steps[i], after)
      {
        EarlierArrived(objects, route, steps, i);
      }
    }
  }

  lemma FrontMoves(objects: Objects, route: Route, steps: seq<Step>)
    requires steps != []
    ensures var n := |steps| - 1;
            MovesOriginals(objects, route, steps) <==>
              && MovesOriginals(objects, route, steps[..n])
              && Carried(Execute(objects, route, steps[..n]), route, steps[n]) == Original(objects, route, steps[n])
  {
    hide Execute, Carried, Original;
    var n := |steps| - 1;
    assert forall k :: 0 <= k < n ==> steps[..n][..k] == steps[..k] && steps[..n][k] == steps[k];
  }

  /** What the last step does to an earlier one whose bytes had been in place. */
  lemma EarlierArrived(objects: Objects, route: Route, steps: seq<Step>, i: nat)
    requires i + 1 < |steps| && MovesOriginals(objects, route, steps)
    ensures var n := |steps| - 1;
            var before, after := Execute(objects, route, steps[..n]), Execute(objects, route, steps);
            && (OriginalsArrived(objects, route, steps, after) ==>
                  Arrived(objects, route, steps[i], before) && ApartPair(objects, route, steps[i], steps[n]))
            && (Arrived(objects, route, steps[i], before) && ApartPair(objects, route, steps[i], steps[n]) ==>
                  Arrived(objects, route, steps[i], after))
  {
    hide Execute, Carried, Original, Target;
    var n := |steps| - 1;
    var front := steps[..n];
    var before, after := Execute(objects, route, front), Execute(objects, route, steps);
    ExecuteLast(objects, route, steps);
    assert Carried(before, route, steps[n]) == Original(objects, route, steps[n]);
    var k := LastWriter(objects, route, front, i);
    assert front[k] == steps[k] && front[..k] == steps[..k] && front[i] == steps[i];
    assert before[Target(route, steps[i])] == Original(objects, route, steps[k]);
    if OriginalsArrived(objects, route, steps, after) {
      assert Arrived(objects, route, steps[k], after) && Arrived(objects, route, steps[i], after);
      assert Arrived(objects, route, steps[n], after);
    }
  }

  /** The step whose bytes a target holds in the end: the last that writes there. */
  lemma {:induction false} LastWriter(objects: Objects, route: Route, steps: seq<Step>, i: nat) returns (k: nat)
    requires i < |steps|
    ensures k < |steps| && Target(route, steps[k]) == Target(route, steps[i])
    ensures var after := Execute(objects, route, steps);
            Target(route, steps[i]) in after
            && after[Target(route, steps[i])] == Carried(Execute(objects, route, steps[..k]), route, steps[k])
  {
    hide Execute, Carried, Target;
    var n := |steps| - 1;
    ExecuteLast(objects, route, steps);
    if Target(route, steps[n]) == Target(route, steps[i]) {
      k := n;
    } else {
      k := LastWriter(objects, route, steps[..n], i);
      assert steps[..n][..k] == steps[..k];
    }
  }

  lemma LastOverwrites(objects: Objects, route: Route, steps: seq<Step>, step: Step)
    requires steps != []
    ensures var n := |steps| - 1;
            var before, after := Execute(objects, route, steps[..n]), Execute(objects, route, steps);
            step == steps[n] ==>
              Arrived(objects, route, step, after) == (Carried(before, route, step) == Original(objects, route, step))
  {
    hide Execute, Target, Carried, Original;
    ExecuteLast(objects, route, steps);
  }

  lemma LastMovesOriginal(objects: Objects, route: Route, steps: seq<Step>)
    requires steps != [] && AsPlanned(objects, route, steps)
    requires NothingLost(objects, route, steps[..|steps| - 1])
    ensures var n := |steps| - 1;
            Carried(Execute(objects, route, steps[..n]), route, steps[n]) == Original(objects, route, steps[n]) <==>
              forall i :: 0 <= i < n ==> HarmlessPair(objects, route, steps[i], steps[n])
  {
    hide Execute, Key, MovesOriginals;
    var n := |steps| - 1;
    var before, last := Execute(objects, route, steps[..n]), steps[n];
    var place := SourcePlace(route, last);
    assert forall i :: 0 <= i < n ==> steps[..n][i] == steps[i] && Arrived(objects, route, steps[i], before);
    if i :| 0 <= i < n && Target(route, steps[i]) == place {
      var held, wanted := Original(objects, route, steps[i]), Original(objects, route, last);
      assert before[place] == held;
      assert forall k :: 0 <= k < n && Target(route, steps[k]) == place ==> Original(objects, route, steps[k]) == held;
      assert wanted <= held ==> held[..|wanted|] == wanted;
      assert held[..|held|] == held;
    } else {
      ExecuteKeeps(objects, route, steps[..n], place);
      WholeObjectMoves(before, place, last.size, route.serverSide);
      assert Carried(before, route, last) == Original(objects, route, last);
    }
  }

  /** If no two steps write to one place, it is enough to look at the end. */
  lemma ExecuteCopiesOriginals(objects: Objects, route: Route, steps: seq<Step>)
    requires AsPlanned(objects, route, steps) && DistinctTargets(route, steps)
    ensures OriginalsArrived(objects, route, steps, Execute(objects, route, steps)) <==> Harmless(objects, route, steps)
  {
    hide Execute, Carried, Original, Target, HarmlessPair;
    var after := Execute(objects, route, steps);
    LosslessExactly(objects, route, steps);
    if OriginalsArrived(objects, route, steps, after) {
      forall k | 0 <= k < |steps|
        ensures Carried(Execute(objects, route, steps[..k]), route, steps[k]) == Original(objects, route, steps[k])
      {
        var j := LastWriter(objects, route, steps, k);
        assert Arrived(objects, route, steps[k], after);
      }
    }
  }

  /** After the first `k` rows exactly their targets have been overwritten, each by what its
      source held before the copy began if and only if the rows are harmless. */
  lemma FirstRowsOverwriteOnlyTheirs(objects: Objects, route: Route, steps: seq<Step>, k: nat)
    requires AsPlanned(objects, route, steps) && DistinctTargets(route, steps) && k <= |steps|
    ensures var after := Execute(objects, route, steps[..k]);
            && (OriginalsArrived(objects, route, steps[..k], after) <==> Harmless(objects, route, steps[..k]))
            && (forall place :: (forall i :: 0 <= i < k ==> place != Target(route, steps[i])) ==>
                  (place in after <==> place in objects) && Content(after, place) == Content(objects, place))
  {
    hide Execute, Harmless, OriginalsArrived, Target, SourcePlace;
    var rows := steps[..k];
    assert forall i :: 0 <= i < k ==> rows[i] == steps[i];
    ExecuteCopiesOriginals(objects, route, rows);
    forall place: Place | forall i :: 0 <= i < k ==> place != Target(route, steps[i])
      ensures var after := Execute(objects, route, rows);
              (place in after <==> place in objects) && Content(after, place) == Content(objects, place)
    {
      ExecuteKeeps(objects, route, rows, place);
    }
  }

  // ---- Destinations ----

  /** What may stand behind a base: a path, except that whitespace may begin it. */
  ghost predicate Clean(rel: Str)
  {
    Segmented(rel) && SpaceAtEnd(rel) == 0
  }

  /** Behind whitespace, and a slash if one comes next. */
  function Bare(rel: Str): Str
  {
    TrimStart(TrimFront(rel))
  }

  /** The spelling of a destination: its prefix, one slash and the rest. */
  lemma JoinDestMeans(prefix: Str, rel: Str)
    ensures JoinDest([], rel) == rel
    ensures JoinDest(prefix + [SLASH], rel) == prefix + [SLASH] + rel
    ensures prefix != [] && !EndsInSlash(prefix) ==> JoinDest(prefix, rel) == prefix + [SLASH] + rel
  {
  }

  lemma StripBaseMeans(base: Str, rel: Str, path: Str)
    ensures StripBase(base, base + rel) == rel
    ensures !(base <= path) ==> StripBase(base, path) == path
  {
  }

  /** Under a prefix the storage library reads a destination as the directory of the prefix and
      what is put there. */
  lemma KeyOfDestination(prefix: Str, rel: Str)
    requires Clean(rel) && prefix != []
    ensures Key(JoinDest(prefix, rel)) == Key(prefix + [SLASH]) + rel
  {
    hide Key;
    KeyUnderFront(prefix, rel);
    if EndsInSlash(prefix) {
      KeyOfDoubledSlash(prefix);
    }
  }

  lemma KeyUnderFront(prefix: Str, rel: Str)
    requires Clean(rel) && prefix != []
    ensures var front := if EndsInSlash(prefix) then prefix else prefix + [SLASH];
            JoinDest(prefix, rel) == front + rel && Key(JoinDest(prefix, rel)) == Key(front) + rel
  {
    hide Fold, Trim, TrimFront, Segmented, SpaceAtEnd;
    var front := if EndsInSlash(prefix) then prefix else prefix + [SLASH];
    assert JoinDest(prefix, rel) == front + rel;
    TrimOfJoin(front, rel);
    TrimOfJoin(front, []);
    assert front + [] == front && TrimFront(front) + [] == TrimFront(front);
    FoldOfJoin(TrimFront(front), rel, rel);
  }

  /** Without a prefix whitespace at its front is lost. */
  lemma KeyOfBare(rel: Str)
    requires Clean(rel)
    ensures Key(rel) == Bare(rel)
    ensures Bare(rel) == rel <==> SpaceInFront(rel) == 0
  {
    hide Fold, SpaceInFront, SpaceAtEnd, TrimFront;
    TrimFrontShortens(rel);
    TrimFrontIsSuffix(rel);
    var n :| 0 <= n <= |rel| && TrimFront(rel) == rel[n..];
    assert rel == rel[..n] + rel[n..];
    NoSpaceInSuffix(rel[..n], rel[n..]);
    FoldOfRooted(rel[n..]);
    TailIsSegmented(rel, n);
    if TrimStart(rel[n..]) != [] {
      FoldOfPrefix(TrimStart(rel[n..]), TrimStart(rel[n..]));
    } else {
      FoldOfPrefix([], rel);
    }
  }

  lemma TailIsSegmented(rel: Str, n: nat)
    requires Segmented(rel) && n <= |rel|
    ensures TrimStart(rel[n..]) == [] || Segmented(TrimStart(rel[n..]))
  {
    hide TrimStart;
    var t := TrimStart(rel[n..]);
    var m := |rel| - |t|;
    if t != [] {
      assert t == rel[m..];
      forall i | 0 <= i < |t| - 1 ensures !(t[i] == SLASH && t[i + 1] == SLASH) {
        assert t[i] == rel[m + i] && t[i + 1] == rel[m + i + 1];
      }
    }
  }

  lemma {:induction false} FoldOfJoin(front: Str, part: Str, path: Str)
    requires front == [] || EndsInSlash(front)
    requires Segmented(path) && part <= path
    ensures Fold(front + part) == Fold(front) + part
    decreases |part|
  {
    if part == [] {
      assert front + part == front;
    } else {
      var n := |part| - 1;
      hide Fold, Segmented;
      var begun := Fold(front) + part[..n];
      FoldOfJoin(front, part[..n], path);
      NoDoubledSlash(path, n);
      assert part[n] == path[n];
      assert n > 0 ==> begun[|begun| - 1] == path[n - 1];
      FoldOfLonger(front + part[..n], begun, part[n]);
      SplitLast(front, part);
      SplitLast(Fold(front), part);
    }
  }

  lemma FoldOfLonger(s: Str, folded: Str, b: Byte)
    requires Fold(s) == folded && (b == SLASH ==> folded != [] && folded[|folded| - 1] != SLASH)
    ensures Fold(s + [b]) == folded + [b]
  {
    hide Fold;
    FoldSnoc(s, b);
  }

  lemma SplitLast(front: Str, part: Str)
    requires part != []
    ensures front + part == (front + part[..|part| - 1]) + [part[|part| - 1]]
  {
  }

  lemma NoDoubledSlash(path: Str, n: nat)
    requires Segmented(path) && n < |path|
    ensures path[n] == SLASH ==> n > 0 && path[n - 1] != SLASH
  {
  }

  lemma StrippedIsClean(base: Str, path: Str)
    requires Normal(path) && (base == [] || EndsInSlash(base))
    ensures Clean(StripBase(base, path))
  {
    hide SpaceInFront, SpaceAtEnd;
    if base <= path {
      var rel := path[|base|..];
      assert base != [] ==> path[|base| - 1] == SLASH;
      assert forall i :: 0 <= i < |rel| ==> rel[i] == path[|base| + i];
      assert path == base + rel;
      NoSpaceInSuffix(base, rel);
    }
  }

  /** Stripping a base takes it off every path under its directory if the base is spelled as the
      storage library keeps it, and off none otherwise. */
  lemma StripIsUniform(base: Str, path: Str)
    requires Normal(path) && Key(base) <= path && (base == [] || EndsInSlash(base))
    ensures base <= path <==> base == Key(base)
  {
    hide Key, Normal;
    if base <= path {
      KeyOfPrefix(base, path);
    }
  }

  lemma StripBaseInjective(base: Str, a: Str, b: Str)
    requires Normal(a) && Normal(b) && Key(base) <= a && Key(base) <= b && (base == [] || EndsInSlash(base))
    requires StripBase(base, a) == StripBase(base, b)
    ensures a == b
  {
    hide Normal, Key;
    StripIsUniform(base, a);
    StripIsUniform(base, b);
    if base == Key(base) {
      assert a == base + a[|base|..] && b == base + b[|base|..];
    }
  }

  /** The directory a destination prefix stands for. */
  function DestinationDir(prefix: Str): Str
  {
    if prefix == [] then [] else Key(prefix + [SLASH])
  }

  /** The part of a path that is kept: what stands behind the base, if the base is spelled as the
      storage library keeps it, and otherwise everything. */
  function Relative(base: Str, path: Str): Str
  {
    if base == Key(base) && base <= path then path[|base|..] else path
  }

  /** Where the file at `path` lands: in the directory of the prefix, or at the root without the
      whitespace in front. */
  function LandsAt(prefix: Str, base: Str, path: Str): Str
  {
    if prefix == [] then Bare(Relative(base, path)) else DestinationDir(prefix) + Relative(base, path)
  }

  lemma LandsThere(prefix: Str, base: Str, path: Str)
    requires Normal(path) && Key(base) <= path && (base == [] || EndsInSlash(base))
    ensures StripBase(base, path) == Relative(base, path)
    ensures Key(Destination(prefix, base, path)) == LandsAt(prefix, base, path)
  {
    hide Normal, Key, Bare, Clean;
    StripIsUniform(base, path);
    StrippedIsClean(base, path);
    if prefix != [] {
      KeyOfDestination(prefix, StripBase(base, path));
    } else {
      KeyOfBare(StripBase(base, path));
    }
  }

  /** The documented promise, that a file keeps its path relative to the fixed part of the source,
      holds exactly when that part is the root, or is spelled as the storage library keeps it and
      whitespace in front of the relative path is covered by a destination prefix. */
  lemma RelativePathKept(prefix: Str, base: Str, path: Str)
    requires Normal(path) && Key(base) <= path && (base == [] || EndsInSlash(base))
    ensures var rel := path[|Key(base)|..];
            Key(Destination(prefix, base, path)) == (if prefix == [] then [] else Key(prefix + [SLASH])) + rel <==>
              Key(base) == [] || (base == Key(base) && (prefix != [] || SpaceInFront(rel) == 0))
  {
    hide Normal, Key, Bare, Clean, SpaceInFront;
    StripIsUniform(base, path);
    StrippedIsClean(base, path);
    var rel := path[|Key(base)|..];
    if prefix != [] {
      KeyOfDestination(prefix, StripBase(base, path));
      if StripBase(base, path) != rel {
        assert |StripBase(base, path)| != |rel|;
      }
    } else {
      KeyOfBare(StripBase(base, path));
      PathHasNoSpace(path);
      assert [] + rel == rel;
    }
  }

  lemma PathHasNoSpace(path: Str)
    requires Normal(path)
    ensures SpaceInFront(path) == 0
  {
  }

  /** So a directory lands file by file under the prefix, whether or not it is written with its
      slash, */
  lemma DirectoryLands(dir: Str, source: Str, rel: Str, prefix: Str)
    requires Normal(dir + [SLASH] + rel) && (source == dir || source == dir + [SLASH]) && !EndsInSlash(dir)
    requires !HasWildcard(source) && prefix != []
    ensures LandsAt(prefix, BaseOf(source), dir + [SLASH] + rel) == Key(prefix + [SLASH]) + rel
  {
    hide Key, Normal, HasWildcard;
    var path, base := dir + [SLASH] + rel, dir + [SLASH];
    assert DirBase(source) == base;
    assert path == base + rel;
    KeyOfPrefix(base, path);
  }

  /** and so do the files a glob matches, relative to the directory in front of its first wildcard. */
  lemma GlobLands(dir: Str, stem: Str, wildcard: Byte, tail: Str, rel: Str, prefix: Str)
    requires Normal(dir + [SLASH] + rel) && prefix != []
    requires SLASH !in stem && forall b :: b in dir + stem ==> b != STAR && b != QUESTION && b != LBRACKET
    requires wildcard == STAR || wildcard == QUESTION || wildcard == LBRACKET
    ensures var source := dir + [SLASH] + stem + [wildcard] + tail;
            LandsAt(prefix, BaseOf(source), dir + [SLASH] + rel) == Key(prefix + [SLASH]) + rel
  {
    hide Key, Normal;
    var path, base := dir + [SLASH] + rel, dir + [SLASH];
    RootOfGlob(dir, stem, wildcard, tail);
    assert path == base + rel;
    KeyOfPrefix(base, path);
  }

  lemma RootOfGlob(dir: Str, stem: Str, wildcard: Byte, tail: Str)
    requires SLASH !in stem && forall b :: b in dir + stem ==> b != STAR && b != QUESTION && b != LBRACKET
    requires wildcard == STAR || wildcard == QUESTION || wildcard == LBRACKET
    ensures var source := dir + [SLASH] + stem + [wildcard] + tail;
            HasWildcard(source) && GlobRoot(source) == dir + [SLASH]
  {
    hide FirstWildcard, StaticSlash;
    var source := dir + [SLASH] + stem + [wildcard] + tail;
    var w := |dir| + 1 + |stem|;
    assert source[w] == wildcard && source[|dir|] == SLASH;
    forall k | 0 <= k < w ensures !Wildcard(source[k]) {
      assert k < |dir| ==> source[k] == (dir + stem)[k];
      assert k > |dir| ==> source[k] == (dir + stem)[k - 1];
      assert k != |dir| ==> source[k] in dir + stem;
    }
    assert FirstWildcard(source) == w;
    forall k | |dir| < k < w ensures source[k] != SLASH {
      assert source[k] == stem[k - |dir| - 1];
    }
    assert StaticSlash(source) == |dir|;
  }

  /** Under a destination prefix files always land apart; without one, when no two of their
      relative paths are the same behind leading whitespace. */
  ghost predicate LandApart(prefix: Str, base: Str, sources: set<Str>)
  {
    prefix != [] ||
    forall p, q :: p in sources && q in sources && Bare(Relative(base, p)) == Bare(Relative(base, q)) ==> p == q
  }

  /** Two files are copied to one place exactly if they do not land apart. */
  lemma SamePlace(prefix: Str, base: Str, p: Str, q: Str)
    requires Normal(p) && Normal(q) && (base == [] || EndsInSlash(base))
    requires Key(base) <= p && Key(base) <= q
    ensures Key(Destination(prefix, base, p)) == Key(Destination(prefix, base, q)) <==>
            if prefix != [] then p == q else Bare(Relative(base, p)) == Bare(Relative(base, q))
  {
    hide Normal, Key, Bare, Clean, Relative;
    LandsThere(prefix, base, p);
    LandsThere(prefix, base, q);
    if prefix != [] && LandsAt(prefix, base, p) == LandsAt(prefix, base, q) {
      SameTail(DestinationDir(prefix), StripBase(base, p), StripBase(base, q));
      StripBaseInjective(base, p, q);
    }
  }

  /** The exact condition for no two steps of a plan to write to the same place. */
  lemma TargetsAreDistinct(route: Route, steps: seq<Step>, store: map<Str, Str>, sources: set<Str>, prefix: Str, base: Str)
    requires NormalStore(store) && PlanFor(steps, store, sources, prefix, base)
    requires base == [] || EndsInSlash(base)
    requires forall path :: path in sources ==> Key(base) <= path
    ensures DistinctTargets(route, steps) <==> LandApart(prefix, base, sources)
  {
    hide Normal, Relative, StripBase, JoinDest, Key, Bare;
    forall i, j | 0 <= i < j < |steps|
      ensures steps[i].source in sources && steps[j].source in sources
      ensures Target(route, steps[i]) == Target(route, steps[j]) <==>
              prefix == [] && Bare(Relative(base, steps[i].source)) == Bare(Relative(base, steps[j].source))
    {
      var a, b := steps[i].source, steps[j].source;
      assert a in sources && b in sources;
      SamePlace(prefix, base, a, b);
    }
    if DistinctTargets(route, steps) && prefix == [] {
      forall p, q | p in sources && q in sources && Bare(Relative(base, p)) == Bare(Relative(base, q))
        ensures p == q
      {
        var i :| 0 <= i < |steps| && steps[i].source == p;
        var j :| 0 <= j < |steps| && steps[j].source == q;
        assert i < j || j < i || i == j;
      }
    }
  }

  lemma SameTail(front: Str, a: Str, b: Str)
    requires front + a == front + b
    ensures a == b
  {
    assert (front + a)[|front|..] == a && (front + b)[|front|..] == b;
  }

  /** Sources lie under the base they are stripped of, and the base is a directory. */
  lemma SourcesAreUnderBase(store: map<Str, Str>, source: Str)
    requires NormalStore(store)
    ensures forall path :: path in SourcesOf(store, source) ==> path in store && Key(BaseOf(source)) <= path
    ensures BaseOf(source) == [] || EndsInSlash(BaseOf(source))
  {
    hide Matches, Key;
    forall path | path in SourcesOf(store, source) ensures Key(BaseOf(source)) <= path {
      if HasWildcard(source) {
        PruningIsComplete(source, path);
      }
    }
  }

  // ---- A plan that feeds itself ----

  const CHAIN_FILE: Str := [97, SLASH, 102]                   // a/f
  const CHAIN_NEXT: Str := [97, SLASH, 122, SLASH, 102]       // a/z/f
  const CHAIN_LAST: Str := [97, SLASH, 122, SLASH, 122, SLASH, 102]
  const CHAIN_SOURCE: Str := [97, SLASH]                      // a/
  const CHAIN_PREFIX: Str := [97, SLASH, 122]                 // a/z

  /** Copying `a/` to `a/z` within one service, where `a/f` and `a/z/f` exist and are listed in
      ascending order: the first row overwrites `a/z/f` with `a/f`, the second carries that on.
      Both rows succeed, on either branch, and the bytes of `a/z/f` are nowhere. */
  lemma ChainForgetsTheMiddle(x: Str, y: Str, route: Route)
    requires route.from == route.to && |y| <= |x| && y != x[..|y|]
    ensures var store := map[CHAIN_FILE := x, CHAIN_NEXT := y];
            var objects: Objects := map[(route.from, CHAIN_FILE) := x, (route.from, CHAIN_NEXT) := y];
            var listing := [Entry(CHAIN_FILE, false, |x|), Entry(CHAIN_NEXT, false, |y|)];
            var steps := StepsOf(listing, None, CHAIN_PREFIX, DirBase(CHAIN_SOURCE));
            && NormalStore(store) && Exact(store, DirBase(CHAIN_SOURCE), Entries(listing))
            && steps == [Step(CHAIN_FILE, CHAIN_NEXT, |x|), Step(CHAIN_NEXT, CHAIN_LAST, |y|)]
            && !Harmless(objects, route, steps)
            && (forall k :: 0 <= k < 2 ==>
                  Movable(Execute(objects, route, steps[..k]), SourcePlace(route, steps[k]), steps[k].size, route.serverSide))
            && (forall place :: Content(Execute(objects, route, steps), place) != y)
  {
    hide Execute, Harmless, Exact, StepsOf, Normal;
    ChainPaths();
    ChainSteps(|x|, |y|);
    ChainListing(x, y);
    ChainRows(x, y, route);
  }

  lemma ChainListing(x: Str, y: Str)
    ensures Exact(map[CHAIN_FILE := x, CHAIN_NEXT := y], CHAIN_SOURCE,
                  Entries([Entry(CHAIN_FILE, false, |x|), Entry(CHAIN_NEXT, false, |y|)]))
  {
    hide Key;
    var listing := [Entry(CHAIN_FILE, false, |x|), Entry(CHAIN_NEXT, false, |y|)];
    ChainPaths();
    assert listing[0] in listing && listing[1] in listing;
  }

  lemma ChainRows(x: Str, y: Str, route: Route)
    requires route.from == route.to && |y| <= |x| && y != x[..|y|]
    ensures var objects: Objects := map[(route.from, CHAIN_FILE) := x, (route.from, CHAIN_NEXT) := y];
            var steps := [Step(CHAIN_FILE, CHAIN_NEXT, |x|), Step(CHAIN_NEXT, CHAIN_LAST, |y|)];
            && !Harmless(objects, route, steps)
            && (forall k :: 0 <= k < 2 ==>
                  Movable(Execute(objects, route, steps[..k]), SourcePlace(route, steps[k]), steps[k].size, route.serverSide))
            && (forall place :: Content(Execute(objects, route, steps), place) != y)
  {
    hide Key, Normal;
    var objects: Objects := map[(route.from, CHAIN_FILE) := x, (route.from, CHAIN_NEXT) := y];
    var steps := [Step(CHAIN_FILE, CHAIN_NEXT, |x|), Step(CHAIN_NEXT, CHAIN_LAST, |y|)];
    ChainPaths();
    var first := objects[(route.to, CHAIN_NEXT) := x];
    assert steps[..0] == [] && steps[..1] == [steps[0]] && [steps[0]][..0] == [];
    assert x[..|x|] == x;
    assert Execute(objects, route, steps[..1]) == first;
    var carried := if route.serverSide then x else x[..|y|];
    assert Execute(objects, route, steps) == first[(route.to, CHAIN_LAST) := carried];
    assert !HarmlessPair(objects, route, steps[0], steps[1]);
  }

  lemma ChainPaths()
    ensures Normal(CHAIN_FILE) && Normal(CHAIN_NEXT) && Normal(CHAIN_LAST)
    ensures Key(CHAIN_FILE) == CHAIN_FILE && Key(CHAIN_NEXT) == CHAIN_NEXT && Key(CHAIN_LAST) == CHAIN_LAST
    ensures DirBase(CHAIN_SOURCE) == CHAIN_SOURCE && Key(CHAIN_SOURCE) == CHAIN_SOURCE
    ensures CHAIN_SOURCE <= CHAIN_FILE && CHAIN_SOURCE <= CHAIN_NEXT
    ensures |CHAIN_FILE| < |CHAIN_NEXT| < |CHAIN_LAST|
  {
    hide Normal, Key;
    LetteredPath(CHAIN_FILE);
    LetteredPath(CHAIN_NEXT);
    LetteredPath(CHAIN_LAST);
    KeyOfPrefix(CHAIN_SOURCE, CHAIN_FILE);
  }

  /** A path that begins and ends in a small letter. */
  lemma LetteredPath(path: Str)
    requires Segmented(path) && 97 <= path[0] <= 122 && 97 <= path[|path| - 1] <= 122
    ensures Normal(path) && Key(path) == path
  {
    hide Key, SpaceInFront, SpaceAtEnd;
    LetterIsNoSpace(path);
    KeyOfPrefix(path, path);
  }

  lemma ChainSteps(m: nat, n: nat)
    ensures StepsOf([Entry(CHAIN_FILE, false, m), Entry(CHAIN_NEXT, false, n)], None, CHAIN_PREFIX, CHAIN_SOURCE) ==
            [Step(CHAIN_FILE, CHAIN_NEXT, m), Step(CHAIN_NEXT, CHAIN_LAST, n)]
  {
    var a, b := Entry(CHAIN_FILE, false, m), Entry(CHAIN_NEXT, false, n);
    assert [a, b][..1] == [a] && [a][..0] == [];
    assert CHAIN_FILE[2..] == [102] && CHAIN_NEXT[2..] == [122, SLASH, 102];
    assert Destination(CHAIN_PREFIX, CHAIN_SOURCE, CHAIN_FILE) == CHAIN_NEXT;
    assert Destination(CHAIN_PREFIX, CHAIN_SOURCE, CHAIN_NEXT) == CHAIN_LAST;
    hide Destination;
    assert StepsOf([a], None, CHAIN_PREFIX, CHAIN_SOURCE) == [Step(CHAIN_FILE, CHAIN_NEXT, m)];
    assert [a, b][1] == b;
  }

  // ---- Two files in one place ----

  const SPACED_FILE: Str := [97, SLASH, 32, 120]    // a/ x
  const PLAIN_FILE: Str := [97, SLASH, 120]         // a/x

  /** Copying `a/` to the root of another service, where `a/ x` and `a/x` exist: the storage
      library trims the destination of the first, so the second overwrites it. Both rows succeed
      and the bytes of the first file have arrived nowhere. */
  lemma TrimmingMergesFiles(x: Str, y: Str, route: Route)
    requires route.from != route.to && x != y && x != []
    ensures var store := map[SPACED_FILE := x, PLAIN_FILE := y];
            var objects: Objects := map[(route.from, SPACED_FILE) := x, (route.from, PLAIN_FILE) := y];
            var listing := [Entry(SPACED_FILE, false, |x|), Entry(PLAIN_FILE, false, |y|)];
            var steps := StepsOf(listing, None, [], DirBase(CHAIN_SOURCE));
            && NormalStore(store) && Exact(store, DirBase(CHAIN_SOURCE), Entries(listing))
            && steps == [Step(SPACED_FILE, [32, 120], |x|), Step(PLAIN_FILE, [120], |y|)]
            && Harmless(objects, route, steps) && !DistinctTargets(route, steps) && !Lossless(objects, route, steps)
            && (forall k :: 0 <= k < 2 ==>
                  Movable(Execute(objects, route, steps[..k]), SourcePlace(route, steps[k]), steps[k].size, route.serverSide))
            && (forall path :: Content(Execute(objects, route, steps), (route.to, path)) != x)
  {
    hide Execute, Harmless, Exact, StepsOf, Normal, DistinctTargets, Lossless;
    MergedPaths();
    MergedSteps(|x|, |y|);
    MergedListing(x, y);
    MergedRows(x, y, route);
  }

  lemma MergedPaths()
    ensures Normal(SPACED_FILE) && Normal(PLAIN_FILE)
    ensures Key(SPACED_FILE) == SPACED_FILE && Key(PLAIN_FILE) == PLAIN_FILE
    ensures Key([32, 120]) == [120] == Key([120])
    ensures DirBase(CHAIN_SOURCE) == CHAIN_SOURCE && Key(CHAIN_SOURCE) == CHAIN_SOURCE
    ensures CHAIN_SOURCE <= SPACED_FILE && CHAIN_SOURCE <= PLAIN_FILE
    ensures |PLAIN_FILE| < |SPACED_FILE|
  {
    hide Key, Normal;
    LetteredPath(SPACED_FILE);
    LetteredPath(PLAIN_FILE);
    LetteredPath([120]);
    KeyOfPrefix(CHAIN_SOURCE, PLAIN_FILE);
    SpacedKey();
  }

  lemma SpacedKey()
    ensures Key([32, 120]) == Key([120])
  {
    hide Fold;
    assert [32, 120][..1] == [32] && [32, 120][1..] == [120];
    assert TrimFront([32, 120]) == TrimFront([120]);
  }

  lemma MergedSteps(m: nat, n: nat)
    ensures StepsOf([Entry(SPACED_FILE, false, m), Entry(PLAIN_FILE, false, n)], None, [], CHAIN_SOURCE) ==
            [Step(SPACED_FILE, [32, 120], m), Step(PLAIN_FILE, [120], n)]
  {
    var a, b := Entry(SPACED_FILE, false, m), Entry(PLAIN_FILE, false, n);
    assert [a, b][..1] == [a] && [a][..0] == [];
    assert SPACED_FILE[2..] == [32, 120] && PLAIN_FILE[2..] == [120];
    assert StepsOf([a], None, [], CHAIN_SOURCE) == [Step(SPACED_FILE, [32, 120], m)];
    assert [a, b][1] == b;
  }

  lemma MergedListing(x: Str, y: Str)
    ensures Exact(map[SPACED_FILE := x, PLAIN_FILE := y], CHAIN_SOURCE,
                  Entries([Entry(SPACED_FILE, false, |x|), Entry(PLAIN_FILE, false, |y|)]))
  {
    hide Key;
    var listing := [Entry(SPACED_FILE, false, |x|), Entry(PLAIN_FILE, false, |y|)];
    MergedPaths();
    assert listing[0] in listing && listing[1] in listing;
  }

  lemma MergedRows(x: Str, y: Str, route: Route)
    requires route.from != route.to && x != y && x != []
    ensures var objects: Objects := map[(route.from, SPACED_FILE) := x, (route.from, PLAIN_FILE) := y];
            var steps := [Step(SPACED_FILE, [32, 120], |x|), Step(PLAIN_FILE, [120], |y|)];
            && Harmless(objects, route, steps) && !DistinctTargets(route, steps) && !Lossless(objects, route, steps)
            && (forall k :: 0 <= k < 2 ==>
                  Movable(Execute(objects, route, steps[..k]), SourcePlace(route, steps[k]), steps[k].size, route.serverSide))
            && (forall path :: Content(Execute(objects, route, steps), (route.to, path)) != x)
  {
    hide Key, Normal;
    var objects: Objects := map[(route.from, SPACED_FILE) := x, (route.from, PLAIN_FILE) := y];
    var steps := [Step(SPACED_FILE, [32, 120], |x|), Step(PLAIN_FILE, [120], |y|)];
    MergedPaths();
    assert steps[..0] == [] && steps[..1] == [steps[0]] && [steps[0]][..0] == [];
    assert x[..|x|] == x && y[..|y|] == y;
    var first := objects[(route.to, [120]) := x];
    assert Execute(objects, route, steps[..1]) == first;
    assert Execute(objects, route, steps) == first[(route.to, [120]) := y];
    assert Target(route, steps[0]) == Target(route, steps[1]);
    assert !ApartPair(objects, route, steps[0], steps[1]);
  }
}
