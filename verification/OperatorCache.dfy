/** The operator cache of the filesystem (src/opendal_filesystem.cpp, `BuildOperator` and the
    destructor): look up under the lock, build outside it, publish or discard under it again.

    The class below has the critical sections as its methods. The protocol of arbitrarily many
    threads is a state machine whose atomic steps are those critical sections, the builds
    between them, and the destructor freeing one entry after the other. */
module OperatorCache {
  import opened Bytes
  import opened CacheKey
  import opened KeyLimits

  /** An operator pointer. */
  type Handle = nat

  type Operators = map<Str, Handle>

  function Find(operators: Operators, key: Str): Option<Handle>
  {
    if key in operators then Some(operators[key]) else None
  }

  /** `emplace` keeps an existing entry; the handle that ends up under the key is returned. */
  datatype Published = Published(operators: Operators, discarded: bool, handle: Handle)

  function Emplace(operators: Operators, key: Str, built: Handle): (result: Published)
    ensures key in result.operators && result.operators[key] == result.handle
    ensures forall k :: k in operators ==> k in result.operators && result.operators[k] == operators[k]
    ensures forall k :: k in result.operators ==> k in operators || k == key
    ensures result.discarded ==> result.operators == operators && key in operators
    ensures !result.discarded ==> result.handle == built && key !in operators
  {
    if key in operators then Published(operators, true, operators[key])
    else Published(operators[key := built], false, built)
  }

  class Cache {
    var operators: Operators
    ghost var freed: multiset<Handle>      // calls of `od_operator_free`

    constructor ()
      ensures operators == map[] && freed == multiset{}
    {
      operators, freed := map[], multiset{};
    }

    /** First critical section. */
    method Lookup(key: Str) returns (hit: Option<Handle>)
      ensures hit == Find(operators, key)
    {
      hit := if key in operators then Some(operators[key]) else None;
    }

    /** Second critical section. */
    method Publish(key: Str, built: Handle) returns (handle: Handle)
      modifies this
      ensures var result := Emplace(old(operators), key, built);
              && operators == result.operators
              && handle == result.handle
              && freed == old(freed) + if result.discarded then multiset{built} else multiset{}
    {
      if key in operators {
        freed := freed + multiset{built};
        return operators[key];
      }
      operators := operators[key := built];
      handle := built;
    }

    /** The destructor frees every entry once. */
    method Destroy()
      modifies this
      ensures operators == map[]
      ensures forall h :: freed[h] == old(freed)[h] + |KeysBoundTo(old(operators), old(operators).Keys, h)|
    {
      ghost var before := operators;
      ghost var done: set<Str> := {};
      var left := operators.Keys;
      while left != {}
        invariant operators == before && left <= before.Keys && done == before.Keys - left
        invariant forall h :: freed[h] == old(freed)[h] + |KeysBoundTo(before, done, h)|
        decreases |left|
      {
        var key :| key in left;
        forall h ensures |KeysBoundTo(before, done + {key}, h)| == |KeysBoundTo(before, done, h)| + if before[key] == h then 1 else 0 {
          KeysBoundToAdd(before, done, key, h);
        }
        freed := freed + multiset{operators[key]};
        left := left - {key};
        done := done + {key};
      }
      assert done == before.Keys;
      operators := map[];
    }

    /** A call that meets no other thread: a hit changes nothing, a miss publishes what was
        built, and a failed build (None) leaves no trace. */
    method BuildOperator(request: Request, attempt: Option<Handle>) returns (result: Option<Handle>)
      modifies this
      ensures Find(old(operators), Identity(request)).Some? ==>
                result == Find(old(operators), Identity(request)) && operators == old(operators)
      ensures Find(old(operators), Identity(request)).None? ==>
                && result == attempt
                && operators == if attempt.Some? then old(operators)[Identity(request) := attempt.value] else old(operators)
      ensures freed == old(freed)
    {
      var key, hash := ConfigIdentity(request.scheme, request.authority, request.config, request.options);
      assert request == Request(request.scheme, request.authority, request.config, request.options);
      var hit := Lookup(key);
      if hit.Some? {
        return hit;
      }
      if attempt.None? {
        return None;
      }
      var handle := Publish(key, attempt.value);
      result := Some(handle);
    }
  }

  ghost function KeysBoundTo(operators: Operators, keys: set<Str>, handle: Handle): set<Str>
  {
    set k | k in keys && k in operators && operators[k] == handle
  }

  lemma KeysBoundToAdd(operators: Operators, keys: set<Str>, key: Str, handle: Handle)
    requires key in operators && key !in keys
    ensures |KeysBoundTo(operators, keys + {key}, handle)| ==
            |KeysBoundTo(operators, keys, handle)| + if operators[key] == handle then 1 else 0
  {
    var before, after := KeysBoundTo(operators, keys, handle), KeysBoundTo(operators, keys + {key}, handle);
    if operators[key] == handle {
      assert after == before + {key};
    } else {
      assert after == before;
    }
  }

  // ---- The protocol ----

  type Thread = nat

  /** Where a thread is inside `BuildOperator`. */
  datatype Phase =
    | Idle
    | Building(request: Request)                   // missed, not yet built
    | Holding(request: Request, handle: Handle)    // built, not yet published

  datatype Origin = Origin(request: Request, builder: Thread)

  /** A successful call: the request and the handle it returned. */
  datatype Answer = Answer(request: Request, handle: Handle)

  datatype State = State(
    operators: Operators,
    phases: map<Thread, Phase>,
    origin: map<Handle, Origin>,       // every operator ever built
    freed: multiset<Handle>,
    answers: set<Answer>,
    closing: bool)                     // the destructor has begun

  datatype Action =
    | Look(t: Thread, request: Request)
    | FailToBuild(t: Thread)
    | Build(t: Thread, handle: Handle)
    | Publish(t: Thread)
    | BeginDestruction
    | FreeEntry(key: Str)

  function PhaseOf(s: State, t: Thread): Phase
  {
    if t in s.phases then s.phases[t] else Idle
  }

  /** Requests an operator can be built from: a stray option key makes `od_operator_new` fail, and
      no registered scheme has a slash. */
  ghost predicate Buildable(request: Request)
  {
    OptionsIn(request, Sectioned) && SLASH !in request.scheme
  }

  ghost predicate Enabled(s: State, a: Action)
  {
    match a
    case Look(t, request) => !s.closing && PhaseOf(s, t) == Idle
    case FailToBuild(t) => PhaseOf(s, t).Building?
    case Build(t, handle) => PhaseOf(s, t).Building? && Buildable(PhaseOf(s, t).request) && handle !in s.origin
    case Publish(t) => PhaseOf(s, t).Holding?
    case BeginDestruction => !s.closing && forall t :: t in s.phases ==> s.phases[t] == Idle
    case FreeEntry(key) => s.closing && key in s.operators
  }

  ghost function Step(s: State, a: Action): State
    requires Enabled(s, a)
  {
    match a
    case Look(t, request) =>
      var hit := Find(s.operators, Identity(request));
      if hit.Some? then s.(answers := s.answers + {Answer(request, hit.value)})
      else s.(phases := s.phases[t := Building(request)])
    case FailToBuild(t) =>
      s.(phases := s.phases[t := Idle])
    case Build(t, handle) =>
      var request := PhaseOf(s, t).request;
      s.(phases := s.phases[t := Holding(request, handle)], origin := s.origin[handle := Origin(request, t)])
    case Publish(t) =>
      var Holding(request, built) := PhaseOf(s, t);
      var result := Emplace(s.operators, Identity(request), built);
      s.(operators := result.operators,
         phases := s.phases[t := Idle],
         freed := if result.discarded then s.freed + multiset{built} else s.freed,
         answers := s.answers + {Answer(request, result.handle)})
    case BeginDestruction =>
      s.(closing := true)
    case FreeEntry(key) =>
      s.(operators := map k | k in s.operators && k != key :: s.operators[k],
         freed := s.freed + multiset{s.operators[key]})
  }

  const INITIAL: State := State(map[], map[], map[], multiset{}, {}, false)

  /** What each step does, and that it does nothing else. */
  lemma StepMeans(s: State, a: Action)
    requires Enabled(s, a)
    ensures match a
            case Look(t, request) =>
              var key := Identity(request);
              if key in s.operators then Step(s, a) == s.(answers := s.answers + {Answer(request, s.operators[key])})
              else Step(s, a) == s.(phases := s.phases[t := Building(request)])
            case FailToBuild(t) => Step(s, a) == s.(phases := s.phases[t := Idle])
            case Build(t, handle) =>
              var request := s.phases[t].request;
              Step(s, a) == s.(phases := s.phases[t := Holding(request, handle)], origin := s.origin[handle := Origin(request, t)])
            case Publish(t) =>
              var request, built := s.phases[t].request, s.phases[t].handle;
              var key := Identity(request);
              if key in s.operators then
                Step(s, a) == s.(phases := s.phases[t := Idle], freed := s.freed + multiset{built},
                                 answers := s.answers + {Answer(request, s.operators[key])})
              else
                Step(s, a) == s.(phases := s.phases[t := Idle], operators := s.operators[key := built],
                                 answers := s.answers + {Answer(request, built)})
            case BeginDestruction => Step(s, a) == s.(closing := true)
            case FreeEntry(key) =>
              Step(s, a) == s.(operators := s.operators - {key}, freed := s.freed + multiset{s.operators[key]})
  {
    hide Identity;
  }

  /** A thread that asks gets an answer, whatever the others have done: with at most three steps of
      its own, if the build succeeds. */
  lemma EveryCallCanBeAnswered(s: State, t: Thread, r: Request, next: Handle) returns (actions: seq<Action>, h: Handle)
    requires !s.closing && PhaseOf(s, t) == Idle && Buildable(r) && next !in s.origin
    ensures |actions| <= 3 && CanRun(s, actions) && Answer(r, h) in Run(s, actions).answers
    ensures h == if Identity(r) in s.operators then s.operators[Identity(r)] else next
  {
    hide Identity, Buildable;
    var look := Look(t, r);
    var s1 := Step(s, look);
    if Identity(r) in s.operators {
      actions, h := [look], s.operators[Identity(r)];
      assert actions[1..] == [];
    } else {
      var build, publish := Build(t, next), Action.Publish(t);
      var s2 := Step(s1, build);
      var s3 := Step(s2, publish);
      actions, h := [look, build, publish], next;
      assert actions[1..] == [build, publish] && actions[1..][1..] == [publish] && [publish][1..] == [];
      assert CanRun(s2, [publish]) && Run(s2, [publish]) == s3;
      assert CanRun(s1, [build, publish]) && Run(s1, [build, publish]) == s3;
    }
  }

  // ---- The invariant ----

  ghost predicate Held(s: State, h: Handle)
    requires h in s.origin
  {
    PhaseOf(s, s.origin[h].builder) == Holding(s.origin[h].request, h)
  }

  ghost predicate Cached(s: State, h: Handle)
    requires h in s.origin
  {
    Find(s.operators, Identity(s.origin[h].request)) == Some(h)
  }

  /** How many owners an operator has: its builder, the cache, and every call that freed it. */
  ghost function Custody(s: State, h: Handle): nat
    requires h in s.origin
  {
    (if Held(s, h) then 1 else 0) + (if Cached(s, h) then 1 else 0) + s.freed[h]
  }

  ghost predicate EntriesKnown(s: State)
  {
    forall k :: k in s.operators ==>
      s.operators[k] in s.origin && Identity(s.origin[s.operators[k]].request) == k
  }

  ghost predicate HoldersKnown(s: State)
  {
    forall t :: t in s.phases && s.phases[t].Holding? ==>
      s.phases[t].handle in s.origin && s.origin[s.phases[t].handle] == Origin(s.phases[t].request, t)
  }

  ghost predicate HandlesKnown(s: State)
  {
    EntriesKnown(s) && HoldersKnown(s) && forall h :: h in s.freed ==> h in s.origin
  }

  ghost predicate OriginsBuildable(s: State)
  {
    forall h :: h in s.origin ==> Buildable(s.origin[h].request)
  }

  ghost predicate OneOwner(s: State)
  {
    forall h :: h in s.origin ==> Custody(s, h) == 1
  }

  ghost predicate AnswersKnown(s: State)
  {
    forall a :: a in s.answers ==>
      && a.handle in s.origin
      && Identity(s.origin[a.handle].request) == Identity(a.request)
      && (!s.closing ==> Find(s.operators, Identity(a.request)) == Some(a.handle))
  }

  ghost predicate AnswersAgree(s: State)
  {
    forall a, b :: a in s.answers && b in s.answers && Identity(a.request) == Identity(b.request) ==>
      a.handle == b.handle
  }

  ghost predicate QuietWhenClosing(s: State)
  {
    s.closing ==> forall t :: t in s.phases ==> s.phases[t] == Idle
  }

  ghost predicate Inv(s: State)
  {
    HandlesKnown(s) && OriginsBuildable(s) && OneOwner(s) && AnswersKnown(s) && AnswersAgree(s) && QuietWhenClosing(s)
  }

  lemma InitialInv()
    ensures Inv(INITIAL)
  {
  }

  lemma StepKeepsEntries(s: State, a: Action)
    requires EntriesKnown(s) && HoldersKnown(s) && Enabled(s, a)
    ensures EntriesKnown(Step(s, a))
  {
    hide Identity;
  }

  lemma StepKeepsHolders(s: State, a: Action)
    requires HoldersKnown(s) && Enabled(s, a)
    ensures HoldersKnown(Step(s, a))
  {
    hide Identity;
  }

  lemma StepKeepsHandles(s: State, a: Action)
    requires HandlesKnown(s) && Enabled(s, a)
    ensures HandlesKnown(Step(s, a))
  {
    hide Identity;
    StepKeepsEntries(s, a);
    StepKeepsHolders(s, a);
    var s' := Step(s, a);
    assert forall h :: h in s'.freed ==> h in s'.origin;
  }

  lemma StepKeepsOrigins(s: State, a: Action)
    requires OriginsBuildable(s) && Enabled(s, a)
    ensures OriginsBuildable(Step(s, a))
  {
    hide Identity, Buildable;
  }

  lemma StepKeepsOwners(s: State, a: Action, h: Handle)
    requires HandlesKnown(s) && OneOwner(s) && Enabled(s, a) && (a.Look? || a.FailToBuild? || a.BeginDestruction?)
    requires h in Step(s, a).origin
    ensures Custody(Step(s, a), h) == 1
  {
    hide Identity;
    assert Step(s, a).operators == s.operators && Step(s, a).freed == s.freed && Step(s, a).origin == s.origin;
    assert Custody(s, h) == 1;
  }

  /** Building gives an operator its first owner. */
  lemma BuildKeepsOwners(s: State, a: Action, h: Handle)
    requires HandlesKnown(s) && OneOwner(s) && Enabled(s, a) && a.Build? && h in Step(s, a).origin
    ensures Custody(Step(s, a), h) == 1
  {
    hide Identity, Buildable;
    assert h in s.origin ==> Custody(s, h) == 1;
  }

  /** Publishing hands an operator from its builder to the cache, or frees it. */
  lemma PublishKeepsOwners(s: State, a: Action, h: Handle)
    requires HandlesKnown(s) && OneOwner(s) && Enabled(s, a) && a.Publish? && h in Step(s, a).origin
    ensures Custody(Step(s, a), h) == 1
  {
    hide Identity;
    assert Custody(s, h) == 1;
  }

  /** The destructor takes an operator out of the cache and frees it. */
  lemma FreeEntryKeepsOwners(s: State, a: Action, h: Handle)
    requires HandlesKnown(s) && OneOwner(s) && Enabled(s, a) && a.FreeEntry? && h in Step(s, a).origin
    ensures Custody(Step(s, a), h) == 1
  {
    hide Identity;
    assert Custody(s, h) == 1;
  }

  lemma StepKeepsAnswers(s: State, a: Action)
    requires HandlesKnown(s) && AnswersKnown(s) && Enabled(s, a)
    ensures AnswersKnown(Step(s, a))
  {
    hide Identity, Buildable;
  }

  lemma StepKeepsQuiet(s: State, a: Action)
    requires QuietWhenClosing(s) && Enabled(s, a)
    ensures QuietWhenClosing(Step(s, a))
  {
    hide Identity;
  }

  /** A new answer agrees with the old ones, since each of them still stands in the cache. */
  lemma StepKeepsAgreement(s: State, a: Action)
    requires AnswersKnown(s) && AnswersAgree(s) && QuietWhenClosing(s) && Enabled(s, a)
    ensures AnswersAgree(Step(s, a))
  {
    hide Identity;
  }

  lemma StepKeepsInv(s: State, a: Action)
    requires Inv(s) && Enabled(s, a)
    ensures Inv(Step(s, a))
  {
    hide HandlesKnown, OriginsBuildable, AnswersKnown, AnswersAgree, QuietWhenClosing, Custody, Step, Enabled;
    StepKeepsHandles(s, a);
    StepKeepsOrigins(s, a);
    StepKeepsAnswers(s, a);
    StepKeepsQuiet(s, a);
    StepKeepsAgreement(s, a);
    forall h | h in Step(s, a).origin ensures Custody(Step(s, a), h) == 1 {
      if a.Publish? {
        PublishKeepsOwners(s, a, h);
      } else if a.FreeEntry? {
        FreeEntryKeepsOwners(s, a, h);
      } else if a.Build? {
        BuildKeepsOwners(s, a, h);
      } else {
        StepKeepsOwners(s, a, h);
      }
    }
  }

  // ---- Whole runs ----

  ghost predicate CanRun(s: State, actions: seq<Action>)
    decreases |actions|
  {
    actions != [] ==> Enabled(s, actions[0]) && CanRun(Step(s, actions[0]), actions[1..])
  }

  ghost function Run(s: State, actions: seq<Action>): State
    requires CanRun(s, actions)
    decreases |actions|
  {
    if actions == [] then s else Run(Step(s, actions[0]), actions[1..])
  }

  lemma {:induction false} RunKeepsInv(s: State, actions: seq<Action>)
    requires Inv(s) && CanRun(s, actions)
    ensures Inv(Run(s, actions))
    decreases |actions|
  {
    if actions != [] {
      StepKeepsInv(s, actions[0]);
      RunKeepsInv(Step(s, actions[0]), actions[1..]);
    }
  }

  /** Until the destructor runs, a published key is never bound to another handle; no answer is
      ever taken back, and no operator forgotten. */
  ghost predicate Stable(s: State, later: State)
  {
    && (s.closing ==> later.closing)
    && (!later.closing ==> forall k :: k in s.operators ==> Find(later.operators, k) == Some(s.operators[k]))
    && s.answers <= later.answers
    && (forall h :: h in s.origin ==> h in later.origin && later.origin[h] == s.origin[h])
  }

  lemma StepIsStable(s: State, a: Action)
    requires Enabled(s, a)
    ensures Stable(s, Step(s, a))
  {
    hide Identity;
  }

  lemma {:induction false} BindingsAreStable(s: State, actions: seq<Action>)
    requires CanRun(s, actions)
    ensures Stable(s, Run(s, actions))
    decreases |actions|
  {
    hide Step;
    if actions != [] {
      StepIsStable(s, actions[0]);
      BindingsAreStable(Step(s, actions[0]), actions[1..]);
    }
  }

  /** On every run, callers whose requests have one key get one handle. */
  lemma SameKeySameHandle(actions: seq<Action>, a: Answer, b: Answer)
    requires CanRun(INITIAL, actions)
    requires a in Run(INITIAL, actions).answers && b in Run(INITIAL, actions).answers
    requires Identity(a.request) == Identity(b.request)
    ensures a.handle == b.handle
  {
    hide Identity;
    InitialInv();
    RunKeepsInv(INITIAL, actions);
  }

  /** At every moment of every run each operator built has exactly one owner. */
  lemma ExactlyOneOwner(actions: seq<Action>, h: Handle)
    requires CanRun(INITIAL, actions) && h in Run(INITIAL, actions).origin
    ensures Custody(Run(INITIAL, actions), h) == 1
  {
    hide Identity;
    InitialInv();
    RunKeepsInv(INITIAL, actions);
  }

  /** No handle a caller has received is freed before the destructor begins. */
  lemma AnswersStayAlive(actions: seq<Action>, a: Answer)
    requires CanRun(INITIAL, actions)
    requires a in Run(INITIAL, actions).answers && !Run(INITIAL, actions).closing
    ensures a.handle !in Run(INITIAL, actions).freed
  {
    hide Identity;
    var s := Run(INITIAL, actions);
    InitialInv();
    RunKeepsInv(INITIAL, actions);
    assert Custody(s, a.handle) == 1;
  }

  /** Once the destructor is through, what has been freed is what has been built, once each. */
  lemma AllFreedInTheEnd(actions: seq<Action>)
    requires CanRun(INITIAL, actions)
    requires Run(INITIAL, actions).closing && Run(INITIAL, actions).operators == map[]
    ensures Run(INITIAL, actions).freed == multiset(Run(INITIAL, actions).origin.Keys)
  {
    hide Identity;
    var s := Run(INITIAL, actions);
    InitialInv();
    RunKeepsInv(INITIAL, actions);
    forall h ensures s.freed[h] == multiset(s.origin.Keys)[h] {
      if h in s.origin {
        assert Custody(s, h) == 1 && !Held(s, h) && !Cached(s, h);
      }
    }
  }

  /** The cache agrees with building fresh: a request that does not imitate a frame, and whose keys
      give the boundary between configuration and options away, gets an operator that was built
      from that very request, in the namespace a fresh build would have used. Nothing is assumed
      of what the other threads ask for. */
  lemma AnswerWasBuiltForRequest(actions: seq<Action>, a: Answer)
    requires CanRun(INITIAL, actions) && a in Run(INITIAL, actions).answers
    requires Unspoofed(a.request) && Marked(a.request, Sectioned)
    ensures var s := Run(INITIAL, actions);
            a.handle in s.origin && s.origin[a.handle].request == a.request
            && Namespace(s.origin[a.handle].request) == Namespace(a.request)
  {
    hide Identity, Namespace, Marked, Run, CanRun, Values, Contains;
    var s := Run(INITIAL, actions);
    InitialInv();
    RunKeepsInv(INITIAL, actions);
    var built := s.origin[a.handle].request;
    UnspoofedKeyDecodes(a.request, built);
    MarkedIsUnique(a.request, built, Sectioned);
  }

  /** The condition is exact: without it some run hands the request an operator that was built
      from another one. */
  lemma UnmarkedGetsAnother(r: Request) returns (actions: seq<Action>, a: Answer)
    requires PipeFree(r) && Buildable(r) && !Marked(r, Sectioned)
    ensures CanRun(INITIAL, actions) && a in Run(INITIAL, actions).answers && a.request == r
    ensures a.handle in Run(INITIAL, actions).origin && Run(INITIAL, actions).origin[a.handle].request != r
  {
    hide Identity, Marked;
    var q := Unmarked(r, Sectioned);
    a := Answer(r, 0);
    actions := [Look(0, q), Build(0, 0), Action.Publish(0), Look(0, r)];
    assert Buildable(q);
    OneBuildTwoAnswers(q, r);
  }

  lemma OneBuildTwoAnswers(q: Request, r: Request)
    requires Buildable(q) && Identity(q) == Identity(r)
    ensures var actions := [Look(0, q), Build(0, 0), Action.Publish(0), Look(0, r)];
            && CanRun(INITIAL, actions)
            && Answer(r, 0) in Run(INITIAL, actions).answers
            && 0 in Run(INITIAL, actions).origin && Run(INITIAL, actions).origin[0].request == q
  {
    hide Identity, Buildable;
    var actions := [Look(0, q), Build(0, 0), Action.Publish(0), Look(0, r)];
    var s1 := Step(INITIAL, actions[0]);
    var s2 := Step(s1, actions[1]);
    var s3 := Step(s2, actions[2]);
    var s4 := Step(s3, actions[3]);
    assert actions[1..][0] == actions[1] && actions[1..][1..] == actions[2..];
    assert actions[2..][0] == actions[2] && actions[2..][1..] == actions[3..];
    assert actions[3..][0] == actions[3] && actions[3..][1..] == [];
    assert CanRun(s3, actions[3..]) && Run(s3, actions[3..]) == s4;
    assert CanRun(s2, actions[2..]) && Run(s2, actions[2..]) == s4;
    assert CanRun(s1, actions[1..]) && Run(s1, actions[1..]) == s4;
  }
}
