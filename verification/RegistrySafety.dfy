/** The CatchB thread and the analyzer thread between their locked calls. The analyzer's list is
    only touched under the analyzer's lock; the registry is not under that lock, so the analyzer's
    lookups may fall between any two steps of a handler. */
module RegistrySafety {
  import opened Sequences
  import opened Registry

  datatype Owner = Nobody | CatchBThread | AnalyzerThread

  /** Where the CatchB thread stands in the handler it is executing for camera object c. */
  datatype Handler =
    | Idle
    | Made(c: Cctv, found: bool)       // created, not yet in the registry
    | Inserting(c: Cctv)               // in the registry, the row about to be inserted
    | AttachWait(c: Cctv)
    | AttachHold(c: Cctv)
    | DeleteWait(c: Cctv)
    | DeleteHold(c: Cctv)
    | DeleteUnregister(c: Cctv)        // detached, about to leave the registry
    | RemovedUnregister(c: Cctv)       // about to leave the registry, still attached
    | RemovedWait(c: Cctv)
    | RemovedHold(c: Cctv)
    | Destroying(c: Cctv)

  /** Where the analyzer thread stands in one pass. */
  datatype Look =
    | Away
    | Entered                          // holds the analyzer's lock
    | Head(id: Id)                     // has read the head of its list
    | Holding(c: Cctv)                 // holds the camera's lock as well
    | Missed(id: Id)                   // the lookup failed

  datatype State = State(
    registry: seq<Cctv>, analyzer: seq<Id>, live: set<Cctv>, made: nat,
    owner: Owner, handler: Handler, look: Look)

  /** dbOk is whether the database takes the new hash. */
  datatype Request =
    | CreateReq(id: Id)
    | DeleteReq(id: Id)
    | FoundReq(id: Id)
    | RemovedReq(id: Id)
    | HashReq(id: Id, dbOk: bool)

  /** ok is what the database or the timer answers, where the step asks. */
  datatype Step = Begin(request: Request) | Advance(ok: bool) | Analyze(ok: bool)

  function Initial(): State {
    State([], [], {}, 0, Nobody, Idle, Away)
  }

  ghost predicate Enabled(s: State, step: Step) {
    match step
    case Begin(_) => s.handler == Idle
    case Advance(_) =>
      s.handler != Idle
      && (s.handler.AttachWait? || s.handler.DeleteWait? || s.handler.RemovedWait? ==> s.owner == Nobody)
    case Analyze(_) => s.look == Away ==> s.owner == Nobody
  }

  /** The first step of a handler: the registry lookup, and for a new camera its creation. */
  ghost function Begun(s: State, request: Request): State {
    var k := FirstWhere(s.registry, WithId(request.id));
    var c := Cctv(request.id, s.made);
    if request.CreateReq? && k == |s.registry| then
      s.(live := s.live + {c}, made := s.made + 1, handler := Made(c, false))
    else if request.FoundReq? then
      s.(live := s.live + {c}, made := s.made + 1, handler := Made(c, true))
    else if k == |s.registry| || request.CreateReq? then s
    else
      var known := s.registry[k];
      match request
      case DeleteReq(_) => s.(handler := DeleteWait(known))
      case RemovedReq(_) => s.(handler := RemovedUnregister(known))
      case HashReq(_, dbOk) => if dbOk then s.(handler := AttachWait(known)) else s
      case _ => s
  }

  ghost function Unregistered(registry: seq<Cctv>, c: Cctv): seq<Cctv> {
    var k := FirstWhere(registry, (d: Cctv) => d == c);
    if k < |registry| then RemovedAt(registry, k) else registry
  }

  ghost function Advanced(s: State, ok: bool): State
    requires s.handler != Idle
  {
    var c := s.handler.c;
    match s.handler
    case Made(_, found) =>
      s.(registry := s.registry + [c], handler := if found then AttachWait(c) else Inserting(c))
    case Inserting(_) =>
      if ok then s.(handler := AttachWait(c))
      else s.(registry := Unregistered(s.registry, c), handler := Destroying(c))
    case AttachWait(_) => s.(owner := CatchBThread, handler := AttachHold(c))
    case AttachHold(_) => s.(analyzer := Attached(s.analyzer, c.id), owner := Nobody, handler := Idle)
    case DeleteWait(_) => s.(owner := CatchBThread, handler := DeleteHold(c))
    case DeleteHold(_) => s.(analyzer := Detached(s.analyzer, c.id), owner := Nobody, handler := DeleteUnregister(c))
    case DeleteUnregister(_) => s.(registry := Unregistered(s.registry, c), handler := Destroying(c))
    case RemovedUnregister(_) => s.(registry := Unregistered(s.registry, c), handler := RemovedWait(c))
    case RemovedWait(_) => s.(owner := CatchBThread, handler := RemovedHold(c))
    case RemovedHold(_) => s.(analyzer := Detached(s.analyzer, c.id), owner := Nobody, handler := Destroying(c))
    case Destroying(_) => s.(live := s.live - {c}, handler := Idle)
  }

  ghost function Analyzed(s: State, ok: bool): State {
    match s.look
    case Away => s.(owner := AnalyzerThread, look := Entered)
    case Entered =>
      if s.analyzer == [] then s.(owner := Nobody, look := Away) else s.(look := Head(s.analyzer[0]))
    case Head(id) =>
      var k := FirstWhere(s.registry, WithId(id));
      s.(look := if k < |s.registry| then Holding(s.registry[k]) else Missed(id))
    case Holding(c) =>
      // the timer has expired: analyse, then move the head to the end
      s.(analyzer := if ok && s.analyzer != [] then s.analyzer[1..] + [s.analyzer[0]] else s.analyzer,
         owner := Nobody, look := Away)
    case Missed(_) => s.(owner := Nobody, look := Away)
  }

  ghost function Apply(s: State, step: Step): State
    requires Enabled(s, step)
  {
    match step
    case Begin(request) => Begun(s, request)
    case Advance(ok) => Advanced(s, ok)
    case Analyze(ok) => Analyzed(s, ok)
  }

  ghost predicate Runs(s: State, steps: seq<Step>)
    decreases |steps|
  {
    steps != [] ==> Enabled(s, steps[0]) && Runs(Apply(s, steps[0]), steps[1..])
  }

  ghost function After(s: State, steps: seq<Step>): State
    requires Runs(s, steps)
    decreases |steps|
  {
    if steps == [] then s else After(Apply(s, steps[0]), steps[1..])
  }

  // ---- The invariant ----

  /** The camera whose ID the analyzer may still list although it has left the registry. */
  ghost predicate Leaving(h: Handler, id: Id) {
    (h.RemovedWait? || h.RemovedHold?) && h.c.id == id
  }

  /** The handler is past the point after which, or before the point until which, the analyzer must
      not list its camera. */
  ghost predicate Unattached(h: Handler) {
    (h.Made? && !h.found) || h.Inserting? || h.DeleteUnregister? || h.Destroying?
  }

  ghost predicate Invariant(s: State) {
    && (forall i, j :: 0 <= i < j < |s.registry| ==> s.registry[i] != s.registry[j])
    && (forall c :: c in s.registry ==> c in s.live)
    && (forall c :: c in s.live ==> c.serial < s.made)
    && CaseDistinctList(s.analyzer)
    // every listed ID names a registered camera, but for the one a removal is taking away
    && (forall e :: e in s.analyzer ==> e in Ids(s.registry) || Leaving(s.handler, e))
    && (Unattached(s.handler) ==> s.handler.c.id !in s.analyzer)
    && (s.handler != Idle ==> s.handler.c in s.live)
    && (s.handler.Made? || s.handler.RemovedWait? || s.handler.RemovedHold? || s.handler.Destroying?
        ==> s.handler.c !in s.registry)
    && (s.handler.Inserting? || s.handler.AttachWait? || s.handler.AttachHold? ==> s.handler.c in s.registry)
    // the lock
    && (s.owner == CatchBThread <==> s.handler.AttachHold? || s.handler.DeleteHold? || s.handler.RemovedHold?)
    && (s.owner == AnalyzerThread <==> s.look != Away)
    // what the analyzer has in hand
    && (s.look.Head? ==> s.look.id in s.analyzer)
    && (s.look.Holding? ==> s.look.c in s.live && s.look.c.id in s.analyzer)
    && (s.look.Missed? ==> s.look.id in s.analyzer)
  }

  lemma NamedIff(registry: seq<Cctv>, id: Id)
    ensures var k := FirstWhere(registry, WithId(id));
            && (k < |registry| <==> id in Ids(registry))
            && (k < |registry| ==> registry[k].id == id && registry[k] in registry)
  {
  }

  /** Taking one object out leaves every other object, hence every other object's ID. */
  lemma UnregisteredKeeps(registry: seq<Cctv>, c: Cctv)
    requires forall i, j :: 0 <= i < j < |registry| ==> registry[i] != registry[j]
    ensures var r := Unregistered(registry, c);
            && (forall i, j :: 0 <= i < j < |r| ==> r[i] != r[j])
            && (forall d :: d in r <==> d in registry && d != c)
            && (forall e :: e in Ids(registry) && e != c.id ==> e in Ids(r))
  {
    var k := FirstWhere(registry, (d: Cctv) => d == c);
    var r := Unregistered(registry, c);
    if k < |registry| {
      assert registry[k] == c;
      forall i | 0 <= i < |registry| && i != k ensures registry[i] in r && registry[i].id in Ids(r) {
        var j := if i < k then i else i - 1;
        assert r[j] == registry[i] && Ids(r)[j] == registry[i].id;
      }
    }
    forall e | e in Ids(registry) && e != c.id ensures e in Ids(r) {
      var i :| 0 <= i < |registry| && Ids(registry)[i] == e;
      assert registry[i] in r;
      var j :| 0 <= j < |r| && r[j] == registry[i];
      assert Ids(r)[j] == e;
    }
  }

  lemma IdsAppend(registry: seq<Cctv>, c: Cctv)
    ensures forall e :: e in Ids(registry + [c]) <==> e in Ids(registry) || e == c.id
  {
    assert Ids(registry + [c]) == Ids(registry) + [c.id];
  }

  lemma MemberId(registry: seq<Cctv>, c: Cctv)
    requires c in registry
    ensures c.id in Ids(registry)
  {
  }

  lemma BeginKeepsInvariant(s: State, request: Request)
    requires Invariant(s) && s.handler == Idle
    ensures Invariant(Begun(s, request))
  {
    NamedIff(s.registry, request.id);
    if request.CreateReq? || request.FoundReq? {
      MakingKeepsInvariant(s, request.id, request.FoundReq?);
    }
  }

  /** A new object is nobody's yet: only a discovery may make one of a listed ID. */
  lemma MakingKeepsInvariant(s: State, id: Id, found: bool)
    requires Invariant(s) && s.handler == Idle
    ensures found || id !in Ids(s.registry) ==>
              var c := Cctv(id, s.made);
              Invariant(s.(live := s.live + {c}, made := s.made + 1, handler := Made(c, found)))
  {
  }

  lemma AnalyzeKeepsInvariant(s: State, ok: bool)
    requires Invariant(s) && Enabled(s, Analyze(ok))
    ensures Invariant(Analyzed(s, ok))
  {
    match s.look
    case Head(id) =>
      NamedIff(s.registry, id);
    case Holding(c) =>
      if ok && s.analyzer != [] {
        var r := s.analyzer[1..] + [s.analyzer[0]];
        assert forall e :: e in r <==> e in s.analyzer;
      }
    case _ =>
  }

  lemma LeaveKeepsInvariant(s: State, ok: bool)
    requires Invariant(s)
    requires s.handler.Inserting? || s.handler.DeleteUnregister? || s.handler.RemovedUnregister?
    ensures Invariant(Advanced(s, ok))
  {
    var c := s.handler.c;
    UnregisteredKeeps(s.registry, c);
    if c in s.registry {
      MemberId(s.registry, c);
    }
    if s.handler.RemovedUnregister? {
      assert Leaving(Advanced(s, ok).handler, c.id);
    } else {
      assert Unattached(s.handler) && c.id !in s.analyzer;
    }
  }

  lemma AttachKeepsInvariant(s: State, ok: bool)
    requires Invariant(s) && s.handler.AttachHold?
    ensures Invariant(Advanced(s, ok))
  {
  }

  lemma DetachKeepsInvariant(s: State, ok: bool)
    requires Invariant(s) && (s.handler.DeleteHold? || s.handler.RemovedHold?)
    ensures Invariant(Advanced(s, ok))
  {
  }

  lemma AdvanceKeepsInvariant(s: State, ok: bool)
    requires Invariant(s) && Enabled(s, Advance(ok))
    ensures Invariant(Advanced(s, ok))
  {
    match s.handler
    case Made(c, found) =>
      IdsAppend(s.registry, c);
    case Inserting(_) => LeaveKeepsInvariant(s, ok);
    case DeleteUnregister(_) => LeaveKeepsInvariant(s, ok);
    case RemovedUnregister(_) => LeaveKeepsInvariant(s, ok);
    case AttachHold(_) => AttachKeepsInvariant(s, ok);
    case DeleteHold(_) => DetachKeepsInvariant(s, ok);
    case RemovedHold(_) => DetachKeepsInvariant(s, ok);
    case _ =>
  }

  lemma StepKeepsInvariant(s: State, step: Step)
    requires Invariant(s) && Enabled(s, step)
    ensures Invariant(Apply(s, step))
  {
    match step
    case Begin(request) => BeginKeepsInvariant(s, request);
    case Advance(ok) => AdvanceKeepsInvariant(s, ok);
    case Analyze(ok) => AnalyzeKeepsInvariant(s, ok);
  }

  lemma {:induction false} RunKeepsInvariant(s: State, steps: seq<Step>)
    requires Invariant(s) && Runs(s, steps)
    ensures Invariant(After(s, steps))
    decreases |steps|
  {
    if steps == [] {
    } else {
      StepKeepsInvariant(s, steps[0]);
      RunKeepsInvariant(Apply(s, steps[0]), steps[1..]);
    }
  }

  // ---- What it buys ----

  /** At every interleaving point of every run: the camera the analyzer has locked is alive, and is
      not the one a handler is about to destroy. */
  lemma LockedCameraSurvives(steps: seq<Step>)
    requires Runs(Initial(), steps)
    ensures var s := After(Initial(), steps);
            s.look.Holding? ==> s.look.c in s.live && s.handler != Destroying(s.look.c)
  {
    RunKeepsInvariant(Initial(), steps);
  }

  /** The analyzer's head lookup fails only in the window in which a removal handler has
      unregistered that camera and not yet detached it. */
  lemma LookupFailsOnlyDuringRemoval(steps: seq<Step>)
    requires Runs(Initial(), steps)
    ensures var s := After(Initial(), steps);
            s.look.Head? ==>
              (s.look.id in Ids(s.registry) || (s.handler.RemovedWait? && s.handler.c.id == s.look.id))
  {
    RunKeepsInvariant(Initial(), steps);
  }

  // ---- When exactly a lookup fails ----

  /** A discovery is only announced for an ID that is not registered. */
  ghost predicate NewFound(s: State, step: Step) {
    step.Begin? && step.request.FoundReq? ==> step.request.id !in Ids(s.registry)
  }

  ghost predicate FoundsNew(s: State, steps: seq<Step>)
    requires Runs(s, steps)
    decreases |steps|
  {
    steps != [] ==> NewFound(s, steps[0]) && FoundsNew(Apply(s, steps[0]), steps[1..])
  }

  /** No ID is registered twice, and the one a handler is bringing in or has taken out is not
      registered at all. */
  ghost predicate Once(s: State) {
    && Distinct(Ids(s.registry))
    && (s.handler.Made? || s.handler.RemovedWait? || s.handler.RemovedHold? ==> s.handler.c.id !in Ids(s.registry))
    && (s.handler.RemovedUnregister? ==> s.handler.c in s.registry)
  }

  lemma UnregisteredOnce(registry: seq<Cctv>, c: Cctv)
    requires Distinct(Ids(registry))
    ensures Distinct(Ids(Unregistered(registry, c)))
    ensures c in registry ==> c.id !in Ids(Unregistered(registry, c))
  {
    var k := FirstWhere(registry, (d: Cctv) => d == c);
    if k < |registry| {
      assert registry[k] == c && Ids(registry)[k] == c.id;
      IdsWithoutOne(registry, k);
      RemovedElements(Ids(registry), k);
      assert c.id !in Elements(Ids(Unregistered(registry, c)));
    }
  }

  lemma StepKeepsOnce(s: State, step: Step)
    requires Once(s) && Enabled(s, step) && NewFound(s, step)
    ensures Once(Apply(s, step))
  {
    match step
    case Begin(request) =>
      NamedIff(s.registry, request.id);
    case Advance(ok) =>
      UnregisteredOnce(s.registry, s.handler.c);
      if s.handler.Made? {
        assert Ids(s.registry + [s.handler.c]) == Ids(s.registry) + [s.handler.c.id];
      }
    case Analyze(_) =>
  }

  lemma {:induction false} RunKeepsOnce(s: State, steps: seq<Step>)
    requires Once(s) && Runs(s, steps) && FoundsNew(s, steps)
    ensures Once(After(s, steps))
    decreases |steps|
  {
    if steps == [] {
    } else {
      StepKeepsOnce(s, steps[0]);
      RunKeepsOnce(Apply(s, steps[0]), steps[1..]);
    }
  }

  /** While discoveries are only announced for unregistered IDs, the head lookup fails exactly in
      the window in which the removal handler has unregistered that ID and not yet got the
      analyzer's lock to detach it. */
  lemma LookupFailsIff(steps: seq<Step>)
    requires Runs(Initial(), steps) && FoundsNew(Initial(), steps)
    ensures var s := After(Initial(), steps);
            s.look.Head? ==>
              (s.look.id !in Ids(s.registry) <==> s.handler.RemovedWait? && s.handler.c.id == s.look.id)
  {
    RunKeepsInvariant(Initial(), steps);
    RunKeepsOnce(Initial(), steps);
  }

  ghost predicate NoRemovals(steps: seq<Step>) {
    forall i :: 0 <= i < |steps| ==> !(steps[i].Begin? && steps[i].request.RemovedReq?)
  }

  ghost predicate InRemoval(h: Handler) {
    h.RemovedUnregister? || h.RemovedWait? || h.RemovedHold?
  }

  ghost predicate Undisturbed(s: State) {
    Invariant(s) && !InRemoval(s.handler) && !s.look.Missed?
  }

  lemma StepUndisturbed(s: State, step: Step)
    requires Undisturbed(s) && Enabled(s, step) && !(step.Begin? && step.request.RemovedReq?)
    ensures Undisturbed(Apply(s, step))
  {
    StepKeepsInvariant(s, step);
    if step.Analyze? && s.look.Head? {
      NamedIff(s.registry, s.look.id);
    }
  }

  lemma {:induction false} RunUndisturbed(s: State, steps: seq<Step>)
    requires Undisturbed(s) && Runs(s, steps) && NoRemovals(steps)
    ensures Undisturbed(After(s, steps))
    decreases |steps|
  {
    if steps == [] {
    } else {
      StepUndisturbed(s, steps[0]);
      assert NoRemovals(steps[1..]);
      RunUndisturbed(Apply(s, steps[0]), steps[1..]);
    }
  }

  /** In runs of creates (rolled back or not), deletes, discoveries and hash updates, every listed
      ID names a registered, live camera at every point, so no lookup ever fails. */
  lemma ListedIsRegistered(steps: seq<Step>)
    requires Runs(Initial(), steps) && NoRemovals(steps)
    ensures var s := After(Initial(), steps);
            && (forall e :: e in s.analyzer ==> exists c :: c in s.registry && c.id == e && c in s.live)
            && !s.look.Missed?
  {
    RunUndisturbed(Initial(), steps);
    var s := After(Initial(), steps);
    forall e | e in s.analyzer ensures exists c :: c in s.registry && c.id == e && c in s.live {
      var i :| 0 <= i < |s.registry| && Ids(s.registry)[i] == e;
      assert s.registry[i] in s.registry;
    }
  }

  // ---- The window is real ----

  lemma {:induction false} RunExtend(s: State, steps: seq<Step>, step: Step)
    requires Runs(s, steps) && Enabled(After(s, steps), step)
    ensures Runs(s, steps + [step]) && After(s, steps + [step]) == Apply(After(s, steps), step)
    decreases |steps|
  {
    if steps == [] {
      assert [step][1..] == [];
    } else {
      RunExtend(Apply(s, steps[0]), steps[1..], step);
      assert (steps + [step])[1..] == steps[1..] + [step];
    }
  }

  ghost predicate Reachable(s: State) {
    exists steps :: Runs(Initial(), steps) && After(Initial(), steps) == s
  }

  lemma Then(s: State, step: Step) returns (s': State)
    requires Reachable(s) && Enabled(s, step)
    ensures Reachable(s') && s' == Apply(s, step)
  {
    var steps :| Runs(Initial(), steps) && After(Initial(), steps) == s;
    RunExtend(Initial(), steps, step);
    s' := Apply(s, step);
  }

  /** A discovered camera, registered and attached. */
  lemma OneCamera() returns (s: State)
    ensures Reachable(s) && s == State([Cctv("cam", 0)], ["cam"], {Cctv("cam", 0)}, 1, Nobody, Idle, Away)
  {
    var none: seq<Step> := [];
    assert Runs(Initial(), none) && After(Initial(), none) == Initial();
    var c := Cctv("cam", 0);
    s := Then(Initial(), Begin(FoundReq("cam")));
    assert s == State([], [], {c}, 1, Nobody, Made(c, true), Away);
    s := Then(s, Advance(true));
    assert s == State([c], [], {c}, 1, Nobody, AttachWait(c), Away);
    s := Then(s, Advance(true));
    assert s == State([c], [], {c}, 1, CatchBThread, AttachHold(c), Away);
    s := Then(s, Advance(true));
    assert Attached([], "cam") == ["cam"];
  }

  lemma RemovalBegun() returns (s: State)
    ensures var c := Cctv("cam", 0);
            Reachable(s) && s == State([c], ["cam"], {c}, 1, Nobody, RemovedUnregister(c), Away)
  {
    s := OneCamera();
    FirstWhereIs([Cctv("cam", 0)], WithId("cam"), 0);
    s := Then(s, Begin(RemovedReq("cam")));
  }

  /** The removal handler between its two steps. */
  lemma HalfRemoved() returns (s: State)
    ensures Reachable(s)
    ensures s == State([], ["cam"], {Cctv("cam", 0)}, 1, Nobody, RemovedWait(Cctv("cam", 0)), Away)
  {
    s := RemovalBegun();
    OnlyOneUnregistered(Cctv("cam", 0));
    s := Then(s, Advance(true));
  }

  lemma OnlyOneUnregistered(c: Cctv)
    ensures Unregistered([c], c) == []
  {
  }

  /** The removal handler unregisters first and detaches second; an analysis pass in between
      misses. The delete handler, which detaches first, leaves no such window. */
  lemma RemovalCanMakeLookupFail() returns (s: State)
    ensures Reachable(s) && s.look == Missed("cam")
  {
    s := HalfRemoved();
    s := Then(s, Analyze(true));
    s := Then(s, Analyze(true));
    s := Then(s, Analyze(true));
  }
}
