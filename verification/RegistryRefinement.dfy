/** The handlers of RegistrySafety, cut into locked calls, do what the handlers of Registry do in
    one piece: whenever the CatchB thread is between messages, both have the same registry, and
    their analyzer lists hold the same IDs. */
module RegistryRefinement {
  import opened Sequences
  import opened Names
  import R = Registry
  import S = RegistrySafety

  /** The message whose effect a step settles, and the database's answer to it. A create is settled
      when its row is inserted, everything else when its handler starts. */
  ghost function Settled(s: S.State, step: S.Step): Option<(R.Msg, bool)> {
    match step
    case Begin(CreateReq(id)) =>
      if FirstWhere(s.registry, R.WithId(id)) < |s.registry| then Some((R.Create(id), true)) else None
    case Begin(DeleteReq(id)) => Some((R.Delete(id), true))
    case Begin(FoundReq(id)) => Some((R.Found(id), true))
    case Begin(RemovedReq(id)) => Some((R.Removed(id), true))
    case Begin(HashReq(id, dbOk)) => Some((R.SetHash(id), dbOk))
    case Advance(ok) => if s.handler.Inserting? then Some((R.Create(s.handler.c.id), ok)) else None
    case Analyze(_) => None
  }

  /** Posting and handling that message. */
  ghost function Turn(s: S.State, step: S.Step): seq<R.Step> {
    match Settled(s, step)
    case None => []
    case Some((m, ok)) => [R.Post(m), R.Handle(ok)]
  }

  ghost function Turns(s: S.State, steps: seq<S.Step>): seq<R.Step>
    requires S.Runs(s, steps)
    decreases |steps|
  {
    if steps == [] then [] else Turn(s, steps[0]) + Turns(S.Apply(s, steps[0]), steps[1..])
  }

  /** An insert succeeds only for a key the table does not have. */
  ghost predicate KeyFree(w: R.World, s: S.State, step: S.Step) {
    s.handler.Inserting? && step == S.Advance(true) ==> s.handler.c.id !in w.db
  }

  ghost predicate KeysFree(w: R.World, s: S.State, steps: seq<S.Step>)
    requires S.Runs(s, steps)
    decreases |steps|
  {
    steps != [] ==>
      && KeyFree(w, s, steps[0])
      && KeysFree(R.Run(w, Turn(s, steps[0])), S.Apply(s, steps[0]), steps[1..])
  }

  // ---- What is still under way ----

  ghost function With(ids: set<R.Id>, id: R.Id): set<R.Id> {
    if exists e :: e in ids && SameIgnoringCase(e, id) then ids else ids + {id}
  }

  ghost function Without(ids: set<R.Id>, id: R.Id): set<R.Id> {
    set e | e in ids && !SameIgnoringCase(e, id)
  }

  /** The registry as the handler will leave it. */
  ghost predicate RegistryMatches(s: S.State, w: R.World) {
    match s.handler
    case Made(c, found) =>
      if found then w.registry == s.registry + [c]
      else w.registry == s.registry && c == R.Cctv(c.id, w.made) && c.id !in R.Ids(w.registry)
    case Inserting(c) => s.registry == w.registry + [c] && c == R.Cctv(c.id, w.made) && c.id !in R.Ids(w.registry)
    case DeleteWait(c) => w.registry == S.Unregistered(s.registry, c)
    case DeleteHold(c) => w.registry == S.Unregistered(s.registry, c)
    case DeleteUnregister(c) => w.registry == S.Unregistered(s.registry, c)
    case RemovedUnregister(c) => w.registry == S.Unregistered(s.registry, c)
    case _ => w.registry == s.registry
  }

  ghost function AnalyzerAfter(s: S.State): set<R.Id> {
    var ids := Elements(s.analyzer);
    match s.handler
    case Made(c, found) => if found then With(ids, c.id) else ids
    case AttachWait(c) => With(ids, c.id)
    case AttachHold(c) => With(ids, c.id)
    case DeleteWait(c) => Without(ids, c.id)
    case DeleteHold(c) => Without(ids, c.id)
    case RemovedUnregister(c) => Without(ids, c.id)
    case RemovedWait(c) => Without(ids, c.id)
    case RemovedHold(c) => Without(ids, c.id)
    case _ => ids
  }

  ghost predicate Matches(s: S.State, w: R.World) {
    && w.queue == [] && R.CaseDistinctList(s.analyzer) && R.CaseDistinctList(w.analyzer)
    && RegistryMatches(s, w) && Elements(w.analyzer) == AnalyzerAfter(s)
    && s.made == w.made + if (s.handler.Made? && !s.handler.found) || s.handler.Inserting? then 1 else 0
  }

  // ---- Lists as sets of IDs ----

  lemma AttachedSet(list: seq<R.Id>, id: R.Id)
    requires R.CaseDistinctList(list)
    ensures R.CaseDistinctList(R.Attached(list, id))
    ensures Elements(R.Attached(list, id)) == With(Elements(list), id)
  {
    R.AttachedKeepsCaseDistinct(list, id);
    var k := FirstWhere(list, R.Resembles(id));
    if k < |list| {
      assert R.Resembles(id)(list[k]) && list[k] in Elements(list);
    } else {
      forall e | e in Elements(list) ensures !SameIgnoringCase(e, id) {
        var i :| 0 <= i < |list| && list[i] == e;
        assert !R.Resembles(id)(list[i]);
      }
    }
  }

  lemma DetachedSet(list: seq<R.Id>, id: R.Id)
    requires R.CaseDistinctList(list)
    ensures R.CaseDistinctList(R.Detached(list, id))
    ensures Elements(R.Detached(list, id)) == Without(Elements(list), id)
  {
    var k := FirstWhere(list, R.Resembles(id));
    var r := R.Detached(list, id);
    if k < |list| {
      assert R.Resembles(id)(list[k]);
      forall i | 0 <= i < |list| && i != k ensures list[i] in r && !SameIgnoringCase(list[i], id) {
        assert r[if i < k then i else i - 1] == list[i];
      }
      forall i | 0 <= i < |r| ensures r[i] in Without(Elements(list), id) {
        assert r[i] == list[if i < k then i else i + 1];
      }
    } else {
      forall i | 0 <= i < |list| ensures !SameIgnoringCase(list[i], id) {
        assert !R.Resembles(id)(list[i]);
      }
    }
  }

  lemma RotatedSet(list: seq<R.Id>)
    requires list != [] && R.CaseDistinctList(list)
    ensures R.CaseDistinctList(list[1..] + [list[0]]) && Elements(list[1..] + [list[0]]) == Elements(list)
  {
  }

  /** The object found under an ID is the first entry that is that object. */
  lemma UnregisteredFound(registry: seq<R.Cctv>, id: R.Id)
    ensures var k := FirstWhere(registry, R.WithId(id));
            k < |registry| ==> registry[k].id == id && S.Unregistered(registry, registry[k]) == RemovedAt(registry, k)
  {
    var k := FirstWhere(registry, R.WithId(id));
    if k < |registry| {
      assert R.WithId(id)(registry[k]);
      forall i | 0 <= i < k ensures registry[i] != registry[k] {
        assert !R.WithId(id)(registry[i]);
      }
      FirstWhereIs(registry, (d: R.Cctv) => d == registry[k], k);
    }
  }

  lemma UnregisteredLast(registry: seq<R.Cctv>, c: R.Cctv)
    requires c.id !in R.Ids(registry)
    ensures S.Unregistered(registry + [c], c) == registry
  {
    forall i | 0 <= i < |registry| ensures registry[i] != c {
      assert R.Ids(registry)[i] == registry[i].id;
    }
    FirstWhereIs(registry + [c], (d: R.Cctv) => d == c, |registry|);
    assert RemovedAt(registry + [c], |registry|) == registry;
  }

  // ---- One step ----

  lemma TurnHandles(w: R.World, m: R.Msg, ok: bool)
    requires w.queue == []
    ensures R.Run(w, [R.Post(m), R.Handle(ok)]) == R.Handled(w, m, ok)
  {
    var steps := [R.Post(m), R.Handle(ok)];
    var posted := R.Apply(w, R.Post(m));
    assert posted.queue == [m] && posted.queue[1..] == [] && posted.(queue := []) == w;
    assert steps[1..] == [R.Handle(ok)] && steps[1..][1..] == [];
    assert R.Run(w, steps) == R.Run(posted, steps[1..]) == R.Run(R.Apply(posted, R.Handle(ok)), steps[1..][1..]);
  }

  lemma BeginMatches(s: S.State, w: R.World, request: S.Request)
    requires Matches(s, w) && s.handler == S.Idle
    ensures Matches(S.Begun(s, request), R.Run(w, Turn(s, S.Begin(request))))
  {
    match Settled(s, S.Begin(request))
    case None =>
    case Some((m, ok)) =>
      TurnHandles(w, m, ok);
      match request {
        case FoundReq(id) => AttachedSet(w.analyzer, id);
        case HashReq(id, _) => AttachedSet(w.analyzer, id);
        case DeleteReq(id) => LeaverMatches(s, w, request);
        case RemovedReq(id) => LeaverMatches(s, w, request);
        case CreateReq(_) =>
      }
  }

  lemma LeaverMatches(s: S.State, w: R.World, request: S.Request)
    requires Matches(s, w) && s.handler == S.Idle && (request.DeleteReq? || request.RemovedReq?)
    ensures var m := if request.DeleteReq? then R.Delete(request.id) else R.Removed(request.id);
            Matches(S.Begun(s, request), R.Handled(w, m, true))
  {
    UnregisteredFound(s.registry, request.id);
    DetachedSet(w.analyzer, request.id);
  }

  lemma AdvanceMatches(s: S.State, w: R.World, ok: bool)
    requires Matches(s, w) && s.handler != S.Idle && KeyFree(w, s, S.Advance(ok))
    ensures Matches(S.Advanced(s, ok), R.Run(w, Turn(s, S.Advance(ok))))
  {
    match s.handler
    case Inserting(_) => InsertMatches(s, w, ok);
    case AttachHold(c) => AttachedSet(s.analyzer, c.id);
    case DeleteHold(c) => DetachedSet(s.analyzer, c.id);
    case RemovedHold(c) => DetachedSet(s.analyzer, c.id);
    case _ =>
  }

  lemma InsertMatches(s: S.State, w: R.World, ok: bool)
    requires Matches(s, w) && s.handler.Inserting? && KeyFree(w, s, S.Advance(ok))
    ensures Matches(S.Advanced(s, ok), R.Run(w, Turn(s, S.Advance(ok))))
  {
    var c := s.handler.c;
    R.RegisteredIff(w, c.id);
    AttachedSet(w.analyzer, c.id);
    UnregisteredLast(w.registry, c);
    TurnHandles(w, R.Create(c.id), ok);
  }

  lemma StepMatches(s: S.State, w: R.World, step: S.Step)
    requires Matches(s, w) && S.Enabled(s, step) && KeyFree(w, s, step)
    ensures Matches(S.Apply(s, step), R.Run(w, Turn(s, step)))
  {
    match step
    case Begin(request) => BeginMatches(s, w, request);
    case Advance(ok) => AdvanceMatches(s, w, ok);
    case Analyze(ok) => AnalyzeMatches(s, w, ok);
  }

  lemma AnalyzeMatches(s: S.State, w: R.World, ok: bool)
    requires Matches(s, w)
    ensures Matches(S.Analyzed(s, ok), w)
  {
    var s' := S.Analyzed(s, ok);
    if s.analyzer != [] {
      RotatedSet(s.analyzer);
    }
    assert s' == s.(analyzer := s'.analyzer, owner := s'.owner, look := s'.look);
    assert R.CaseDistinctList(s'.analyzer) && Elements(s'.analyzer) == Elements(s.analyzer);
    assert RegistryMatches(s', w) && AnalyzerAfter(s') == AnalyzerAfter(s);
  }

  // ---- Runs ----

  lemma {:induction false} RunJoins(w: R.World, a: seq<R.Step>, b: seq<R.Step>)
    ensures R.Run(w, a + b) == R.Run(R.Run(w, a), b)
    decreases |a|
  {
    if a == [] {
      assert a + b == b;
    } else {
      assert (a + b)[1..] == a[1..] + b;
      RunJoins(R.Apply(w, a[0]), a[1..], b);
    }
  }

  lemma {:induction false} RunMatches(s: S.State, w: R.World, steps: seq<S.Step>)
    requires Matches(s, w) && S.Runs(s, steps) && KeysFree(w, s, steps)
    ensures Matches(S.After(s, steps), R.Run(w, Turns(s, steps)))
    decreases |steps|
  {
    if steps == [] {
    } else {
      var turn := Turn(s, steps[0]);
      StepMatches(s, w, steps[0]);
      RunMatches(S.Apply(s, steps[0]), R.Run(w, turn), steps[1..]);
      RunJoins(w, turn, Turns(S.Apply(s, steps[0]), steps[1..]));
    }
  }

  /** Over every interleaving of the handlers' steps with the analyzer's: whenever the CatchB thread
      is idle, its registry and the IDs on the analyzer's list are those that handling the messages
      settled so far, one at a time, makes of the same table. */
  lemma HandlersAreAtomic(db: seq<R.Id>, steps: seq<S.Step>)
    requires var w := R.World([], [], db, [], 0);
             S.Runs(S.Initial(), steps) && KeysFree(w, S.Initial(), steps)
    ensures var s := S.After(S.Initial(), steps);
            var w := R.Run(R.World([], [], db, [], 0), Turns(S.Initial(), steps));
            s.handler == S.Idle ==>
              s.registry == w.registry && Elements(s.analyzer) == Elements(w.analyzer) && s.made == w.made
  {
    RunMatches(S.Initial(), R.World([], [], db, [], 0), steps);
  }

  // ---- Agreement at the finer grain ----

  /** A FOUND message handled takes its ID off the announced ones. */
  ghost function Unannounced(step: S.Step, pending: seq<R.Id>): seq<R.Id> {
    if step.Begin? && step.request.FoundReq? then R.Without(pending, step.request.id) else pending
  }

  ghost function StillPending(steps: seq<S.Step>, pending: seq<R.Id>): seq<R.Id>
    decreases |steps|
  {
    if steps == [] then pending else StillPending(steps[1..], Unannounced(steps[0], pending))
  }

  /** Created IDs come from ids, found ones from those announced, and no check is asked for. */
  ghost predicate Requested(step: S.Step, ids: set<R.Id>, pending: seq<R.Id>) {
    step.Begin? ==> match step.request
      case CreateReq(id) => id in ids
      case FoundReq(id) => id in pending
      case RemovedReq(_) => false
      case _ => true
  }

  ghost predicate AllRequested(steps: seq<S.Step>, ids: set<R.Id>, pending: seq<R.Id>)
    decreases |steps|
  {
    steps != [] ==>
      Requested(steps[0], ids, pending) && AllRequested(steps[1..], ids, Unannounced(steps[0], pending))
  }

  /** Agreement between messages, with the given IDs still announced. */
  ghost predicate Announced(w: R.World, ids: set<R.Id>, pending: seq<R.Id>) {
    && w.queue == [] && R.CaseDistinct(ids) && Elements(w.db) <= ids
    && R.SameElements(R.Ids(w.registry) + pending, w.db) && R.SameElements(w.analyzer, R.Ids(w.registry))
  }

  lemma FoundsPending(db: seq<R.Id>, m: R.Msg)
    ensures R.Pending([m] + R.Loaded(db).queue) == (if m.Found? then [m.id] else []) + db
  {
    R.LoadedPending(db);
    assert ([m] + R.Loaded(db).queue)[1..] == R.Loaded(db).queue;
  }

  /** Taking one announced ID to the front of those announced. */
  lemma ToFront(r: seq<R.Id>, pending: seq<R.Id>, id: R.Id)
    requires Distinct(r + pending) && id in pending
    ensures Distinct(r + ([id] + R.Without(pending, id)))
    ensures Elements(r + ([id] + R.Without(pending, id))) == Elements(r + pending)
  {
    var front := [id] + R.Without(pending, id);
    assert forall i :: 0 <= i < |r| ==> (r + pending)[i] == r[i];
    assert forall i :: 0 <= i < |pending| ==> (r + pending)[|r| + i] == pending[i];
    R.WithoutElements(pending, id);
    R.ElementsConcat(r, pending);
    R.ElementsConcat([id], R.Without(pending, id));
    assert id !in Elements(R.Without(pending, id)) && Elements(front) == Elements(pending);
    R.DisjointConcat(r, front);
  }

  lemma HandledAnnounced(w: R.World, m: R.Msg, ok: bool, ids: set<R.Id>, pending: seq<R.Id>)
    requires Announced(w, ids, pending) && !m.CheckNew? && !m.Removed?
    requires m.Create? ==> m.id in ids
    requires m.Found? ==> m.id in pending
    ensures Announced(R.Handled(w, m, ok), ids, if m.Found? then R.Without(pending, m.id) else pending)
  {
    var later := if m.Found? then R.Without(pending, m.id) else pending;
    var rest := R.Loaded(later).queue;
    var queued := w.(queue := [m] + rest);
    QueuedSound(w, m, ids, pending, later);
    R.HandleKeepsSound(queued, ok, ids);
    assert queued.queue[1..] == rest;
    assert R.HandleHead(queued, ok) == R.Handled(w, m, ok).(queue := rest);
    R.LoadedPending(later);
  }

  /** The announced IDs as FOUND messages behind the one to be handled. */
  lemma QueuedSound(w: R.World, m: R.Msg, ids: set<R.Id>, pending: seq<R.Id>, later: seq<R.Id>)
    requires Announced(w, ids, pending) && !m.CheckNew? && !m.Removed?
    requires m.Create? ==> m.id in ids
    requires m.Found? ==> m.id in pending
    requires later == if m.Found? then R.Without(pending, m.id) else pending
    ensures R.Sound(w.(queue := [m] + R.Loaded(later).queue), ids)
  {
    FoundsPending(later, m);
    if m.Found? {
      ToFront(R.Ids(w.registry), pending, m.id);
    } else {
      assert [] + later == pending;
    }
  }

  lemma {:induction false} RunKeepsAnnounced(
      s: S.State, w: R.World, steps: seq<S.Step>, ids: set<R.Id>, pending: seq<R.Id>)
    requires Announced(w, ids, pending) && S.Runs(s, steps) && AllRequested(steps, ids, pending)
    requires (s.handler.Made? && !s.handler.found) || s.handler.Inserting? ==> s.handler.c.id in ids
    ensures Announced(R.Run(w, Turns(s, steps)), ids, StillPending(steps, pending))
    decreases |steps|
  {
    if steps == [] {
    } else {
      var turn := Turn(s, steps[0]);
      var w' := R.Run(w, turn);
      match Settled(s, steps[0]) {
        case None =>
        case Some((m, ok)) =>
          TurnHandles(w, m, ok);
          HandledAnnounced(w, m, ok, ids, pending);
      }
      RunKeepsAnnounced(S.Apply(s, steps[0]), w', steps[1..], ids, Unannounced(steps[0], pending));
      RunJoins(w, turn, Turns(S.Apply(s, steps[0]), steps[1..]));
    }
  }

  /** From start-up over any table, over every interleaving of discoveries, creates (rolled back or
      not), deletes, hash updates and the analyzer's passes: whenever the CatchB thread is idle, the
      registered IDs with those still announced are the rows, without duplicates, and the analyzer
      lists exactly the registered ones. */
  lemma IdleAgreement(db: seq<R.Id>, steps: seq<S.Step>, ids: set<R.Id>)
    requires Distinct(db) && Elements(db) <= ids && R.CaseDistinct(ids) && AllRequested(steps, ids, db)
    requires S.Runs(S.Initial(), steps) && KeysFree(R.World([], [], db, [], 0), S.Initial(), steps)
    ensures var s := S.After(S.Initial(), steps);
            var rows := R.Run(R.World([], [], db, [], 0), Turns(S.Initial(), steps)).db;
            s.handler == S.Idle ==>
              && R.SameElements(R.Ids(s.registry) + StillPending(steps, db), rows)
              && R.SameElements(s.analyzer, R.Ids(s.registry))
  {
    var w := R.World([], [], db, [], 0);
    RunMatches(S.Initial(), w, steps);
    R.LoadedSound(db, ids);
    R.LoadedPending(db);
    RunKeepsAnnounced(S.Initial(), w, steps, ids, db);
    R.CaseDistinctListElements(S.After(S.Initial(), steps).analyzer);
  }
}
