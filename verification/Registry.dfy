/** Cameras known to three places: the registry and the message queue of lib/ftm_catchb.c, the
    list of the analyzer (lib/ftm_analyzer.c), and the database table. Handlers run one at a time
    on the CatchB thread; other threads post messages and rotate the analyzer's list. */
module Registry {
  import opened Sequences
  import opened Names

  type Id = string

  /** serial tells two camera objects with the same ID apart. */
  datatype Cctv = Cctv(id: Id, serial: nat)

  datatype Msg = Create(id: Id) | Delete(id: Id) | Found(id: Id) | Removed(id: Id) | SetHash(id: Id) | CheckNew

  datatype World = World(registry: seq<Cctv>, analyzer: seq<Id>, db: seq<Id>, queue: seq<Msg>, made: nat)

  function WithId(id: Id): Cctv -> bool {
    (c: Cctv) => c.id == id
  }

  /** The analyzer's seeker ignores case, the registry's does not. */
  function Resembles(id: Id): Id -> bool {
    (e: Id) => SameIgnoringCase(e, id)
  }

  function Ids(registry: seq<Cctv>): (ids: seq<Id>)
    ensures |ids| == |registry| && forall i :: 0 <= i < |ids| ==> ids[i] == registry[i].id
  {
    seq(|registry|, i requires 0 <= i < |registry| => registry[i].id)
  }

  function Attached(analyzer: seq<Id>, id: Id): seq<Id> {
    if FirstWhere(analyzer, Resembles(id)) < |analyzer| then analyzer else analyzer + [id]
  }

  ghost function Detached(analyzer: seq<Id>, id: Id): seq<Id> {
    var k := FirstWhere(analyzer, Resembles(id));
    if k < |analyzer| then RemovedAt(analyzer, k) else analyzer
  }

  function Without(db: seq<Id>, id: Id): seq<Id> {
    if db == [] then [] else (if db[0] == id then [] else [db[0]]) + Without(db[1..], id)
  }

  ghost function Registered(w: World, id: Id): bool {
    FirstWhere(w.registry, WithId(id)) < |w.registry|
  }

  /** What one handler does to everything but the queue it took the message from. An insert fails
      on a key that is already there, and may fail for other reasons; deletes succeed. */
  ghost function Handled(w: World, m: Msg, dbOk: bool): World {
    match m
    case Create(id) =>
      if Registered(w, id) then w
      else if !dbOk || id in w.db then w.(made := w.made + 1)
      else w.(registry := w.registry + [Cctv(id, w.made)], made := w.made + 1,
              db := w.db + [id], analyzer := Attached(w.analyzer, id))
    case Delete(id) =>
      if !Registered(w, id) then w
      else w.(registry := RemovedAt(w.registry, FirstWhere(w.registry, WithId(id))),
              db := Without(w.db, id), analyzer := Detached(w.analyzer, id))
    case Found(id) =>
      w.(registry := w.registry + [Cctv(id, w.made)], made := w.made + 1, analyzer := Attached(w.analyzer, id))
    case Removed(id) =>
      if !Registered(w, id) then w
      else w.(registry := RemovedAt(w.registry, FirstWhere(w.registry, WithId(id))),
              analyzer := Detached(w.analyzer, id))
    case SetHash(id) =>
      if !Registered(w, id) || !dbOk then w else w.(analyzer := Attached(w.analyzer, id))
    case CheckNew =>
      if w.db == [] then w
      else w.(queue := w.queue + Removals(Ids(w.registry), w.db) + Discoveries(w.db, Ids(w.registry)))
  }

  /** One message for each registered ID that has no row any more. */
  ghost function Removals(ids: seq<Id>, db: seq<Id>): seq<Msg> {
    if ids == [] then []
    else (if ids[0] in db then [] else [Removed(ids[0])]) + Removals(ids[1..], db)
  }

  /** One message for each row whose ID is not registered. */
  ghost function Discoveries(db: seq<Id>, ids: seq<Id>): seq<Msg> {
    if db == [] then []
    else (if db[0] in ids then [] else [Found(db[0])]) + Discoveries(db[1..], ids)
  }

  ghost function HandleHead(w: World, dbOk: bool): World {
    if w.queue == [] then w else Handled(w.(queue := w.queue[1..]), w.queue[0], dbOk)
  }

  // ---- Agreement over runs of found, create, delete, hash and check ----

  datatype Step = Post(m: Msg) | Handle(dbOk: bool) | Rotate

  ghost function Apply(w: World, step: Step): World {
    match step
    case Post(m) => w.(queue := w.queue + [m])
    case Handle(dbOk) => HandleHead(w, dbOk)
    case Rotate => if w.analyzer == [] then w else w.(analyzer := w.analyzer[1..] + [w.analyzer[0]])
  }

  ghost function Run(w: World, steps: seq<Step>): World
    decreases |steps|
  {
    if steps == [] then w else Run(Apply(w, steps[0]), steps[1..])
  }

  /** The IDs of the FOUND messages still queued. */
  ghost function Pending(queue: seq<Msg>): seq<Id> {
    if queue == [] then []
    else (if queue[0].Found? then [queue[0].id] else []) + Pending(queue[1..])
  }

  ghost predicate SameElements<T>(s: seq<T>, t: seq<T>) {
    Distinct(s) && Distinct(t) && Elements(s) == Elements(t)
  }

  /** Registered IDs and IDs still to be found are together exactly the rows, without duplicates,
      and the analyzer's list holds exactly the registered IDs. */
  ghost predicate Agree(w: World) {
    && SameElements(Ids(w.registry) + Pending(w.queue), w.db)
    && SameElements(w.analyzer, Ids(w.registry))
  }

  /** No two of these IDs differ only by case. */
  ghost predicate CaseDistinct(ids: set<Id>) {
    forall a, b :: a in ids && b in ids && SameIgnoringCase(a, b) ==> a == b
  }

  ghost predicate OnlyCreatesFrom(queue: seq<Msg>, ids: set<Id>) {
    forall m :: m in queue ==> match m
      case Create(id) => id in ids
      case Removed(_) => false
      case _ => true
  }

  lemma RegisteredIff(w: World, id: Id)
    ensures Registered(w, id) <==> id in Ids(w.registry)
  {
  }

  /** An ID joins the list exactly if no ID on it is the same up to case. */
  lemma AttachedIff(analyzer: seq<Id>, id: Id)
    ensures Attached(analyzer, id) ==
            if exists e :: e in analyzer && SameIgnoringCase(e, id) then analyzer else analyzer + [id]
  {
    var k := FirstWhere(analyzer, Resembles(id));
    assert forall i :: 0 <= i < k ==> !Resembles(id)(analyzer[i]);
    assert k < |analyzer| ==> Resembles(id)(analyzer[k]) && analyzer[k] in analyzer;
  }

  /** What leaves the list is the first ID that is the same up to case; without one, nothing does. */
  lemma DetachedIff(analyzer: seq<Id>, id: Id, k: nat)
    requires k <= |analyzer| && forall j :: 0 <= j < k ==> !SameIgnoringCase(analyzer[j], id)
    requires k < |analyzer| ==> SameIgnoringCase(analyzer[k], id)
    ensures Detached(analyzer, id) == if k < |analyzer| then analyzer[..k] + analyzer[k + 1..] else analyzer
  {
    FirstWhereIs(analyzer, Resembles(id), k);
  }

  lemma AttachedElements(analyzer: seq<Id>, id: Id, ids: set<Id>)
    requires Distinct(analyzer) && id !in analyzer && CaseDistinct(ids) && id in ids && Elements(analyzer) <= ids
    ensures Attached(analyzer, id) == analyzer + [id]
    ensures Distinct(Attached(analyzer, id)) && Elements(Attached(analyzer, id)) == Elements(analyzer) + {id}
  {
  }

  lemma DetachedElements(analyzer: seq<Id>, id: Id, ids: set<Id>)
    requires Distinct(analyzer) && id in analyzer && CaseDistinct(ids) && Elements(analyzer) <= ids
    ensures Distinct(Detached(analyzer, id)) && Elements(Detached(analyzer, id)) == Elements(analyzer) - {id}
  {
  }

  lemma {:induction false} WithoutElements(db: seq<Id>, id: Id)
    requires Distinct(db)
    ensures Distinct(Without(db, id)) && Elements(Without(db, id)) == Elements(db) - {id}
  {
    if db == [] {
    } else {
      var r := Without(db[1..], id);
      WithoutElements(db[1..], id);
      HeadOff(db);
      if db[0] == id {
        assert [] + r == r;
      } else {
        ElementsConcat([db[0]], r);
        assert db[0] !in Elements(r);
      }
    }
  }

  lemma HeadOff<T>(s: seq<T>)
    requires s != [] && Distinct(s)
    ensures Distinct(s[1..]) && s[0] !in s[1..] && Elements(s) == {s[0]} + Elements(s[1..])
  {
    assert s == [s[0]] + s[1..];
  }

  lemma IdsRemoved(registry: seq<Cctv>, id: Id)
    requires FirstWhere(registry, WithId(id)) < |registry|
    ensures var k := FirstWhere(registry, WithId(id));
            Ids(registry)[k] == id && Ids(RemovedAt(registry, k)) == RemovedAt(Ids(registry), k)
  {
    var k := FirstWhere(registry, WithId(id));
    assert WithId(id)(registry[k]);
    IdsWithoutOne(registry, k);
  }

  lemma IdsWithoutOne(registry: seq<Cctv>, k: nat)
    requires k < |registry|
    ensures Ids(RemovedAt(registry, k)) == RemovedAt(Ids(registry), k)
  {
  }

  ghost predicate Sound(w: World, ids: set<Id>) {
    && Agree(w) && CaseDistinct(ids) && Elements(w.db) <= ids && OnlyCreatesFrom(w.queue, ids)
  }

  lemma ElementsConcat<T>(s: seq<T>, t: seq<T>)
    ensures Elements(s + t) == Elements(s) + Elements(t)
  {
  }

  lemma FoundKeepsAgreement(w: World, id: Id, ids: set<Id>)
    requires w.queue != [] && w.queue[0] == Found(id) && Sound(w, ids)
    ensures Agree(Handled(w.(queue := w.queue[1..]), Found(id), true))
  {
    var r, p := Ids(w.registry), Pending(w.queue[1..]);
    var w' := Handled(w.(queue := w.queue[1..]), Found(id), true);
    assert Pending(w.queue) == [id] + p;
    assert Ids(w'.registry) == r + [id];
    assert (r + [id]) + p == r + ([id] + p);
    var all := r + ([id] + p);
    assert all[|r|] == id && id in Elements(all);
    forall i | 0 <= i < |r| ensures r[i] != id { assert all[i] == r[i]; }
    assert w'.analyzer == Attached(w.analyzer, id);
    assert id !in Elements(w.analyzer);
    AttachedElements(w.analyzer, id, ids);
  }

  /** A create that goes through, when the analyzer takes the new ID on. */
  lemma CreateAgrees(w: World, id: Id)
    requires Agree(w) && w.queue != [] && w.queue[0] == Create(id) && !Registered(w, id) && id !in w.db
    requires Attached(w.analyzer, id) == w.analyzer + [id]
    ensures Agree(HandleHead(w, true))
  {
    var r, p := Ids(w.registry), Pending(w.queue);
    RegisteredIff(w, id);
    var w' := HandleHead(w, true);
    assert Pending(w'.queue) == p && Ids(w'.registry) == r + [id];
    ElementsConcat(r, p);
    assert id !in Elements(w.db) && id !in p && id !in Elements(w.analyzer);
    DistinctInsert(r, p, id);
    ElementsConcat(w.db, [id]);
    ElementsConcat(w.analyzer, [id]);
  }

  lemma CreateKeepsAgreement(w: World, id: Id, dbOk: bool, ids: set<Id>)
    requires w.queue != [] && w.queue[0] == Create(id) && Sound(w, ids)
    ensures Agree(HandleHead(w, dbOk))
  {
    RegisteredIff(w, id);
    assert w.queue[0] in w.queue && id in ids;
    assert Pending(w.queue[1..]) == Pending(w.queue);
    if !Registered(w, id) && dbOk && id !in w.db {
      assert id !in Elements(w.analyzer);
      AttachedElements(w.analyzer, id, ids);
      CreateAgrees(w, id);
    }
  }

  lemma DistinctInsert<T>(s: seq<T>, t: seq<T>, x: T)
    requires Distinct(s + t) && x !in s && x !in t
    ensures Distinct(s + [x] + t) && Distinct(s + [x])
    ensures Elements(s + [x] + t) == Elements(s + t) + {x} && Elements(s + [x]) == Elements(s) + {x}
  {
    var all := s + [x] + t;
    forall i, j | 0 <= i < j < |all| ensures all[i] != all[j] {
      if i < |s| < j {
        assert (s + t)[i] == all[i] && (s + t)[j - 1] == all[j];
      } else if j < |s| {
        assert (s + t)[i] == all[i] && (s + t)[j] == all[j];
      } else if i > |s| {
        assert (s + t)[i - 1] == all[i] && (s + t)[j - 1] == all[j];
      }
    }
    forall i, j | 0 <= i < j < |s + [x]| ensures (s + [x])[i] != (s + [x])[j] {
      assert all[i] == (s + [x])[i] && all[j] == (s + [x])[j];
    }
  }

  /** Unregistering an ID and deleting its row. */
  lemma RowGone(r: seq<Id>, p: seq<Id>, db: seq<Id>, k: nat)
    requires SameElements(r + p, db) && k < |r|
    ensures SameElements(RemovedAt(r, k) + p, Without(db, r[k])) && r[k] in Elements(r)
    ensures Distinct(r) && Distinct(RemovedAt(r, k)) && Elements(RemovedAt(r, k)) == Elements(r) - {r[k]}
  {
    var all := r + p;
    assert all[k] == r[k] && RemovedAt(r, k) + p == RemovedAt(all, k);
    RemovedElements(all, k);
    assert forall i :: 0 <= i < |r| ==> all[i] == r[i];
    RemovedElements(r, k);
    WithoutElements(db, r[k]);
  }

  lemma DeleteKeepsAgreement(w: World, id: Id, ids: set<Id>)
    requires w.queue != [] && w.queue[0] == Delete(id) && Sound(w, ids)
    ensures Agree(Handled(w.(queue := w.queue[1..]), Delete(id), true))
  {
    var r, p := Ids(w.registry), Pending(w.queue);
    RegisteredIff(w, id);
    var w' := Handled(w.(queue := w.queue[1..]), Delete(id), true);
    assert Pending(w'.queue) == p;
    if id in r {
      var k := FirstWhere(w.registry, WithId(id));
      IdsRemoved(w.registry, id);
      RowGone(r, p, w.db, k);
      ElementsConcat(r, p);
      DetachedElements(w.analyzer, id, ids);
    }
  }

  /** Attaching a registered ID again finds it listed. */
  lemma HashKeepsAgreement(w: World, id: Id, dbOk: bool)
    requires w.queue != [] && w.queue[0] == SetHash(id) && Agree(w)
    ensures Agree(HandleHead(w, dbOk)) && HandleHead(w, dbOk) == w.(queue := w.queue[1..])
  {
    RegisteredIff(w, id);
    assert Pending(w.queue[1..]) == Pending(w.queue);
    if Registered(w, id) {
      assert id in Elements(w.analyzer);
      var j :| 0 <= j < |w.analyzer| && w.analyzer[j] == id;
      assert Resembles(id)(w.analyzer[j]);
    }
  }

  lemma {:induction false} PendingConcat(q: seq<Msg>, q': seq<Msg>)
    ensures Pending(q + q') == Pending(q) + Pending(q')
  {
    if q == [] {
      assert q + q' == q';
    } else {
      assert (q + q')[1..] == q[1..] + q';
      PendingConcat(q[1..], q');
      var head := if q[0].Found? then [q[0].id] else [];
      assert head + (Pending(q[1..]) + Pending(q')) == head + Pending(q[1..]) + Pending(q');
    }
  }

  lemma RotateKeepsElements(s: seq<Id>)
    requires s != [] && Distinct(s)
    ensures Distinct(s[1..] + [s[0]]) && Elements(s[1..] + [s[0]]) == Elements(s)
  {
  }

  // ---- Checks while discoveries are pending ----

  /** The rows whose IDs are not registered, in order. */
  ghost function Missing(db: seq<Id>, ids: seq<Id>): seq<Id> {
    if db == [] then [] else (if db[0] in ids then [] else [db[0]]) + Missing(db[1..], ids)
  }

  lemma {:induction false} DiscoveriesPending(db: seq<Id>, ids: seq<Id>)
    ensures Pending(Discoveries(db, ids)) == Missing(db, ids)
    ensures (forall id :: id in db ==> id in ids) ==> Discoveries(db, ids) == []
  {
    if db == [] {
    } else {
      DiscoveriesPending(db[1..], ids);
      var rest := Discoveries(db[1..], ids);
      PendingConcat([Found(db[0])], rest);
      assert Pending([Found(db[0])]) == [db[0]] && [] + rest == rest;
      assert [] + Missing(db[1..], ids) == Missing(db[1..], ids);
    }
  }

  lemma {:induction false} RemovalsPending(ids: seq<Id>, db: seq<Id>)
    ensures Pending(Removals(ids, db)) == []
    ensures (forall id :: id in ids ==> id in db) ==> Removals(ids, db) == []
  {
    if ids == [] {
    } else {
      RemovalsPending(ids[1..], db);
      var rest := Removals(ids[1..], db);
      PendingConcat([Removed(ids[0])], rest);
      assert Pending([Removed(ids[0])]) == [] && [] + rest == rest;
    }
  }

  lemma CheckPending(w: World, dbOk: bool)
    requires w.queue != [] && w.queue[0] == CheckNew
    ensures Pending(HandleHead(w, dbOk).queue) == Pending(w.queue) + Missing(w.db, Ids(w.registry))
  {
    var removals, discoveries := Removals(Ids(w.registry), w.db), Discoveries(w.db, Ids(w.registry));
    assert Pending(w.queue) == Pending(w.queue[1..]);
    if w.db != [] {
      PendingConcat(w.queue[1..] + removals, discoveries);
      PendingConcat(w.queue[1..], removals);
      RemovalsPending(Ids(w.registry), w.db);
      DiscoveriesPending(w.db, Ids(w.registry));
    }
  }

  /** Whatever is pending, a check announces exactly the unregistered rows; those that were pending
      already it announces a second time. */
  lemma CheckAnnouncesIff(w: World, dbOk: bool, id: Id)
    requires w.queue != [] && w.queue[0] == CheckNew && Distinct(w.db)
    ensures var before, after := Pending(w.queue), Pending(HandleHead(w, dbOk).queue);
            && |before| <= |after| && after[..|before|] == before
            && (id in after[|before|..] <==> id in w.db && !Registered(w, id))
  {
    CheckPending(w, dbOk);
    MissingIds(w.db, Ids(w.registry));
    RegisteredIff(w, id);
  }

  /** A check handled in agreement keeps it exactly when no discovery is pending, and then it is
      without effect. */
  lemma CheckAgreesIff(w: World, dbOk: bool)
    requires Agree(w) && w.queue != [] && w.queue[0] == CheckNew
    ensures Agree(HandleHead(w, dbOk)) <==> Pending(w.queue) == []
    ensures Pending(w.queue) == [] ==> HandleHead(w, dbOk) == w.(queue := w.queue[1..])
  {
    if Pending(w.queue) == [] {
      assert Ids(w.registry) + [] == Ids(w.registry);
      NothingToPost(w);
      assert Pending(w.queue[1..]) == [] && w.queue[1..] + [] + [] == w.queue[1..];
      assert HandleHead(w, dbOk) == w.(queue := w.queue[1..]);
    } else {
      RepeatedDiscovery(w, dbOk);
    }
  }

  lemma RepeatedDiscovery(w: World, dbOk: bool)
    requires Agree(w) && w.queue != [] && w.queue[0] == CheckNew && Pending(w.queue) != []
    ensures !Agree(HandleHead(w, dbOk))
  {
    var r, p, missing := Ids(w.registry), Pending(w.queue), Missing(w.db, Ids(w.registry));
    CheckPending(w, dbOk);
    MissingIds(w.db, r);
    assert (r + p)[|r|] == p[0] && p[0] in Elements(r + p);
    forall i | 0 <= i < |r| ensures r[i] != p[0] { assert (r + p)[i] == r[i]; }
    var j :| 0 <= j < |missing| && missing[j] == p[0];
    var all := Ids(HandleHead(w, dbOk).registry) + Pending(HandleHead(w, dbOk).queue);
    assert all == r + (p + missing);
    assert all[|r|] == all[|r| + |p| + j];
  }

  lemma NothingToPost(w: World)
    requires SameElements(Ids(w.registry), w.db)
    ensures Removals(Ids(w.registry), w.db) == [] && Discoveries(w.db, Ids(w.registry)) == []
  {
    var r := Ids(w.registry);
    assert forall id :: id in r <==> id in Elements(r);
    assert forall id :: id in w.db <==> id in Elements(w.db);
    RemovalsPending(r, w.db);
    DiscoveriesPending(w.db, r);
  }

  /** Two checks in a row register every row twice. */
  lemma TwoChecksRegisterTwice(id: Id)
    ensures var w := World([], [], [id], [CheckNew, CheckNew], 0);
            Ids(Run(w, [Handle(true), Handle(true), Handle(true), Handle(true)]).registry) == [id, id]
  {
    var w := World([], [], [id], [CheckNew, CheckNew], 0);
    var w1 := Apply(w, Handle(true));
    assert Discoveries([id], []) == [Found(id)] && w.queue[1..] == [CheckNew];
    assert w1.queue == [CheckNew, Found(id)];
    var w2 := Apply(w1, Handle(true));
    assert w2.queue == [Found(id), Found(id)];
    var w3 := Apply(w2, Handle(true));
    assert w3.registry == [Cctv(id, 0)] && w3.queue == [Found(id)];
    var w4 := Apply(w3, Handle(true));
    assert w4.registry == [Cctv(id, 0), Cctv(id, 1)];
    FourSteps(w, Handle(true));
  }

  lemma FourSteps(w: World, step: Step)
    ensures Run(w, [step, step, step, step]) == Apply(Apply(Apply(Apply(w, step), step), step), step)
  {
    assert [step, step, step, step][1..] == [step, step, step];
    assert [step, step, step][1..] == [step, step];
    assert [step, step][1..] == [step] && [step][1..] == [];
    var w2 := Apply(Apply(w, step), step);
    assert Run(w, [step, step, step, step]) == Run(Apply(w, step), [step, step, step]) == Run(w2, [step, step]);
    assert Run(w2, [step, step]) == Run(Apply(w2, step), [step]) == Run(Apply(Apply(w2, step), step), []);
  }

  // ---- Runs ----

  /** Messages other threads may post: creates, deletes, hash updates and checks, the created IDs
      case-distinct. */
  ghost predicate Allowed(step: Step, ids: set<Id>) {
    step.Post? ==> match step.m
      case Create(id) => id in ids
      case Found(_) => false
      case Removed(_) => false
      case _ => true
  }

  /** The step does not handle a check while a discovery is pending. */
  ghost predicate Quiet(w: World, step: Step) {
    step.Handle? && w.queue != [] && w.queue[0].CheckNew? ==> Pending(w.queue) == []
  }

  ghost predicate ChecksQuiet(w: World, steps: seq<Step>)
    decreases |steps|
  {
    steps != [] ==> Quiet(w, steps[0]) && ChecksQuiet(Apply(w, steps[0]), steps[1..])
  }

  ghost predicate AgreesThroughout(w: World, steps: seq<Step>)
    decreases |steps|
  {
    Agree(w) && (steps != [] ==> AgreesThroughout(Apply(w, steps[0]), steps[1..]))
  }

  lemma StepKeepsSound(w: World, step: Step, ids: set<Id>)
    requires Sound(w, ids) && Allowed(step, ids) && Quiet(w, step)
    ensures Sound(Apply(w, step), ids)
  {
    match step
    case Post(m) =>
      PendingConcat(w.queue, [m]);
      assert Pending(w.queue) + [] == Pending(w.queue);
      assert forall x :: x in w.queue + [m] ==> x in w.queue || x == m;
    case Rotate =>
      if w.analyzer != [] {
        RotateKeepsElements(w.analyzer);
      }
    case Handle(dbOk) =>
      if w.queue != [] {
        HandleKeepsSound(w, dbOk, ids);
      }
  }

  lemma HandleKeepsSound(w: World, dbOk: bool, ids: set<Id>)
    requires Sound(w, ids) && w.queue != [] && Quiet(w, Handle(dbOk))
    ensures Sound(HandleHead(w, dbOk), ids)
  {
    assert w.queue[0] in w.queue;
    assert forall m :: m in w.queue[1..] ==> m in w.queue;
    match w.queue[0]
    case Create(id) =>
      CreateKeepsAgreement(w, id, dbOk, ids);
      ElementsConcat(w.db, [id]);
      assert id in ids;
    case Delete(id) =>
      DeleteKeepsAgreement(w, id, ids);
      WithoutElements(w.db, id);
    case Found(id) =>
      FoundKeepsAgreement(w, id, ids);
    case SetHash(id) =>
      HashKeepsAgreement(w, id, dbOk);
    case CheckNew =>
      CheckAgreesIff(w, dbOk);
  }

  lemma {:induction false} AgreesThroughoutIff(w: World, steps: seq<Step>, ids: set<Id>)
    requires Sound(w, ids) && forall i :: 0 <= i < |steps| ==> Allowed(steps[i], ids)
    ensures AgreesThroughout(w, steps) <==> ChecksQuiet(w, steps)
    decreases |steps|
  {
    if steps == [] {
    } else if Quiet(w, steps[0]) {
      StepKeepsSound(w, steps[0], ids);
      AgreesThroughoutIff(Apply(w, steps[0]), steps[1..], ids);
    } else {
      CheckAgreesIff(w, steps[0].dbOk);
    }
  }

  lemma {:induction false} AgreesAtEnd(w: World, steps: seq<Step>)
    requires AgreesThroughout(w, steps)
    ensures Agree(Run(w, steps))
    decreases |steps|
  {
    if steps == [] {
    } else {
      AgreesAtEnd(Apply(w, steps[0]), steps[1..]);
    }
  }

  lemma {:induction false} UncheckedQuiet(w: World, steps: seq<Step>)
    requires CheckNew !in w.queue && Post(CheckNew) !in steps
    ensures ChecksQuiet(w, steps)
    decreases |steps|
  {
    if steps == [] {
    } else {
      assert w.queue != [] ==> w.queue[0] in w.queue;
      assert steps[0] in steps;
      UncheckedQuiet(Apply(w, steps[0]), steps[1..]);
    }
  }

  /** The state the start-up leaves: nothing registered, one FOUND message per row. */
  ghost function Loaded(db: seq<Id>): World {
    World([], [], db, seq(|db|, i requires 0 <= i < |db| => Found(db[i])), 0)
  }

  lemma {:induction false} LoadedPending(db: seq<Id>)
    ensures Pending(Loaded(db).queue) == db
  {
    if db == [] {
    } else {
      assert Loaded(db).queue[1..] == Loaded(db[1..]).queue;
      LoadedPending(db[1..]);
    }
  }

  lemma LoadedSound(db: seq<Id>, ids: set<Id>)
    requires Distinct(db) && Elements(db) <= ids && CaseDistinct(ids)
    ensures Sound(Loaded(db), ids)
  {
    LoadedPending(db);
    assert Ids([]) + db == db;
  }

  /** From start-up, with the analyzer rotating its list at will: a run of found, create (rolled
      back or not), delete, hash update and check keeps the three places in agreement at every point
      between messages exactly if no check is handled while a discovery is pending. */
  lemma AgreementWithChecksIff(db: seq<Id>, steps: seq<Step>, ids: set<Id>)
    requires Distinct(db) && Elements(db) <= ids && CaseDistinct(ids)
    requires forall i :: 0 <= i < |steps| ==> Allowed(steps[i], ids)
    ensures AgreesThroughout(Loaded(db), steps) <==> ChecksQuiet(Loaded(db), steps)
  {
    LoadedSound(db, ids);
    AgreesThroughoutIff(Loaded(db), steps, ids);
  }

  /** So runs in which nobody asks for a check agree at every point. */
  lemma AgreementOverRuns(db: seq<Id>, steps: seq<Step>, ids: set<Id>)
    requires Distinct(db) && Elements(db) <= ids && CaseDistinct(ids)
    requires Post(CheckNew) !in steps && forall i :: 0 <= i < |steps| ==> Allowed(steps[i], ids)
    ensures Agree(Run(Loaded(db), steps))
  {
    UncheckedQuiet(Loaded(db), steps);
    AgreementWithChecksIff(db, steps, ids);
    AgreesAtEnd(Loaded(db), steps);
  }

  /** Why the IDs must be case-distinct: a create that goes through keeps the agreement exactly
      when no registered ID differs from the new one only by case. */
  lemma CreateAgreesIff(w: World, id: Id)
    requires Agree(w) && w.queue != [] && w.queue[0] == Create(id) && !Registered(w, id) && id !in w.db
    ensures Agree(HandleHead(w, true)) <==> forall e :: e in Ids(w.registry) ==> !SameIgnoringCase(e, id)
  {
    RegisteredIff(w, id);
    if e :| e in Ids(w.registry) && SameIgnoringCase(e, id) {
      CreateDisagrees(w, id, e);
    } else {
      forall i | 0 <= i < |w.analyzer| ensures !Resembles(id)(w.analyzer[i]) {
        assert w.analyzer[i] in Elements(w.analyzer);
      }
      FirstWhereIs(w.analyzer, Resembles(id), |w.analyzer|);
      CreateAgrees(w, id);
    }
  }

  lemma CreateDisagrees(w: World, id: Id, e: Id)
    requires Agree(w) && w.queue != [] && w.queue[0] == Create(id) && !Registered(w, id) && id !in w.db
    requires e in Ids(w.registry) && SameIgnoringCase(e, id)
    ensures !Agree(HandleHead(w, true))
  {
    var r := Ids(w.registry);
    var w' := HandleHead(w, true);
    RegisteredIff(w, id);
    assert e in Elements(w.analyzer);
    var j :| 0 <= j < |w.analyzer| && w.analyzer[j] == e;
    assert Resembles(id)(w.analyzer[j]);
    assert id !in Elements(w'.analyzer);
    assert Ids(w'.registry) == r + [id] && (r + [id])[|r|] == id;
    assert id in Elements(Ids(w'.registry));
  }

  // ---- Reconciliation with the table ----

  /** Handling everything that is queued. Messages of this kind post no others. */
  ghost function Drained(w: World): World
    decreases |w.queue|
  {
    if w.queue == [] || w.queue[0].CheckNew? then w else Drained(HandleHead(w, true))
  }

  /** The analyzer never holds two IDs that differ only by case: attach refuses the second. */
  ghost predicate CaseDistinctList(s: seq<Id>) {
    forall i, j :: 0 <= i < j < |s| ==> !SameIgnoringCase(s[i], s[j])
  }

  /** The registered cameras whose ID is in keep, in order, as the same objects. */
  ghost function Kept(registry: seq<Cctv>, keep: set<Id>): seq<Cctv> {
    if registry == [] then [] else (if registry[0].id in keep then [registry[0]] else []) + Kept(registry[1..], keep)
  }

  lemma AttachedKeepsCaseDistinct(s: seq<Id>, id: Id)
    requires CaseDistinctList(s)
    ensures CaseDistinctList(Attached(s, id))
  {
  }

  lemma DetachedExactly(s: seq<Id>, id: Id)
    requires CaseDistinctList(s) && id in s
    ensures CaseDistinctList(Detached(s, id)) && Elements(Detached(s, id)) == Elements(s) - {id}
  {
  }

  /** The draining of the removals: registry entries without a row go, the others stay as they are. */
  lemma {:induction false} RemovalPhase(w: World, done: seq<Cctv>, rest: seq<Cctv>, found: seq<Msg>)
      returns (analyzer: seq<Id>)
    requires w.registry == done + rest && Distinct(Ids(w.registry))
    requires CaseDistinctList(w.analyzer) && Elements(w.analyzer) == Elements(Ids(w.registry))
    requires w.queue == Removals(Ids(rest), w.db) + found
    ensures var kept := done + Kept(rest, Elements(w.db));
            && Drained(w) == Drained(w.(queue := found, registry := kept, analyzer := analyzer))
            && CaseDistinctList(analyzer) && Elements(analyzer) == Elements(Ids(kept))
    decreases |rest|
  {
    if rest == [] {
      assert done + rest == done && Removals(Ids(rest), w.db) + found == found;
      assert done + Kept(rest, Elements(w.db)) == w.registry;
      analyzer := w.analyzer;
    } else {
      assert Ids(rest)[0] == rest[0].id && Ids(rest)[1..] == Ids(rest[1..]);
      KeptStep(done, rest, Elements(w.db));
      if rest[0].id in w.db {
        assert Removals(Ids(rest), w.db) == Removals(Ids(rest[1..]), w.db);
        analyzer := RemovalPhase(w, done + [rest[0]], rest[1..], found);
      } else {
        var w' := RemoveOne(w, done, rest, found);
        analyzer := RemovalPhase(w', done, rest[1..], found);
        assert w'.(queue := found, registry := done + Kept(rest[1..], Elements(w.db)), analyzer := analyzer)
            == w.(queue := found, registry := done + Kept(rest, Elements(w.db)), analyzer := analyzer);
      }
    }
  }

  lemma KeptStep(done: seq<Cctv>, rest: seq<Cctv>, keep: set<Id>)
    requires rest != []
    ensures done + rest == done + [rest[0]] + rest[1..]
    ensures rest[0].id in keep ==> done + Kept(rest, keep) == done + [rest[0]] + Kept(rest[1..], keep)
    ensures rest[0].id !in keep ==> Kept(rest, keep) == Kept(rest[1..], keep)
  {
    assert rest == [rest[0]] + rest[1..];
    Regroup(done, rest[0], rest[1..]);
    if rest[0].id in keep {
      Regroup(done, rest[0], Kept(rest[1..], keep));
    }
  }

  lemma Regroup<T>(s: seq<T>, x: T, t: seq<T>)
    ensures s + ([x] + t) == s + [x] + t
  {
  }

  lemma RemoveOne(w: World, done: seq<Cctv>, rest: seq<Cctv>, found: seq<Msg>) returns (w': World)
    requires w.registry == done + rest && rest != [] && Distinct(Ids(w.registry)) && rest[0].id !in w.db
    requires CaseDistinctList(w.analyzer) && Elements(w.analyzer) == Elements(Ids(w.registry))
    requires w.queue == Removals(Ids(rest), w.db) + found && Ids(rest)[1..] == Ids(rest[1..])
    ensures Drained(w) == Drained(w')
    ensures w' == w.(queue := w'.queue, registry := done + rest[1..], analyzer := w'.analyzer)
    ensures w'.queue == Removals(Ids(rest[1..]), w.db) + found
    ensures Distinct(Ids(w'.registry)) && CaseDistinctList(w'.analyzer)
    ensures Elements(w'.analyzer) == Elements(Ids(w'.registry))
  {
    var id, k := rest[0].id, |done|;
    w' := HandleHead(w, true);
    assert w.queue[0] == Removed(id) && w.queue[1..] == Removals(Ids(rest[1..]), w.db) + found;
    assert w.registry[k] == rest[0] && Ids(w.registry)[k] == id;
    forall i | 0 <= i < k ensures !WithId(id)(w.registry[i]) {
      assert Ids(w.registry)[i] != Ids(w.registry)[k];
    }
    FirstWhereIs(w.registry, WithId(id), k);
    IdsRemoved(w.registry, id);
    RemovedElements(Ids(w.registry), k);
    assert id in Elements(Ids(w.registry));
    DetachedExactly(w.analyzer, id);
    assert RemovedAt(w.registry, k) == done + rest[1..];
  }

  /** The analyzer holds the registered IDs, and can take on the missing ones. */
  ghost predicate Open(w: World, missing: seq<Id>) {
    && Elements(w.analyzer) == Elements(Ids(w.registry))
    && CaseDistinct(Elements(Ids(w.registry) + missing))
  }

  /** end is w with its queue handled and cameras for the missing IDs added. */
  ghost predicate Discovered(w: World, end: World, missing: seq<Id>, added: seq<Cctv>) {
    && end == World(w.registry + added, end.analyzer, w.db, [], end.made)
    && Ids(added) == missing && (forall c :: c in added ==> c.serial >= w.made)
    && CaseDistinctList(end.analyzer)
    && (Open(w, missing) ==> Open(end, []))
  }

  /** The draining of the discoveries: one new camera for each missing row. The analyzer takes
      them all on if no two rows differ only by case. */
  lemma {:induction false} DiscoveryPhase(w: World, rows: seq<Id>, ids: seq<Id>) returns (added: seq<Cctv>)
    requires w.queue == Discoveries(rows, ids) && CaseDistinctList(w.analyzer)
    requires Distinct(Ids(w.registry) + Missing(rows, ids))
    ensures Discovered(w, Drained(w), Missing(rows, ids), added)
    decreases |rows|
  {
    if rows == [] {
      added := [];
      assert w.registry + [] == w.registry;
    } else if rows[0] in ids {
      assert Discoveries(rows, ids) == Discoveries(rows[1..], ids) && Missing(rows, ids) == Missing(rows[1..], ids);
      added := DiscoveryPhase(w, rows[1..], ids);
    } else {
      var w' := DiscoverOne(w, rows, ids);
      var later := DiscoveryPhase(w', rows[1..], ids);
      added := DiscoveredCons(w, w', Drained(w), rows[0], Missing(rows[1..], ids), later);
      assert Missing(rows, ids) == [rows[0]] + Missing(rows[1..], ids);
    }
  }

  lemma DiscoveredCons(w: World, w': World, end: World, id: Id, missing: seq<Id>, later: seq<Cctv>)
      returns (added: seq<Cctv>)
    requires w'.registry == w.registry + [Cctv(id, w.made)] && w'.made == w.made + 1 && w'.db == w.db
    requires Open(w, [id] + missing) ==> Open(w', missing)
    requires Discovered(w', end, missing, later)
    ensures Discovered(w, end, [id] + missing, added)
  {
    added := [Cctv(id, w.made)] + later;
    assert w'.registry + later == w.registry + added;
    assert Ids(added) == [id] + Ids(later);
  }

  lemma DiscoverOne(w: World, rows: seq<Id>, ids: seq<Id>) returns (w': World)
    requires w.queue == Discoveries(rows, ids) && CaseDistinctList(w.analyzer)
    requires rows != [] && rows[0] !in ids && Distinct(Ids(w.registry) + Missing(rows, ids))
    ensures Drained(w) == Drained(w') && w'.queue == Discoveries(rows[1..], ids)
    ensures w' == w.(queue := w'.queue, registry := w.registry + [Cctv(rows[0], w.made)], made := w.made + 1,
                     analyzer := w'.analyzer)
    ensures Ids(w'.registry) + Missing(rows[1..], ids) == Ids(w.registry) + Missing(rows, ids)
    ensures CaseDistinctList(w'.analyzer)
    ensures Open(w, Missing(rows, ids)) ==> Open(w', Missing(rows[1..], ids))
  {
    var id, r, missing := rows[0], Ids(w.registry), Missing(rows, ids);
    w' := HandleHead(w, true);
    assert w.queue[0] == Found(id) && w.queue[1..] == Discoveries(rows[1..], ids);
    AttachedKeepsCaseDistinct(w.analyzer, id);
    assert Ids(w'.registry) == r + [id];
    assert missing == [id] + Missing(rows[1..], ids);
    assert (r + [id]) + Missing(rows[1..], ids) == r + missing;
    var all := r + missing;
    assert all[|r|] == id && id in Elements(all);
    forall i | 0 <= i < |r| ensures r[i] != id { assert all[i] == r[i]; }
    ElementsConcat(r, [id]);
    ElementsConcat(r, missing);
    if Open(w, missing) {
      OpenAttached(w, id, all);
    }
  }

  lemma OpenAttached(w: World, id: Id, all: seq<Id>)
    requires CaseDistinctList(w.analyzer) && id !in w.analyzer && CaseDistinct(Elements(all)) && id in Elements(all)
    requires Elements(w.analyzer) <= Elements(all)
    ensures Elements(Attached(w.analyzer, id)) == Elements(w.analyzer) + {id}
  {
  }

  // ---- Putting the phases together ----

  /** The registry and the analyzer both hold exactly the table's IDs. */
  ghost predicate Reconciled(w: World) {
    SameElements(Ids(w.registry), w.db) && SameElements(w.analyzer, w.db)
  }

  /** One check, and everything it posts. */
  ghost function Checked(w: World): World
    requires w.queue == []
  {
    Drained(Handled(w, CheckNew, true))
  }

  ghost function KeptNames(ids: seq<Id>, keep: set<Id>): seq<Id> {
    if ids == [] then [] else (if ids[0] in keep then [ids[0]] else []) + KeptNames(ids[1..], keep)
  }

  lemma {:induction false} KeptIds(registry: seq<Cctv>, keep: set<Id>)
    ensures Ids(Kept(registry, keep)) == KeptNames(Ids(registry), keep)
  {
    if registry == [] {
    } else {
      assert Ids(registry[1..]) == Ids(registry)[1..];
      KeptIds(registry[1..], keep);
      var rest := Kept(registry[1..], keep);
      if registry[0].id in keep {
        assert Kept(registry, keep) == [registry[0]] + rest;
        assert Ids([registry[0]] + rest) == [registry[0].id] + Ids(rest);
      }
    }
  }

  lemma {:induction false} KeptNamesFacts(ids: seq<Id>, keep: set<Id>)
    requires Distinct(ids)
    ensures var kept := KeptNames(ids, keep);
            Distinct(kept) && forall x :: x in kept <==> x in ids && x in keep
  {
    if ids == [] {
    } else {
      KeptNamesFacts(ids[1..], keep);
      assert ids == [ids[0]] + ids[1..];
      ConsFacts(ids[0], ids[1..], KeptNames(ids[1..], keep));
      assert KeptNames(ids, keep) ==
        if ids[0] in keep then [ids[0]] + KeptNames(ids[1..], keep) else KeptNames(ids[1..], keep);
    }
  }

  /** Facts about putting x back in front of what was kept of s. */
  lemma ConsFacts<T>(x: T, s: seq<T>, kept: seq<T>)
    requires Distinct([x] + s) && Distinct(kept) && forall y :: y in kept ==> y in s
    ensures Distinct([x] + kept) && x !in kept && x !in s
    ensures forall y :: y in [x] + kept <==> y == x || y in kept
    ensures forall y :: y in [x] + s <==> y == x || y in s
  {
    forall i | 0 <= i < |s| ensures s[i] != x { assert ([x] + s)[0] == x && ([x] + s)[i + 1] == s[i]; }
    assert x !in s && x !in kept;
  }

  lemma {:induction false} MissingIds(db: seq<Id>, ids: seq<Id>)
    requires Distinct(db)
    ensures Distinct(Missing(db, ids)) && forall x :: x in Missing(db, ids) <==> x in db && x !in ids
  {
    if db == [] {
    } else {
      MissingIds(db[1..], ids);
      assert db == [db[0]] + db[1..];
      ConsFacts(db[0], db[1..], Missing(db[1..], ids));
      assert Missing(db, ids) == if db[0] in ids then Missing(db[1..], ids) else [db[0]] + Missing(db[1..], ids);
    }
  }

  lemma DisjointConcat<T>(s: seq<T>, t: seq<T>)
    requires Distinct(s) && Distinct(t) && Elements(s) !! Elements(t)
    ensures Distinct(s + t) && Elements(s + t) == Elements(s) + Elements(t)
  {
    forall i, j | 0 <= i < |s| && 0 <= j < |t| ensures s[i] != t[j] {
      assert s[i] in Elements(s) && t[j] in Elements(t);
    }
  }

  /** What a check and its messages leave behind when the table has rows: the cameras that have a
      row, untouched and in order, then one new camera for each row that had none. */
  lemma CheckedState(w: World) returns (added: seq<Cctv>)
    requires Checkable(w) && w.db != []
    ensures var end := Checked(w);
            && end.queue == [] && end.db == w.db
            && end.registry == Kept(w.registry, Elements(w.db)) + added
            && Ids(added) == Missing(w.db, Ids(w.registry)) && (forall c :: c in added ==> c.serial >= w.made)
            && SameElements(Ids(end.registry), w.db)
            && CaseDistinctList(end.analyzer)
            && (CaseDistinct(Elements(w.db)) ==> Elements(end.analyzer) == Elements(w.db))
  {
    var kept, missing := Kept(w.registry, Elements(w.db)), Missing(w.db, Ids(w.registry));
    var w2;
    w2, added := CheckedPhases(w);
    assert SameElements(Ids(kept) + missing, w.db) by { RowsCovered(w); }
    assert Ids(kept + added) == Ids(kept) + missing;
    assert Ids(Checked(w).registry) == Ids(kept) + missing;
    CheckedAnalyzer(w, w2, added);
  }

  lemma CheckedAnalyzer(w: World, w2: World, added: seq<Cctv>)
    requires Checkable(w) && w.db != []
    requires w2.registry == Kept(w.registry, Elements(w.db)) && w2.db == w.db
    requires Elements(w2.analyzer) == Elements(Ids(w2.registry))
    requires Discovered(w2, Checked(w), Missing(w.db, Ids(w.registry)), added)
    requires Elements(Ids(w2.registry) + Missing(w.db, Ids(w.registry))) == Elements(w.db)
          == Elements(Ids(Checked(w).registry))
    ensures CaseDistinct(Elements(w.db)) ==> Elements(Checked(w).analyzer) == Elements(w.db)
  {
  }

  lemma CheckedPhases(w: World) returns (w2: World, added: seq<Cctv>)
    requires Checkable(w) && w.db != []
    ensures w2.registry == Kept(w.registry, Elements(w.db)) && w2.db == w.db && w2.made == w.made
    ensures Elements(w2.analyzer) == Elements(Ids(w2.registry))
    ensures Discovered(w2, Checked(w), Missing(w.db, Ids(w.registry)), added)
  {
    w2 := AfterRemovals(w);
    RowsCovered(w);
    added := DiscoveryPhase(w2, w.db, Ids(w.registry));
  }

  ghost predicate Checkable(w: World) {
    && w.queue == [] && Distinct(Ids(w.registry)) && Distinct(w.db)
    && CaseDistinctList(w.analyzer) && Elements(w.analyzer) == Elements(Ids(w.registry))
  }

  lemma AfterRemovals(w: World) returns (w2: World)
    requires Checkable(w) && w.db != []
    ensures Checked(w) == Drained(w2)
    ensures w2.registry == Kept(w.registry, Elements(w.db)) && w2.queue == Discoveries(w.db, Ids(w.registry))
    ensures w2.db == w.db && w2.made == w.made
    ensures CaseDistinctList(w2.analyzer) && Elements(w2.analyzer) == Elements(Ids(w2.registry))
  {
    var kept, found := Kept(w.registry, Elements(w.db)), Discoveries(w.db, Ids(w.registry));
    var w1 := Handled(w, CheckNew, true);
    assert w1 == w.(queue := Removals(Ids(w.registry), w.db) + found);
    assert [] + w.registry == w.registry && [] + kept == kept;
    var analyzer := RemovalPhase(w1, [], w.registry, found);
    w2 := w1.(queue := found, registry := kept, analyzer := analyzer);
  }

  /** The kept cameras and the missing rows make up the table. */
  lemma RowsCovered(w: World)
    requires Checkable(w)
    ensures SameElements(Ids(Kept(w.registry, Elements(w.db))) + Missing(w.db, Ids(w.registry)), w.db)
  {
    var kept, missing := Ids(Kept(w.registry, Elements(w.db))), Missing(w.db, Ids(w.registry));
    KeptIds(w.registry, Elements(w.db));
    KeptNamesFacts(Ids(w.registry), Elements(w.db));
    MissingIds(w.db, Ids(w.registry));
    DisjointConcat(kept, missing);
  }

  lemma CaseDistinctListElements(s: seq<Id>)
    requires CaseDistinctList(s)
    ensures CaseDistinct(Elements(s)) && Distinct(s)
  {
  }

  /** A check reconciles the three places exactly when the table has rows, or there was nothing to
      remove, and no two rows differ only by case: an empty table is not acted on at all. */
  lemma CheckReconcilesIff(w: World)
    requires Checkable(w)
    ensures Reconciled(Checked(w)) <==> (w.db != [] || w.registry == []) && CaseDistinct(Elements(w.db))
  {
    CaseDistinctListElements(w.analyzer);
    if w.db == [] {
      assert Checked(w) == w;
      if w.registry != [] {
        assert Ids(w.registry)[0] in Elements(Ids(w.registry));
      }
    } else {
      var added := CheckedState(w);
      CaseDistinctListElements(Checked(w).analyzer);
    }
  }
}
