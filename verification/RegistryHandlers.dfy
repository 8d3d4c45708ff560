/** The handlers behind Registry on the objects they use: the registry and the analyzer's list are
    linked lists, the messages stand in the CatchB thread's queue. Each handler is a step of the
    abstract world. The table is what the database holds. */
module RegistryHandlers {
  import opened Sequences
  import opened Names
  import opened LinkedList
  import opened MessageQueue
  import opened Registry

  /** The registry's seeker. */
  predicate HasId(c: Cctv, id: Id) {
    c.id == id
  }

  lemma SoughtWithId(registry: seq<Cctv>, id: Id)
    ensures FirstWhere(registry, Sought(HasId, id)) == FirstWhere(registry, WithId(id))
    ensures FirstOf(registry, Sought(HasId, id)).Some? ==> FirstOf(registry, Sought(HasId, id)).value.id == id
  {
    forall c: Cctv ensures Sought(HasId, id)(c) <==> WithId(id)(c) {
      assert HasId(c, id) <==> c.id == id;
    }
    SameFirst(registry, Sought(HasId, id), WithId(id));
  }

  /** The analyzer's seeker. */
  predicate ResemblesId(e: Id, id: Id) {
    SameIgnoringCase(e, id)
  }

  lemma SoughtResembles(analyzer: seq<Id>, id: Id)
    ensures FirstWhere(analyzer, Sought(ResemblesId, id)) == FirstWhere(analyzer, Resembles(id))
  {
    forall e: Id ensures Sought(ResemblesId, id)(e) <==> Resembles(id)(e) {
      assert ResemblesId(e, id) <==> SameIgnoringCase(e, id);
    }
    SameFirst(analyzer, Sought(ResemblesId, id), Resembles(id));
  }

  lemma HeadFirst(s: seq<Id>, x: Id)
    requires s != [] && x == s[0]
    ensures FirstWhere(s, Is(x)) == 0 && RemovedAt(s, 0) == s[1..]
  {
    FirstWhereIs(s, Is(x), 0);
  }

  /** The analyzer's list of IDs. */
  class Analyzer {
    const list: List<Id, Id>

    ghost predicate Valid()
      reads list, list.ring
    {
      list.Valid() && !list.locked && list.seeker == Some(ResemblesId)
    }

    ghost function Contents(): seq<Id>
      requires Valid()
      reads list, list.ring
    {
      list.Contents()
    }

    constructor ()
      ensures Valid() && Contents() == [] && fresh(list) && fresh(list.Nodes())
    {
      list := new List<Id, Id>();
      new;
      list.seeker := Some(ResemblesId);
    }

    /** An ID joins unless one is there that is the same up to case. */
    method Attach(id: Id)
      requires Valid()
      modifies list, list.Nodes()
      ensures Valid() && fresh(list.Nodes() - old(list.Nodes()))
      ensures Contents() == Attached(old(Contents()), id)
      ensures Contents() == if exists e :: e in old(Contents()) && SameIgnoringCase(e, id) then old(Contents())
                            else old(Contents()) + [id]
    {
      AttachedIff(Contents(), id);
      SoughtResembles(Contents(), id);
      var saved := list.Get(id);
      if saved.None? {
        var r := list.Append(id);
      }
    }

    /** The first ID that resembles it leaves; if no two resembled each other, none is left. */
    method Detach(id: Id) returns (ghost k: nat)
      requires Valid()
      modifies list, list.Nodes()
      ensures Valid() && list.Nodes() <= old(list.Nodes())
      ensures Contents() == Detached(old(Contents()), id)
      ensures k <= |old(Contents())| && forall j :: 0 <= j < k ==> !SameIgnoringCase(old(Contents())[j], id)
      ensures if k == |old(Contents())| then Contents() == old(Contents())
              else SameIgnoringCase(old(Contents())[k], id) && Contents() == RemovedAt(old(Contents()), k)
    {
      k := FirstWhere(Contents(), Resembles(id));
      assert forall j :: 0 <= j < k ==> !Resembles(id)(Contents()[j]);
      SoughtResembles(Contents(), id);
      FirstIsFirst(Contents(), Resembles(id));
      var saved := list.Get(id);
      if saved.Some? {
        var r := list.Remove(saved.value);
      }
    }

    /** The head, which the analyzer has just looked at, moves to the end. */
    method Rotate()
      requires Valid()
      modifies list, list.Nodes()
      ensures Valid() && fresh(list.Nodes() - old(list.Nodes()))
      ensures old(Contents()) == [] ==> Contents() == []
      ensures old(Contents()) != [] ==> Contents() == old(Contents())[1..] + [old(Contents())[0]]
    {
      var head := list.GetAt(0);
      if head.Some? {
        RemoveHead(head.value);
        var r := list.Append(head.value);
      }
    }

    method RemoveHead(head: Id)
      requires Valid() && Contents() != [] && head == Contents()[0]
      modifies list, list.Nodes()
      ensures Valid() && list.Nodes() <= old(list.Nodes())
      ensures Contents() == old(Contents())[1..]
    {
      HeadFirst(Contents(), head);
      var r := list.Remove(head);
    }
  }

  method NewRegistry() returns (list: List<Cctv, Id>)
    ensures list.Valid() && !list.locked && list.seeker == Some(HasId) && list.Contents() == []
    ensures fresh(list) && fresh(list.Nodes())
  {
    list := new List<Cctv, Id>();
    list.seeker := Some(HasId);
  }

  class CatchB {
    const cctvs: List<Cctv, Id>
    const analyzer: Analyzer
    const queue: MsgQueue<Msg>
    /** The IDs in the database's table. */
    var db: seq<Id>
    var made: nat

    ghost predicate Valid()
      reads cctvs, cctvs.ring, analyzer.list, analyzer.list.ring
      reads queue, queue.queue, queue.queue.list, queue.queue.list.ring
    {
      && cctvs.Valid() && !cctvs.locked && cctvs.seeker == Some(HasId)
      && analyzer.Valid() && queue.queue.Valid() && queue.InStep()
    }

    ghost function Abs(): World
      requires Valid()
      reads this, cctvs, cctvs.ring, analyzer.list, analyzer.list.ring
      reads queue, queue.queue, queue.queue.list, queue.queue.list.ring
    {
      World(cctvs.Contents(), analyzer.Contents(), db, queue.queue.Contents(), made)
    }

    ghost function Repr(): set<object>
      reads cctvs, analyzer.list, queue.queue.list
    {
      {this, cctvs, analyzer.list, queue, queue.queue.list}
        + cctvs.Nodes() + analyzer.list.Nodes() + queue.queue.list.Nodes()
    }

    /** What posting messages and looking at the registry may touch. */
    ghost function Posting(): set<object>
      reads queue.queue.list
    {
      {cctvs, queue, queue.queue.list} + queue.queue.list.Nodes()
    }

    constructor (db: seq<Id>)
      ensures Valid() && fresh(Repr()) && Abs() == World([], [], db, [], 0)
    {
      var list := NewRegistry();
      cctvs := list;
      analyzer := new Analyzer();
      queue := new MsgQueue<Msg>();
      this.db, made := db, 0;
    }

    /** Start-up posts one FOUND message per row. */
    method InitProcess()
      requires Valid() && Abs() == World([], [], db, [], 0)
      modifies Posting()
      ensures Valid() && Abs() == Loaded(old(db))
    {
      ghost var rows := db;
      for i := 0 to |db|
        invariant Valid() && fresh(Posting() - old(Posting())) && |rows| == |db|
        invariant Abs() == World([], [], rows, Loaded(rows).queue[..i], 0)
      {
        LoadedStep(rows, i);
        Post(Found(db[i]));
      }
      assert Loaded(rows).queue[..|rows|] == Loaded(rows).queue;
    }

    method Get(id: Id) returns (r: Option<Cctv>)
      requires Valid()
      modifies cctvs`locked
      ensures Valid() && Abs() == old(Abs()) && Repr() == old(Repr()) && Posting() == old(Posting())
      ensures r == FirstOf(Abs().registry, WithId(id))
    {
      SoughtWithId(cctvs.Contents(), id);
      r := cctvs.Get(id);
    }

    method Register(cctv: Cctv)
      requires Valid()
      modifies cctvs, cctvs.Nodes()
      ensures Valid() && fresh(cctvs.Nodes() - old(cctvs.Nodes()))
      ensures Abs() == old(Abs()).(registry := old(Abs()).registry + [cctv])
    {
      var r := cctvs.Append(cctv);
    }

    method Unregister(cctv: Cctv)
      requires Valid() && cctv in Abs().registry
      modifies cctvs, cctvs.Nodes()
      ensures Valid()
      ensures var k := FirstWhere(old(Abs()).registry, Is(cctv));
              k < |old(Abs()).registry| && Abs() == old(Abs()).(registry := RemovedAt(old(Abs()).registry, k))
    {
      var r := cctvs.Remove(cctv);
    }

    method Attach(id: Id)
      requires Valid()
      modifies analyzer.list, analyzer.list.Nodes()
      ensures Valid()
      ensures Abs() == old(Abs()).(analyzer := Attached(old(Abs()).analyzer, id))
    {
      analyzer.Attach(id);
    }

    method Detach(id: Id)
      requires Valid()
      modifies analyzer.list, analyzer.list.Nodes()
      ensures Valid()
      ensures Abs() == old(Abs()).(analyzer := Detached(old(Abs()).analyzer, id))
    {
      ghost var k := analyzer.Detach(id);
    }

    method Post(m: Msg)
      requires Valid()
      modifies Posting()
      ensures Valid() && fresh(Posting() - old(Posting()))
      ensures Abs() == old(Abs()).(queue := old(Abs()).queue + [m])
      ensures cctvs.iterating == old(cctvs.iterating) && cctvs.cursor == old(cctvs.cursor)
      ensures old(cctvs.IteratorSafe()) ==> cctvs.IteratorSafe()
    {
      queue.Push(m);
    }

    /** INSERT on a table whose ID is the primary key; it may also fail for other reasons. */
    method AddRow(id: Id, dbOk: bool) returns (ok: bool)
      requires Valid()
      modifies this`db
      ensures Valid() && (ok <==> dbOk && id !in old(db))
      ensures Abs() == old(Abs()).(db := if ok then old(db) + [id] else old(db))
    {
      ok := dbOk && id !in db;
      if ok {
        db := db + [id];
      }
    }

    method DeleteRow(id: Id)
      requires Valid()
      modifies this`db
      ensures Valid() && Abs() == old(Abs()).(db := Without(old(db), id))
    {
      db := Without(db, id);
    }

    /** FTM_CCTV_create, then FTM_LIST_append. */
    method Make(id: Id) returns (cctv: Cctv)
      requires Valid()
      modifies this`made, cctvs, cctvs.Nodes()
      ensures Valid() && cctv == Cctv(id, old(made))
      ensures fresh(cctvs.Nodes() - old(cctvs.Nodes()))
      ensures Abs() == old(Abs()).(registry := old(Abs()).registry + [cctv], made := old(made) + 1)
    {
      cctv := Cctv(id, made);
      made := made + 1;
      Register(cctv);
    }

    /** Takes the camera registered last back out. */
    method Rollback(cctv: Cctv, ghost before: seq<Cctv>)
      requires Valid() && Abs().registry == before + [cctv] && FirstWhere(before, WithId(cctv.id)) == |before|
      modifies cctvs, cctvs.Nodes()
      ensures Valid() && Abs() == old(Abs()).(registry := before)
    {
      LastRegistered(before, cctv);
      assert Abs().registry[|before|] == cctv;
      Unregister(cctv);
    }

    method OnCreateCctv(id: Id, dbOk: bool)
      requires Valid()
      modifies Repr()
      ensures Valid() && Abs() == Handled(old(Abs()), Create(id), dbOk)
    {
      var existing := Get(id);
      if existing.None? {
        AddCctv(id, dbOk);
      }
    }

    /** The rest of a create; a row that cannot be inserted takes the camera back out. */
    method AddCctv(id: Id, dbOk: bool)
      requires Valid() && !Registered(Abs(), id)
      modifies this`made, this`db, cctvs, cctvs.Nodes(), analyzer.list, analyzer.list.Nodes()
      ensures Valid() && Abs() == Handled(old(Abs()), Create(id), dbOk)
    {
      ghost var before := Abs().registry;
      var cctv := Make(id);
      var ok := AddRow(id, dbOk);
      if ok {
        Attach(cctv.id);
      } else {
        Rollback(cctv, before);
      }
    }

    method OnDeleteCctv(id: Id)
      requires Valid()
      modifies Repr()
      ensures Valid() && Abs() == Handled(old(Abs()), Delete(id), true)
    {
      FirstIsFirst(Abs().registry, WithId(id));
      var cctv := Get(id);
      if cctv.Some? {
        Detach(id);
        Unregister(cctv.value);
        DeleteRow(id);
      }
    }

    method OnFoundCctvInDb(id: Id)
      requires Valid()
      modifies Repr()
      ensures Valid() && Abs() == Handled(old(Abs()), Found(id), true)
    {
      ghost var w := Abs();
      var cctv := Make(id);
      assert Abs().analyzer == w.analyzer;
      Attach(cctv.id);
    }

    /** Unlike the delete handler, this one unregisters before it detaches. */
    method OnRemovedCctvInDb(id: Id)
      requires Valid()
      modifies Repr()
      ensures Valid() && Abs() == Handled(old(Abs()), Removed(id), true)
    {
      FirstIsFirst(Abs().registry, WithId(id));
      var cctv := Get(id);
      if cctv.Some? {
        assert WithId(id)(cctv.value);
        Unregister(cctv.value);
        Detach(cctv.value.id);
      }
    }

    method OnSetCctvHash(id: Id, dbOk: bool)
      requires Valid()
      modifies cctvs`locked, analyzer.list, analyzer.list.Nodes()
      ensures Valid() && Abs() == Handled(old(Abs()), SetHash(id), dbOk)
    {
      var cctv := Get(id);
      if cctv.Some? && dbOk {
        assert WithId(id)(cctv.value);
        Attach(cctv.value.id);
      }
    }

    method OnCheckNewCctv()
      requires Valid()
      modifies Posting()
      ensures Valid() && Abs() == Handled(old(Abs()), CheckNew, true)
    {
      if db != [] {
        CheckPosts(Abs());
        PostAll();
      }
    }

    method PostAll()
      requires Valid()
      modifies Posting()
      ensures Valid()
      ensures Abs() == Checking(old(Abs()))
    {
      PostRemovals();
      PostDiscoveries();
    }

    /** The iterator over the registry stands behind its first k cameras. */
    ghost predicate Iterating(k: nat)
      reads cctvs
    {
      cctvs.iterating && cctvs.IteratorSafe() && cctvs.cursor == k
    }

    method StartIteration()
      requires Valid()
      modifies Posting()
      ensures Valid() && Iterating(0) && Abs() == old(Abs()) && Posting() == old(Posting())
    {
      cctvs.IteratorStart();
    }

    method NextCctv(ghost k: nat) returns (r: Option<Cctv>)
      requires Valid() && Iterating(k) && k <= |Abs().registry|
      modifies Posting()
      ensures Valid() && Abs() == old(Abs()) && Posting() == old(Posting())
      ensures r == if k < |Abs().registry| then Some(Abs().registry[k]) else None
      ensures r.Some? ==> Iterating(k + 1)
    {
      var s;
      s, r := cctvs.IteratorNext();
    }

    /** Posts a removal if the table has no row for the ID. */
    method CheckRow(id: Id, ghost k: nat)
      requires Valid() && Iterating(k)
      modifies Posting()
      ensures Valid() && Iterating(k) && fresh(Posting() - old(Posting()))
      ensures Abs() == old(Abs()).(queue := old(Abs()).queue + if id in old(db) then [] else [Removed(id)])
    {
      var i := 0;
      while i < |db|
        invariant i <= |db| && forall j :: 0 <= j < i ==> db[j] != id
      {
        if id == db[i] {
          break;
        }
        i := i + 1;
      }
      if i == |db| {
        Post(Removed(id));
      }
    }

    /** The body of the iteration. */
    method CheckAndStep(id: Id, ghost k: nat) returns (r: Option<Cctv>)
      requires Valid() && Iterating(k) && k <= |Abs().registry|
      modifies Posting()
      ensures Valid() && fresh(Posting() - old(Posting()))
      ensures Abs() == old(Abs()).(queue := old(Abs()).queue + if id in old(db) then [] else [Removed(id)])
      ensures r == if k < |Abs().registry| then Some(Abs().registry[k]) else None
      ensures r.Some? ==> Iterating(k + 1)
    {
      CheckRow(id, k);
      r := NextCctv(k);
    }

    /** Iterates over the registry and posts a removal for every camera without a row. */
    method PostRemovals()
      requires Valid()
      modifies Posting()
      ensures Valid() && fresh(Posting() - old(Posting()))
      ensures Abs() == old(Abs()).(queue := old(Abs()).queue + Removals(Ids(old(Abs()).registry), old(db)))
    {
      ghost var w := Abs();
      ghost var posted := w.queue;
      ghost var k := 0;
      StartIteration();
      var cctv := NextCctv(0);
      while cctv.Some?
        invariant Valid() && fresh(Posting() - old(Posting()))
        invariant k <= |w.registry| && Abs() == w.(queue := posted)
        invariant cctv == if k < |w.registry| then Some(w.registry[k]) else None
        invariant cctv.Some? ==> Iterating(k + 1)
        invariant posted + Removals(Ids(w.registry)[k..], w.db) == w.queue + Removals(Ids(w.registry), w.db)
        decreases |w.registry| - k
      {
        RemovalsStep(posted, Ids(w.registry), k, w.db);
        posted := posted + if cctv.value.id in w.db then [] else [Removed(cctv.value.id)];
        cctv := CheckAndStep(cctv.value.id, k + 1);
        k := k + 1;
      }
      assert posted + [] == posted;
    }

    /** Posts a discovery if the registry does not have the row's ID. */
    method CheckCctv(id: Id)
      requires Valid()
      modifies Posting()
      ensures Valid() && fresh(Posting() - old(Posting()))
      ensures var w := old(Abs());
              Abs() == w.(queue := w.queue + if id in Ids(w.registry) then [] else [Found(id)])
    {
      RegisteredIff(Abs(), id);
      var cctv := Get(id);
      if cctv.None? {
        Post(Found(id));
      }
    }

    /** Looks every row up in the registry and posts a discovery if it is not there. */
    method PostDiscoveries()
      requires Valid()
      modifies Posting()
      ensures Valid() && fresh(Posting() - old(Posting()))
      ensures Abs() == old(Abs()).(queue := old(Abs()).queue + Discoveries(old(db), Ids(old(Abs()).registry)))
    {
      ghost var w := Abs();
      ghost var posted := w.queue;
      for i := 0 to |db|
        invariant Valid() && fresh(Posting() - old(Posting())) && db == w.db
        invariant Abs() == w.(queue := posted)
        invariant posted + Discoveries(w.db[i..], Ids(w.registry)) == w.queue + Discoveries(w.db, Ids(w.registry))
      {
        DiscoveriesStep(posted, w.db, i, Ids(w.registry));
        CheckCctv(db[i]);
        posted := Abs().queue;
      }
      assert posted + [] == posted;
    }

    /** Takes the next message off the queue, if there is one. */
    method NextMessage() returns (r: PopResult<Msg>)
      requires Valid()
      modifies Repr()
      ensures Valid() && fresh(Repr() - old(Repr()))
      ensures var q := old(Abs()).queue;
              if q == [] then r == Timeout && Abs() == old(Abs())
              else r == Popped(q[0]) && Abs() == old(Abs()).(queue := q[1..])
    {
      r := queue.TimedPop();
    }

    method Dispatch(m: Msg, dbOk: bool)
      requires Valid()
      modifies Repr()
      ensures Valid() && Abs() == Handled(old(Abs()), m, dbOk)
    {
      match m {
        case Create(id) => OnCreateCctv(id, dbOk);
        case Delete(id) => OnDeleteCctv(id);
        case Found(id) => OnFoundCctvInDb(id);
        case Removed(id) => OnRemovedCctvInDb(id);
        case SetHash(id) => OnSetCctvHash(id, dbOk);
        case CheckNew => OnCheckNewCctv();
      }
    }

    /** One turn of the CatchB thread. */
    method HandleOne(dbOk: bool)
      requires Valid()
      modifies Repr()
      ensures Valid() && Abs() == HandleHead(old(Abs()), dbOk)
    {
      var m := NextMessage();
      if m.Popped? {
        Dispatch(m.item, dbOk);
      }
    }

    /** The analyzer's rotation between two messages. */
    method Rotate()
      requires Valid()
      modifies Repr()
      ensures Valid() && Abs() == Apply(old(Abs()), Step.Rotate)
    {
      analyzer.Rotate();
    }
  }

  /** The messages of a check posted behind the others. */
  ghost function Checking(w: World): World {
    w.(queue := w.queue + Removals(Ids(w.registry), w.db) + Discoveries(w.db, Ids(w.registry)))
  }

  lemma CheckPosts(w: World)
    requires w.db != []
    ensures Handled(w, CheckNew, true) == Checking(w)
  {
  }

  lemma LoadedStep(db: seq<Id>, i: nat)
    requires i < |db|
    ensures Loaded(db).queue[..i + 1] == Loaded(db).queue[..i] + [Found(db[i])]
  {
  }

  lemma RemovalsStep(posted: seq<Msg>, ids: seq<Id>, k: nat, db: seq<Id>)
    requires k < |ids|
    ensures posted + Removals(ids[k..], db) ==
            (posted + if ids[k] in db then [] else [Removed(ids[k])]) + Removals(ids[k + 1..], db)
  {
    assert ids[k..][1..] == ids[k + 1..];
  }

  lemma DiscoveriesStep(posted: seq<Msg>, db: seq<Id>, i: nat, ids: seq<Id>)
    requires i < |db|
    ensures posted + Discoveries(db[i..], ids) ==
            (posted + if db[i] in ids then [] else [Found(db[i])]) + Discoveries(db[i + 1..], ids)
  {
    assert db[i..][1..] == db[i + 1..];
  }

  /** A camera just registered under a new ID stands at the end. */
  lemma LastRegistered(registry: seq<Cctv>, cctv: Cctv)
    requires FirstWhere(registry, WithId(cctv.id)) == |registry|
    ensures FirstWhere(registry + [cctv], Is(cctv)) == |registry|
    ensures RemovedAt(registry + [cctv], |registry|) == registry
  {
    forall i | 0 <= i < |registry| ensures registry[i] != cctv {
      assert !WithId(cctv.id)(registry[i]);
    }
    FirstWhereIs(registry + [cctv], Is(cctv), |registry|);
  }
}
