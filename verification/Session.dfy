/** Session keys and their sliding timeout (lib/ftm_ssid.c), and the gate in front of every server
    command (lib/ftm_server.c). A session expires lazily: it is only dropped when somebody asks
    for it. The clock is read twice per accepted use, once to judge and once to refresh. */
module Session {
  import opened Sequences
  import opened LinkedList

  const WORD := 0x1_0000_0000

  type UInt32 = x: nat | x < WORD

  datatype Event =
    | Create(key: string, made: UInt32)
    | Destroy(key: string)
    | Use(key: string, judged: UInt32, refreshed: UInt32)

  type Table = map<string, UInt32>

  /** ulTime - pSSID->ulTime is an unsigned 32-bit difference. A timeout of 0 means never. */
  predicate Expired(time: UInt32, now: UInt32, timeout: UInt32) {
    timeout != 0 && (now as int - time as int) % WORD > timeout
  }

  ghost predicate Accepts(t: Table, e: Event, timeout: UInt32) {
    e.Use? && e.key in t && !Expired(t[e.key], e.judged, timeout)
  }

  ghost function Apply(t: Table, e: Event, timeout: UInt32): Table {
    match e
    case Create(key, made) => t[key := made]
    case Destroy(key) => t - {key}
    case Use(key, _, refreshed) =>
      if Accepts(t, e, timeout) then t[key := refreshed] else t - {key}
  }

  ghost function After(run: seq<Event>, timeout: UInt32): Table {
    if run == [] then map[]
    else Apply(After(run[..|run| - 1], timeout), run[|run| - 1], timeout)
  }

  // ---- What callers and the clock guarantee ----

  /** The first clock reading of an event. */
  ghost function Reading(e: Event): UInt32 {
    match e
    case Create(_, made) => made
    case Destroy(_) => 0
    case Use(_, judged, _) => judged
  }

  /** The last one, which becomes the session's time. */
  ghost function Stamp(e: Event): UInt32 {
    match e
    case Create(_, made) => made
    case Destroy(_) => 0
    case Use(_, _, refreshed) => refreshed
  }

  ghost predicate ClockAdvances(run: seq<Event>) {
    && (forall k :: 0 <= k < |run| ==> Reading(run[k]) <= Stamp(run[k]))
    && (forall j, k :: 0 <= j < k < |run| && !run[k].Destroy? ==> Stamp(run[j]) <= Reading(run[k]))
  }

  /** A key is a hash over the time and the address of its session: no key is created while it is
      still in the table. */
  ghost predicate KeysNew(run: seq<Event>, timeout: UInt32) {
    forall k :: 0 <= k < |run| && run[k].Create? ==> run[k].key !in After(run[..k], timeout)
  }

  // ---- When a session is alive ----

  /** The last event before k that concerns key, or -1. */
  ghost function Previous(run: seq<Event>, key: string, k: nat): (j: int)
    requires k <= |run|
    ensures -1 <= j < k
  {
    if k == 0 then -1 else if run[k - 1].key == key then k - 1 else Previous(run, key, k - 1)
  }

  /** If event k concerns key, it is a use that comes within the timeout of the event before it. */
  ghost predicate InTime(run: seq<Event>, key: string, k: nat, timeout: UInt32)
    requires k < |run|
  {
    run[k].key == key ==>
      var j := Previous(run, key, k);
      !run[k].Destroy? && j >= 0 && (timeout == 0 || Reading(run[k]) - Stamp(run[j]) <= timeout)
  }

  /** From its creation at c on, the session was not destroyed and never left alone for longer than
      the timeout. */
  ghost predicate KeptUp(run: seq<Event>, key: string, c: nat, timeout: UInt32) {
    forall k :: c < k < |run| ==> InTime(run, key, k, timeout)
  }

  ghost predicate Alive(run: seq<Event>, key: string, timeout: UInt32) {
    exists c :: 0 <= c < |run| && run[c] == Create(key, Stamp(run[c])) && KeptUp(run, key, c, timeout)
  }

  lemma {:induction false} PreviousOfPrefix(run: seq<Event>, key: string, n: nat, k: nat)
    requires k <= n <= |run|
    ensures Previous(run[..n], key, k) == Previous(run, key, k)
  {
    if k == 0 {
    } else {
      PreviousOfPrefix(run, key, n, k - 1);
    }
  }

  lemma InTimeOfPrefix(run: seq<Event>, key: string, n: nat, k: nat, timeout: UInt32)
    requires k < n <= |run|
    ensures InTime(run[..n], key, k, timeout) <==> InTime(run, key, k, timeout)
  {
    PreviousOfPrefix(run, key, n, k);
  }

  lemma KeptUpOfPrefix(run: seq<Event>, key: string, c: nat, timeout: UInt32)
    requires c + 1 < |run|
    ensures KeptUp(run, key, c, timeout) <==>
            KeptUp(run[..|run| - 1], key, c, timeout) && InTime(run, key, |run| - 1, timeout)
  {
    var n := |run| - 1;
    forall k | c < k < n ensures InTime(run[..n], key, k, timeout) <==> InTime(run, key, k, timeout) {
      InTimeOfPrefix(run, key, n, k, timeout);
    }
  }

  lemma ClockOfPrefix(run: seq<Event>, n: nat)
    requires ClockAdvances(run) && n <= |run|
    ensures ClockAdvances(run[..n])
  {
  }

  /** The table holds key exactly if its session is alive, with the stamp of its last event. */
  ghost predicate Tracks(run: seq<Event>, key: string, timeout: UInt32) {
    var t, j := After(run, timeout), Previous(run, key, |run|);
    && (key in t <==> Alive(run, key, timeout))
    && (key in t ==> j >= 0 && t[key] == Stamp(run[j]))
  }

  lemma TracksOther(run: seq<Event>, key: string, timeout: UInt32)
    requires run != [] && run[|run| - 1].key != key && Tracks(run[..|run| - 1], key, timeout)
    ensures Tracks(run, key, timeout)
  {
    AliveStays(run, key, timeout);
    PreviousOfPrefix(run, key, |run| - 1, |run| - 1);
  }

  lemma TracksOwn(run: seq<Event>, timeout: UInt32)
    requires run != [] && ClockAdvances(run) && !run[|run| - 1].Create?
    requires Tracks(run[..|run| - 1], run[|run| - 1].key, timeout)
    ensures Tracks(run, run[|run| - 1].key, timeout)
  {
    var n, key := |run| - 1, run[|run| - 1].key;
    AliveExtends(run, key, timeout);
    PreviousOfPrefix(run, key, n, n);
    if run[n].Use? && key in After(run[..n], timeout) {
      GapIsExpiry(run, n, timeout);
    }
  }

  lemma {:induction false} TableHoldsAlive(run: seq<Event>, key: string, timeout: UInt32)
    requires ClockAdvances(run)
    ensures Tracks(run, key, timeout)
    decreases |run|
  {
    if run == [] {
    } else {
      var n := |run| - 1;
      ClockOfPrefix(run, n);
      TableHoldsAlive(run[..n], key, timeout);
      if run[n].key != key {
        TracksOther(run, key, timeout);
      } else if run[n].Create? {
        assert run[n] == Create(key, Stamp(run[n])) && KeptUp(run, key, n, timeout);
      } else {
        TracksOwn(run, timeout);
      }
    }
  }

  /** An event for another key changes nothing. */
  lemma AliveStays(run: seq<Event>, key: string, timeout: UInt32)
    requires run != [] && run[|run| - 1].key != key
    ensures Alive(run, key, timeout) <==> Alive(run[..|run| - 1], key, timeout)
  {
    var n := |run| - 1;
    forall c | 0 <= c < n ensures KeptUp(run, key, c, timeout) <==> KeptUp(run[..n], key, c, timeout) {
      KeptUpOfPrefix(run, key, c, timeout);
    }
    if Alive(run, key, timeout) {
      var c :| 0 <= c < |run| && run[c] == Create(key, Stamp(run[c])) && KeptUp(run, key, c, timeout);
      assert run[..n][c] == run[c];
    }
    if Alive(run[..n], key, timeout) {
      var c :| 0 <= c < n && run[..n][c] == Create(key, Stamp(run[..n][c])) && KeptUp(run[..n], key, c, timeout);
      assert run[c] == run[..n][c];
    }
  }

  /** A use keeps a living session alive if it comes in time; a destruction ends it. */
  lemma AliveExtends(run: seq<Event>, key: string, timeout: UInt32)
    requires run != [] && run[|run| - 1].key == key && !run[|run| - 1].Create?
    ensures Alive(run, key, timeout) <==>
            Alive(run[..|run| - 1], key, timeout) && InTime(run, key, |run| - 1, timeout)
  {
    var n := |run| - 1;
    if Alive(run, key, timeout) {
      var c :| 0 <= c < |run| && run[c] == Create(key, Stamp(run[c])) && KeptUp(run, key, c, timeout);
      assert run[..n][c] == run[c];
      KeptUpOfPrefix(run, key, c, timeout);
    }
    if Alive(run[..n], key, timeout) {
      var c :| 0 <= c < n && run[..n][c] == Create(key, Stamp(run[..n][c])) && KeptUp(run[..n], key, c, timeout);
      assert run[c] == run[..n][c];
      KeptUpOfPrefix(run, key, c, timeout);
    }
  }

  lemma TableAcceptsAlive(run: seq<Event>, e: Event, timeout: UInt32)
    requires e.Use? && ClockAdvances(run + [e])
    ensures Accepts(After(run, timeout), e, timeout) <==> Alive(run + [e], e.key, timeout)
  {
    var all, n := run + [e], |run|;
    assert all[..n] == run;
    ClockOfPrefix(all, n);
    TableHoldsAlive(run, e.key, timeout);
    AliveExtends(all, e.key, timeout);
    PreviousOfPrefix(all, e.key, n, n);
    if e.key in After(run, timeout) {
      GapIsExpiry(all, n, timeout);
    }
  }

  /** For a key with an earlier event, being in time is not having expired. */
  lemma GapIsExpiry(run: seq<Event>, k: nat, timeout: UInt32)
    requires ClockAdvances(run) && k < |run| && run[k].Use? && Previous(run, run[k].key, k) >= 0
    ensures InTime(run, run[k].key, k, timeout) <==>
            !Expired(Stamp(run[Previous(run, run[k].key, k)]), run[k].judged, timeout)
  {
  }

  /** Once a key was turned down it stays invalid; only creating it anew could revive it. */
  lemma {:induction false} RejectedForever(run: seq<Event>, i: nat, e: Event, timeout: UInt32)
    requires i < |run| && run[i].Use? && !Accepts(After(run[..i], timeout), run[i], timeout)
    requires e.Use? && e.key == run[i].key
    requires forall k :: i < k < |run| ==> !(run[k].Create? && run[k].key == e.key)
    ensures !Accepts(After(run, timeout), e, timeout)
    ensures e.key !in After(run, timeout)
    decreases |run|
  {
    var n := |run| - 1;
    if n == i {
      assert run[..i] == run[..n];
    } else {
      assert run[..n][..i] == run[..i];
      RejectedForever(run[..n], i, e, timeout);
    }
  }

  // ---- Eager expiry ----

  ghost function Swept(t: Table, now: UInt32, timeout: UInt32): Table {
    map key | key in t && !Expired(t[key], now, timeout) :: t[key]
  }

  /** The same events, but every look at the clock drops all sessions that have expired. */
  ghost function EagerAfter(run: seq<Event>, timeout: UInt32): Table {
    if run == [] then map[]
    else EagerApply(EagerAfter(run[..|run| - 1], timeout), run[|run| - 1], timeout)
  }

  /** Every session has a time of the past, and what the sweep dropped has expired. */
  ghost predicate LagsBehind(lazy: Table, eager: Table, now: UInt32, timeout: UInt32) {
    && (forall key :: key in eager ==> key in lazy && lazy[key] == eager[key])
    && (forall key :: key in lazy ==> lazy[key] <= now)
    && (forall key :: key in lazy && key !in eager ==> timeout != 0 && now - lazy[key] > timeout)
  }

  ghost function Latest(run: seq<Event>): UInt32 {
    if run == [] then 0
    else if run[|run| - 1].Destroy? then Latest(run[..|run| - 1])
    else Stamp(run[|run| - 1])
  }

  lemma {:induction false} LatestBound(run: seq<Event>, k: nat, n: nat)
    requires ClockAdvances(run) && n <= k < |run|
    ensures !run[k].Destroy? ==> Latest(run[..n]) <= Reading(run[k]) <= Stamp(run[k])
  {
    if n == 0 {
    } else {
      assert run[..n][..n - 1] == run[..n - 1];
      LatestBound(run, k, n - 1);
    }
  }

  ghost function EagerApply(t: Table, e: Event, timeout: UInt32): Table {
    Apply(if e.Destroy? then t else Swept(t, Reading(e), timeout), e, timeout)
  }

  lemma LagsOneStep(lazy: Table, eager: Table, e: Event, now: UInt32, timeout: UInt32)
    requires LagsBehind(lazy, eager, now, timeout)
    requires e.Destroy? || now <= Reading(e) <= Stamp(e)
    ensures e.Use? ==> (Accepts(lazy, e, timeout) <==> Accepts(Swept(eager, e.judged, timeout), e, timeout))
    ensures LagsBehind(Apply(lazy, e, timeout), EagerApply(eager, e, timeout),
                       if e.Destroy? then now else Stamp(e), timeout)
  {
  }

  lemma {:induction false} EagerLags(run: seq<Event>, timeout: UInt32)
    requires ClockAdvances(run)
    ensures LagsBehind(After(run, timeout), EagerAfter(run, timeout), Latest(run), timeout)
    decreases |run|
  {
    if run == [] {
    } else {
      var n := |run| - 1;
      ClockOfPrefix(run, n);
      EagerLags(run[..n], timeout);
      LatestBound(run, n, n);
      LagsOneStep(After(run[..n], timeout), EagerAfter(run[..n], timeout), run[n], Latest(run[..n]), timeout);
    }
  }

  lemma SweptAcceptsSame(run: seq<Event>, e: Event, timeout: UInt32)
    requires e.Use? && ClockAdvances(run + [e])
    ensures Accepts(After(run, timeout), e, timeout) <==>
            Accepts(Swept(EagerAfter(run, timeout), e.judged, timeout), e, timeout)
  {
    var all, n := run + [e], |run|;
    assert all[..n] == run;
    ClockOfPrefix(all, n);
    EagerLags(run, timeout);
    LatestBound(all, n, n);
    LagsOneStep(After(run, timeout), EagerAfter(run, timeout), e, Latest(run), timeout);
  }

  // ---- The list of sessions ----

  datatype Id = Id(key: string, time: UInt32)

  function WithKey(key: string): Id -> bool {
    (id: Id) => id.key == key
  }

  ghost predicate ListAccepts(ids: seq<Id>, e: Event, timeout: UInt32) {
    var k := FirstWhere(ids, WithKey(e.key));
    e.Use? && k < |ids| && !Expired(ids[k].time, e.judged, timeout)
  }

  /** What an event does to the list: only the first session of a key is looked at. */
  ghost function ListApply(ids: seq<Id>, e: Event, timeout: UInt32): seq<Id> {
    var k := FirstWhere(ids, WithKey(e.key));
    match e
    case Create(key, made) => ids + [Id(key, made)]
    case Destroy(_) => if k < |ids| then RemovedAt(ids, k) else ids
    case Use(key, _, refreshed) =>
      if ListAccepts(ids, e, timeout) then ids[k := Id(key, refreshed)]
      else if k < |ids| then RemovedAt(ids, k)
      else ids
  }

  ghost function ListAfter(run: seq<Event>, timeout: UInt32): seq<Id> {
    if run == [] then []
    else ListApply(ListAfter(run[..|run| - 1], timeout), run[|run| - 1], timeout)
  }

  ghost function Keys(ids: seq<Id>): (keys: seq<string>)
    ensures |keys| == |ids| && forall i :: 0 <= i < |keys| ==> keys[i] == ids[i].key
  {
    seq(|ids|, i requires 0 <= i < |ids| => ids[i].key)
  }

  /** The table as a list without two entries of one key. */
  ghost predicate Represents(ids: seq<Id>, t: Table) {
    && Distinct(Keys(ids)) && Elements(Keys(ids)) == t.Keys
    && forall i :: 0 <= i < |ids| ==> ids[i].key in t && t[ids[i].key] == ids[i].time
  }

  lemma Appended(ids: seq<Id>, t: Table, id: Id)
    requires Represents(ids, t) && id.key !in t
    ensures Represents(ids + [id], t[id.key := id.time])
  {
    assert Keys(ids + [id]) == Keys(ids) + [id.key];
    assert id.key !in Elements(Keys(ids));
  }

  lemma Dropped(ids: seq<Id>, t: Table, at: nat)
    requires Represents(ids, t) && at < |ids|
    ensures Represents(RemovedAt(ids, at), t - {ids[at].key})
  {
    assert Keys(RemovedAt(ids, at)) == RemovedAt(Keys(ids), at);
    RemovedElements(Keys(ids), at);
  }

  lemma Refreshed(ids: seq<Id>, t: Table, at: nat, time: UInt32)
    requires Represents(ids, t) && at < |ids|
    ensures Represents(ids[at := Id(ids[at].key, time)], t[ids[at].key := time])
  {
    assert Keys(ids[at := Id(ids[at].key, time)]) == Keys(ids);
    assert Keys(ids)[at] == ids[at].key && forall i :: 0 <= i < |ids| ==> Keys(ids)[i] == ids[i].key;
  }

  lemma FoundIff(ids: seq<Id>, t: Table, key: string)
    requires Represents(ids, t)
    ensures var k := FirstWhere(ids, WithKey(key));
            (key in t <==> k < |ids|) && (k < |ids| ==> ids[k].key == key && ids[k].time == t[key])
  {
    var k := FirstWhere(ids, WithKey(key));
    assert k < |ids| ==> WithKey(key)(ids[k]);
    forall i | 0 <= i < k ensures Keys(ids)[i] != key {
      assert !WithKey(key)(ids[i]);
    }
  }

  lemma ListFollowsTable(ids: seq<Id>, t: Table, e: Event, timeout: UInt32)
    requires Represents(ids, t) && (e.Create? ==> e.key !in t)
    ensures ListAccepts(ids, e, timeout) <==> Accepts(t, e, timeout)
    ensures Represents(ListApply(ids, e, timeout), Apply(t, e, timeout))
  {
    var k := FirstWhere(ids, WithKey(e.key));
    FoundIff(ids, t, e.key);
    match e
    case Create(key, made) =>
      Appended(ids, t, Id(key, made));
    case Destroy(key) =>
      if k < |ids| {
        Dropped(ids, t, k);
      } else {
        assert t - {key} == t;
      }
    case Use(key, _, refreshed) =>
      if k == |ids| {
        assert t - {key} == t;
      } else if ListAccepts(ids, e, timeout) {
        Refreshed(ids, t, k, refreshed);
      } else {
        Dropped(ids, t, k);
      }
  }

  /** As long as created keys are new, the list behaves as the table does. */
  lemma {:induction false} ListRepresentsTable(run: seq<Event>, timeout: UInt32)
    requires KeysNew(run, timeout)
    ensures Represents(ListAfter(run, timeout), After(run, timeout))
    decreases |run|
  {
    if run == [] {
    } else {
      var n := |run| - 1;
      forall k | 0 <= k < n ensures run[..n][..k] == run[..k] {
      }
      ListRepresentsTable(run[..n], timeout);
      ListFollowsTable(ListAfter(run[..n], timeout), After(run[..n], timeout), run[n], timeout);
    }
  }

  /** isValid succeeds exactly if the key was created, not destroyed since, and no gap between
      successive accepted uses, this one included, exceeded the timeout. */
  lemma AcceptedIffAlive(run: seq<Event>, e: Event, timeout: UInt32)
    requires e.Use? && ClockAdvances(run + [e]) && KeysNew(run, timeout)
    ensures ListAccepts(ListAfter(run, timeout), e, timeout) <==> Alive(run + [e], e.key, timeout)
  {
    ListRepresentsTable(run, timeout);
    ListFollowsTable(ListAfter(run, timeout), After(run, timeout), e, timeout);
    TableAcceptsAlive(run, e, timeout);
  }

  /** Lazy expiry accepts and rejects the same uses as eager expiry. */
  lemma LazyRefinesEager(run: seq<Event>, e: Event, timeout: UInt32)
    requires e.Use? && ClockAdvances(run + [e]) && KeysNew(run, timeout)
    ensures ListAccepts(ListAfter(run, timeout), e, timeout) <==>
            Accepts(Swept(EagerAfter(run, timeout), e.judged, timeout), e, timeout)
  {
    ListRepresentsTable(run, timeout);
    ListFollowsTable(ListAfter(run, timeout), After(run, timeout), e, timeout);
    SweptAcceptsSame(run, e, timeout);
  }

  // ---- The code ----

  class Ssid {
    const key: string
    var time: UInt32

    constructor (key: string, time: UInt32)
      ensures this.key == key && this.time == time
    {
      this.key, this.time := key, time;
    }
  }

  /** The list's seeker. */
  predicate HasKey(ssid: Ssid, key: string) {
    ssid.key == key
  }

  ghost function IdsOf(ssids: seq<Ssid>): (ids: seq<Id>)
    reads ssids
    ensures |ids| == |ssids| && forall i :: 0 <= i < |ids| ==> ids[i] == Id(ssids[i].key, ssids[i].time)
  {
    seq(|ssids|, i requires 0 <= i < |ssids| reads ssids => Id(ssids[i].key, ssids[i].time))
  }

  lemma SoughtKey(ssids: seq<Ssid>, key: string)
    ensures FirstWhere(ssids, Sought(HasKey, key)) == FirstWhere(IdsOf(ssids), WithKey(key))
  {
    var k := FirstWhere(IdsOf(ssids), WithKey(key));
    forall i | 0 <= i < |ssids| ensures Sought(HasKey, key)(ssids[i]) <==> WithKey(key)(IdsOf(ssids)[i]) {
      assert HasKey(ssids[i], key) <==> ssids[i].key == key;
    }
    FirstWhereIs(ssids, Sought(HasKey, key), k);
  }

  lemma SsidAdded(ssids: seq<Ssid>, ssid: Ssid)
    ensures IdsOf(ssids + [ssid]) == IdsOf(ssids) + [Id(ssid.key, ssid.time)]
  {
  }

  lemma SsidTaken(ssids: seq<Ssid>, k: nat)
    requires Distinct(ssids) && k < |ssids|
    ensures Distinct(RemovedAt(ssids, k)) && IdsOf(RemovedAt(ssids, k)) == RemovedAt(IdsOf(ssids), k)
  {
  }

  class SessionStore {
    const list: List<Ssid, string>

    ghost predicate Valid()
      reads list, list.ring
    {
      list.Valid() && !list.locked && list.seeker == Some(HasKey) && Distinct(list.Contents())
    }

    ghost function Ssids(): seq<Ssid>
      requires Valid()
      reads list, list.ring
    {
      list.Contents()
    }

    ghost function Ids(): seq<Id>
      requires Valid()
      reads list, list.ring, Ssids()
    {
      IdsOf(Ssids())
    }

    constructor ()
      ensures Valid() && Ids() == [] && fresh(list) && fresh(list.Nodes())
    {
      list := new List<Ssid, string>();
      new;
      list.seeker := Some(HasKey);
    }

    method Create(key: string, now: UInt32)
      requires Valid()
      modifies list, list.Nodes()
      ensures Valid() && fresh(list.Nodes() - old(list.Nodes()))
      ensures forall timeout :: Ids() == ListApply(old(Ids()), Event.Create(key, now), timeout)
    {
      var ssid := new Ssid(key, now);
      Link(ssid);
    }

    method Link(ssid: Ssid)
      requires Valid() && ssid !in Ssids()
      modifies list, list.Nodes()
      ensures Valid() && fresh(list.Nodes() - old(list.Nodes()))
      ensures Ids() == old(Ids()) + [Id(ssid.key, ssid.time)]
    {
      SsidAdded(Ssids(), ssid);
      var r := list.Append(ssid);
    }

    method Find(key: string) returns (r: Option<Ssid>)
      requires Valid()
      modifies list`locked
      ensures Valid() && Ssids() == old(Ssids()) && Ids() == old(Ids())
      ensures var k := FirstWhere(Ids(), WithKey(key));
              r == if k < |Ids()| then Some(Ssids()[k]) else None
    {
      SoughtKey(Ssids(), key);
      r := list.Get(key);
    }

    method Remove(ssid: Ssid, ghost k: nat)
      requires Valid() && k < |Ssids()| && ssid == Ssids()[k]
      modifies list, list.Nodes()
      ensures Valid() && list.Nodes() <= old(list.Nodes())
      ensures Ids() == RemovedAt(old(Ids()), k)
    {
      ghost var was := Ssids();
      FirstWhereIs(was, Is(ssid), k);
      SsidTaken(was, k);
      var r := list.Remove(ssid);
      assert Ssids() == RemovedAt(was, k);
    }

    method Destroy(key: string) returns (ok: bool)
      requires Valid()
      modifies list, list.Nodes()
      ensures Valid() && list.Nodes() <= old(list.Nodes())
      ensures forall timeout :: Ids() == ListApply(old(Ids()), Event.Destroy(key), timeout)
      ensures ok <==> exists id :: id in old(Ids()) && id.key == key
    {
      ghost var k := FirstWhere(Ids(), WithKey(key));
      var ssid := Find(key);
      ok := ssid.Some?;
      if ok {
        Remove(ssid.value, k);
      }
    }

    /** An expired session is removed on the way. */
    method Get(key: string, timeout: UInt32, now: UInt32) returns (r: Option<Ssid>)
      requires Valid()
      modifies list, list.Nodes()
      ensures Valid() && list.Nodes() <= old(list.Nodes())
      ensures var k := FirstWhere(old(Ids()), WithKey(key));
              if k == |old(Ids())| then r == None && Ids() == old(Ids())
              else if Expired(old(Ids())[k].time, now, timeout) then r == None && Ids() == RemovedAt(old(Ids()), k)
              else Ssids() == old(Ssids()) && Ids() == old(Ids()) && r == Some(Ssids()[k])
    {
      ghost var k := FirstWhere(Ids(), WithKey(key));
      r := Find(key);
      if r.Some? && Expired(r.value.time, now, timeout) {
        Remove(r.value, k);
        r := None;
      }
    }

    method IsValid(key: string, timeout: UInt32, now: UInt32, later: UInt32) returns (ok: bool)
      requires Valid()
      modifies list, list.Nodes(), Ssids()
      ensures Valid() && list.Nodes() <= old(list.Nodes())
      ensures Ids() == ListApply(old(Ids()), Use(key, now, later), timeout)
      ensures ok <==> ListAccepts(old(Ids()), Use(key, now, later), timeout)
    {
      var ssid := Get(key, timeout, now);
      ok := ssid.Some?;
      if ok {
        Refresh(ssid.value, later, FirstWhere(Ids(), WithKey(key)));
      }
    }

    method Refresh(ssid: Ssid, now: UInt32, ghost k: nat)
      requires Valid() && k < |Ssids()| && ssid == Ssids()[k]
      modifies ssid`time
      ensures Valid() && Ssids() == old(Ssids()) && Ids() == old(Ids())[k := Id(ssid.key, now)]
    {
      ssid.time := now;
    }

    /** The server runs a command only for a valid session; creating one needs none. */
    method ServiceCall(creates: bool, key: string, timeout: UInt32, now: UInt32, later: UInt32)
      returns (served: bool)
      requires Valid()
      modifies list, list.Nodes(), Ssids()
      ensures Valid()
      ensures Ids() == if creates then old(Ids()) else ListApply(old(Ids()), Use(key, now, later), timeout)
      ensures served <==> creates || ListAccepts(old(Ids()), Use(key, now, later), timeout)
    {
      served := true;
      if !creates {
        served := IsValid(key, timeout, now, later);
      }
    }
  }
}
