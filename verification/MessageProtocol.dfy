/** Threads sharing one message queue of lib/ftm_msgq.c, as a transition system. A step is one
    locked list call or one semaphore call: a push appends, then posts; a pop waits, reads the
    head, then removes the message it read, and posts again if it came away empty-handed. */
module MessageProtocol {
  import opened Sequences
  import opened LinkedList

  type Thread = nat

  datatype State<M> = State(
    queue: seq<M>,
    lock: nat,
    posting: set<Thread>,       // appended, about to post
    granted: set<Thread>,       // waited, about to read the head
    holding: map<Thread, M>,    // read the head, about to remove it
    returning: set<Thread>,     // came away empty-handed, about to post
    appended: seq<M>,
    delivered: seq<M>
  )

  datatype Step<M> =
    | Append(p: Thread, m: M)
    | Post(p: Thread)
    | Wait(c: Thread)
    | ReadHead(c: Thread)
    | Take(c: Thread)
    | Return(c: Thread)

  function Initial<M>(): State<M> {
    State([], 0, {}, {}, map[], {}, [], [])
  }

  predicate Enabled<M>(s: State<M>, step: Step<M>) {
    match step
    case Append(p, m) => p !in s.posting
    case Post(p) => p in s.posting
    case Wait(c) => s.lock > 0 && c !in s.granted && c !in s.holding && c !in s.returning
    case ReadHead(c) => c in s.granted
    case Take(c) => c in s.holding
    case Return(c) => c in s.returning
  }

  ghost function Apply<M>(s: State<M>, step: Step<M>): State<M>
    requires Enabled(s, step)
  {
    match step
    case Append(p, m) =>
      s.(queue := s.queue + [m], appended := s.appended + [m], posting := s.posting + {p})
    case Post(p) => s.(posting := s.posting - {p}, lock := s.lock + 1)
    case Wait(c) => s.(lock := s.lock - 1, granted := s.granted + {c})
    case ReadHead(c) =>
      if s.queue == [] then s.(granted := s.granted - {c}, returning := s.returning + {c})
      else s.(granted := s.granted - {c}, holding := s.holding[c := s.queue[0]])
    case Take(c) =>
      var k := FirstWhere(s.queue, Is(s.holding[c]));
      if k == |s.queue| then s.(holding := s.holding - {c}, returning := s.returning + {c})
      else s.(holding := s.holding - {c}, queue := RemovedAt(s.queue, k), delivered := s.delivered + [s.queue[k]])
    case Return(c) => s.(returning := s.returning - {c}, lock := s.lock + 1)
  }

  /** The steps can be taken in order from s. */
  ghost predicate Runs<M>(s: State<M>, steps: seq<Step<M>>)
    decreases |steps|
  {
    steps != [] ==> Enabled(s, steps[0]) && Runs(Apply(s, steps[0]), steps[1..])
  }

  ghost function After<M>(s: State<M>, steps: seq<Step<M>>): State<M>
    requires Runs(s, steps)
    decreases |steps|
  {
    if steps == [] then s else After(Apply(s, steps[0]), steps[1..])
  }

  // ---- Any number of producers and consumers ----

  /** Each queued message is matched by a post still to come, a unit of the semaphore, or a
      consumer that has one in hand. */
  ghost predicate Counted<M>(s: State<M>) {
    && s.granted !! s.holding.Keys && s.granted !! s.returning && s.holding.Keys !! s.returning
    && |s.queue| == s.lock + |s.posting| + |s.granted| + |s.holding.Keys| + |s.returning|
  }

  lemma StepKeepsCounted<M>(s: State<M>, step: Step<M>)
    requires Counted(s) && Enabled(s, step)
    ensures Counted(Apply(s, step))
  {
    match step
    case Append(p, m) =>
    case Post(p) =>
    case Wait(c) =>
    case ReadHead(c) =>
      ReadHeadKeepsCounted(s, c);
    case Take(c) =>
      TakeKeepsCounted(s, c);
    case Return(c) =>
  }

  lemma ReadHeadKeepsCounted<M>(s: State<M>, c: Thread)
    requires Counted(s) && c in s.granted
    ensures Counted(Apply(s, ReadHead(c)))
  {
  }

  lemma TakeKeepsCounted<M>(s: State<M>, c: Thread)
    requires Counted(s) && c in s.holding
    ensures Counted(Apply(s, Take(c)))
  {
  }

  /** A consumer that got past the semaphore finds a message at the head. */
  lemma GrantedSeesMessage<M>(s: State<M>, c: Thread)
    requires Counted(s) && c in s.granted
    ensures s.queue != []
  {
  }

  /** The counts match at every point of every run. */
  lemma {:induction false} RunKeepsCounted<M>(s: State<M>, steps: seq<Step<M>>)
    requires Counted(s) && Runs(s, steps)
    ensures Counted(After(s, steps))
    decreases |steps|
  {
    if steps == [] {
    } else {
      StepKeepsCounted(s, steps[0]);
      RunKeepsCounted(Apply(s, steps[0]), steps[1..]);
    }
  }

  /** Delivered messages followed by queued ones are the appended ones, in order; and whatever a
      consumer holds is either still the head or was delivered by another consumer. */
  ghost predicate InOrder<M>(s: State<M>) {
    && s.delivered + s.queue == s.appended
    && forall c :: c in s.holding ==> s.holding[c] in s.delivered || (s.queue != [] && s.holding[c] == s.queue[0])
  }

  lemma {:induction false} AppendedGrows<M>(s: State<M>, steps: seq<Step<M>>)
    requires Runs(s, steps)
    ensures s.appended <= After(s, steps).appended
    decreases |steps|
  {
    if steps == [] {
    } else {
      AppendedGrows(Apply(s, steps[0]), steps[1..]);
    }
  }

  lemma TakeKeepsInOrder<M>(s: State<M>, c: Thread)
    requires InOrder(s) && Distinct(s.appended) && c in s.holding
    ensures InOrder(Apply(s, Take(c)))
  {
    var m := s.holding[c];
    var k := FirstWhere(s.queue, Is(m));
    if k < |s.queue| {
      assert s.appended[|s.delivered| + k] == m;
      forall j | 0 <= j < |s.delivered| ensures s.delivered[j] != m {
        assert s.appended[j] == s.delivered[j];
      }
      assert k == 0;
      var s' := Apply(s, Take(c));
      assert s'.delivered + s'.queue == s.delivered + s.queue;
      forall d | d in s'.holding
        ensures s'.holding[d] in s'.delivered || (s'.queue != [] && s'.holding[d] == s'.queue[0])
      {
        assert s.holding[d] in s.delivered || s.holding[d] == s.queue[0];
      }
    }
  }

  lemma StepKeepsInOrder<M>(s: State<M>, step: Step<M>)
    requires InOrder(s) && Enabled(s, step) && Distinct(s.appended)
    ensures InOrder(Apply(s, step))
  {
    match step
    case Append(p, m) =>
      assert s.delivered + (s.queue + [m]) == s.appended + [m];
    case Take(c) =>
      TakeKeepsInOrder(s, c);
    case _ =>
  }

  /** With any number of consumers: every message is delivered at most once and in append order,
      as long as no two pushes carry the same message pointer. */
  lemma {:induction false} RunKeepsInOrder<M>(s: State<M>, steps: seq<Step<M>>)
    requires InOrder(s) && Runs(s, steps) && Distinct(After(s, steps).appended)
    ensures InOrder(After(s, steps))
    decreases |steps|
  {
    if steps == [] {
    } else {
      AppendedGrows(s, steps);
      StepKeepsInOrder(s, steps[0]);
      RunKeepsInOrder(Apply(s, steps[0]), steps[1..]);
    }
  }

  // ---- One consumer ----

  /** What the code relies on: a single consumer holds the head it read, and never comes away
      empty-handed. No assumption on the messages is needed. */
  ghost predicate Single<M>(s: State<M>, c: Thread) {
    && s.granted <= {c} && s.holding.Keys <= {c} && s.returning == {}
    && s.delivered + s.queue == s.appended
    && (c in s.holding ==> s.queue != [] && s.holding[c] == s.queue[0])
  }

  /** Only these threads pop. */
  ghost predicate PopsBy<M>(steps: seq<Step<M>>, consumers: set<Thread>) {
    forall i :: 0 <= i < |steps| ==> (steps[i].Wait? ==> steps[i].c in consumers)
  }

  lemma StepKeepsSingle<M>(s: State<M>, step: Step<M>, c: Thread)
    requires Counted(s) && Single(s, c) && Enabled(s, step) && (step.Wait? ==> step.c == c)
    ensures Single(Apply(s, step), c)
  {
  }

  /** Over every run with many producers and one consumer, a pop that got past the semaphore
      never fails, and delivery is first in, first out, exactly once. */
  lemma {:induction false} RunKeepsSingle<M>(s: State<M>, steps: seq<Step<M>>, c: Thread)
    requires Counted(s) && Single(s, c) && Runs(s, steps) && PopsBy(steps, {c})
    ensures Counted(After(s, steps)) && Single(After(s, steps), c)
    decreases |steps|
  {
    if steps == [] {
    } else {
      StepKeepsCounted(s, steps[0]);
      StepKeepsSingle(s, steps[0], c);
      assert PopsBy(steps[1..], {c});
      RunKeepsSingle(Apply(s, steps[0]), steps[1..], c);
    }
  }

  lemma OneConsumerIsFifo<M>(steps: seq<Step<M>>, c: Thread)
    requires Runs(Initial(), steps) && PopsBy(steps, {c})
    ensures var s := After(Initial<M>(), steps);
            && s.returning == {}
            && s.delivered + s.queue == s.appended
            && |s.queue| == s.lock + |s.posting| + (if c in s.granted || c in s.holding then 1 else 0)
  {
    RunKeepsSingle(Initial(), steps, c);
    var s := After(Initial<M>(), steps);
    assert s.granted == {} || s.granted == {c};
    assert s.holding.Keys == {} || s.holding.Keys == {c};
  }

  // ---- Two consumers ----

  lemma {:induction false} RunExtend<M>(s: State<M>, steps: seq<Step<M>>, step: Step<M>)
    requires Runs(s, steps) && Enabled(After(s, steps), step)
    ensures Runs(s, steps + [step]) && After(s, steps + [step]) == Apply(After(s, steps), step)
    decreases |steps|
  {
    if steps == [] {
      assert [step][1..] == [];
    } else {
      RunExtend(Apply(s, steps[0]), steps[1..], step);
      assert (steps + [step])[1..] == steps[1..] + [step];
    }
  }

  /** Some run in which only these consumers pop ends in s. */
  ghost predicate Reachable<M(!new)>(s: State<M>, consumers: set<Thread>) {
    exists steps :: Runs(Initial(), steps) && PopsBy(steps, consumers) && After(Initial(), steps) == s
  }

  lemma Then<M(!new)>(s: State<M>, step: Step<M>, consumers: set<Thread>) returns (s': State<M>)
    requires Reachable(s, consumers) && Enabled(s, step) && (step.Wait? ==> step.c in consumers)
    ensures s' == Apply(s, step) && Reachable(s', consumers)
  {
    var steps :| Runs(Initial(), steps) && PopsBy(steps, consumers) && After(Initial(), steps) == s;
    RunExtend(Initial(), steps, step);
    assert PopsBy(steps + [step], consumers);
    s' := Apply(s, step);
  }

  lemma InitialReachable<M(!new)>(consumers: set<Thread>)
    ensures Reachable(Initial<M>(), consumers)
  {
    var none: seq<Step<M>> := [];
    assert Runs(Initial<M>(), none) && PopsBy(none, consumers) && After(Initial<M>(), none) == Initial<M>();
  }

  /** Two messages, announced. */
  lemma TwoAnnounced(consumers: set<Thread>) returns (s: State<nat>)
    ensures Reachable(s, consumers) && s == State([5, 6], 2, {}, {}, map[], {}, [5, 6], [])
  {
    InitialReachable<nat>(consumers);
    s := Then(Initial(), Append(0, 5), consumers);
    s := Then(s, Post(0), consumers);
    s := Then(s, Append(0, 6), consumers);
    s := Then(s, Post(0), consumers);
  }

  /** Two consumers that read the same head. */
  lemma BothHoldTheHead(c: Thread, d: Thread, consumers: set<Thread>) returns (s: State<nat>)
    requires c != d && {c, d} <= consumers
    ensures Reachable(s, consumers) && s == State([5, 6], 0, {}, {}, map[c := 5, d := 5], {}, [5, 6], [])
  {
    s := TwoAnnounced(consumers);
    s := Then(s, Wait(c), consumers);
    s := Then(s, Wait(d), consumers);
    s := Then(s, ReadHead(c), consumers);
    s := Then(s, ReadHead(d), consumers);
  }

  /** One of them has removed it. */
  lemma OneTookTheHead(c: Thread, d: Thread, consumers: set<Thread>) returns (s: State<nat>)
    requires c != d && {c, d} <= consumers
    ensures Reachable(s, consumers) && s == State([6], 0, {}, {}, map[d := 5], {}, [5, 6], [5])
  {
    s := BothHoldTheHead(c, d, consumers);
    s := Then(s, Take(c), consumers);
  }

  /** Of any two consumers one can come away empty-handed although a message is waiting. */
  lemma TwoConsumersCanMiss(c: Thread, d: Thread, consumers: set<Thread>) returns (s: State<nat>)
    requires c != d && {c, d} <= consumers
    ensures Reachable(s, consumers) && s.returning == {d} && s.queue == [6]
  {
    s := OneTookTheHead(c, d, consumers);
    s := Then(s, Take(d), consumers);
  }

  /** With a recycled message pointer order is lost too: the second consumer removes the new
      message from behind the one that was waiting. */
  lemma RecycledPointerOvertakes(c: Thread, d: Thread, consumers: set<Thread>) returns (s: State<nat>)
    requires c != d && {c, d} <= consumers
    ensures Reachable(s, consumers) && s.appended == [5, 6, 5] && s.delivered == [5, 5] && s.queue == [6]
  {
    s := OneTookTheHead(c, d, consumers);
    s := Then(s, Append(0, 5), consumers);
    assert s.queue == [6, 5];
    FirstWhereIs(s.queue, Is(5), 1);
    s := Then(s, Take(d), consumers);
  }

  lemma AtMostOneIsSafe<M(!new)>(s: State<M>, consumers: set<Thread>)
    requires Reachable(s, consumers) && |consumers| <= 1
    ensures s.returning == {} && s.delivered + s.queue == s.appended
  {
    var steps: seq<Step<M>> :|
      Runs(Initial(), steps) && PopsBy(steps, consumers) && After(Initial(), steps) == s;
    var c := if consumers == {} then 0 else var x :| x in consumers; x;
    if consumers != {} { assert |consumers - {c}| == 0; }
    assert PopsBy(steps, {c});
    OneConsumerIsFifo(steps, c);
  }

  /** Pops that never come away empty-handed, and delivery in order whatever the messages, hold
      over every run exactly if at most one thread pops. */
  lemma OneConsumerIff(consumers: set<Thread>)
    ensures (forall s: State<nat> :: Reachable(s, consumers) ==> s.returning == {}) <==> |consumers| <= 1
    ensures (forall s: State<nat> :: Reachable(s, consumers) ==> s.delivered + s.queue == s.appended)
            <==> |consumers| <= 1
  {
    if |consumers| <= 1 {
      forall s: State<nat> | Reachable(s, consumers)
        ensures s.returning == {} && s.delivered + s.queue == s.appended
      {
        AtMostOneIsSafe(s, consumers);
      }
    } else {
      var c :| c in consumers;
      assert |consumers - {c}| > 0;
      var d :| d in consumers - {c};
      var missed := TwoConsumersCanMiss(c, d, consumers);
      var overtaken := RecycledPointerOvertakes(c, d, consumers);
      assert (overtaken.delivered + overtaken.queue)[1] != overtaken.appended[1];
    }
  }
}
