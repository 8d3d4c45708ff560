/** Iterating a list while it changes: the abstract state that the list's contracts give an
    iteration, the run theorem, and the session shutdown loop of lib/ftm_server.c. */
module Iteration {
  import opened Sequences
  import opened LinkedList

  datatype Op<T> = Next | Remove(x: T) | Append(x: T)

  /** cursor counts the entries up to and including the iterator's; ended is set when a step
      reaches the sentinel. */
  datatype Walk<T> = Walk(contents: seq<T>, cursor: nat, yielded: seq<T>, ended: bool)

  function Start<T>(contents: seq<T>): Walk<T> {
    Walk(contents, 0, [], false)
  }

  ghost function Step<T>(w: Walk<T>, op: Op<T>): Walk<T> {
    match op
    case Next =>
      if w.cursor < |w.contents| then
        w.(cursor := w.cursor + 1, yielded := w.yielded + [w.contents[w.cursor]])
      else w.(cursor := 0, ended := true)
    case Remove(x) =>
      var k := FirstWhere(w.contents, Is(x));
      if k == |w.contents| then w
      else w.(contents := RemovedAt(w.contents, k), cursor := StepBack(w.cursor, k))
    case Append(x) => w.(contents := w.contents + [x])
  }

  /** A run of operations, up to the step that reports the end. */
  ghost function Run<T>(w: Walk<T>, ops: seq<Op<T>>): Walk<T>
    decreases |ops|
  {
    if ops == [] || w.ended then w else Run(Step(w, ops[0]), ops[1..])
  }

  /** Whatever is appended was never in the list before. */
  ghost predicate FreshAppends<T>(seen: set<T>, ops: seq<Op<T>>)
    decreases |ops|
  {
    ops != [] ==>
      match ops[0]
      case Append(x) => x !in seen && FreshAppends(seen + {x}, ops[1..])
      case _ => FreshAppends(seen, ops[1..])
  }

  /** The elements of s that lie in keep, in order. */
  ghost function Kept<T>(s: seq<T>, keep: set<T>): seq<T> {
    if s == [] then [] else (if s[0] in keep then [s[0]] else []) + Kept(s[1..], keep)
  }

  /** How many entries the iterator has passed. */
  ghost function Behind<T>(w: Walk<T>): nat {
    if w.ended then |w.contents| else w.cursor
  }

  /** What has been yielded and is still there is exactly what lies behind the iterator. */
  ghost predicate Faithful<T>(w: Walk<T>, seen: set<T>) {
    && Behind(w) <= |w.contents| && Distinct(w.contents) && Distinct(w.yielded)
    && Elements(w.contents) <= seen && Elements(w.yielded) <= seen
    && Kept(w.yielded, Elements(w.contents)) == w.contents[..Behind(w)]
  }

  lemma {:induction false} KeptAppend<T>(s: seq<T>, x: T, keep: set<T>)
    ensures Kept(s + [x], keep) == Kept(s, keep) + if x in keep then [x] else []
  {
    if s == [] {
      assert (s + [x])[1..] == [];
    } else {
      KeptAppend(s[1..], x, keep);
      assert (s + [x])[1..] == s[1..] + [x];
    }
  }

  lemma {:induction false} KeptSame<T>(s: seq<T>, a: set<T>, b: set<T>)
    requires forall x :: x in s ==> (x in a <==> x in b)
    ensures Kept(s, a) == Kept(s, b)
  {
    if s == [] {
    } else {
      KeptSame(s[1..], a, b);
    }
  }

  lemma {:induction false} KeptMembers<T>(s: seq<T>, keep: set<T>)
    ensures forall x :: x in Kept(s, keep) <==> x in s && x in keep
  {
    if s == [] {
    } else {
      KeptMembers(s[1..], keep);
      assert forall x :: x in s <==> x == s[0] || x in s[1..];
    }
  }

  lemma {:induction false} KeptTwice<T>(s: seq<T>, a: set<T>, b: set<T>)
    ensures Kept(Kept(s, a), b) == Kept(s, a * b)
  {
    if s == [] {
    } else {
      KeptTwice(s[1..], a, b);
      var rest := Kept(s[1..], a);
      assert ([s[0]] + rest)[1..] == rest;
      assert [] + rest == rest;
    }
  }

  lemma {:induction false} KeptAll<T>(s: seq<T>, keep: set<T>)
    requires forall x :: x in s ==> x in keep
    ensures Kept(s, keep) == s
  {
    if s == [] {
    } else {
      KeptAll(s[1..], keep);
    }
  }

  lemma {:induction false} KeptWithout<T>(s: seq<T>, keep: set<T>, k: nat)
    requires Distinct(s) && k < |s| && Elements(s) - {s[k]} <= keep && s[k] !in keep
    ensures Kept(s, keep) == RemovedAt(s, k)
  {
    if k == 0 {
      KeptAll(s[1..], keep);
    } else {
      KeptWithout(s[1..], keep, k - 1);
      assert RemovedAt(s, k) == [s[0]] + RemovedAt(s[1..], k - 1);
    }
  }

  lemma NextKeepsFaithful<T>(w: Walk<T>, seen: set<T>)
    requires Faithful(w, seen) && !w.ended
    ensures Faithful(Step(w, Next), seen)
  {
    if w.cursor < |w.contents| {
      var x := w.contents[w.cursor];
      KeptAppend(w.yielded, x, Elements(w.contents));
      KeptMembers(w.yielded, Elements(w.contents));
      assert x !in w.contents[..w.cursor];
      assert w.contents[..w.cursor + 1] == w.contents[..w.cursor] + [x];
    }
  }

  lemma RemoveKeepsFaithful<T>(w: Walk<T>, x: T, seen: set<T>)
    requires Faithful(w, seen) && !w.ended
    ensures Faithful(Step(w, Remove(x)), seen)
  {
    var c := w.contents;
    var k := FirstWhere(c, Is(x));
    if k < |c| {
      var c' := RemovedAt(c, k);
      RemovedElements(c, k);
      KeptTwice(w.yielded, Elements(c), Elements(c'));
      assert Elements(c) * Elements(c') == Elements(c');
      PrefixWithout(c, k, w.cursor);
    }
  }

  /** Dropping the k-th element's value from what lies behind the iterator. */
  lemma PrefixWithout<T>(c: seq<T>, k: nat, cursor: nat)
    requires Distinct(c) && k < |c| && cursor <= |c|
    ensures Kept(c[..cursor], Elements(RemovedAt(c, k))) == RemovedAt(c, k)[..StepBack(cursor, k)]
  {
    RemovedElements(c, k);
    var behind, rest := c[..cursor], RemovedAt(c, k);
    forall i | 0 <= i < |c| && i != k ensures c[i] in rest {
      assert c[i] in Elements(rest);
    }
    if k < cursor {
      KeptWithout(behind, Elements(rest), k);
      assert behind[..k] == c[..k] && behind[k + 1..] == c[k + 1..][..cursor - k - 1];
      assert RemovedAt(behind, k) == c[..k] + c[k + 1..][..cursor - k - 1] == rest[..cursor - 1];
    } else {
      KeptAll(behind, Elements(rest));
      assert behind == rest[..cursor];
    }
  }

  lemma AppendKeepsFaithful<T>(w: Walk<T>, x: T, seen: set<T>)
    requires Faithful(w, seen) && !w.ended && x !in seen
    ensures Faithful(Step(w, Append(x)), seen + {x})
  {
    KeptSame(w.yielded, Elements(w.contents), Elements(w.contents + [x]));
  }

  lemma {:induction false} RunKeepsFaithful<T>(w: Walk<T>, ops: seq<Op<T>>, seen: set<T>)
    requires Faithful(w, seen) && FreshAppends(seen, ops)
    ensures exists all :: Faithful(Run(w, ops), all)
    decreases |ops|
  {
    if ops == [] || w.ended {
      assert Faithful(Run(w, ops), seen);
    } else {
      match ops[0]
      case Next =>
        NextKeepsFaithful(w, seen);
        assert Run(w, ops) == Run(Step(w, Next), ops[1..]);
        RunKeepsFaithful(Step(w, Next), ops[1..], seen);
      case Remove(x) =>
        RemoveKeepsFaithful(w, x, seen);
        assert Run(w, ops) == Run(Step(w, Remove(x)), ops[1..]);
        RunKeepsFaithful(Step(w, Remove(x)), ops[1..], seen);
      case Append(x) =>
        AppendKeepsFaithful(w, x, seen);
        assert Run(w, ops) == Run(Step(w, Append(x)), ops[1..]);
        RunKeepsFaithful(Step(w, Append(x)), ops[1..], seen + {x});
    }
  }

  /** An iteration that reaches the end has yielded every element still present exactly once, in
      list order, however it was interleaved with removals and appends. */
  lemma IterationSurvivesChanges<T>(contents: seq<T>, ops: seq<Op<T>>)
    requires Distinct(contents) && FreshAppends(Elements(contents), ops)
    requires Run(Start(contents), ops).ended
    ensures var w := Run(Start(contents), ops);
            Distinct(w.yielded) && Kept(w.yielded, Elements(w.contents)) == w.contents
  {
    RunKeepsFaithful(Start(contents), ops, Elements(contents));
    var w := Run(Start(contents), ops);
    assert w.contents[..|w.contents|] == w.contents;
  }

  /** One operation on the heap list is one step of the walk. */
  method Perform<T(==), K>(list: List<T, K>, op: Op<T>, yielded: seq<T>) returns (more: seq<T>, ended: bool)
    requires list.Valid() && !list.locked && list.iterating && list.IteratorSafe()
    modifies list, list.Nodes()
    ensures list.Valid() && !list.locked && list.iterating && list.IteratorSafe()
    ensures fresh(list.Nodes() - old(list.Nodes()))
    ensures Walk(list.Contents(), list.cursor, more, ended)
         == Step(Walk(old(list.Contents()), old(list.cursor), yielded, false), op)
  {
    more, ended := yielded, false;
    match op {
      case Next =>
        var r, element := list.IteratorNext();
        if r == Ok {
          more := yielded + [element.value];
        } else {
          ended := true;
        }
      case Remove(x) =>
        var r := list.Remove(x);
      case Append(x) =>
        var r := list.Append(x);
    }
  }

  /** The heap list carries out the run: contents, iterator position and yields all agree. */
  method Drive<T(==), K>(list: List<T, K>, ops: seq<Op<T>>) returns (yielded: seq<T>, ended: bool)
    requires list.Valid() && !list.locked
    modifies list, list.Nodes()
    ensures list.Valid()
    ensures Walk(list.Contents(), list.cursor, yielded, ended) == Run(Start(old(list.Contents())), ops)
  {
    list.IteratorStart();
    yielded, ended := [], false;
    var i := 0;
    while i < |ops| && !ended
      invariant i <= |ops| && list.Valid() && !list.locked && list.iterating && list.IteratorSafe()
      invariant fresh(list.Nodes() - old(list.Nodes()))
      invariant Run(Walk(list.Contents(), list.cursor, yielded, ended), ops[i..])
             == Run(Start(old(list.Contents())), ops)
    {
      assert ops[i..][0] == ops[i] && ops[i..][1..] == ops[i + 1..];
      yielded, ended := Perform(list, ops[i], yielded);
      i := i + 1;
    }
    assert ended || ops[i..] == [];
  }

  class Session {
    var stop: bool
    var freed: bool

    constructor ()
      ensures !stop && !freed
    {
      stop, freed := false, false;
    }
  }

  /** Closing a session unlinks it from the server's list and releases it; releasing it twice
      would violate the precondition. */
  method DestroySession<K>(sessions: List<Session, K>, session: Session)
    requires sessions.Valid() && !sessions.locked && !session.freed && sessions.IteratorSafe()
    requires Distinct(sessions.Contents()) && session in sessions.Contents()
    modifies sessions, sessions.Nodes(), session`freed
    ensures sessions.Valid() && !sessions.locked && sessions.IteratorSafe() && session.freed
    ensures sessions.iterating == old(sessions.iterating) && sessions.Nodes() <= old(sessions.Nodes())
    ensures var k := FirstWhere(old(sessions.Contents()), Is(session));
            k < |old(sessions.Contents())| && old(sessions.Contents())[k] == session
            && sessions.Contents() == RemovedAt(old(sessions.Contents()), k)
            && sessions.cursor == StepBack(old(sessions.cursor), k)
  {
    var r := sessions.Remove(session);
    session.freed := true;
  }

  /** The body of the closing loop, with the iterator on the session being closed. */
  method CloseCurrent<K>(sessions: List<Session, K>, session: Session, ghost rest: seq<Session>)
    requires sessions.Valid() && !sessions.locked && sessions.IteratorSafe() && sessions.iterating
    requires sessions.cursor == 1 && sessions.Contents() == rest && rest != [] && rest[0] == session
    requires Distinct(rest) && !session.freed
    modifies sessions, sessions.Nodes(), session
    ensures sessions.Valid() && !sessions.locked && sessions.IteratorSafe() && sessions.iterating
    ensures sessions.cursor == 0 && sessions.Nodes() <= old(sessions.Nodes())
    ensures sessions.Contents() == rest[1..]
    ensures session.stop && session.freed
  {
    session.stop := true;
    FirstWhereIs(rest, Is(session), 0);
    DestroySession(sessions, session);
    assert RemovedAt(rest, 0) == rest[1..];
  }

  /** Of all sessions the first done are closed; the rest, still open, make up the list, and the
      iterator stands before them. */
  ghost predicate Closing<K>(sessions: List<Session, K>, all: seq<Session>, done: nat)
    reads sessions, sessions.ring, all
  {
    && sessions.Valid() && !sessions.locked && sessions.IteratorSafe() && sessions.iterating
    && sessions.cursor == 0 && Distinct(all)
    && done <= |all| && sessions.Contents() == all[done..]
    && (forall i :: 0 <= i < done ==> all[i].stop && all[i].freed)
    && (forall i :: done <= i < |all| ==> !all[i].freed)
  }

  method CloseNext<K>(sessions: List<Session, K>, ghost all: seq<Session>, ghost done: nat) returns (more: bool)
    requires Closing(sessions, all, done)
    modifies sessions, sessions.Nodes(), all
    ensures sessions.Nodes() <= old(sessions.Nodes())
    ensures more <==> done < |all|
    ensures more ==> Closing(sessions, all, done + 1)
    ensures !more ==> sessions.Valid() && sessions.Contents() == [] && forall s :: s in all ==> s.stop && s.freed
  {
    var r, element := sessions.IteratorNext();
    more := r == Ok;
    if more {
      assert element.value == all[done] && all[done..][1..] == all[done + 1..];
      CloseCurrent(sessions, element.value, all[done..]);
    }
  }

  /** The server's closing loop: each session is stopped and released exactly once. */
  method CloseSessions<K>(sessions: List<Session, K>, ghost all: seq<Session>)
    requires sessions.Valid() && !sessions.locked && all == sessions.Contents() && Distinct(all)
    requires forall s :: s in all ==> !s.freed
    modifies sessions, sessions.Nodes(), all
    ensures sessions.Valid() && sessions.Contents() == []
    ensures forall s :: s in all ==> s.stop && s.freed
  {
    sessions.IteratorStart();
    ghost var done := 0;
    assert all[0..] == all;
    var more := true;
    while more
      invariant sessions.Nodes() <= old(sessions.Nodes()) && done <= |all|
      invariant more ==> Closing(sessions, all, done)
      invariant !more ==> sessions.Valid() && sessions.Contents() == [] && forall s :: s in all ==> s.stop && s.freed
      decreases more, |all| - done
    {
      more := CloseNext(sessions, all, done);
      done := if more then done + 1 else done;
    }
  }
}
