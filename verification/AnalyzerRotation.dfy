/** The analyzer's round robin (lib/ftm_analyzer.c): each pass looks at the head of the list; if
    its timer has expired the camera is analysed and moves to the end. */
module AnalyzerRotation {
  import opened Sequences
  import opened RegistryHandlers

  type Id = string

  function Rotated(list: seq<Id>): (r: seq<Id>)
    requires list != []
    ensures |r| == |list|
  {
    list[1..] + [list[0]]
  }

  /** The list after some passes; the flags say whether the head's timer had expired. */
  ghost function ListAfter(list: seq<Id>, expired: seq<bool>): (r: seq<Id>)
    requires list != []
    ensures |r| == |list|
    decreases |expired|
  {
    if expired == [] then list else ListAfter(if expired[0] then Rotated(list) else list, expired[1..])
  }

  /** The cameras analysed over some passes, in order. */
  ghost function Analysed(list: seq<Id>, expired: seq<bool>): seq<Id>
    requires list != []
    decreases |expired|
  {
    if expired == [] then []
    else if expired[0] then [list[0]] + Analysed(Rotated(list), expired[1..])
    else Analysed(list, expired[1..])
  }

  class Rounds {
    const analyzer: Analyzer
    /** What has been analysed so far. */
    var log: seq<Id>

    constructor (analyzer: Analyzer)
      ensures this.analyzer == analyzer && log == []
    {
      this.analyzer, log := analyzer, [];
    }

    /** One pass. */
    method Process(expired: bool)
      requires analyzer.Valid()
      modifies this, analyzer.list, analyzer.list.Nodes()
      ensures analyzer.Valid() && fresh(analyzer.list.Nodes() - old(analyzer.list.Nodes()))
      ensures var list := old(analyzer.Contents());
              if expired && list != []
              then analyzer.Contents() == Rotated(list) && log == old(log) + [list[0]]
              else analyzer.Contents() == list && log == old(log)
    {
      var head := analyzer.list.GetAt(0);
      if head.Some? && expired {
        log := log + [head.value];
        analyzer.Rotate();
      }
    }

    /** A sequence of passes. */
    method ProcessAll(expired: seq<bool>)
      requires analyzer.Valid() && analyzer.Contents() != []
      modifies this, analyzer.list, analyzer.list.Nodes()
      ensures analyzer.Valid() && analyzer.Contents() == ListAfter(old(analyzer.Contents()), expired)
      ensures log == old(log) + Analysed(old(analyzer.Contents()), expired)
    {
      ghost var start, logged := analyzer.Contents(), log;
      for i := 0 to |expired|
        invariant analyzer.Valid() && fresh(analyzer.list.Nodes() - old(analyzer.list.Nodes()))
        invariant analyzer.Contents() != []
        invariant ListAfter(analyzer.Contents(), expired[i..]) == ListAfter(start, expired)
        invariant log + Analysed(analyzer.Contents(), expired[i..]) == logged + Analysed(start, expired)
      {
        PassStep(analyzer.Contents(), expired, i, log);
        Process(expired[i]);
      }
    }
  }

  lemma PassStep(list: seq<Id>, expired: seq<bool>, i: nat, log: seq<Id>)
    requires list != [] && i < |expired|
    ensures var next := if expired[i] then Rotated(list) else list;
            && ListAfter(list, expired[i..]) == ListAfter(next, expired[i + 1..])
            && log + Analysed(list, expired[i..])
            == (if expired[i] then log + [list[0]] else log) + Analysed(next, expired[i + 1..])
  {
    assert expired[i..][1..] == expired[i + 1..];
  }

  /** As many analyses as there are cameras go through the list in order. */
  lemma {:induction false} FirstRound(list: seq<Id>, expired: seq<bool>, n: nat)
    requires list != [] && n <= |list| && n <= |Analysed(list, expired)|
    ensures Analysed(list, expired)[..n] == list[..n]
    decreases |expired|
  {
    if n == 0 {
    } else {
      if expired[0] {
        FirstRound(Rotated(list), expired[1..], n - 1);
        var rest := Analysed(Rotated(list), expired[1..]);
        assert Analysed(list, expired)[..n] == [list[0]] + rest[..n - 1];
        assert [list[0]] + Rotated(list)[..n - 1] == list[..n];
      } else {
        FirstRound(list, expired[1..], n);
      }
    }
  }

  /** The analyses from the k-th on are those of a list that is a rearrangement of the first. */
  lemma {:induction false} LaterRounds(list: seq<Id>, expired: seq<bool>, k: nat)
      returns (later: seq<Id>, rest: seq<bool>)
    requires list != [] && Distinct(list) && k <= |Analysed(list, expired)|
    ensures |later| == |list| && Distinct(later) && multiset(later) == multiset(list)
    ensures Analysed(list, expired)[k..] == Analysed(later, rest)
    decreases |expired|
  {
    if k == 0 {
      later, rest := list, expired;
    } else if expired[0] {
      RotatedFacts(list);
      later, rest := LaterRounds(Rotated(list), expired[1..], k - 1);
      assert Analysed(list, expired)[k..] == Analysed(Rotated(list), expired[1..])[k - 1..];
    } else {
      later, rest := LaterRounds(list, expired[1..], k);
    }
  }

  lemma RotatedFacts(list: seq<Id>)
    requires list != [] && Distinct(list)
    ensures Distinct(Rotated(list)) && multiset(Rotated(list)) == multiset(list)
  {
    assert list == [list[0]] + list[1..];
  }

  lemma NoneTwiceWithinARound(list: seq<Id>, expired: seq<bool>, i: nat, j: nat)
    requires list != [] && Distinct(list) && i < j < |Analysed(list, expired)| && j - i < |list|
    ensures Analysed(list, expired)[i] != Analysed(list, expired)[j]
  {
    var t := Analysed(list, expired);
    var later, rest := LaterRounds(list, expired, i);
    FirstRound(later, rest, j - i + 1);
    var round := t[i..][..j - i + 1];
    assert round == later[..j - i + 1];
    assert round[0] == t[i] && round[j - i] == t[j];
  }

  lemma AgainWithinARound(list: seq<Id>, expired: seq<bool>, i: nat)
    requires list != [] && Distinct(list) && i + |list| < |Analysed(list, expired)|
    ensures exists x :: i < x <= i + |list| && Analysed(list, expired)[x] == Analysed(list, expired)[i]
  {
    var t, n := Analysed(list, expired), |list|;
    var later, rest := LaterRounds(list, expired, i);
    FirstRound(later, rest, 1);
    assert t[i] == t[i..][..1][0] == later[0];
    assert t[i] in multiset(list) by { assert later[0] in multiset(later); }
    var next, rest' := LaterRounds(list, expired, i + 1);
    FirstRound(next, rest', n);
    assert t[i + 1..][..n] == next[..n] == next;
    assert t[i] in next by { assert t[i] in multiset(next); }
    var y :| 0 <= y < n && next[y] == t[i];
    assert t[i + 1 + y] == t[i + 1..][..n][y];
  }

  /** Between two successive analyses of one camera every other camera is analysed exactly once,
      whatever the timers do. */
  lemma EveryOtherOnce(list: seq<Id>, expired: seq<bool>, i: nat, j: nat)
    requires list != [] && Distinct(list)
    requires i < j < |Analysed(list, expired)| && Analysed(list, expired)[i] == Analysed(list, expired)[j]
    requires forall x :: i < x < j ==> Analysed(list, expired)[x] != Analysed(list, expired)[i]
    ensures multiset(Analysed(list, expired)[i..j]) == multiset(list)
  {
    var t, n := Analysed(list, expired), |list|;
    if j - i < n {
      NoneTwiceWithinARound(list, expired, i, j);
    } else if j - i > n {
      AgainWithinARound(list, expired, i);
    } else {
      var later, rest := LaterRounds(list, expired, i);
      FirstRound(later, rest, n);
      assert t[i..j] == t[i..][..n] == later[..n] == later;
    }
  }
}
