/** The exchange sort of captured packets in lib/ftm_analyzer.c. The outer loop reads the header
    of packet i once; the inner loop keeps comparing that header even after packet i was swapped
    away. */
module PacketSort {

  /** A captured packet: its protocol number and whatever else it carries. */
  datatype Packet<P> = Packet(protocol: nat, payload: P)

  function Swapped<P>(s: seq<Packet<P>>, i: nat, j: nat): (r: seq<Packet<P>>)
    requires i < |s| && j < |s|
    ensures |r| == |s|
  {
    s[i := s[j]][j := s[i]]
  }

  /** The inner loop from j on, with the protocol that was read before it started. */
  ghost function Inner<P>(s: seq<Packet<P>>, i: nat, j: nat, stale: nat): (r: seq<Packet<P>>)
    requires i < j <= |s|
    ensures |r| == |s|
    decreases |s| - j
  {
    if j == |s| then s
    else Inner(if stale > s[j].protocol then Swapped(s, i, j) else s, i, j + 1, stale)
  }

  ghost function Outer<P>(s: seq<Packet<P>>, i: nat): (r: seq<Packet<P>>)
    requires i <= |s|
    ensures |r| == |s|
    decreases |s| - i
  {
    if i == |s| then s else Outer(Inner(s, i, i + 1, s[i].protocol), i + 1)
  }

  ghost function Exchanged<P>(s: seq<Packet<P>>): (r: seq<Packet<P>>)
    ensures |r| == |s|
  {
    Outer(s, 0)
  }

  ghost predicate Sorted<P>(s: seq<Packet<P>>) {
    forall i, j :: 0 <= i < j < |s| ==> s[i].protocol <= s[j].protocol
  }

  ghost predicate DrawnFrom<P>(s: seq<Packet<P>>, protocols: set<nat>) {
    forall i :: 0 <= i < |s| ==> s[i].protocol in protocols
  }

  method Exchange<P>(packets: array<Packet<P>>, count: nat)
    requires count <= packets.Length
    modifies packets
    ensures packets[..count] == Exchanged(old(packets[..count]))
    ensures packets[count..] == old(packets[count..])
  {
    ghost var start := packets[..count];
    for i := 0 to count
      invariant Outer(packets[..count], i) == Exchanged(start)
      invariant packets[count..] == old(packets[count..])
    {
      var header := packets[i];
      ghost var before := packets[..count];
      for j := i + 1 to count
        invariant Inner(packets[..count], i, j, header.protocol) == Inner(before, i, i + 1, header.protocol)
        invariant packets[count..] == old(packets[count..])
      {
        var other := packets[j];
        if header.protocol > other.protocol {
          ghost var was := packets[..count];
          packets[i], packets[j] := packets[j], packets[i];
          assert packets[..count] == Swapped(was, i, j);
        }
      }
    }
  }

  // ---- Permutation ----

  lemma SwapKeepsMultiset<P>(s: seq<Packet<P>>, i: nat, j: nat)
    requires i < |s| && j < |s|
    ensures multiset(Swapped(s, i, j)) == multiset(s)
  {
  }

  lemma {:induction false} InnerKeepsMultiset<P>(s: seq<Packet<P>>, i: nat, j: nat, stale: nat)
    requires i < j <= |s|
    ensures multiset(Inner(s, i, j, stale)) == multiset(s)
    decreases |s| - j
  {
    if j == |s| {
    } else {
      var t := if stale > s[j].protocol then Swapped(s, i, j) else s;
      SwapKeepsMultiset(s, i, j);
      InnerKeepsMultiset(t, i, j + 1, stale);
      assert Inner(s, i, j, stale) == Inner(t, i, j + 1, stale);
    }
  }

  lemma {:induction false} OuterKeepsMultiset<P>(s: seq<Packet<P>>, i: nat)
    requires i <= |s|
    ensures multiset(Outer(s, i)) == multiset(s)
    decreases |s| - i
  {
    if i == |s| {
    } else {
      InnerKeepsMultiset(s, i, i + 1, s[i].protocol);
      OuterKeepsMultiset(Inner(s, i, i + 1, s[i].protocol), i + 1);
    }
  }

  // ---- Two protocols ----

  /** Up to i the sequence is sorted, and nothing later is smaller. */
  ghost predicate SettledTo<P>(s: seq<Packet<P>>, i: nat)
    requires i <= |s|
  {
    forall x, y :: 0 <= x < i && x < y < |s| ==> s[x].protocol <= s[y].protocol
  }

  /** Swapping two later packets leaves what was settled alone. */
  lemma SwapKeepsSettled<P>(s: seq<Packet<P>>, i: nat, j: nat, protocols: set<nat>)
    requires i < j < |s| && SettledTo(s, i) && DrawnFrom(s, protocols)
    ensures SettledTo(Swapped(s, i, j), i) && DrawnFrom(Swapped(s, i, j), protocols)
  {
  }

  /** With two values, packet i is a minimum of what has been looked at: either it already carries
      the smaller protocol, or nothing smaller has been seen. */
  lemma {:induction false} InnerSelects<P>(s: seq<Packet<P>>, i: nat, j: nat, stale: nat, lo: nat, hi: nat)
    requires i < j <= |s| && lo <= hi && DrawnFrom(s, {lo, hi}) && SettledTo(s, i) && stale in {lo, hi}
    requires forall x :: i <= x < j ==> s[i].protocol <= s[x].protocol
    requires stale == lo ==> s[i].protocol == lo
    ensures var r := Inner(s, i, j, stale); DrawnFrom(r, {lo, hi}) && SettledTo(r, i + 1)
    decreases |s| - j
  {
    if j == |s| {
    } else {
      var t := if stale > s[j].protocol then Swapped(s, i, j) else s;
      SwapKeepsSettled(s, i, j, {lo, hi});
      assert stale > s[j].protocol ==> t[i].protocol == lo;
      InnerSelects(t, i, j + 1, stale, lo, hi);
      assert Inner(s, i, j, stale) == Inner(t, i, j + 1, stale);
    }
  }

  lemma {:induction false} OuterSorts<P>(s: seq<Packet<P>>, i: nat, lo: nat, hi: nat)
    requires i <= |s| && lo <= hi && DrawnFrom(s, {lo, hi}) && SettledTo(s, i)
    ensures Sorted(Outer(s, i))
    decreases |s| - i
  {
    if i == |s| {
    } else {
      InnerSelects(s, i, i + 1, s[i].protocol, lo, hi);
      OuterSorts(Inner(s, i, i + 1, s[i].protocol), i + 1, lo, hi);
    }
  }

  /** What the analyzer relies on: the capture filter admits two protocols (1 and 6), and for any
      two the loop leaves a sorted permutation. */
  lemma TwoProtocolsSort<P>(s: seq<Packet<P>>, lo: nat, hi: nat)
    requires lo <= hi && DrawnFrom(s, {lo, hi})
    ensures Sorted(Exchanged(s)) && multiset(Exchanged(s)) == multiset(s)
  {
    OuterSorts(s, 0, lo, hi);
    OuterKeepsMultiset(s, 0);
  }

  // ---- Three protocols ----

  /** With a third value the stale header shows: the largest first, then ascending, comes out
      unsorted. */
  lemma ThreeProtocolsFail(a: nat, b: nat, c: nat)
    requires a < b < c
    ensures var s := [Packet(c, 0), Packet(a, 0), Packet(b, 0)];
            DrawnFrom(s, {a, b, c}) && !Sorted(Exchanged(s))
  {
    var x, y, z := Packet(a, 0), Packet(b, 0), Packet(c, 0);
    var s := [z, x, y];
    assert Swapped(s, 0, 1) == [x, z, y];
    assert Swapped([x, z, y], 0, 2) == [y, z, x];
    assert Inner(s, 0, 1, c) == Inner([x, z, y], 0, 2, c) == Inner([y, z, x], 0, 3, c) == [y, z, x];
    assert Swapped([y, z, x], 1, 2) == [y, x, z];
    assert Inner([y, z, x], 1, 2, c) == Inner([y, x, z], 1, 3, c) == [y, x, z];
    assert Outer(s, 0) == Outer([y, z, x], 1) == Outer([y, x, z], 2) == Outer([y, x, z], 3);
    assert Exchanged(s)[0].protocol > Exchanged(s)[1].protocol;
  }

  /** The loop sorts every capture over a set of protocols exactly if the set has at most two. */
  lemma SortsIffAtMostTwo(protocols: set<nat>)
    ensures (forall s: seq<Packet<int>> :: DrawnFrom(s, protocols) ==> Sorted(Exchanged(s))) <==> |protocols| <= 2
  {
    if |protocols| <= 2 {
      forall s: seq<Packet<int>> | DrawnFrom(s, protocols) ensures Sorted(Exchanged(s)) {
        var lo, hi := Bounds(protocols);
        TwoProtocolsSort(s, lo, hi);
      }
    } else {
      var a, b, c := ThreeOf(protocols);
      ThreeProtocolsFail(a, b, c);
      assert DrawnFrom([Packet(c, 0), Packet(a, 0), Packet(b, 0)], protocols);
    }
  }

  lemma Bounds(protocols: set<nat>) returns (lo: nat, hi: nat)
    requires |protocols| <= 2
    ensures lo <= hi && protocols <= {lo, hi}
  {
    lo, hi := 0, 0;
    if protocols != {} {
      var x :| x in protocols;
      var rest := protocols - {x};
      if rest != {} {
        var y :| y in rest;
        assert rest - {y} == {} by { assert |rest - {y}| == 0; }
        assert protocols == {x, y};
        lo, hi := if x < y then x else y, if x < y then y else x;
      } else {
        assert protocols == {x};
        lo, hi := x, x;
      }
    }
  }

  lemma ThreeOf(protocols: set<nat>) returns (a: nat, b: nat, c: nat)
    requires |protocols| > 2
    ensures a < b < c && {a, b, c} <= protocols
  {
    var x :| x in protocols;
    assert |protocols - {x}| >= 2;
    var y :| y in protocols - {x};
    assert |protocols - {x} - {y}| >= 1;
    var z :| z in protocols - {x} - {y};
    if x < y {
      if z < x { a, b, c := z, x, y; } else if z < y { a, b, c := x, z, y; } else { a, b, c := x, y, z; }
    } else {
      if z < y { a, b, c := z, y, x; } else if z < x { a, b, c := y, z, x; } else { a, b, c := y, x, z; }
    }
  }
}
