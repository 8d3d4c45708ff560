/** The two walks over TCP options in lib/ftm_score.c. Option kinds and lengths follow section 3.1
    of RFC 9293 (end of list, no-operation, maximum segment size), section 2 of RFC 2018
    (SACK permitted) and sections 2.2 and 3.2 of RFC 7323 (window scale, timestamps). */
module TcpOptions {
  import opened Bytes

  datatype Item = Nop | MaxSeg(size: nat) | Scale(shift: nat) | SackOk | TimeStamp

  /** The letters must fit, with their terminator, in the buffer of the second walk. */
  const BUFFER_SIZE := 20

  predicate Known(kind: Byte) {
    kind == 1 || kind == 2 || kind == 3 || kind == 4 || kind == 8
  }

  /** How far beyond the kind byte the first walk reads. */
  function Operands(kind: Byte): nat {
    if kind == 1 then 0 else if kind == 2 then 3 else if kind == 3 then 2 else 1
  }

  predicate Readable(tail: seq<Byte>, i: nat) {
    i < |tail| && (Known(tail[i]) ==> i + Operands(tail[i]) < |tail|)
  }

  function Advance(tail: seq<Byte>, i: nat): nat
    requires Readable(tail, i) && Known(tail[i])
  {
    if tail[i] == 1 then 1 else tail[i + 1]
  }

  function Word(high: Byte, low: Byte): nat {
    high as int * 256 + low as int
  }

  function ItemAt(tail: seq<Byte>, i: nat): Item
    requires Readable(tail, i) && Known(tail[i])
  {
    match tail[i]
    case 1 => Nop
    case 2 => MaxSeg(Word(tail[i + 2], tail[i + 3]))
    case 3 => Scale(tail[i + 2])
    case 4 => SackOk
    case _ => TimeStamp
  }

  /** tail is the packet from its first option byte on; the options occupy tail[..end]. From i on,
      every read stays inside the packet and every option moves the index forward. */
  ghost predicate Walkable(tail: seq<Byte>, end: nat, i: nat)
    decreases end - i
  {
    i < end ==>
      && Readable(tail, i)
      && (Known(tail[i]) ==> Advance(tail, i) > 0 && Walkable(tail, end, i + Advance(tail, i)))
  }

  ghost function Items(tail: seq<Byte>, end: nat, i: nat): seq<Item>
    requires Walkable(tail, end, i)
    decreases end - i
  {
    if i < end && Known(tail[i]) then
      [ItemAt(tail, i)] + Items(tail, end, i + Advance(tail, i))
    else []
  }

  // ---- What the walks look for ----

  ghost function LastSize(items: seq<Item>): nat {
    if items == [] then 0
    else match items[|items| - 1]
      case MaxSeg(size) => size
      case _ => LastSize(items[..|items| - 1])
  }

  ghost function LastShift(items: seq<Item>): int {
    if items == [] then -1
    else match items[|items| - 1]
      case Scale(shift) => shift
      case _ => LastShift(items[..|items| - 1])
  }

  function Letter(item: Item): char {
    match item
    case Nop => 'N'
    case MaxSeg(_) => 'M'
    case Scale(_) => 'W'
    case SackOk => 'S'
    case TimeStamp => 'T'
  }

  ghost function Letters(items: seq<Item>): (r: string)
    ensures |r| == |items|
  {
    seq(|items|, k requires 0 <= k < |items| => Letter(items[k]))
  }

  // ---- The walks ----

  /** One turn moves an item from what lies ahead to what was seen. */
  lemma WalkStep(seen: seq<Item>, tail: seq<Byte>, end: nat, i: nat)
    requires i < end && Walkable(tail, end, i)
    ensures !Known(tail[i]) ==> seen + Items(tail, end, i) == seen
    ensures Known(tail[i]) ==>
              var item := ItemAt(tail, i);
              && seen + Items(tail, end, i) == seen + [item] + Items(tail, end, i + Advance(tail, i))
              && LastSize(seen + [item]) == (if item.MaxSeg? then item.size else LastSize(seen))
              && LastShift(seen + [item]) == (if item.Scale? then item.shift else LastShift(seen))
              && Letters(seen + [item]) == Letters(seen) + [Letter(item)]
  {
  }

  method FirstWalk(tail: seq<Byte>, end: nat) returns (mss: nat, scale: int)
    requires Walkable(tail, end, 0)
    ensures mss == LastSize(Items(tail, end, 0))
    ensures scale == LastShift(Items(tail, end, 0))
  {
    mss, scale := 0, -1;
    var index: nat, stop := 0, false;
    ghost var seen: seq<Item> := [];
    while !stop && index < end
      invariant Walkable(tail, end, index)
      invariant Items(tail, end, 0) == if stop then seen else seen + Items(tail, end, index)
      invariant mss == LastSize(seen) && scale == LastShift(seen)
      decreases !stop, end - index
    {
      WalkStep(seen, tail, end, index);
      if Known(tail[index]) {
        ghost var item := ItemAt(tail, index);
        if tail[index] == 2 {
          mss := Word(tail[index + 2], tail[index + 3]);
        } else if tail[index] == 3 {
          scale := tail[index + 2];
        }
        index := index + if tail[index] == 1 then 1 else tail[index + 1];
        seen := seen + [item];
      } else {
        stop := true;
      }
    }
    assert seen + [] == seen;
  }

  /** s holds the C string text. */
  ghost predicate Holds(s: seq<char>, text: string) {
    |text| < |s| && s[..|text|] == text && s[|text|] == '\0' && '\0' !in text
  }

  method Concatenate(buffer: array<char>, c: char, ghost text: string)
    requires Holds(buffer[..], text) && |text| + 1 < buffer.Length && c != '\0'
    modifies buffer
    ensures Holds(buffer[..], text + [c])
  {
    var n := Length(buffer, text);
    buffer[n], buffer[n + 1] := c, '\0';
    assert buffer[..n] == text;
    assert buffer[..n + 1] == text + [c];
  }

  method Length(buffer: array<char>, ghost text: string) returns (n: nat)
    requires Holds(buffer[..], text)
    ensures n == |text|
  {
    assert forall k :: 0 <= k < |text| ==> buffer[k] == buffer[..][..|text|][k] == text[k];
    n := 0;
    while buffer[n] != '\0'
      invariant n <= |text|
      decreases |text| - n
    {
      n := n + 1;
    }
  }

  method LetterAt(tail: seq<Byte>, i: nat) returns (letter: char)
    requires Readable(tail, i) && Known(tail[i])
    ensures letter == Letter(ItemAt(tail, i))
  {
    match tail[i]
    case 1 => letter := 'N';
    case 2 => letter := 'M';
    case 3 => letter := 'W';
    case 4 => letter := 'S';
    case _ => letter := 'T';
  }

  method SecondWalk(tail: seq<Byte>, end: nat) returns (letters: string)
    requires Walkable(tail, end, 0) && |Items(tail, end, 0)| < BUFFER_SIZE
    ensures letters == Letters(Items(tail, end, 0))
  {
    var buffer := new char[BUFFER_SIZE](_ => '\0');
    var index: nat, stop := 0, false;
    ghost var seen: seq<Item> := [];
    while !stop && index < end
      invariant Walkable(tail, end, index)
      invariant Items(tail, end, 0) == if stop then seen else seen + Items(tail, end, index)
      invariant Holds(buffer[..], Letters(seen))
      decreases !stop, end - index
    {
      WalkStep(seen, tail, end, index);
      if Known(tail[index]) {
        ghost var item := ItemAt(tail, index);
        var letter := LetterAt(tail, index);
        Concatenate(buffer, letter, Letters(seen));
        index := index + if tail[index] == 1 then 1 else tail[index + 1];
        seen := seen + [item];
      } else {
        stop := true;
      }
    }
    assert seen + [] == seen;
    var n := Length(buffer, Letters(seen));
    letters := buffer[..n];
  }

  // ---- The buffer of the second walk ----

  /** The positions strcat writes for a letter behind n others: the letter and the terminator. */
  ghost function Written(n: nat): set<nat> {
    {n, n + 1}
  }

  /** Every write of the second walk stays inside its buffer exactly if fewer options are walked
      than the buffer has bytes. */
  lemma LettersFitIff(items: seq<Item>)
    ensures (forall n, p :: 0 <= n < |items| && p in Written(n) ==> p < 20) <==> |items| < 20
  {
    if |items| >= BUFFER_SIZE {
      assert BUFFER_SIZE in Written(BUFFER_SIZE - 1);
    }
  }

  /** n no-operations in a row. */
  ghost function Nops(n: nat): seq<Byte> {
    seq(n, _ => 1)
  }

  lemma {:induction false} NopsWalk(n: nat, i: nat)
    requires i <= n
    ensures Walkable(Nops(n), n, i) && |Items(Nops(n), n, i)| == n - i
    decreases n - i
  {
    if i == n {
    } else {
      NopsWalk(n, i + 1);
    }
  }

  /** An option area of twenty or more no-operations, for which a TCP header has room, is walkable
      and overruns the buffer. */
  lemma TwentyNopsOverrun(n: nat)
    requires 20 <= n
    ensures Walkable(Nops(n), n, 0)
    ensures exists k, p :: 0 <= k < |Items(Nops(n), n, 0)| && p in Written(k) && p >= 20
  {
    NopsWalk(n, 0);
    LettersFitIff(Items(Nops(n), n, 0));
  }

  // ---- Serialisation ----

  ghost predicate Encodable(item: Item) {
    (item.MaxSeg? ==> item.size < 65536) && (item.Scale? ==> item.shift < 256)
  }

  /** One option on the wire; a timestamp option carries two 32-bit stamps, here eight bytes. */
  ghost function Wire(item: Item, stamps: seq<Byte>): (r: seq<Byte>)
    requires Encodable(item) && |stamps| == 8
  {
    match item
    case Nop => [1]
    case MaxSeg(size) => [2, 4, size / 256, size % 256]
    case Scale(shift) => [3, 3, shift]
    case SackOk => [4, 2]
    case TimeStamp => [8, 10] + stamps
  }

  ghost predicate WellFormed(items: seq<Item>, stamps: seq<seq<Byte>>) {
    |stamps| == |items| && forall k :: 0 <= k < |items| ==> Encodable(items[k]) && |stamps[k]| == 8
  }

  ghost function Serialised(items: seq<Item>, stamps: seq<seq<Byte>>): seq<Byte>
    requires WellFormed(items, stamps)
  {
    if items == [] then [] else Wire(items[0], stamps[0]) + Serialised(items[1..], stamps[1..])
  }

  /** The walk reads one serialised option back and stops right behind it. */
  lemma WalkReadsOne(item: Item, stamps: seq<Byte>, tail: seq<Byte>, i: nat)
    requires Encodable(item) && |stamps| == 8
    requires i + |Wire(item, stamps)| <= |tail|
    requires tail[i..i + |Wire(item, stamps)|] == Wire(item, stamps)
    ensures Readable(tail, i) && Known(tail[i])
    ensures ItemAt(tail, i) == item && Advance(tail, i) == |Wire(item, stamps)|
  {
  }

  lemma WalkPrepends(items: seq<Item>, stamps: seq<Byte>, tail: seq<Byte>, end: nat, i: nat, next: nat)
    requires items != [] && Encodable(items[0]) && |stamps| == 8 && next == i + |Wire(items[0], stamps)|
    requires next <= end <= |tail| && tail[i..next] == Wire(items[0], stamps)
    requires Walkable(tail, end, next) && Items(tail, end, next) == items[1..]
    ensures Walkable(tail, end, i) && Items(tail, end, i) == items
  {
    WalkReadsOne(items[0], stamps, tail, i);
  }

  lemma SliceSplits(tail: seq<Byte>, i: nat, a: seq<Byte>, b: seq<Byte>)
    requires i + |a + b| <= |tail| && tail[i..i + |a + b|] == a + b
    ensures tail[i..i + |a|] == a && tail[i + |a|..i + |a| + |b|] == b
  {
    assert tail[i..i + |a|] == (a + b)[..|a|];
    assert tail[i + |a|..i + |a| + |b|] == (a + b)[|a|..];
  }

  /** At i the serialised items begin, and behind them the options end or hold a stopping byte. */
  ghost predicate Carries(items: seq<Item>, stamps: seq<seq<Byte>>, tail: seq<Byte>, end: nat, i: nat)
    requires WellFormed(items, stamps)
  {
    var next := i + |Serialised(items, stamps)|;
    && next <= end <= |tail|
    && tail[i..next] == Serialised(items, stamps)
    && (next < end ==> !Known(tail[next]))
  }

  lemma CarriesMore(items: seq<Item>, stamps: seq<seq<Byte>>, tail: seq<Byte>, end: nat, i: nat)
    requires WellFormed(items, stamps) && items != [] && Carries(items, stamps, tail, end, i)
    ensures var next := i + |Wire(items[0], stamps[0])|;
            && next <= end && tail[i..next] == Wire(items[0], stamps[0])
            && WellFormed(items[1..], stamps[1..])
            && Carries(items[1..], stamps[1..], tail, end, next)
  {
    SliceSplits(tail, i, Wire(items[0], stamps[0]), Serialised(items[1..], stamps[1..]));
  }

  lemma {:induction false} WalkReadsAll(items: seq<Item>, stamps: seq<seq<Byte>>, tail: seq<Byte>, end: nat, i: nat)
    requires WellFormed(items, stamps) && Carries(items, stamps, tail, end, i)
    ensures Walkable(tail, end, i) && Items(tail, end, i) == items
    decreases |items|
  {
    if items == [] {
    } else {
      var next := i + |Wire(items[0], stamps[0])|;
      CarriesMore(items, stamps, tail, end, i);
      WalkReadsAll(items[1..], stamps[1..], tail, end, next);
      WalkPrepends(items, stamps[0], tail, end, i, next);
    }
  }

  /** Both walks invert serialisation: whatever well-formed options a packet carries, padded with
      anything the walk stops at and followed by any payload, the items read are those options. */
  lemma WalkInvertsSerialised(items: seq<Item>, stamps: seq<seq<Byte>>, padding: seq<Byte>, payload: seq<Byte>)
    requires WellFormed(items, stamps)
    requires padding == [] || padding[0] !in {1, 2, 3, 4, 8}
    ensures var options := Serialised(items, stamps) + padding;
            && Walkable(options + payload, |options|, 0)
            && Items(options + payload, |options|, 0) == items
  {
    var w := Serialised(items, stamps);
    var tail := w + padding + payload;
    assert tail[0..|w|] == w;
    WalkReadsAll(items, stamps, tail, |w + padding|, 0);
  }

  /** The options of a usual SYN packet, whatever segment size, shift and time stamps they carry. */
  lemma SynOptionsRead(high: Byte, low: Byte, shift: Byte, stamps: seq<Byte>, payload: seq<Byte>)
    requires |stamps| == 8
    ensures var tail := [2, 4, high, low, 4, 2, 8, 10] + stamps + [1, 3, 3, shift] + payload;
            && Walkable(tail, 20, 0)
            && LastSize(Items(tail, 20, 0)) == high as int * 256 + low as int
            && LastShift(Items(tail, 20, 0)) == shift
            && Letters(Items(tail, 20, 0)) == "MSTNW"
  {
    var size := high as int * 256 + low as int;
    var items := [MaxSeg(size), SackOk, TimeStamp, Nop, Scale(shift)];
    var all := [stamps, stamps, stamps, stamps, stamps];
    var options := [2, 4, high, low, 4, 2, 8, 10] + stamps + [1, 3, 3, shift];
    UsualOptions(high, low, shift, stamps);
    assert options + [] == options;
    WalkInvertsSerialised(items, all, [], payload);
    UsualItems(size, shift);
  }

  lemma UsualOptions(high: Byte, low: Byte, shift: Byte, stamps: seq<Byte>)
    requires |stamps| == 8
    ensures var items := [MaxSeg(high as int * 256 + low as int), SackOk, TimeStamp, Nop, Scale(shift)];
            var all := [stamps, stamps, stamps, stamps, stamps];
            && WellFormed(items, all)
            && Serialised(items, all) == [2, 4, high, low, 4, 2, 8, 10] + stamps + [1, 3, 3, shift]
  {
    var size := high as int * 256 + low as int;
    SerialisedCons(Scale(shift), stamps, [], []);
    assert [Scale(shift)] + [] == [Scale(shift)] && [stamps] + [] == [stamps];
    SerialisedCons(Nop, stamps, [Scale(shift)], [stamps]);
    SerialisedCons(TimeStamp, stamps, [Nop, Scale(shift)], [stamps, stamps]);
    SerialisedCons(SackOk, stamps, [TimeStamp, Nop, Scale(shift)], [stamps, stamps, stamps]);
    SerialisedCons(MaxSeg(size), stamps, [SackOk, TimeStamp, Nop, Scale(shift)], [stamps, stamps, stamps, stamps]);
    assert [Nop] + [Scale(shift)] == [Nop, Scale(shift)] && [stamps] + [stamps] == [stamps, stamps];
    assert [TimeStamp] + [Nop, Scale(shift)] == [TimeStamp, Nop, Scale(shift)];
  }

  lemma SerialisedCons(item: Item, stamp: seq<Byte>, items: seq<Item>, stamps: seq<seq<Byte>>)
    requires WellFormed(items, stamps) && Encodable(item) && |stamp| == 8
    ensures WellFormed([item] + items, [stamp] + stamps)
    ensures Serialised([item] + items, [stamp] + stamps) == Wire(item, stamp) + Serialised(items, stamps)
  {
    assert ([item] + items)[1..] == items && ([stamp] + stamps)[1..] == stamps;
  }

  lemma UsualItems(size: nat, shift: nat)
    ensures var items := [MaxSeg(size), SackOk, TimeStamp, Nop, Scale(shift)];
            LastSize(items) == size && LastShift(items) == shift && Letters(items) == "MSTNW"
  {
    var items := [MaxSeg(size), SackOk, TimeStamp, Nop, Scale(shift)];
    assert items[..4] == [MaxSeg(size), SackOk, TimeStamp, Nop];
    assert items[..4][..3] == [MaxSeg(size), SackOk, TimeStamp];
    assert items[..4][..3][..2] == [MaxSeg(size), SackOk];
    assert items[..4][..3][..2][..1] == [MaxSeg(size)];
    assert LastSize([MaxSeg(size), SackOk]) == size;
    assert LastSize([MaxSeg(size), SackOk, TimeStamp]) == size;
  }

  // ---- When the walk ends ----

  datatype Cursor = At(i: nat) | Ended | OutOfPacket

  /** One turn of either loop, with no assumption about the packet. */
  ghost function Turn(tail: seq<Byte>, end: nat, c: Cursor): Cursor {
    if !c.At? then c
    else if c.i >= end then Ended
    else if !Readable(tail, c.i) then OutOfPacket
    else if !Known(tail[c.i]) then Ended
    else At(c.i + Advance(tail, c.i))
  }

  ghost function Turns(tail: seq<Byte>, end: nat, c: Cursor, n: nat): Cursor
    decreases n
  {
    if n == 0 then c else Turns(tail, end, Turn(tail, end, c), n - 1)
  }

  lemma {:induction false} StillTurns(tail: seq<Byte>, end: nat, c: Cursor, n: nat)
    requires Turn(tail, end, c) == c
    ensures Turns(tail, end, c, n) == c
  {
    if n == 0 {
    } else {
      StillTurns(tail, end, c, n - 1);
    }
  }

  lemma {:induction false} EndingIsWalkable(tail: seq<Byte>, end: nat, i: nat, n: nat)
    requires Turns(tail, end, At(i), n) == Ended
    ensures Walkable(tail, end, i)
    decreases n
  {
    if i >= end {
    } else {
      var next := Turn(tail, end, At(i));
      assert n > 0 && Turns(tail, end, next, n - 1) == Ended;
      if next == OutOfPacket {
        StillTurns(tail, end, OutOfPacket, n - 1);
      } else if next == At(i) {
        StillTurns(tail, end, At(i), n);
      } else if next.At? {
        EndingIsWalkable(tail, end, next.i, n - 1);
      }
    }
  }

  lemma {:induction false} WalkableEnds(tail: seq<Byte>, end: nat, i: nat) returns (n: nat)
    requires Walkable(tail, end, i)
    ensures Turns(tail, end, At(i), n) == Ended
    decreases end - i
  {
    if i >= end || !Known(tail[i]) {
      n := 1;
      assert Turns(tail, end, Ended, 0) == Ended;
    } else {
      var m := WalkableEnds(tail, end, i + Advance(tail, i));
      n := m + 1;
    }
  }

  /** The walk ends inside the packet exactly if every option on its way is readable and claims a
      length other than zero; otherwise it reads past the packet or turns on the spot for ever. */
  lemma WalkEndsIff(tail: seq<Byte>, end: nat)
    ensures Walkable(tail, end, 0) <==> exists n :: Turns(tail, end, At(0), n) == Ended
  {
    if Walkable(tail, end, 0) {
      var n := WalkableEnds(tail, end, 0);
    }
    forall n | Turns(tail, end, At(0), n) == Ended ensures Walkable(tail, end, 0) {
      EndingIsWalkable(tail, end, 0, n);
    }
  }

  /** A segment-size option claiming length zero keeps the loop where it is. */
  lemma ZeroLengthNeverEnds(n: nat)
    ensures Turns([2, 0, 5, 180], 4, At(0), n) == At(0)
  {
  }
}
