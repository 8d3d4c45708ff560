/** The fingerprint score of lib/ftm_score.c, counted in tenths of a point. Every contribution is
    made at most once, guarded by a flag of its own. */
module Score {
  import opened Bytes
  import opened Sequences
  import opened TcpOptions
  import PacketSort

  const ICMP := 1
  const TCP := 6

  /** What scoring reads of a captured packet besides its protocol: tail holds the bytes behind the
      fixed TCP header. */
  datatype Header = Header(
    ttl: Byte, dontFragment: bool, totalLength: Word16, id: Word16,
    syn: bool, dataOffset: Nibble, window: Word16, tail: seq<Byte>)

  type Packet = PacketSort.Packet<Header>

  type Word16 = x: nat | x < 65536
  type Nibble = x: nat | x < 16

  /** ulTCPHdrLen - 20 in unsigned 32-bit arithmetic. */
  function OptionEnd(dataOffset: Nibble): (end: nat)
    ensures end == (dataOffset as int * 4 - 20) % 0x1_0000_0000
  {
    if dataOffset >= 5 then dataOffset * 4 - 20 else 0x1_0000_0000 + (dataOffset as int * 4 - 20)
  }

  /** The packets both option walks can handle: the walk ends inside the packet, and its letters
      fit the 20-byte buffer. */
  ghost predicate Scorable(p: Packet) {
    p.protocol == TCP && p.payload.syn ==>
      && Walkable(p.payload.tail, OptionEnd(p.payload.dataOffset), 0)
      && |Options(p)| < BUFFER_SIZE
  }

  ghost function Options(p: Packet): seq<Item>
    requires Walkable(p.payload.tail, OptionEnd(p.payload.dataOffset), 0)
  {
    Items(p.payload.tail, OptionEnd(p.payload.dataOffset), 0)
  }

  // ---- What each characteristic is worth ----

  /** One tenth for each of the bounds 0, 32, 64 and 128 that the time to live exceeds. */
  ghost function TtlTenths(ttl: Byte): int {
    Exceeds(ttl, 0) + Exceeds(ttl, 32) + Exceeds(ttl, 64) + Exceeds(ttl, 128)
  }

  ghost function Exceeds(ttl: Byte, bound: nat): int {
    if ttl > bound then 1 else 0
  }

  ghost function FragmentTenths(p: Packet): int {
    if p.payload.dontFragment then 2 else 1
  }

  ghost function SizePoints(mss: nat): int {
    if mss == 1380 then 1 else 0
  }

  ghost function ScalePoints(shift: int): int {
    if shift == -1 then 2
    else if 0 <= shift <= 2 then shift + 3
    else if 5 <= shift <= 7 then 6
    else if shift == 8 then 7
    else 0
  }

  predicate Near(window: int, centre: int, slack: nat) {
    centre - slack <= window <= centre + slack
  }

  ghost function Award(points: int, earned: bool): int {
    if earned then points else 0
  }

  /** The window rules in the order of the source. */
  ghost function WindowPoints(w: Word16, m: nat): int {
    EarlyPoints(w, m) + BroadPoints(w, m) + SharedPoints(w, m) + LatePoints(w, m)
  }

  ghost function EarlyPoints(w: Word16, m: nat): int {
    Award(10, Near(w, m, 50))
      + Award(20, Near(w, 32736, 70))
      + Award(30, Near(w, 512, 50) || Near(w, 16384, 70))
      + Award(40, Near(w, m * 11, 70) || Near(w, m * 20, 70))
      + Award(50, Near(w, m * 2, 70) || Near(w, m * 3, 70) || Near(w, m * 4, 70))
      + Award(60, Near(w, 8192, 70))
      + Award(70, Near(w, m * 44, 70))
      + Award(80, Near(w, 8192, 70))
  }

  ghost function BroadPoints(w: Word16, m: nat): int {
    Award(90, Near(w, 65535, 70) || Near(w, 8192, 70) || Near(w, 32767, 70) || Near(w, 37300, 70) ||
            Near(w, 46080, 70) || Near(w, 60352, 70) || Near(w, m * 44, 70) || Near(w, m * 4, 70) ||
            Near(w, m * 6, 70) || Near(w, m * 12, 70) || Near(w, m * 16, 70) || Near(w, m * 26, 70))
      + Award(100, Near(w, 44620, 70))
      + Award(110, Near(w, 64512, 70))
      + Award(120, Near(w, 64512, 70))
      + Award(130, Near(w, 8192, 70) || Near(w, m * 6, 70))
  }

  ghost function SharedPoints(w: Word16, m: nat): int {
    Award(140, Near(w, 64512, 70) || Near(w, m * 44, 70))
      + Award(150, Near(w, 65535, 70) || Near(w, 40320, 70) || Near(w, 32767, 70) || Near(w, m * 45, 70))
      + Award(160, Near(w, 65535, 70) || Near(w, 8192, 70) || Near(w, 64512, 70) || Near(w, 32767, 70) ||
            Near(w, m * 45, 70) || Near(w, m * 44, 70) || Near(w, m * 12, 70))
      + Award(170, Near(w, 65535, 70) || Near(w, 32768, 70) || Near(w, 16384, 70))
  }

  ghost function LatePoints(w: Word16, m: nat): int {
    Award(180, Near(w, 8192, 70))
      + Award(190, Near(w, 16616, 70))
      + Award(200, Near(w, m * 2, 70))
      + Award(210, Near(w, 32768, 70))
      + Award(220, Near(w, 32768, 70) || Near(w, 65535, 70))
      + Award(230, Near(w, 33304, 70))
  }

  /** The fixed windows a rule looks for, each with a slack of 70, and the multiples of the segment
      size it looks for with that slack. */
  ghost const WINDOWS: set<int> :=
    {8192, 16384, 16616, 32736, 32767, 32768, 33304, 37300, 40320, 44620, 46080, 60352, 64512, 65535}
  ghost const MULTIPLES: set<int> := {2, 3, 4, 6, 11, 12, 16, 20, 26, 44, 45}

  ghost predicate NearLandmark(w: int, m: nat) {
    || Near(w, m, 50) || Near(w, 512, 50)
    || (exists c :: c in WINDOWS && Near(w, c, 70))
    || (exists k :: k in MULTIPLES && Near(w, m * k, 70))
  }

  lemma PartsEarn(w: Word16, m: nat)
    ensures EarlyPoints(w, m) >= 0 && (EarlyPoints(w, m) > 0 ==> NearLandmark(w, m))
    ensures BroadPoints(w, m) >= 0 && (BroadPoints(w, m) > 0 ==> NearLandmark(w, m))
    ensures SharedPoints(w, m) >= 0 && (SharedPoints(w, m) > 0 ==> NearLandmark(w, m))
    ensures LatePoints(w, m) >= 0 && (LatePoints(w, m) > 0 ==> NearLandmark(w, m))
  {
  }

  /** A window earns points exactly if it lies near a landmark. */
  lemma WindowEarnsIff(w: Word16, m: nat)
    ensures WindowPoints(w, m) >= 0
    ensures WindowPoints(w, m) > 0 <==> NearLandmark(w, m)
  {
    PartsEarn(w, m);
    if NearLandmark(w, m) {
      if c :| c in WINDOWS && Near(w, c, 70) {
        assert WindowPoints(w, m) > 0;
      } else if k :| k in MULTIPLES && Near(w, m * k, 70) {
        assert WindowPoints(w, m) > 0;
      } else {
        assert EarlyPoints(w, m) > 0;
      }
    }
  }

  ghost predicate NearMultiple(w: int, m: nat) {
    Near(w, m, 50) || exists k :: k in MULTIPLES && Near(w, m * k, 70)
  }

  /** What a window earns by its own size, when it is near no multiple of the segment size. Where
      fixed windows lie close together their rules add up. */
  lemma FixedWindowWorth(w: Word16, m: nat)
    requires !NearMultiple(w, m)
    ensures WindowPoints(w, m) ==
            if 462 <= w <= 562 then 30
            else if 8122 <= w <= 8262 then 60 + 80 + 90 + 130 + 160 + 180
            else if 16314 <= w <= 16454 then 30 + 170
            else if 16546 <= w <= 16686 then 190
            else if 32666 <= w <= 32696 then 20
            else if w == 32697 then 20 + 90 + 150 + 160
            else if 32698 <= w <= 32806 then 20 + 90 + 150 + 160 + 170 + 210 + 220
            else if 32807 <= w <= 32837 then 90 + 150 + 160 + 170 + 210 + 220
            else if w == 32838 then 170 + 210 + 220
            else if 33234 <= w <= 33374 then 230
            else if 37230 <= w <= 37370 then 90
            else if 40250 <= w <= 40390 then 150
            else if 44550 <= w <= 44690 then 100
            else if 46010 <= w <= 46150 then 90
            else if 60282 <= w <= 60422 then 90
            else if 64442 <= w <= 64582 then 110 + 120 + 140 + 160
            else if w >= 65465 then 90 + 150 + 160 + 170 + 220
            else 0
  {
  }

  /** What a window earns as a multiple of the segment size, when it is near nothing else. */
  lemma MultipleWindowWorth(w: Word16, m: nat, k: int)
    requires k in MULTIPLES && Near(w, m * k, 70)
    requires !Near(w, m, 50) && !Near(w, 512, 50) && forall c :: c in WINDOWS ==> !Near(w, c, 70)
    requires forall j :: j in MULTIPLES && j != k ==> !Near(w, m * j, 70)
    ensures WindowPoints(w, m) ==
            map[2 := 50 + 200, 3 := 50, 4 := 50 + 90, 6 := 90 + 130, 11 := 40, 12 := 90 + 160, 16 := 90, 20 := 40,
                26 := 90, 44 := 70 + 90 + 140 + 160, 45 := 150 + 160][k]
  {
  }

  lemma SizeWindowWorth(w: Word16, m: nat)
    requires Near(w, m, 50) && !Near(w, 512, 50) && forall c :: c in WINDOWS ==> !Near(w, c, 70)
    requires forall j :: j in MULTIPLES ==> !Near(w, m * j, 70)
    ensures WindowPoints(w, m) == 10
  {
  }

  /** Without a segment size every multiple of it is zero: a rule met in several ways counts once. */
  lemma NoSizeWindowWorth(w: Word16)
    ensures w <= 50 ==> WindowPoints(w, 0) == 10 + 40 + 50 + 70 + 90 + 130 + 140 + 150 + 160 + 200
    ensures 50 < w <= 70 ==> WindowPoints(w, 0) == 40 + 50 + 70 + 90 + 130 + 140 + 150 + 160 + 200
  {
  }

  ghost function LengthPoints(totalLength: nat): int {
    if totalLength == 44 then 100
    else if totalLength == 48 then 200
    else if totalLength == 52 then 300
    else if totalLength == 60 then 400
    else 0
  }

  /** The points of every option order that earns any. */
  ghost const ORDERS: map<string, int> := map[
    "M" := 1000, "MSTNW" := 2000, "MNWNNTNNS" := 3000 + 4000,
    "MNNS" := 4000 + 5000 + 6000, "MNWNNS" := 4000 + 6000, "MWNNNS" := 7000,
    "MW" := 8000, "MNNN" := 9000, "MWN" := 10000, "MNNNN" := 11000, "MNWNNT" := 12000]

  ghost function OrderPoints(letters: string): int {
    if letters in ORDERS then ORDERS[letters] else 0
  }

  ghost function IdPoints(id: nat): int {
    if id == 0 then 20000 else 10000
  }

  // ---- Scoring as a fold ----

  datatype Tally = Tally(
    tenths: int, ttl: bool, df: bool, mss: bool, scale: bool,
    window: bool, length: bool, order: bool, id: bool)

  ghost const ZERO := Tally(0, false, false, false, false, false, false, false, false)

  ghost function IpDone(tenths: int): Tally {
    ZERO.(tenths := tenths, ttl := true, df := true)
  }

  ghost function AfterIp(t: Tally, p: Packet): Tally {
    t.(tenths := t.tenths
         + (if t.ttl then 0 else TtlTenths(p.payload.ttl))
         + (if t.df then 0 else FragmentTenths(p)),
       ttl := true, df := true)
  }

  ghost function AfterMss(t: Tally, mss: nat): Tally {
    if t.mss then t else t.(tenths := t.tenths + 10 * SizePoints(mss), mss := true)
  }

  ghost function AfterScale(t: Tally, shift: int): Tally {
    if t.scale then t else t.(tenths := t.tenths + 10 * ScalePoints(shift), scale := true)
  }

  ghost function AfterWindow(t: Tally, points: int): Tally {
    if t.window then t else t.(tenths := t.tenths + 10 * points, window := true)
  }

  ghost function AfterLength(t: Tally, totalLength: nat): Tally {
    if t.length then t else t.(tenths := t.tenths + 10 * LengthPoints(totalLength), length := true)
  }

  ghost function AfterOrder(t: Tally, letters: string): Tally {
    if t.order then t else t.(tenths := t.tenths + 10 * OrderPoints(letters), order := true)
  }

  ghost function AfterId(t: Tally, id: nat): Tally {
    if t.id then t else t.(tenths := t.tenths + 10 * IdPoints(id), id := true)
  }

  ghost function AfterTcp(t: Tally, p: Packet): Tally
    requires Scorable(p)
  {
    if p.protocol != TCP || !p.payload.syn then t
    else
      var items := Options(p);
      var walked := AfterScale(AfterMss(t, LastSize(items)), LastShift(items));
      var points := WindowPoints(p.payload.window, LastSize(items));
      var sized := AfterLength(AfterWindow(walked, points), p.payload.totalLength);
      AfterId(AfterOrder(sized, Letters(items)), p.payload.id)
  }

  ghost predicate AllScorable(packets: seq<Packet>) {
    forall k :: 0 <= k < |packets| ==> Scorable(packets[k])
  }

  ghost function Fold(t: Tally, packets: seq<Packet>): Tally
    requires AllScorable(packets)
    decreases |packets|
  {
    if packets == [] then t
    else Fold(AfterTcp(AfterIp(t, packets[0]), packets[0]), packets[1..])
  }

  // ---- Two packets decide ----

  ghost function IpTenths(p: Packet): int {
    TtlTenths(p.payload.ttl) + FragmentTenths(p)
  }

  /** The points of a SYN packet, all from its own header and options. */
  ghost function SynPoints(p: Packet): int
    requires Scorable(p) && p.protocol == TCP && p.payload.syn
  {
    var items := Options(p);
    SizePoints(LastSize(items)) + ScalePoints(LastShift(items))
      + WindowPoints(p.payload.window, LastSize(items)) + LengthPoints(p.payload.totalLength)
      + OrderPoints(Letters(items)) + IdPoints(p.payload.id)
  }

  predicate IsSyn(p: Packet) {
    p.protocol == TCP && p.payload.syn
  }

  /** What the first SYN packet contributes, if there is one. */
  ghost function FirstSynTenths(packets: seq<Packet>): int
    requires AllScorable(packets)
  {
    var k := FirstWhere(packets, IsSyn);
    if k < |packets| then 10 * SynPoints(packets[k]) else 0
  }

  lemma {:induction false} FoldDone(t: Tally, packets: seq<Packet>)
    requires AllScorable(packets)
    requires t.ttl && t.df && t.mss && t.scale && t.window && t.length && t.order && t.id
    ensures Fold(t, packets) == t
  {
    if packets == [] {
    } else {
      assert AfterTcp(AfterIp(t, packets[0]), packets[0]) == t;
      FoldDone(t, packets[1..]);
    }
  }

  /** Once the IP points are in, the first SYN packet decides the rest. */
  lemma {:induction false} FoldAwaitsSyn(tenths: int, packets: seq<Packet>)
    requires AllScorable(packets)
    ensures Fold(IpDone(tenths), packets).tenths == tenths + FirstSynTenths(packets)
    decreases |packets|
  {
    var t := IpDone(tenths);
    if packets == [] {
    } else {
      var p, rest := packets[0], packets[1..];
      assert AfterIp(t, p) == t;
      if IsSyn(p) {
        FoldDone(AfterTcp(t, p), rest);
      } else {
        FoldAwaitsSyn(tenths, rest);
      }
    }
  }

  /** From a zeroed score the total is the IP points of the first packet plus the TCP points of the
      first SYN packet: no other packet contributes. */
  lemma TwoPacketsDecide(packets: seq<Packet>)
    requires AllScorable(packets)
    ensures packets == [] ==> Fold(ZERO, packets).tenths == 0
    ensures packets != [] ==>
              Fold(ZERO, packets).tenths == IpTenths(packets[0]) + FirstSynTenths(packets)
  {
    if packets != [] {
      var p := packets[0];
      var t := IpDone(IpTenths(p));
      assert AfterIp(ZERO, p) == t;
      assert AfterIp(t, p) == t;
      FoldAwaitsSyn(IpTenths(p), packets);
    }
  }

  lemma SynPointsBounds(p: Packet)
    requires Scorable(p) && IsSyn(p)
    ensures SynPoints(p) >= 10000
  {
    WindowEarnsIff(p.payload.window, LastSize(Options(p)));
  }

  /** The total is the IP points and a number of points that is nothing, or ten thousand and more. */
  lemma TotalIsSum(packets: seq<Packet>) returns (points: nat)
    requires AllScorable(packets) && packets != []
    ensures Fold(ZERO, packets).tenths == IpTenths(packets[0]) + 10 * points
    ensures if FirstWhere(packets, IsSyn) < |packets| then points >= 10000 else points == 0
  {
    TwoPacketsDecide(packets);
    var k := FirstWhere(packets, IsSyn);
    points := 0;
    if k < |packets| {
      SynPointsBounds(packets[k]);
      points := SynPoints(packets[k]);
    }
  }

  /** What a total tells: its last digit is the IP points of the first packet, and it reaches ten
      thousand points exactly if a SYN packet was captured. */
  lemma TotalTells(packets: seq<Packet>)
    requires AllScorable(packets) && packets != []
    ensures 1 <= IpTenths(packets[0]) <= 6
    ensures Fold(ZERO, packets).tenths % 10 == IpTenths(packets[0])
    ensures Fold(ZERO, packets).tenths >= 100000 <==> FirstWhere(packets, IsSyn) < |packets|
  {
    var points := TotalIsSum(packets);
    IpBounds(packets[0]);
    LastDigit(IpTenths(packets[0]), points);
  }

  lemma IpBounds(p: Packet)
    ensures 1 <= IpTenths(p) <= 6
  {
  }

  lemma LastDigit(digit: int, points: nat)
    requires 0 <= digit < 10
    ensures (digit + 10 * points) % 10 == digit
  {
  }

  /** Later packets never change a score that has seen its SYN packet. */
  lemma LaterPacketsChangeNothing(packets: seq<Packet>, more: seq<Packet>)
    requires AllScorable(packets + more)
    requires exists k :: 0 <= k < |packets| && IsSyn(packets[k])
    ensures AllScorable(packets)
    ensures Fold(ZERO, packets + more).tenths == Fold(ZERO, packets).tenths
  {
    var all := packets + more;
    assert AllScorable(packets) by {
      forall k | 0 <= k < |packets| ensures Scorable(packets[k]) { assert all[k] == packets[k]; }
    }
    var k := FirstWhere(packets, IsSyn);
    FirstWhereIs(all, IsSyn, k);
    TwoPacketsDecide(packets);
    TwoPacketsDecide(all);
  }

  // ---- What each characteristic is worth in a capture ----

  ghost predicate SynAt(front: seq<Packet>, p: Packet, rest: seq<Packet>) {
    AllScorable(front + [p] + rest) && IsSyn(p) && forall k :: 0 <= k < |front| ==> !IsSyn(front[k])
  }

  ghost function Total(front: seq<Packet>, p: Packet, rest: seq<Packet>): int
    requires AllScorable(front + [p] + rest)
  {
    Fold(ZERO, front + [p] + rest).tenths
  }

  /** Two SYN packets behind the same packets, which look the same to the IP rules. */
  ghost predicate Compared(front: seq<Packet>, p: Packet, q: Packet, rest: seq<Packet>) {
    && SynAt(front, p, rest) && SynAt(front, q, rest)
    && p.payload.ttl == q.payload.ttl && p.payload.dontFragment == q.payload.dontFragment
  }

  lemma SynTotal(front: seq<Packet>, p: Packet, rest: seq<Packet>)
    requires SynAt(front, p, rest)
    ensures Scorable(p)
    ensures Total(front, p, rest) == IpTenths(if front == [] then p else front[0]) + 10 * SynPoints(p)
  {
    var all := front + [p] + rest;
    assert all[|front|] == p && forall k :: 0 <= k < |front| ==> all[k] == front[k];
    FirstWhereIs(all, IsSyn, |front|);
    TwoPacketsDecide(all);
  }

  /** A capture whose first packet earns as little as a SYN packet can. */
  lemma PlainWorth(p: Packet, rest: seq<Packet>)
    requires SynAt([], p, rest) && Scorable(p)
    requires p.payload.ttl == 0 && !p.payload.dontFragment && p.payload.id != 0
    requires p.payload.totalLength !in {44, 48, 52, 60}
    requires LastSize(Options(p)) != 1380 && LastShift(Options(p)) !in {-1, 0, 1, 2, 5, 6, 7, 8}
    requires !NearLandmark(p.payload.window, LastSize(Options(p))) && Letters(Options(p)) !in ORDERS
    ensures Total([], p, rest) == 100001
  {
    SynTotal([], p, rest);
    WindowEarnsIff(p.payload.window, LastSize(Options(p)));
  }

  /** An identification of zero is worth ten thousand points more than any other. */
  lemma IdWorth(front: seq<Packet>, p: Packet, q: Packet, rest: seq<Packet>)
    requires Compared(front, p, q, rest) && p.payload.id != 0 && q.payload == p.payload.(id := 0)
    ensures Total(front, q, rest) == Total(front, p, rest) + 100000
  {
    SynTotal(front, p, rest);
    SynTotal(front, q, rest);
  }

  /** A listed length is worth its hundreds of points. */
  lemma LengthWorth(front: seq<Packet>, p: Packet, q: Packet, rest: seq<Packet>)
    requires Compared(front, p, q, rest) && p.payload.totalLength !in {44, 48, 52, 60}
    requires q.payload == p.payload.(totalLength := q.payload.totalLength)
    ensures var worth := map[44 := 1000, 48 := 2000, 52 := 3000, 60 := 4000];
            var length: int := q.payload.totalLength;
            Total(front, q, rest) == Total(front, p, rest) + if length in worth then worth[length] else 0
  {
    SynTotal(front, p, rest);
    SynTotal(front, q, rest);
  }

  /** A window near a landmark is worth what FixedWindowWorth and its siblings say. */
  lemma WindowWorth(front: seq<Packet>, p: Packet, q: Packet, rest: seq<Packet>)
    requires Compared(front, p, q, rest) && q.payload == p.payload.(window := q.payload.window)
    requires Scorable(p) && !NearLandmark(p.payload.window, LastSize(Options(p)))
    ensures Total(front, q, rest) ==
            Total(front, p, rest) + 10 * WindowPoints(q.payload.window, LastSize(Options(p)))
  {
    SynTotal(front, p, rest);
    SynTotal(front, q, rest);
    WindowEarnsIff(p.payload.window, LastSize(Options(p)));
  }

  /** The packets differ in their options at most. */
  ghost predicate OptionsDiffer(p: Packet, q: Packet) {
    q.payload == p.payload.(dataOffset := q.payload.dataOffset, tail := q.payload.tail)
  }

  /** A segment size of 1380 is worth one point, its effect on the window rules aside. */
  lemma SizeWorth(front: seq<Packet>, p: Packet, q: Packet, rest: seq<Packet>)
    requires Compared(front, p, q, rest) && OptionsDiffer(p, q) && Scorable(p) && Scorable(q)
    requires LastShift(Options(p)) == LastShift(Options(q)) && Letters(Options(p)) == Letters(Options(q))
    requires WindowPoints(p.payload.window, LastSize(Options(p)))
          == WindowPoints(q.payload.window, LastSize(Options(q)))
    requires LastSize(Options(p)) != 1380
    ensures Total(front, q, rest) == Total(front, p, rest) + if LastSize(Options(q)) == 1380 then 10 else 0
  {
    SynTotal(front, p, rest);
    SynTotal(front, q, rest);
  }

  /** A window scale, or its absence, is worth two to seven points; all other shifts nothing. */
  lemma ShiftWorth(front: seq<Packet>, p: Packet, q: Packet, rest: seq<Packet>)
    requires Compared(front, p, q, rest) && OptionsDiffer(p, q) && Scorable(p) && Scorable(q)
    requires LastSize(Options(p)) == LastSize(Options(q))
    requires OrderPoints(Letters(Options(p))) == OrderPoints(Letters(Options(q)))
    requires LastShift(Options(p)) !in {-1, 0, 1, 2, 5, 6, 7, 8}
    ensures var worth := map[-1 := 20, 0 := 30, 1 := 40, 2 := 50, 5 := 60, 6 := 60, 7 := 60, 8 := 70];
            var shift := LastShift(Options(q));
            Total(front, q, rest) == Total(front, p, rest) + if shift in worth then worth[shift] else 0
  {
    SynTotal(front, p, rest);
    SynTotal(front, q, rest);
  }

  /** A listed order of options is worth its thousands of points. */
  lemma OrderWorth(front: seq<Packet>, p: Packet, q: Packet, rest: seq<Packet>)
    requires Compared(front, p, q, rest) && OptionsDiffer(p, q) && Scorable(p) && Scorable(q)
    requires LastSize(Options(p)) == LastSize(Options(q)) && LastShift(Options(p)) == LastShift(Options(q))
    requires Letters(Options(p)) !in ORDERS
    ensures var worth := map["M" := 10000, "MSTNW" := 20000, "MNWNNTNNS" := 70000, "MNNS" := 150000,
                             "MNWNNS" := 100000, "MWNNNS" := 70000, "MW" := 80000, "MNNN" := 90000,
                             "MWN" := 100000, "MNNNN" := 110000, "MNWNNT" := 120000];
            var letters := Letters(Options(q));
            Total(front, q, rest) == Total(front, p, rest) + if letters in worth then worth[letters] else 0
  {
    SynTotal(front, p, rest);
    SynTotal(front, q, rest);
  }

  /** The IP rules: a time to live above 0, 32, 64 or 128 is worth one to four tenths, and a packet
      not to be fragmented one tenth more, in the first packet of a capture and in no other. */
  lemma IpWorth(p: Packet, q: Packet, rest: seq<Packet>)
    requires AllScorable([p] + rest) && AllScorable([q] + rest) && p.protocol == q.protocol
    requires q.payload == p.payload.(ttl := q.payload.ttl, dontFragment := q.payload.dontFragment)
    requires p.payload.ttl == 0 && !p.payload.dontFragment
    ensures var ttl: int := q.payload.ttl;
            Fold(ZERO, [q] + rest).tenths == Fold(ZERO, [p] + rest).tenths
              + (if ttl == 0 then 0 else if ttl <= 32 then 1 else if ttl <= 64 then 2 else if ttl <= 128 then 3 else 4)
              + if q.payload.dontFragment then 1 else 0
  {
    TwoPacketsDecide([p] + rest);
    TwoPacketsDecide([q] + rest);
    var k := FirstWhere([p] + rest, IsSyn);
    assert forall i :: 0 <= i <= |rest| ==> IsSyn(([q] + rest)[i]) == IsSyn(([p] + rest)[i]);
    FirstWhereIs([q] + rest, IsSyn, k);
    assert k == 0 ==> IsSyn(p) && Options(p) == Options(q) && SynPoints(p) == SynPoints(q);
  }

  // ---- The code ----

  method OrderScore(letters: string) returns (points: int)
    ensures points == OrderPoints(letters)
  {
    points := 0;
    if letters == "M" {
      points := points + 1000;
    } else if letters == "MSTNW" {
      points := points + 2000;
    }
    if letters == "MNWNNTNNS" {
      points := points + 3000;
    }
    if letters == "MNNS" || letters == "MNWNNTNNS" || letters == "MNWNNS" {
      points := points + 4000;
    }
    if letters == "MNNS" {
      points := points + 5000;
    }
    if letters == "MNWNNS" || letters == "MNNS" {
      points := points + 6000;
    }
    if letters == "MWNNNS" {
      points := points + 7000;
    }
    if letters == "MW" {
      points := points + 8000;
    }
    if letters == "MNNN" {
      points := points + 9000;
    }
    if letters == "MWN" {
      points := points + 10000;
    }
    if letters == "MNNNN" {
      points := points + 11000;
    }
    if letters == "MNWNNT" {
      points := points + 12000;
    }
  }

  // The window rules, in the order of the source.

  method WindowScore(w: Word16, m: nat) returns (points: int)
    ensures points == WindowPoints(w, m)
  {
    var early := EarlyScore(w, m);
    var broad := BroadScore(w, m);
    var shared := SharedScore(w, m);
    var late := LateScore(w, m);
    points := early + broad + shared + late;
  }

  method EarlyScore(w: Word16, m: nat) returns (points: int)
    ensures points == EarlyPoints(w, m)
  {
    points := 0;
    if Near(w, m, 50) {
      points := points + 10;
    }
    if Near(w, 32736, 70) {
      points := points + 20;
    }
    if Near(w, 512, 50) || Near(w, 16384, 70) {
      points := points + 30;
    }
    if Near(w, m * 11, 70) || Near(w, m * 20, 70) {
      points := points + 40;
    }
    if Near(w, m * 2, 70) || Near(w, m * 3, 70) || Near(w, m * 4, 70) {
      points := points + 50;
    }
    if Near(w, 8192, 70) {
      points := points + 60;
    }
    if Near(w, m * 44, 70) {
      points := points + 70;
    }
    if Near(w, 8192, 70) {
      points := points + 80;
    }
  }

  method BroadScore(w: Word16, m: nat) returns (points: int)
    ensures points == BroadPoints(w, m)
  {
    points := 0;
    if Near(w, 65535, 70) || Near(w, 8192, 70) || Near(w, 32767, 70) || Near(w, 37300, 70) ||
      Near(w, 46080, 70) || Near(w, 60352, 70) || Near(w, m * 44, 70) || Near(w, m * 4, 70) ||
      Near(w, m * 6, 70) || Near(w, m * 12, 70) || Near(w, m * 16, 70) || Near(w, m * 26, 70) {
      points := points + 90;
    }
    if Near(w, 44620, 70) {
      points := points + 100;
    }
    if Near(w, 64512, 70) {
      points := points + 110;
    }
    if Near(w, 64512, 70) {
      points := points + 120;
    }
    if Near(w, 8192, 70) || Near(w, m * 6, 70) {
      points := points + 130;
    }
  }

  method SharedScore(w: Word16, m: nat) returns (points: int)
    ensures points == SharedPoints(w, m)
  {
    points := 0;
    if Near(w, 64512, 70) || Near(w, m * 44, 70) {
      points := points + 140;
    }
    if Near(w, 65535, 70) || Near(w, 40320, 70) || Near(w, 32767, 70) || Near(w, m * 45, 70) {
      points := points + 150;
    }
    if Near(w, 65535, 70) || Near(w, 8192, 70) || Near(w, 64512, 70) || Near(w, 32767, 70) ||
      Near(w, m * 45, 70) || Near(w, m * 44, 70) || Near(w, m * 12, 70) {
      points := points + 160;
    }
    if Near(w, 65535, 70) || Near(w, 32768, 70) || Near(w, 16384, 70) {
      points := points + 170;
    }
  }

  method LateScore(w: Word16, m: nat) returns (points: int)
    ensures points == LatePoints(w, m)
  {
    points := 0;
    if Near(w, 8192, 70) {
      points := points + 180;
    }
    if Near(w, 16616, 70) {
      points := points + 190;
    }
    if Near(w, m * 2, 70) {
      points := points + 200;
    }
    if Near(w, 32768, 70) {
      points := points + 210;
    }
    if Near(w, 32768, 70) || Near(w, 65535, 70) {
      points := points + 220;
    }
    if Near(w, 33304, 70) {
      points := points + 230;
    }
  }

  class ScoreInfo {
    var tenths: int
    var seenTtl: bool
    var seenDf: bool
    var seenMss: bool
    var seenScale: bool
    var seenWindow: bool
    var seenLength: bool
    var seenOrder: bool
    var seenId: bool

    constructor ()
      ensures State() == ZERO
    {
      tenths := 0;
      seenTtl, seenDf, seenMss, seenScale := false, false, false, false;
      seenWindow, seenLength, seenOrder, seenId := false, false, false, false;
    }

    ghost function State(): Tally
      reads this
    {
      Tally(tenths, seenTtl, seenDf, seenMss, seenScale, seenWindow, seenLength, seenOrder, seenId)
    }

    method ProcessIP(p: Packet)
      modifies this
      ensures State() == AfterIp(old(State()), p)
    {
      if !seenTtl {
        if 0 < p.payload.ttl <= 32 {
          tenths := tenths + 1;
        } else if 32 < p.payload.ttl <= 64 {
          tenths := tenths + 2;
        } else if 64 < p.payload.ttl <= 128 {
          tenths := tenths + 3;
        } else if 128 < p.payload.ttl <= 255 {
          tenths := tenths + 4;
        }
        seenTtl := true;
      }
      if !seenDf {
        tenths := tenths + if p.payload.dontFragment then 2 else 1;
        seenDf := true;
      }
    }

    method ProcessTCP(p: Packet)
      requires Scorable(p)
      modifies this
      ensures State() == AfterTcp(old(State()), p)
    {
      if p.protocol != 6 {
        return;
      }
      if p.payload.syn {
        var end := OptionEnd(p.payload.dataOffset);
        var mss, scale := FirstWalk(p.payload.tail, end);
        ScoreWalked(mss, scale);
        ScoreWindow(p.payload.window, mss);
        ScoreLength(p.payload.totalLength);
        ScoreOrder(p.payload.tail, end);
        ScoreId(p.payload.id);
      }
    }

    method ScoreId(id: nat)
      modifies this
      ensures State() == AfterId(old(State()), id)
    {
      if !seenId {
        if id != 0 {
          tenths := tenths + 100000;
        } else {
          tenths := tenths + 200000;
        }
        seenId := true;
      }
    }

    method ScoreWalked(mss: nat, scale: int)
      modifies this
      ensures State() == AfterScale(AfterMss(old(State()), mss), scale)
    {
      if !seenMss {
        if mss == 1380 {
          tenths := tenths + 10;
        }
        seenMss := true;
      }
      if !seenScale {
        if scale == -1 {
          tenths := tenths + 20;
        } else if scale == 0 {
          tenths := tenths + 30;
        } else if scale == 1 {
          tenths := tenths + 40;
        } else if scale == 2 {
          tenths := tenths + 50;
        } else if scale == 5 || scale == 6 || scale == 7 {
          tenths := tenths + 60;
        } else if scale == 8 {
          tenths := tenths + 70;
        }
        seenScale := true;
      }
    }

    method ScoreWindow(window: Word16, mss: nat)
      modifies this
      ensures State() == AfterWindow(old(State()), WindowPoints(window, mss))
    {
      if !seenWindow {
        var points := WindowScore(window, mss);
        AddWindow(points);
      }
    }

    method AddWindow(points: int)
      requires !seenWindow
      modifies this
      ensures State() == AfterWindow(old(State()), points)
    {
      tenths := tenths + 10 * points;
      seenWindow := true;
    }

    method ScoreLength(totalLength: nat)
      modifies this
      ensures State() == AfterLength(old(State()), totalLength)
    {
      if !seenLength {
        if totalLength == 44 {
          tenths := tenths + 1000;
        } else if totalLength == 48 {
          tenths := tenths + 2000;
        } else if totalLength == 52 {
          tenths := tenths + 3000;
        } else if totalLength == 60 {
          tenths := tenths + 4000;
        }
        seenLength := true;
      }
    }

    method ScoreOrder(tail: seq<Byte>, end: nat)
      requires Walkable(tail, end, 0) && |Items(tail, end, 0)| < BUFFER_SIZE
      modifies this
      ensures State() == AfterOrder(old(State()), Letters(Items(tail, end, 0)))
    {
      if !seenOrder {
        var letters := SecondWalk(tail, end);
        var earned := OrderScore(letters);
        tenths := tenths + 10 * earned;
        seenOrder := true;
      }
    }

    /** The scoring loop of the analyzer, behind its packet sort. */
    method ProcessAll(packets: seq<Packet>)
      requires AllScorable(packets)
      modifies this
      ensures State() == Fold(old(State()), packets)
    {
      for i := 0 to |packets|
        invariant Fold(State(), packets[i..]) == Fold(old(State()), packets)
      {
        ghost var rest := packets[i..];
        assert rest[0] == packets[i] && rest[1..] == packets[i + 1..];
        ProcessIP(packets[i]);
        ProcessTCP(packets[i]);
      }
    }
  }

  /** A capture as it is scored: sorted by protocol, the stale header notwithstanding. */
  ghost function Scored(capture: seq<Packet>): seq<Packet> {
    PacketSort.Exchanged(capture)
  }

  lemma ScoredIsScorable(capture: seq<Packet>)
    requires AllScorable(capture)
    ensures AllScorable(Scored(capture)) && |Scored(capture)| == |capture|
  {
    PacketSort.OuterKeepsMultiset(capture, 0);
    forall k | 0 <= k < |capture| ensures Scorable(Scored(capture)[k]) {
      assert Scored(capture)[k] in multiset(capture);
    }
  }

  /** Sorting, then scoring with a fresh score. */
  method CalcScore(packets: array<Packet>, count: nat) returns (tenths: int)
    requires count <= packets.Length && AllScorable(packets[..count])
    modifies packets
    ensures packets[..count] == Scored(old(packets[..count])) && AllScorable(packets[..count])
    ensures count == 0 ==> tenths == 0
    ensures count > 0 ==> tenths == IpTenths(packets[0]) + FirstSynTenths(packets[..count])
  {
    ScoredIsScorable(packets[..count]);
    PacketSort.Exchange(packets, count);
    var score := new ScoreInfo();
    score.ProcessAll(packets[..count]);
    TwoPacketsDecide(packets[..count]);
    tenths := score.tenths;
  }

  /** What that means for a capture of the two protocols the filter admits: an ICMP packet gives
      the IP points whenever one was captured, wherever it stood, and the TCP points come from a
      SYN packet of the capture, if it has one. */
  lemma WhoIsScored(capture: seq<Packet>)
    requires capture != [] && PacketSort.DrawnFrom(capture, {ICMP, TCP}) && AllScorable(capture)
    ensures AllScorable(Scored(capture)) && |Scored(capture)| == |capture|
    ensures Fold(ZERO, Scored(capture)).tenths == IpTenths(Scored(capture)[0]) + FirstSynTenths(Scored(capture))
    ensures Scored(capture)[0] in capture
    ensures Scored(capture)[0].protocol == ICMP <==> exists p :: p in capture && p.protocol == ICMP
    ensures FirstWhere(Scored(capture), IsSyn) < |capture| <==> exists p :: p in capture && IsSyn(p)
  {
    var s := Scored(capture);
    ScoredIsScorable(capture);
    TwoPacketsDecide(s);
    PacketSort.TwoProtocolsSort(capture, ICMP, TCP);
    SameMembers(s, capture);
    assert s[0] in s;
    forall p | p in capture && p.protocol == ICMP ensures s[0].protocol == ICMP {
      var k :| 0 <= k < |s| && s[k] == p;
      var j :| 0 <= j < |capture| && capture[j] == s[0];
      assert s[0].protocol <= s[k].protocol;
    }
    forall p | p in capture && IsSyn(p) ensures FirstWhere(s, IsSyn) < |s| {
      var k :| 0 <= k < |s| && s[k] == p;
    }
    var k := FirstWhere(s, IsSyn);
    assert k < |s| ==> s[k] in s && IsSyn(s[k]);
  }

  lemma SameMembers<T>(s: seq<T>, t: seq<T>)
    requires multiset(s) == multiset(t)
    ensures forall x :: x in s <==> x in t
  {
    forall x ensures x in s <==> x in t {
      assert x in multiset(s) <==> x in multiset(t);
    }
  }
}
