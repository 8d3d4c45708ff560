/** Reading the log in pages: the chunk loop of lib/ftm_client.c, the cap of lib/ftm_server.c and
    the offset window of lib/ftm_db.c, counted from the end of the table. The log's _TIME column
    is TEXT, and a time is written to it as a signed 32-bit number, so the database compares those
    texts, not the times. */
module Paging {
  import opened Names

  const WORD := 0x1_0000_0000

  type UInt32 = x: nat | x < WORD

  datatype Row = Row(time: UInt32, entry: nat)

  // ---- The order of the _TIME column ----

  function Digit(d: nat): (c: char)
    requires d < 10
  {
    '0' + d as char
  }

  function Decimal(n: nat): (r: string)
    ensures r != ""
  {
    if n < 10 then [Digit(n)] else Decimal(n / 10) + [Digit(n % 10)]
  }

  lemma {:induction false} TextLessOnLast(a: string, b: string, x: char, y: char)
    requires |a| == |b|
    ensures TextLess(a + [x], b + [y]) <==> TextLess(a, b) || (a == b && x < y)
  {
    if a == "" {
      assert [x][1..] == "" && [y][1..] == "";
    } else {
      assert (a + [x])[1..] == a[1..] + [x];
      assert (b + [y])[1..] == b[1..] + [y];
      assert a == b <==> a[0] == b[0] && a[1..] == b[1..] by {
        assert a == [a[0]] + a[1..] && b == [b[0]] + b[1..];
      }
      TextLessOnLast(a[1..], b[1..], x, y);
    }
  }

  ghost function Width(n: nat): (w: nat)
    ensures w > 0
  {
    if n < 10 then 1 else Width(n / 10) + 1
  }

  /** The number that the first w digits of n make. */
  ghost function Leading(n: nat, w: nat): nat {
    if n < 10 || Width(n) <= w then n else Leading(n / 10, w)
  }

  /** The text of m comes before the text of n: their common width decides, and of two that agree
      on it the shorter comes first. */
  ghost predicate Before(m: nat, n: nat) {
    if Width(m) < Width(n) then m <= Leading(n, Width(m)) else Leading(m, Width(n)) < n
  }

  lemma {:induction false} DecimalWidth(n: nat)
    ensures |Decimal(n)| == Width(n)
  {
    if n < 10 {
    } else {
      DecimalWidth(n / 10);
    }
  }

  lemma LastDigit(n: nat)
    requires n >= 10
    ensures Decimal(n)[..|Decimal(n)| - 1] == Decimal(n / 10) && Decimal(n)[|Decimal(n)| - 1] == Digit(n % 10)
  {
  }

  lemma {:induction false} DecimalInjective(m: nat, n: nat)
    requires Decimal(m) == Decimal(n)
    ensures m == n
  {
    DecimalWidth(m);
    DecimalWidth(n);
    if m < 10 {
      assert Decimal(m)[0] == Digit(m) && n < 10 && Decimal(n)[0] == Digit(n);
    } else {
      assert n >= 10;
      LastDigit(m);
      LastDigit(n);
      DecimalInjective(m / 10, n / 10);
      assert m == m / 10 * 10 + m % 10 && n == n / 10 * 10 + n % 10;
    }
  }

  /** A further character behind the longer text decides nothing, unless the rest was equal. */
  lemma {:induction false} TextLessLonger(a: string, b: string, x: char)
    ensures |a| <= |b| ==> (TextLess(a, b + [x]) <==> TextLess(a, b) || a == b)
    ensures |a| >= |b| ==> (TextLess(a + [x], b) <==> TextLess(a, b))
  {
    if a == "" || b == "" {
    } else {
      assert (b + [x])[1..] == b[1..] + [x] && (a + [x])[1..] == a[1..] + [x];
      assert a == b <==> a[0] == b[0] && a[1..] == b[1..] by {
        assert a == [a[0]] + a[1..] && b == [b[0]] + b[1..];
      }
      TextLessLonger(a[1..], b[1..], x);
    }
  }

  lemma BeforeLonger(m: nat, n: nat)
    requires Width(m) < Width(n)
    ensures Before(m, n) <==> Before(m, n / 10) || m == n / 10
  {
    if Width(m) == Width(n / 10) {
      assert Leading(n, Width(m)) == Leading(n / 10, Width(m)) == n / 10;
      assert Leading(m, Width(n / 10)) == m;
    }
  }

  /** How decimal texts compare, in terms of the numbers. */
  lemma {:induction false} DecimalOrder(m: nat, n: nat)
    ensures TextLess(Decimal(m), Decimal(n)) <==> Before(m, n)
    decreases m + n
  {
    DecimalWidth(m);
    DecimalWidth(n);
    if Width(m) < Width(n) {
      DecimalOrder(m, n / 10);
      BeforeLonger(m, n);
      assert |Decimal(m)| <= |Decimal(n / 10)|;
      TextLessLonger(Decimal(m), Decimal(n / 10), Digit(n % 10));
      if Decimal(m) == Decimal(n / 10) { DecimalInjective(m, n / 10); }
    } else if Width(m) > Width(n) {
      DecimalOrder(m / 10, n);
      TextLessLonger(Decimal(m / 10), Decimal(n), Digit(m % 10));
    } else if m < 10 {
      TextLessOnLast("", "", Digit(m), Digit(n));
      assert "" + [Digit(m)] == Decimal(m) && "" + [Digit(n)] == Decimal(n);
    } else {
      DecimalOrder(m / 10, n / 10);
      TextLessOnLast(Decimal(m / 10), Decimal(n / 10), Digit(m % 10), Digit(n % 10));
      if Decimal(m / 10) == Decimal(n / 10) { DecimalInjective(m / 10, n / 10); }
    }
  }

  // ---- What is stored for a time ----

  const SIGN := 0x8000_0000

  /** The unsigned time printed as a signed number. */
  ghost function Stored(time: UInt32): string {
    if time < SIGN then Decimal(time) else "-" + Decimal(WORD - time)
  }

  /** The number a decimal text stands for. */
  ghost function Number(text: string): int {
    if text == "" then 0 else Number(text[..|text| - 1]) * 10 + text[|text| - 1] as int - '0' as int
  }

  lemma {:induction false} DecimalRead(n: nat)
    ensures Number(Decimal(n)) == n && (Decimal(n)[0] == '0' <==> n == 0)
    ensures forall k :: 0 <= k < |Decimal(n)| ==> '0' <= Decimal(n)[k] <= '9'
  {
    if n < 10 {
      assert [Digit(n)][..0] == "" && Number("") == 0;
    } else {
      DecimalRead(n / 10);
      var d, c := Decimal(n / 10), Digit(n % 10);
      assert (d + [c])[..|d|] == d && (d + [c])[|d|] == c;
    }
  }

  /** The stored text is the time as a signed 32-bit number in decimal, without leading zeros. */
  lemma StoredReads(time: UInt32)
    ensures var text := Stored(time);
            if time < 0x8000_0000 then Number(text) == time && (text[0] == '0' <==> time == 0)
            else text[0] == '-' && -Number(text[1..]) == time - 0x1_0000_0000 && text[1..] != "" && text[1] != '0'
  {
    if time < SIGN {
      DecimalRead(time);
    } else {
      DecimalRead(WORD - time);
      assert Stored(time)[1..] == Decimal(WORD - time);
    }
  }

  ghost function Key(r: Row): string {
    Stored(r.time)
  }

  lemma StoredInjective(a: UInt32, b: UInt32)
    requires Stored(a) == Stored(b)
    ensures a == b
  {
    if a < SIGN && b < SIGN {
      DecimalInjective(a, b);
    } else if a >= SIGN && b >= SIGN {
      assert Stored(a)[1..] == Decimal(WORD - a) && Stored(b)[1..] == Decimal(WORD - b);
      DecimalInjective(WORD - a, WORD - b);
    } else {
      DecimalStarts(a);
      DecimalStarts(b);
    }
  }

  lemma {:induction false} DecimalStarts(n: nat)
    ensures '0' <= Decimal(n)[0] <= '9'
  {
    if n < 10 {
    } else {
      DecimalStarts(n / 10);
    }
  }

  /** The database's order of two stored times, in terms of the times: from 2^31 on every time
      precedes all earlier ones, and there the complements are compared. */
  ghost predicate StoredBefore(a: UInt32, b: UInt32) {
    if a < SIGN then b < SIGN && Before(a, b)
    else b < SIGN || Before(WORD - a, WORD - b)
  }

  lemma StoredOrder(a: UInt32, b: UInt32)
    ensures TextLess(Stored(a), Stored(b)) <==> StoredBefore(a, b)
  {
    if a < SIGN && b < SIGN {
      DecimalOrder(a, b);
    } else if a >= SIGN && b >= SIGN {
      DecimalOrder(WORD - a, WORD - b);
      assert Stored(a)[1..] == Decimal(WORD - a) && Stored(b)[1..] == Decimal(WORD - b);
    } else {
      DecimalStarts(a);
      DecimalStarts(b);
    }
  }

  /** Stored texts of equal width: up to 2^31 they order as the times, from there on against them. */
  lemma TextOrderIsTimeOrder(a: UInt32, b: UInt32)
    ensures a < SIGN && b < SIGN && Width(a) == Width(b) ==> (TextLess(Stored(a), Stored(b)) <==> a < b)
    ensures a >= SIGN && b >= SIGN && Width(WORD - a) == Width(WORD - b) ==>
              (TextLess(Stored(a), Stored(b)) <==> a > b)
    ensures a < SIGN <= b ==> TextLess(Stored(b), Stored(a)) && !TextLess(Stored(a), Stored(b))
  {
    StoredOrder(a, b);
    StoredOrder(b, a);
  }

  /** Rows in insertion order, each later than all before it as the database compares them. */
  ghost predicate Increasing(log: seq<Row>) {
    forall i, j :: 0 <= i < j < |log| ==> TextLess(Key(log[i]), Key(log[j]))
  }

  // ---- What the query answers ----

  ghost function Least(a: int, b: int): int {
    if a < b then a else b
  }

  /** LIMIT count OFFSET offset. */
  ghost function Limited(log: seq<Row>, offset: nat, count: nat): seq<Row> {
    log[Least(offset, |log|)..Least(offset + count, |log|)]
  }

  ghost predicate KeyIn(r: Row, rows: seq<Row>) {
    exists k :: 0 <= k < |rows| && Key(rows[k]) == Key(r)
  }

  /** SELECT * WHERE _TIME IN (SELECT _TIME LIMIT count OFFSET offset) ORDER BY _TIME DESC: the
      order among equal times is the database's own. */
  ghost predicate Answers(rows: seq<Row>, log: seq<Row>, offset: nat, count: nat) {
    && (forall r :: multiset(rows)[r] == if KeyIn(r, Limited(log, offset, count)) then multiset(log)[r] else 0)
    && (forall i, j :: 0 <= i < j < |rows| ==> !TextLess(Key(rows[i]), Key(rows[j])))
  }

  ghost function Reversed<T>(s: seq<T>): (r: seq<T>)
    ensures |r| == |s| && forall k :: 0 <= k < |s| ==> r[k] == s[|s| - 1 - k]
  {
    seq(|s|, k requires 0 <= k < |s| => s[|s| - 1 - k])
  }

  lemma {:induction false} ReversedMultiset<T>(s: seq<T>)
    ensures multiset(Reversed(s)) == multiset(s)
  {
    if s == [] {
    } else {
      var init, last := s[..|s| - 1], s[|s| - 1];
      assert Reversed(s) == [last] + Reversed(init);
      assert s == init + [last];
      ReversedMultiset(init);
    }
  }

  lemma IncreasingDistinct(log: seq<Row>, i: nat, j: nat)
    requires Increasing(log) && i < |log| && j < |log| && Key(log[i]) == Key(log[j])
    ensures i == j
  {
    if i < j { TextLessIsAsymmetric(Key(log[i]), Key(log[j])); }
    if j < i { TextLessIsAsymmetric(Key(log[j]), Key(log[i])); }
  }

  /** In an increasing log, the rows whose time occurs in a stretch are the rows of that stretch. */
  lemma StretchByKey(log: seq<Row>, lo: nat, hi: nat, r: Row)
    requires Increasing(log) && lo <= hi <= |log|
    ensures multiset(log[lo..hi])[r] == if KeyIn(r, log[lo..hi]) then multiset(log)[r] else 0
  {
    if KeyIn(r, log[lo..hi]) {
      var k :| 0 <= k < hi - lo && Key(log[lo..hi][k]) == Key(r);
      NotBeside(log, lo, hi, lo + k, r);
      StretchCounts(log, lo, hi, r);
    } else {
      assert r !in log[lo..hi];
    }
  }

  lemma StretchCounts(log: seq<Row>, lo: nat, hi: nat, r: Row)
    requires lo <= hi <= |log| && r !in log[..lo] && r !in log[hi..]
    ensures multiset(log[lo..hi])[r] == multiset(log)[r]
  {
    assert log == log[..lo] + log[lo..hi] + log[hi..];
  }

  lemma NotBeside(log: seq<Row>, lo: nat, hi: nat, m: nat, r: Row)
    requires Increasing(log) && lo <= m < hi <= |log| && Key(log[m]) == Key(r)
    ensures r !in log[..lo] && r !in log[hi..]
  {
    forall i | 0 <= i < lo ensures log[..lo][i] != r {
      if log[i] == r { IncreasingDistinct(log, i, m); }
    }
    forall i | 0 <= i < |log| - hi ensures log[hi..][i] != r {
      if log[hi + i] == r { IncreasingDistinct(log, hi + i, m); }
    }
  }

  lemma TailMultiset(s: seq<Row>)
    requires s != []
    ensures multiset(s[1..]) == multiset(s) - multiset{s[0]}
  {
    assert s == [s[0]] + s[1..];
  }

  lemma HeadsAgree(a: seq<Row>, b: seq<Row>)
    requires a != [] && b != [] && multiset(a) == multiset(b)
    requires forall j :: 0 < j < |a| ==> !TextLess(Key(a[0]), Key(a[j]))
    requires forall j :: 0 < j < |b| ==> TextLess(Key(b[j]), Key(b[0]))
    ensures a[0] == b[0]
  {
    assert a[0] in multiset(b) && b[0] in multiset(a);
    var k :| 0 <= k < |b| && b[k] == a[0];
    var j :| 0 <= j < |a| && a[j] == b[0];
  }

  /** A permutation in descending order is determined when the times differ. */
  lemma {:induction false} DescendingUnique(a: seq<Row>, b: seq<Row>)
    requires multiset(a) == multiset(b)
    requires forall i, j :: 0 <= i < j < |a| ==> !TextLess(Key(a[i]), Key(a[j]))
    requires forall i, j :: 0 <= i < j < |b| ==> TextLess(Key(b[j]), Key(b[i]))
    ensures a == b
    decreases |b|
  {
    assert |a| == |multiset(a)| && |b| == |multiset(b)|;
    if b == [] {
    } else {
      HeadsAgree(a, b);
      TailMultiset(a);
      TailMultiset(b);
      DescendingUnique(a[1..], b[1..]);
      assert a == [a[0]] + a[1..] && b == [b[0]] + b[1..];
    }
  }

  lemma ReversedDescends(log: seq<Row>, lo: nat, hi: nat)
    requires Increasing(log) && lo <= hi <= |log|
    ensures var r := Reversed(log[lo..hi]);
            forall i, j :: 0 <= i < j < |r| ==> TextLess(Key(r[j]), Key(r[i])) && !TextLess(Key(r[i]), Key(r[j]))
  {
    var r := Reversed(log[lo..hi]);
    forall i, j | 0 <= i < j < |r| ensures TextLess(Key(r[j]), Key(r[i])) && !TextLess(Key(r[i]), Key(r[j])) {
      assert r[j] == log[hi - 1 - j] && r[i] == log[hi - 1 - i];
      TextLessIsAsymmetric(Key(r[j]), Key(r[i]));
    }
  }

  /** Whatever the database does with ties, an increasing log has one answer: the window, newest
      first. */
  lemma AnswerIsReversedWindow(rows: seq<Row>, log: seq<Row>, offset: nat, count: nat)
    requires Increasing(log)
    ensures Answers(rows, log, offset, count) <==> rows == Reversed(Limited(log, offset, count))
  {
    var lo, hi := Least(offset, |log|), Least(offset + count, |log|);
    var window := log[lo..hi];
    ReversedMultiset(window);
    ReversedDescends(log, lo, hi);
    forall r ensures multiset(window)[r] == if KeyIn(r, window) then multiset(log)[r] else 0 {
      StretchByKey(log, lo, hi, r);
    }
    if Answers(rows, log, offset, count) {
      assert multiset(rows) == multiset(window);
      DescendingUnique(rows, Reversed(window));
    }
  }

  /** The windows of a log with distinct times are answered newest first, each and every one,
      exactly if the stored texts increase. */
  lemma WindowsRightIff(log: seq<Row>)
    requires forall i, j :: 0 <= i < j < |log| ==> log[i].time != log[j].time
    ensures (forall o: nat, c: nat :: Answers(Reversed(Limited(log, o, c)), log, o, c)) <==> Increasing(log)
  {
    if Increasing(log) {
      forall o: nat, c: nat ensures Answers(Reversed(Limited(log, o, c)), log, o, c) {
        AnswerIsReversedWindow(Reversed(Limited(log, o, c)), log, o, c);
      }
    } else if forall o: nat, c: nat :: Answers(Reversed(Limited(log, o, c)), log, o, c) {
      var n := |log|;
      assert Answers(Reversed(Limited(log, 0, n)), log, 0, n) && Limited(log, 0, n) == log;
      forall i, j | 0 <= i < j < n ensures TextLess(Key(log[i]), Key(log[j])) {
        assert Reversed(log)[n - 1 - j] == log[j] && Reversed(log)[n - 1 - i] == log[i];
        TextLessIsTotal(Key(log[i]), Key(log[j]));
        if Key(log[i]) == Key(log[j]) { StoredInjective(log[i].time, log[j].time); }
      }
    }
  }

  /** The same condition on the times themselves. */
  lemma IncreasingIff(log: seq<Row>)
    ensures Increasing(log) <==> forall i, j :: 0 <= i < j < |log| ==> StoredBefore(log[i].time, log[j].time)
  {
    forall i, j | 0 <= i < j < |log|
      ensures TextLess(Key(log[i]), Key(log[j])) <==> StoredBefore(log[i].time, log[j].time)
    {
      StoredOrder(log[i].time, log[j].time);
    }
  }

  /** Two rows a second apart that the text swaps: at the billionth second it grows by a digit, at
      second 2^31 it turns negative. */
  ghost predicate Swapped(earlier: Row, later: Row) {
    || (earlier.time == 999999999 && later.time == 1000000000)
    || (earlier.time == SIGN - 1 && later.time == SIGN)
  }

  lemma BillionComesFirst()
    ensures Before(1000000000, 999999999)
  {
  }

  lemma PairReversed(x: Row, y: Row)
    ensures Reversed([x, y]) == [y, x] && Limited([x, y], 0, 2) == [x, y]
    ensures multiset([x, y]) == multiset([y, x])
    ensures forall r :: KeyIn(r, [x, y]) <==> Key(r) == Key(x) || Key(r) == Key(y)
  {
    forall r ensures KeyIn(r, [x, y]) <==> Key(r) == Key(x) || Key(r) == Key(y) {
      assert [x, y][0] == x && [x, y][1] == y;
    }
  }

  /** An answer does not depend on the order of insertion when all rows are asked for. */
  lemma PairAnswers(x: Row, y: Row, answer: seq<Row>)
    ensures Answers(answer, [x, y], 0, 2) <==> Answers(answer, [y, x], 0, 2)
  {
    PairReversed(x, y);
    PairReversed(y, x);
  }

  /** Their page comes out oldest first, whatever the database does. */
  lemma PagesOutOfOrder(earlier: Row, later: Row, answer: seq<Row>)
    requires Swapped(earlier, later) && Answers(answer, [earlier, later], 0, 2)
    ensures answer == [earlier, later] && Slice([earlier, later], 0, 2) == [later, earlier]
  {
    BillionComesFirst();
    StoredOrder(later.time, earlier.time);
    assert Increasing([later, earlier]);
    PairReversed(earlier, later);
    PairReversed(later, earlier);
    PairAnswers(earlier, later, answer);
    AnswerIsReversedWindow(answer, [later, earlier], 0, 2);
  }

  // ---- The offset window ----

  /** The rows a page is meant to hold: newest first, from index on, at most max of them. */
  ghost function Slice(log: seq<Row>, index: nat, max: nat): seq<Row> {
    Reversed(log)[Least(index, |log|)..Least(index + max, |log|)]
  }

  /** Offset and limit as the code computes them, ulIndex + ulMaxCount wrapping at 32 bits. */
  function Window(total: nat, index: UInt32, max: UInt32): (nat, nat) {
    var sum := (index as int + max as int) % WORD;
    if total > sum then (total - sum, max)
    else if total > index then (0, total - index)
    else (0, 0)
  }

  /** What a page holds: the newest first answer to that window. */
  ghost function Page(log: seq<Row>, index: UInt32, max: UInt32): seq<Row> {
    var (offset, count) := Window(|log|, index, max);
    Reversed(Limited(log, offset, count))
  }

  lemma PageWithoutWrap(log: seq<Row>, index: UInt32, max: UInt32)
    requires index as int + max as int < WORD
    ensures Page(log, index, max) == Slice(log, index, max)
  {
  }

  /** The page is the slice asked for exactly if the sum does not wrap, or it wraps to where the
      slice is empty anyway. */
  lemma PageIsSliceIff(log: seq<Row>, index: UInt32, max: UInt32)
    requires Increasing(log) && |log| < WORD
    ensures Page(log, index, max) == Slice(log, index, max) <==>
            (var sum := index as int + max as int;
             sum < WORD || |log| <= sum - WORD || (sum == WORD && |log| <= index))
  {
    var n, sum := |log|, index as int + max as int;
    if sum < WORD {
      PageWithoutWrap(log, index, max);
    } else if n > sum - WORD {
      WrappedPage(log, index, max);
    }
  }

  /** After a wrap the page starts at the newest row, which the slice does not. */
  lemma WrappedPage(log: seq<Row>, index: UInt32, max: UInt32)
    requires Increasing(log) && |log| < WORD
    requires WORD <= index as int + max as int < WORD + |log|
    ensures Page(log, index, max) == Slice(log, index, max) <==>
            index as int + max as int == WORD && |log| <= index
  {
    var n, back := |log|, index as int + max as int - WORD;
    assert Window(n, index, max) == (n - back, max);
    var newest := Reversed(log);
    assert index < n ==> Slice(log, index, max) == newest[index..];
    if back == 0 {
      assert Limited(log, n, max) == [];
      assert index >= n ==> Slice(log, index, max) == [];
    } else {
      assert Limited(log, n - back, max) == log[n - back..];
      assert Page(log, index, max)[0] == log[n - 1];
      if index < n {
        assert newest[index..][0] == newest[index] == log[n - 1 - index];
        if log[n - 1] == log[n - 1 - index] { IncreasingDistinct(log, n - 1, n - 1 - index); }
      }
    }
  }

  // ---- The code ----

  /** The next chunk continues the slice; an empty one means that there is nothing left. */
  lemma ChunkExtends(log: seq<Row>, index: nat, total: nat, ask: nat, max: nat)
    requires |Slice(log, index, total)| == total <= max && ask > 0
    ensures var got := Slice(log, index + total, ask);
            && Slice(log, index, total) + got == Slice(log, index, total + |got|)
            && |Slice(log, index, total + |got|)| == total + |got|
            && (got == [] ==> Slice(log, index, max) == Slice(log, index, total))
  {
  }

  /** The same in the caller's array s, where the rows so far stand at position at. */
  lemma ChunkJoins(s: seq<Row>, at: nat, got: nat, log: seq<Row>, index: nat, total: nat, ask: nat, max: nat)
    requires at + total + got <= |s| && total <= max && ask > 0
    requires s[at..at + total] == Slice(log, index, total)
    requires s[at + total..at + total + got] == Slice(log, index + total, ask)
    ensures s[at..at + (total + got)] == Slice(log, index, total + got)
    ensures got == 0 ==> s[at..at + total] == Slice(log, index, max)
  {
    ChunkExtends(log, index, total, ask, max);
    assert s[at..at + (total + got)] == s[at..at + total] + s[at + total..at + total + got];
  }

  /** A single request, which is all the client makes when its own limit allows, gets the whole
      slice exactly if the server's cap covers it. */
  lemma SingleRequestIff(log: seq<Row>, index: nat, max: nat, cap: nat)
    ensures Slice(log, index, Least(cap, max)) == Slice(log, index, max) <==>
            max <= cap || |log| <= index + cap
  {
  }

  // ---- The statistics list has no zero-progress break ----

  /** One turn of the loop over total entries: index and the count still wanted. */
  ghost function StatTurn(total: nat, index: nat, left: nat, most: nat): (nat, nat)
    requires most > 0
  {
    var got := if index < total then Least(Least(most, left), total - index) else 0;
    (index + got, left - got)
  }

  ghost function StatTurns(total: nat, index: nat, left: nat, most: nat, n: nat): (nat, nat)
    requires most > 0
    decreases n
  {
    if n == 0 then (index, left)
    else var (i, l) := StatTurn(total, index, left, most); StatTurns(total, i, l, most, n - 1)
  }

  lemma {:induction false} StatTurnsEnd(total: nat, index: nat, left: nat, most: nat) returns (n: nat)
    requires most > 0 && (left == 0 || index + left <= total)
    ensures StatTurns(total, index, left, most, n).1 == 0
    decreases left
  {
    if left == 0 {
      n := 0;
    } else {
      var (i, l) := StatTurn(total, index, left, most);
      var m := StatTurnsEnd(total, i, l, most);
      n := m + 1;
    }
  }

  lemma {:induction false} StatTurnsStarve(total: nat, index: nat, left: nat, most: nat, n: nat)
    requires most > 0 && left > 0 && index + left > total
    ensures StatTurns(total, index, left, most, n).1 > 0
    decreases n
  {
    if n == 0 {
    } else {
      var (i, l) := StatTurn(total, index, left, most);
      StatTurnsStarve(total, i, l, most, n - 1);
    }
  }

  /** The chunk loop of the statistics list ends exactly if it asks for no more than there is; asked
      for one entry too many it repeats its last, empty request for ever. */
  lemma StatLoopEndsIff(total: nat, index: nat, max: nat, most: nat)
    requires most > 0
    ensures (exists n :: StatTurns(total, index, max, most, n).1 == 0) <==> max == 0 || index + max <= total
  {
    if max == 0 || index + max <= total {
      var n := StatTurnsEnd(total, index, max, most);
    } else {
      forall n: nat ensures StatTurns(total, index, max, most, n).1 > 0 {
        StatTurnsStarve(total, index, max, most, n);
      }
    }
  }

  /** memcpy of the response into the caller's array. */
  method CopyIn(found: seq<Row>, list: array<Row>, at: nat)
    requires at + |found| <= list.Length
    modifies list
    ensures list[..] == old(list[..at]) + found + old(list[at + |found|..])
  {
    for k := 0 to |found|
      invariant list[..] == old(list[..at]) + found[..k] + old(list[at + k..])
    {
      list[at + k] := found[k];
    }
    assert found[..|found|] == found;
  }

  /** Only s[from..to] differs. */
  ghost predicate KeptOutside(s: seq<Row>, was: seq<Row>, from: nat, to: nat) {
    from <= to <= |s| == |was| && s[..from] == was[..from] && s[to..] == was[to..]
  }

  lemma KeptWider(s: seq<Row>, was: seq<Row>, at: nat, end: nat, from: nat, to: nat)
    requires KeptOutside(s, was, at, end) && from <= at && end <= to <= |s|
    ensures KeptOutside(s, was, from, to) && s[from..at] == was[from..at]
  {
  }

  class Database {
    /** The log rows that match the request's conditions, in insertion order. */
    const rows: seq<Row>
    /** What SQLite answers to the query with this offset and limit. */
    const answer: (nat, nat) -> seq<Row>

    constructor (rows: seq<Row>, answer: (nat, nat) -> seq<Row>)
      ensures this.rows == rows && this.answer == answer
    {
      this.rows, this.answer := rows, answer;
    }

    ghost predicate Truthful() {
      forall o: nat, c: nat :: Answers(answer(o, c), rows, o, c)
    }

    /** The answer to a request's window, cut at the request's count. */
    ghost function Cut(index: UInt32, max: UInt32): (found: seq<Row>)
      ensures |found| <= max
    {
      var (offset, count) := Window(|rows|, index, max);
      answer(offset, count)[..Least(|answer(offset, count)|, max)]
    }

    /** The row callback stops at the caller's count, not at the shortened one. */
    method GetLogList(index: UInt32, max: UInt32) returns (found: seq<Row>)
      ensures found == Cut(index, max)
    {
      var total := |rows|;
      var sum := (index as int + max as int) % WORD;
      var offset, count: nat := 0, max;
      if total > sum {
        offset := total - sum;
      } else if total > index {
        offset, count := 0, total - index;
      } else {
        offset, count := 0, 0;
      }
      found := [];
      var rest := answer(offset, count);
      for k := 0 to |rest|
        invariant found == rest[..Least(k, max)]
      {
        if |found| < max {
          found := found + [rest[k]];
        }
      }
    }

    /** On an increasing log and without a wrap, that is the slice. */
    lemma CutIsSlice(index: UInt32, max: UInt32)
      requires Truthful() && Increasing(rows) && index as int + max as int < WORD
      ensures Cut(index, max) == Slice(rows, index, max)
    {
      var (offset, count) := Window(|rows|, index, max);
      AnswerIsReversedWindow(answer(offset, count), rows, offset, count);
      PageWithoutWrap(rows, index, max);
    }
  }

  class Server {
    const db: Database
    /** How many rows the response buffer holds. */
    const cap: UInt32
    /** How many more requests are answered before the connection fails. */
    var answersLeft: nat

    constructor (db: Database, cap: UInt32, answersLeft: nat)
      ensures this.db == db && this.cap == cap && this.answersLeft == answersLeft
    {
      this.db, this.cap, this.answersLeft := db, cap, answersLeft;
    }

    method GetList(index: UInt32, count: UInt32) returns (ok: bool, found: seq<Row>)
      modifies this`answersLeft
      ensures ok <==> old(answersLeft) > 0
      ensures answersLeft == if ok then old(answersLeft) - 1 else 0
      ensures ok ==> found == db.Cut(index, if cap < count then cap else count)
    {
      ok, found := answersLeft > 0, [];
      if ok {
        answersLeft := answersLeft - 1;
        var max := if cap > count then count else cap;
        found := db.GetLogList(index, max);
      }
    }
  }

  class Client {
    const server: Server
    /** ulAllowedNumber: how many rows the client accepts in one response. */
    const allowed: UInt32

    constructor (server: Server, allowed: UInt32)
      requires allowed > 0
      ensures this.server == server && this.allowed == allowed
    {
      this.server, this.allowed := server, allowed;
    }

    /** What paging relies on: the database answers its queries, its texts increase with the log,
        a response holds at least one row, and the last row asked for has a 32-bit index. */
    ghost predicate Orderly(index: nat, max: nat) {
      && server.db.Truthful() && Increasing(server.db.rows)
      && server.cap > 0 && index + max < WORD
    }

    /** Rows go to list from position at on; count is meaningful if ok. */
    method GetList(index: UInt32, max: UInt32, list: array<Row>, at: nat) returns (ok: bool, count: nat)
      requires at + max <= list.Length && allowed > 0
      modifies list, server`answersLeft
      ensures KeptOutside(list[..], old(list[..]), at, at + max)
      ensures ok ==> count <= max
      ensures ok && Orderly(index, max) ==> list[at..at + count] == Fetched(index, max)
      ensures !ok ==> server.answersLeft == 0
      decreases if max > allowed then 3 else 0
    {
      if allowed >= max {
        var found;
        ok, found := server.GetList(index, max);
        count := |found|;
        if ok {
          CopyIn(found, list, at);
          if Orderly(index, max) {
            server.db.CutIsSlice(index, if server.cap < max then server.cap else max);
          }
        }
      } else {
        ok, count := GetChunks(index, max, list, at);
      }
    }

    /** What the client ends up with: in one request what the server's cap lets through, in chunks
        the whole slice. */
    ghost function Fetched(index: nat, max: nat): seq<Row> {
      if max <= allowed then Slice(server.db.rows, index, Least(server.cap, max))
      else Slice(server.db.rows, index, max)
    }

    /** One chunk of the slice from index on, of which list[from..from + total] holds the first
        total rows. */
    method GetChunk(index: UInt32, total: nat, ask: UInt32, list: array<Row>, from: nat, ghost max: nat)
      returns (ok: bool, got: nat)
      requires total + ask <= max && from + max <= list.Length && 0 < ask <= allowed
      requires Orderly(index, max) ==> list[from..from + total] == Slice(server.db.rows, index, total)
      modifies list, server`answersLeft
      ensures KeptOutside(list[..], old(list[..]), from, from + max)
      ensures ok ==> got <= ask
      ensures ok && Orderly(index, max) ==>
                && list[from..from + (total + got)] == Slice(server.db.rows, index, total + got)
                && (got == 0 ==> list[from..from + total] == Slice(server.db.rows, index, max))
      ensures !ok ==> server.answersLeft == 0
      decreases 1
    {
      ghost var before := list[..];
      var next := (index + total) % WORD;
      ghost var orderly := Orderly(index, max);
      assert orderly ==> next == index + total && Orderly(next, ask);
      ok, got := GetList(next, ask, list, from + total);
      KeptWider(list[..], before, from + total, from + total + ask, from, from + max);
      if ok && orderly {
        assert list[from..from + total] == before[from..from + total];
        ChunkJoins(list[..], from, got, server.db.rows, index, total, Least(server.cap, ask), max);
      }
    }

    method GetChunks(index: UInt32, max: UInt32, list: array<Row>, at: nat) returns (ok: bool, total: nat)
      requires at + max <= list.Length && 0 < allowed < max
      modifies list, server`answersLeft
      ensures KeptOutside(list[..], old(list[..]), at, at + max)
      ensures ok ==> total <= max
      ensures ok && Orderly(index, max) ==> list[at..at + total] == Slice(server.db.rows, index, max)
      ensures !ok ==> server.answersLeft == 0
      decreases 2
    {
      ok, total := true, 0;
      var left: nat := max;
      while left > 0
        invariant ok && total + left == max
        invariant KeptOutside(list[..], old(list[..]), at, at + max)
        invariant Orderly(index, max) ==> list[at..at + total] == Slice(server.db.rows, index, total)
        decreases left
      {
        var ask := if allowed > left then left else allowed;
        var got;
        ok, got := GetChunk(index, total, ask, list, at, max);
        if !ok {
          break;
        }
        total, left := total + got, left - got;
        if got == 0 {
          break;
        }
      }
    }
  }
}
