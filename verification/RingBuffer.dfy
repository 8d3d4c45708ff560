/** The overwriting byte buffer of lib/ftm_buffer.c: one slot stays free, so at most
    maxSize - 1 bytes are held, and a push that does not fit drops the oldest bytes. */
module RingBuffer {
  import opened Bytes
  import opened Sequences

  const SLACK: nat := 1024
  const TWO_32: nat := 0x1_0000_0000

  /** 32-bit unsigned subtraction. */
  function Sub32(a: nat, b: nat): nat {
    (a - b) % TWO_32
  }

  /** The len bytes that start at first and wrap around at size. */
  ghost function Window(b: seq<Byte>, size: nat, first: nat, len: nat): (w: seq<Byte>)
    requires 0 < size <= |b| && first <= size && len <= size
    ensures |w| == len
    ensures forall i :: 0 <= i < len ==> w[i] == b[Wrap(first + i, size)]
  {
    seq(len, i requires 0 <= i < len => b[Wrap(first + i, size)])
  }

  ghost function LastBytes(s: seq<Byte>, n: nat): seq<Byte> {
    if |s| <= n then s else s[|s| - n..]
  }

  /** How many of the oldest bytes a push of n drops. */
  ghost function Overflow(size: nat, len: nat, n: nat): nat {
    if len + n > size - 1 then len + n - (size - 1) else 0
  }

  /** A memcpy of piece to position at. */
  ghost function Splice(b: seq<Byte>, at: nat, piece: seq<Byte>): (c: seq<Byte>)
    requires at + |piece| <= |b|
    ensures |c| == |b|
  {
    b[..at] + piece + b[at + |piece|..]
  }

  lemma SpliceTwice(b: seq<Byte>, x: seq<Byte>, y: seq<Byte>)
    requires |x| + |y| <= |b|
    ensures Splice(Splice(b, 0, x), |x|, y) == Splice(b, 0, x + y)
  {
  }

  /** The array after the one or two copies of a push at last. */
  ghost function Copied(b: seq<Byte>, size: nat, last: nat, data: seq<Byte>): (c: seq<Byte>)
    requires last < size <= |b| && |data| - (size - last) <= |b|
    ensures |c| == |b|
  {
    var room := size - last;
    if |data| <= room then Splice(b, last, data)
    else Splice(Splice(b, last, data[..room]), 0, data[room..])
  }

  /** The remainder of a position less than twice the size. */
  function Wrap(p: nat, size: nat): nat {
    if p < size then p else p - size
  }

  lemma RemainderSmall(a: nat, m: nat)
    requires 0 < m && a < 4 * m
    ensures a % m == if a < m then a else if a < 2 * m then a - m else if a < 3 * m then a - 2 * m else a - 3 * m
  {
  }

  /** first after dropping over bytes: left alone, even at size, when nothing is dropped. */
  ghost function Advanced(size: nat, first: nat, over: nat): nat
    requires 0 < size
  {
    if over == 0 then first else (first + over) % size
  }

  /** Up to 2 * size - last bytes, a push leaves the last size - 1 bytes of what was held
      followed by what was pushed. */
  lemma PushWindow(b: seq<Byte>, size: nat, first: nat, last: nat, len: nat, data: seq<Byte>)
    requires 0 < size <= |b| && first <= size && len < size && last == Wrap(first + len, size)
    requires |data| <= 2 * size - last
    ensures var over, t := Overflow(size, len, |data|), LastBytes(Window(b, size, first, len) + data, size - 1);
            && Advanced(size, first, over) <= size && |t| == len + |data| - over
            && Window(Copied(b, size, last, data), size, Advanced(size, first, over), |t|) == t
  {
    var over := Overflow(size, len, |data|);
    var c := Copied(b, size, last, data);
    var t := LastBytes(Window(b, size, first, len) + data, size - 1);
    var start := Advanced(size, first, over);
    RemainderSmall(first + over, size);
    forall i | 0 <= i < |t| ensures c[Wrap(start + i, size)] == t[i] {
      PushedByte(b, size, first, last, len, data, over + i, Wrap(start + i, size));
    }
    WindowIs(c, size, start, t);
  }

  ghost predicate SamePlace(p: nat, q: nat, size: nat) {
    p == q || p + size == q || p + 2 * size == q || p + 3 * size == q
  }

  /** The x-th byte of old contents followed by new data is found x places from first. */
  lemma PushedByte(b: seq<Byte>, size: nat, first: nat, last: nat, len: nat, data: seq<Byte>, x: nat, p: nat)
    requires 0 < size <= |b| && first <= size && len < size && last == Wrap(first + len, size)
    requires |data| <= 2 * size - last && len + |data| - size < x < len + |data|
    requires p < size && SamePlace(p, first + x, size)
    ensures Copied(b, size, last, data)[p] == (Window(b, size, first, len) + data)[x]
  {
  }

  lemma WindowIs(b: seq<Byte>, size: nat, first: nat, t: seq<Byte>)
    requires 0 < size <= |b| && first <= size && |t| <= size
    requires forall i :: 0 <= i < |t| ==> b[Wrap(first + i, size)] == t[i]
    ensures Window(b, size, first, |t|) == t
  {
  }

  /** A longer push overruns the ring: whatever is held, some data of that length is not what
      a reader gets back. So 2 * size - last is exactly how much one push can take. */
  lemma PushOverrun(b: seq<Byte>, size: nat, first: nat, last: nat, len: nat, n: nat)
    requires 2 <= size <= |b| && first <= size && len < size && last == Wrap(first + len, size)
    requires 2 * size - last < n <= |b| + size - last
    ensures exists data: seq<Byte> :: |data| == n &&
              Window(Copied(b, size, last, data), size, (first + Overflow(size, len, n)) % size, size - 1)
              != LastBytes(Window(b, size, first, len) + data, size - 1)
  {
    var data: seq<Byte> := seq(n, i => if i == n - 1 then 1 else 0);
    var c := Copied(b, size, last, data);
    var start := (first + Overflow(size, len, n)) % size;
    var got := Window(c, size, start, size - 1);
    var want := LastBytes(Window(b, size, first, len) + data, size - 1);
    assert want[size - 2] == data[n - 1] == 1;
    var p := Wrap(start + (size - 2), size);
    assert got[size - 2] == c[p] == data[size - last + p] == 0;
  }

  /** What a pop copies: one piece, or two across the wrap. */
  ghost function Front(b: seq<Byte>, size: nat, first: nat, n: nat): (f: seq<Byte>)
    requires first <= size <= |b| && n <= size
    ensures |f| == n
  {
    if first + n > size then b[first..size] + b[0..n - (size - first)] else b[first..first + n]
  }

  function Popped(size: nat, first: nat, n: nat): nat
    requires first <= size
  {
    if first + n > size then n - (size - first) else first + n
  }

  /** Popping n bytes moves first by n, across the wrap if need be. */
  lemma PopWindow(b: seq<Byte>, size: nat, first: nat, len: nat, n: nat)
    requires 0 < size <= |b| && first <= size && n <= len < size
    ensures var w, next := Window(b, size, first, len), Popped(size, first, n);
            && next <= size && Wrap(next + (len - n), size) == Wrap(first + len, size)
            && Window(b, size, next, len - n) == w[n..]
            && Front(b, size, first, n) == w[..n]
  {
  }

  /** The fields agree with each other and the slack past the ring is untouched. first may rest
      on size itself, one past the ring, until it next moves. */
  ghost predicate Consistent(b: seq<Byte>, size: nat, first: nat, last: nat, len: nat) {
    && 0 < size <= 0x1000_0000 && |b| == size + SLACK
    && len < size && first <= size && last == Wrap(first + len, size)
    && forall i :: size <= i < |b| ==> b[i] == 0
  }

  /** The state after a push, computed as the code does: the array, first, last, and the length
      with its 32-bit arithmetic. */
  ghost function Pushed(b: seq<Byte>, size: nat, first: nat, last: nat, len: nat, data: seq<Byte>)
      : (seq<Byte>, nat, nat, nat)
    requires last < size <= |b| && |data| - (size - last) <= |b|
  {
    var over := Overflow(size, len, |data|);
    (Copied(b, size, last, data), Advanced(size, first, over), (last + |data|) % size,
     (Sub32(len, over) + |data|) % TWO_32)
  }

  /** After a push that fits the fields still agree. */
  lemma PushKeepsConsistent(b: seq<Byte>, size: nat, first: nat, last: nat, len: nat, data: seq<Byte>)
    requires Consistent(b, size, first, last, len) && |data| <= 2 * size - last
    ensures var (c, first', last', len') := Pushed(b, size, first, last, len, data);
            Consistent(c, size, first', last', len')
  {
    PushLength(size, len, |data|);
    SlackKept(b, size, last, data);
    PushIndices(size, first, len, |data|);
  }

  lemma PushIndices(size: nat, first: nat, len: nat, n: nat)
    requires 0 < size && first <= size && len < size && n <= 2 * size - Wrap(first + len, size)
    ensures var over := Overflow(size, len, n);
            && Advanced(size, first, over) <= size
            && Wrap(Advanced(size, first, over) + (len + n - over), size) == (Wrap(first + len, size) + n) % size
  {
    RemainderSmall(first + Overflow(size, len, n), size);
    RemainderSmall(Wrap(first + len, size) + n, size);
  }

  /** After a push that fits the oldest bytes gave way to the new ones. */
  lemma PushContents(b: seq<Byte>, size: nat, first: nat, last: nat, len: nat, data: seq<Byte>)
    requires Consistent(b, size, first, last, len) && |data| <= 2 * size - last
    ensures var (c, first', last', len') := Pushed(b, size, first, last, len, data);
            && first' <= size && len' < size
            && Window(c, size, first', len') == LastBytes(Window(b, size, first, len) + data, size - 1)
  {
    PushLength(size, len, |data|);
    PushWindow(b, size, first, last, len, data);
  }

  lemma EmptyIff(size: nat, first: nat, len: nat)
    requires len < size && first <= size
    ensures first == Wrap(first + len, size) ==> len == 0
  {
  }

  /** A pop hands out the front of the contents, keeps the rest, and the fields still agree. */
  lemma Pop(b: seq<Byte>, size: nat, first: nat, last: nat, len: nat, n: nat)
    requires Consistent(b, size, first, last, len) && n <= len
    ensures var next := Popped(size, first, n);
            && Consistent(b, size, next, last, len - n)
            && Window(b, size, next, len - n) == Window(b, size, first, len)[n..]
            && Front(b, size, first, n) == Window(b, size, first, len)[..n]
  {
    PopWindow(b, size, first, len, n);
  }

  class Buffer {
    var first: nat
    var last: nat
    var dataLen: nat
    const maxSize: nat
    const buffer: array<Byte>

    ghost predicate Valid()
      reads this, buffer
    {
      Consistent(buffer[..], maxSize, first, last, dataLen)
    }

    ghost function Contents(): seq<Byte>
      requires Valid()
      reads this, buffer
    {
      Window(buffer[..], maxSize, first, dataLen)
    }

    constructor (size: nat)
      requires 0 < size <= 0x1000_0000
      ensures Valid() && fresh(buffer) && maxSize == size && Contents() == [] && first == 0
    {
      maxSize := size;
      buffer := new Byte[size + SLACK](_ => 0);
      first, last, dataLen := 0, 0, 0;
    }

    /** Everything the allocation can absorb is accepted; the length arithmetic wraps at 32 bits. */
    method PushBack(data: array<Byte>, n: nat)
      requires Valid() && n <= data.Length && data != buffer
      requires n <= buffer.Length + maxSize - last
      modifies this, buffer
      ensures (buffer[..], first, last, dataLen) ==
        Pushed(old(buffer[..]), maxSize, old(first), old(last), old(dataLen), data[..n])
      ensures n <= 2 * maxSize - old(last) ==>
        Valid() && Contents() == LastBytes(old(Contents()) + data[..n], maxSize - 1)
    {
      ghost var b, f, l, d := buffer[..], first, last, dataLen;
      DropOldest(n);
      CopyWrapped(data, n);
      dataLen := (dataLen + n) % TWO_32;
      last := (last + n) % maxSize;
      ghost var bytes := data[..n];
      assert (buffer[..], first, last, dataLen) == Pushed(b, maxSize, f, l, d, bytes);
      if n <= 2 * maxSize - l {
        PushKeepsConsistent(b, maxSize, f, l, d, bytes);
        PushContents(b, maxSize, f, l, d, bytes);
      }
    }

    /** Makes room for n bytes. The subtraction may wrap; the later addition brings it back. */
    method DropOldest(n: nat)
      requires 0 < maxSize && dataLen < TWO_32
      modifies this`first, this`dataLen
      ensures dataLen == Sub32(old(dataLen), Overflow(maxSize, old(dataLen), n))
      ensures first == Advanced(maxSize, old(first), Overflow(maxSize, old(dataLen), n))
    {
      if maxSize - 1 < dataLen + n {
        var overSize := dataLen + n - (maxSize - 1);
        dataLen := Sub32(dataLen, overSize);
        first := (first + overSize) % maxSize;
      }
    }

    /** Returns and removes the longest prefix of at most maxLen bytes. */
    method PopFront(data: array<Byte>, maxLen: nat) returns (n: nat)
      requires Valid() && data != buffer
      requires data.Length >= maxLen || data.Length >= dataLen
      modifies this, data
      ensures Valid()
      ensures n == if maxLen <= |old(Contents())| then maxLen else |old(Contents())|
      ensures data[..] == old(Contents())[..n] + old(data[..])[n..]
      ensures Contents() == old(Contents())[n..]
      ensures last == old(last)
      ensures n > 0 ==> first == Popped(maxSize, old(first), n)
    {
      if first == last {
        EmptyIff(maxSize, first, dataLen);
        assert Contents()[..0] + data[..][0..] == data[..];
        return 0;
      }
      n := if dataLen < maxLen then dataLen else maxLen;
      TakeFront(data, n);
    }

    method TakeFront(data: array<Byte>, n: nat)
      requires Valid() && data != buffer && n <= dataLen && n <= data.Length
      modifies this`first, this`dataLen, data
      ensures Valid()
      ensures data[..] == old(Contents())[..n] + old(data[..])[n..]
      ensures Contents() == old(Contents())[n..]
      ensures first == Popped(maxSize, old(first), n)
    {
      ghost var b, was, f := buffer[..], data[..], first;
      Pop(b, maxSize, first, last, dataLen, n);
      CopyOut(data, n);
      assert buffer[..] == b && data[..] == Window(b, maxSize, first, dataLen)[..n] + was[n..];
      if first + n > maxSize {
        first := n - (maxSize - first);
      } else {
        first := first + n;
      }
      dataLen := dataLen - n;
      assert first == Popped(maxSize, f, n);
    }

    method CopyOut(data: array<Byte>, n: nat)
      requires first <= maxSize <= buffer.Length && data != buffer && n <= maxSize && n <= data.Length
      modifies data
      ensures data[..] == Splice(old(data[..]), 0, Front(buffer[..], maxSize, first, n))
    {
      ghost var b, d := buffer[..], data[..];
      if first + n > maxSize {
        var temp := maxSize - first;
        ghost var x, y := b[first..first + temp], b[0..0 + (n - temp)];
        SpliceTwice(d, x, y);
        CopyInto(data, 0, buffer, first, temp);
        assert data[..] == Splice(d, 0, x) && |x| == temp;
        CopyInto(data, temp, buffer, 0, n - temp);
        assert data[..] == Splice(d, 0, x + y);
      } else {
        CopyInto(data, 0, buffer, first, n);
      }
    }

    /** The head byte, unless first rests one past the ring: then the read gives the slack's 0
        and is right only by coincidence. */
    method GetFirst() returns (r: Option<Byte>)
      requires Valid()
      ensures r.None? <==> Contents() == []
      ensures r.Some? ==> (r.value == Contents()[0] <==> first < maxSize || Contents()[0] == 0)
    {
      if dataLen == 0 {
        return None;
      }
      r := Some(buffer[first]);
    }

    method GetAt(index: nat) returns (r: Option<Byte>)
      requires Valid()
      ensures r == if index < |Contents()| then Some(Contents()[index]) else None
    {
      if dataLen <= index {
        return None;
      }
      RemainderSmall(first + index, maxSize);
      r := Some(buffer[(first + index) % maxSize]);
    }

    method CopyWrapped(data: array<Byte>, n: nat)
      requires last < maxSize <= buffer.Length && n <= data.Length && data != buffer
      requires n <= buffer.Length + maxSize - last
      modifies buffer
      ensures buffer[..] == Copied(old(buffer[..]), maxSize, last, data[..n])
    {
      var temp := maxSize - last;
      if temp >= n {
        assert data[..n] == data[0..n];
        CopyInto(buffer, last, data, 0, n);
      } else {
        assert data[..n][..temp] == data[0..temp] && data[..n][temp..] == data[temp..n];
        CopyInto(buffer, last, data, 0, temp);
        CopyInto(buffer, 0, data, temp, n - temp);
      }
    }
  }

  /** memcpy of n bytes from source[from..] to target[to..]. */
  method CopyInto(target: array<Byte>, to: nat, source: array<Byte>, from: nat, n: nat)
    requires target != source && to + n <= target.Length && from + n <= source.Length
    modifies target
    ensures target[..] == Splice(old(target[..]), to, source[..][from..from + n])
  {
    for i := 0 to n
      invariant target[..to] == old(target[..to]) && target[to + n..] == old(target[to + n..])
      invariant target[to..to + i] == source[from..from + i]
      invariant forall x :: 0 <= x < target.Length && !(to <= x < to + i) ==> target[x] == old(target[x])
    {
      target[to + i] := source[from + i];
    }
  }

  /** The unsigned subtraction may wrap below zero; the addition brings it back. */
  lemma PushLength(size: nat, len: nat, n: nat)
    requires 0 < size <= 0x1000_0000 && len < size && n <= 2 * size
    ensures (Sub32(len, Overflow(size, len, n)) + n) % TWO_32 == len + n - Overflow(size, len, n)
  {
  }

  lemma SlackKept(b: seq<Byte>, size: nat, last: nat, data: seq<Byte>)
    requires last < size <= |b| && |data| <= 2 * size - last
    ensures Copied(b, size, last, data)[size..] == b[size..]
  {
  }

  /** Filling and draining two bytes of a three-slot ring leaves both indices at 2. */
  method Drained() returns (b: Buffer)
    ensures fresh(b) && fresh(b.buffer) && b.Valid()
    ensures b.maxSize == 3 && b.first == 2 && b.last == 2 && b.Contents() == []
  {
    b := new Buffer(3);
    var bytes := new Byte[] [1, 2];
    var out := new Byte[2];
    b.PushBack(bytes, 2);
    assert b.first == 0 && |b.Contents()| == 2;
    var n := b.PopFront(out, 2);
  }

  /** From there, a pop can leave first one past the ring: the head is 6, the code reports
      another byte. */
  method StaleHead() returns (reported: Byte, head: Byte)
    ensures reported != 6 && head == 6
  {
    var b := Drained();
    var bytes := new Byte[] [5, 6];
    var out := new Byte[1];
    b.PushBack(bytes, 2);
    assert b.first == 2 && b.Contents() == [5, 6];
    var n := b.PopFront(out, 1);
    assert b.first == 3 && b.Contents() == [6];
    var r := b.GetFirst();
    var h := b.GetAt(0);
    return r.value, h.value;
  }
}
