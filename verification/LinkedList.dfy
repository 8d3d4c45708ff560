/** The circular doubly linked list with a sentinel of lib/ftm_list.c. */
module LinkedList {
  import opened Sequences

  datatype Status = Ok | ObjectNotFound | ListEmpty | NotInsertable | NotInitialized

  datatype Position = Front | Rear | Ascending | Descending

  class Entry<T> {
    var prev: Entry?<T>
    var next: Entry?<T>
    const data: Option<T>

    constructor (data: Option<T>)
      ensures this.data == data
    {
      this.data := data;
    }
  }

  /** What the entries behind the sentinel hold, in order. */
  ghost function Items<T>(ring: seq<Entry<T>>): (s: seq<T>)
    requires |ring| > 0 && forall i :: 1 <= i < |ring| ==> ring[i].data.Some?
    ensures |s| == |ring| - 1
    ensures forall i :: 0 <= i < |s| ==> s[i] == ring[i + 1].data.value
  {
    seq(|ring| - 1, i requires 0 <= i < |ring| - 1 => ring[i + 1].data.value)
  }

  class List<T(==), K> {
    const head: Entry<T>
    var count: nat
    var iterating: bool
    var iter: Entry?<T>
    var seeker: Option<(T, K) -> bool>
    var comparator: Option<(T, T) -> int>
    /** The list's semaphore is held. */
    var locked: bool

    /** The sentinel followed by the entries in order. */
    ghost var ring: seq<Entry<T>>
    /** Where the iterator stands in the ring; 0 is the sentinel. */
    ghost var cursor: nat

    /** Following next from any entry goes once around the ring, and prev is its inverse. */
    ghost predicate Linked()
      reads this`ring, ring
    {
      && |ring| > 0 && ring[0] == head && Distinct(ring)
      && (forall i {:trigger ring[i].next} :: 0 <= i < |ring| - 1 ==> ring[i].next == ring[i + 1])
      && ring[|ring| - 1].next == head
      && (forall i {:trigger ring[i].prev} :: 1 <= i < |ring| ==> ring[i].prev == ring[i - 1])
      && head.prev == ring[|ring| - 1]
      && (forall i :: 1 <= i < |ring| ==> ring[i].data.Some?)
    }

    ghost predicate Valid()
      reads this`ring, this`count, ring
    {
      Linked() && count == |ring| - 1
    }

    /** The entry reached by following next n times from the sentinel. */
    ghost function Forward(n: nat): (e: Entry<T>)
      requires Linked() && n <= |ring|
      reads this, ring
      ensures e == if n < |ring| then ring[n] else head
    {
      if n == 0 then head else Forward(n - 1).next
    }

    /** The entry reached by following prev n times from the sentinel. */
    ghost function Backward(n: nat): (e: Entry<T>)
      requires Linked() && n <= |ring|
      reads this, ring
      ensures e == if n == 0 then head else ring[|ring| - n]
    {
      if n == 0 then head else Backward(n - 1).prev
    }

    /** The iterator, if one was started, stands on an entry that is still in the ring. */
    ghost predicate IteratorSafe()
      reads this`ring, this`iterating, this`iter, this`cursor
    {
      iterating ==> cursor < |ring| && iter == ring[cursor]
    }

    ghost function Contents(): (s: seq<T>)
      requires Valid()
      reads this`ring, this`count, ring
      ensures |s| == |ring| - 1
    {
      Items(ring)
    }

    constructor ()
      ensures Valid() && Contents() == [] && !locked && !iterating && IteratorSafe()
      ensures seeker == None && comparator == None && fresh(ring)
    {
      var h := new Entry<T>(None);
      h.next := h;
      h.prev := h;
      head := h;
      count := 0;
      iterating, iter := false, null;
      seeker, comparator := None, None;
      locked := false;
      ring, cursor := [h], 0;
    }

    /** Links a new entry for item behind prev, which stands at ring position k - 1. */
    method LinkBehind(prev: Entry<T>, item: T, ghost k: nat) returns (entry: Entry<T>)
      requires Valid() && 1 <= k <= |ring| && prev == ring[k - 1]
      modifies this`count, this`ring, ring
      ensures Valid() && fresh(entry) && entry.data == Some(item)
      ensures ring == InsertedAt(old(ring), k, entry)
    {
      entry := new Entry<T>(Some(item));
      entry.next := prev.next;
      entry.prev := prev;
      prev.next.prev := entry;
      prev.next := entry;
      count := count + 1;
      ghost var was := ring;
      ring := InsertedAt(ring, k, entry);
      NextSpliced(was, k, entry);
      PrevSpliced(was, k, entry);
    }

    /** Takes the entry at ring position k out of the ring. */
    method Unlink(entry: Entry<T>, ghost k: nat)
      requires Valid() && 1 <= k < |ring| && entry == ring[k]
      modifies this`count, this`ring, ring
      ensures Valid() && ring == RemovedAt(old(ring), k)
    {
      entry.prev.next := entry.next;
      entry.next.prev := entry.prev;
      count := count - 1;
      ring := RemovedAt(ring, k);
    }

    /** LinkBehind, with what it means for the contents and for the iterator. */
    method Attach(prev: Entry<T>, item: T, ghost k: nat)
      requires Valid() && 1 <= k <= |ring| && prev == ring[k - 1]
      modifies this`count, this`ring, this`cursor, ring
      ensures Valid() && fresh(Nodes() - old(Nodes()))
      ensures Contents() == InsertedAt(old(Contents()), k - 1, item)
      ensures cursor == StepOn(old(cursor), k - 1)
      ensures old(IteratorSafe()) ==> IteratorSafe()
    {
      ghost var was := ring;
      var entry := LinkBehind(prev, item, k);
      ItemsInserted(was, k, entry);
      cursor := StepOn(cursor, k - 1);
      assert old(cursor) < |was| ==> ring[cursor] == was[old(cursor)];
      assert Nodes() == old(Nodes()) + {entry};
    }

    /** Unlink, with what it means for the contents and for the iterator. */
    method Detach(entry: Entry<T>, ghost k: nat)
      requires Valid() && 1 <= k < |ring| && entry == ring[k]
      modifies this`count, this`ring, this`cursor, ring
      ensures Valid() && Nodes() <= old(Nodes())
      ensures Contents() == RemovedAt(old(Contents()), k - 1)
      ensures cursor == StepBack(old(cursor), k - 1)
      ensures old(cursor) < |old(ring)| && old(cursor) != k ==> cursor < |ring| && ring[cursor] == old(ring[cursor])
      ensures old(cursor) == k ==> ring[cursor] == old(ring)[k - 1]
      ensures entry !in ring
    {
      ghost var was := ring;
      ItemsRemoved(was, k);
      Unlink(entry, k);
      cursor := StepBack(cursor, k - 1);
    }

    method Append(item: T) returns (r: Status)
      requires Valid() && !locked
      modifies this`count, this`ring, this`cursor, this`locked, ring
      ensures Valid() && !locked && r == Ok && Contents() == old(Contents()) + [item]
      ensures fresh(Nodes() - old(Nodes()))
      ensures old(IteratorSafe()) ==> IteratorSafe()
      ensures old(cursor) < |old(ring)| ==> cursor == old(cursor)
    {
      locked := true;
      Attach(head.prev, item, |ring|);
      locked := false;
      r := Ok;
    }

    ghost function Nodes(): set<object>
      reads this`ring
    {
      set e | e in ring
    }

    /** The place an insertion takes. A sorted one walks to the first entry that compares beyond
        the item, so equal elements keep their order of arrival. */
    ghost function Place(item: T, position: Position): (k: nat)
      requires Valid() && Insertable(position)
      reads this, ring
      ensures k <= |Contents()|
    {
      match position
      case Front => 0
      case Rear => |Contents()|
      case Ascending => FirstWhere(Contents(), Beyond(comparator.value, item, 1))
      case Descending => FirstWhere(Contents(), Beyond(comparator.value, item, -1))
    }

    /** Without a comparator a sorted insertion returns early, and the semaphore stays held. */
    method Insert(item: T, position: Position) returns (r: Status)
      requires Valid() && !locked
      modifies this`count, this`ring, this`cursor, this`locked, ring
      ensures Valid() && fresh(Nodes() - old(Nodes()))
      ensures r == if Insertable(position) then Ok else NotInsertable
      ensures locked <==> r == NotInsertable
      ensures r == NotInsertable ==> ring == old(ring) && Contents() == old(Contents()) && cursor == old(cursor)
      ensures r == Ok ==> Contents() == InsertedAt(old(Contents()), old(Place(item, position)), item)
      ensures position.Front? ==> r == Ok && Contents() == [item] + old(Contents())
      ensures position.Rear? ==> r == Ok && Contents() == old(Contents()) + [item]
      ensures r == Ok && (position.Ascending? || position.Descending?) ==>
                var sign := if position.Ascending? then 1 else -1;
                old(Place(item, position)) == FirstWhere(old(Contents()), Beyond(comparator.value, item, sign))
      ensures r == Ok ==> cursor == StepOn(old(cursor), old(Place(item, position)))
      ensures old(IteratorSafe()) ==> IteratorSafe()
    {
      locked := true;
      if !Insertable(position) {
        return NotInsertable;
      }
      PutInPlace(item, position);
      locked := false;
      r := Ok;
    }

    method PutInPlace(item: T, position: Position)
      requires Valid() && Insertable(position)
      modifies this`count, this`ring, this`cursor, ring
      ensures Valid() && fresh(Nodes() - old(Nodes()))
      ensures Contents() == InsertedAt(old(Contents()), old(Place(item, position)), item)
      ensures cursor == StepOn(old(cursor), old(Place(item, position)))
      ensures old(IteratorSafe()) ==> IteratorSafe()
    {
      var behind, k := Predecessor(item, position);
      Attach(behind, item, k);
    }

    predicate Insertable(position: Position)
      reads this`comparator
    {
      position.Front? || position.Rear? || comparator.Some?
    }

    method Predecessor(item: T, position: Position) returns (behind: Entry?<T>, ghost k: nat)
      requires Valid() && Insertable(position)
      ensures 1 <= k <= |ring| && behind == ring[k - 1] && k - 1 == Place(item, position)
    {
      match position {
        case Front =>
          behind, k := head, 1;
        case Rear =>
          behind, k := head.prev, |ring|;
        case Ascending =>
          behind, k := WalkBeyond(item, 1);
        case Descending =>
          behind, k := WalkBeyond(item, -1);
      }
    }

    /** The walk of a sorted insertion. It returns the entry before the place it stops at. */
    method WalkBeyond(item: T, sign: int) returns (behind: Entry?<T>, ghost k: nat)
      requires Valid() && comparator.Some?
      ensures 1 <= k <= |ring| && behind == ring[k - 1]
      ensures k - 1 == FirstWhere(Contents(), Beyond(comparator.value, item, sign))
    {
      var next := head.next;
      k := 1;
      while next != head
        invariant 1 <= k <= |ring| && next == if k < |ring| then ring[k] else head
        invariant forall j :: 0 <= j < k - 1 ==> !Beyond(comparator.value, item, sign)(Contents()[j])
        decreases |ring| - k
      {
        var res := comparator.value(next.data.value, item);
        if sign * res > 0 {
          break;
        }
        next := next.next;
        k := k + 1;
      }
      FirstWhereIs(Contents(), Beyond(comparator.value, item, sign), k - 1);
      behind := next.prev;
    }

    /** Removes the first entry that holds the item. An iterator on that entry steps back. */
    method Remove(item: T) returns (r: Status)
      requires Valid() && !locked
      modifies this`count, this`ring, this`cursor, this`iter, this`locked, ring
      ensures Valid() && !locked && Nodes() <= old(Nodes())
      ensures var k := FirstWhere(old(Contents()), Is(item));
        if k == |old(Contents())|
        then r == ObjectNotFound && Contents() == old(Contents()) && cursor == old(cursor)
        else r == Ok && Contents() == RemovedAt(old(Contents()), k) && cursor == StepBack(old(cursor), k)
      ensures old(IteratorSafe()) ==> IteratorSafe()
    {
      locked := true;
      r := ObjectNotFound;
      var entry, k := Find(item);
      if entry != head {
        RemoveEntry(entry, k);
        r := Ok;
      }
      locked := false;
    }

    method RemoveEntry(entry: Entry<T>, ghost k: nat)
      requires Valid() && 1 <= k < |ring| && entry == ring[k]
      modifies this`count, this`ring, this`cursor, this`iter, ring
      ensures Valid() && Nodes() <= old(Nodes())
      ensures Contents() == RemovedAt(old(Contents()), k - 1)
      ensures cursor == StepBack(old(cursor), k - 1)
      ensures old(IteratorSafe()) ==> IteratorSafe()
    {
      if iter == entry {
        iter := entry.prev;
      }
      Detach(entry, k);
    }

    /** The walk of a removal: the first entry that holds the item, or the sentinel. */
    method Find(item: T) returns (entry: Entry?<T>, ghost k: nat)
      requires Valid()
      ensures k == FirstWhere(Contents(), Is(item)) + 1
      ensures entry == if k < |ring| then ring[k] else head
    {
      entry := head.next;
      k := 1;
      while entry != head
        invariant 1 <= k <= |ring| && entry == if k < |ring| then ring[k] else head
        invariant forall j :: 0 <= j < k - 1 ==> !Is(item)(Contents()[j])
        decreases |ring| - k
      {
        if entry.data.value == item {
          break;
        }
        entry := entry.next;
        k := k + 1;
      }
      FirstWhereIs(Contents(), Is(item), k - 1);
    }

    /** Removes by position, without looking at the iterator: it stays usable exactly when it did
        not stand on the removed entry. */
    method RemoveAt(position: nat) returns (r: Status)
      requires Valid() && !locked
      modifies this`count, this`ring, this`cursor, this`locked, ring
      ensures Valid() && !locked && Nodes() <= old(Nodes())
      ensures r == if position < |old(Contents())| then Ok else ObjectNotFound
      ensures Contents() == if r == Ok then RemovedAt(old(Contents()), position) else old(Contents())
      ensures old(IteratorSafe()) ==> (IteratorSafe() <==> !(r == Ok && iterating && old(cursor) == position + 1))
    {
      locked := true;
      r := ObjectNotFound;
      if position < count {
        var entry := EntryAt(position);
        Detach(entry, position + 1);
        r := Ok;
      }
      locked := false;
    }

    /** Walks position entries from the first. */
    method EntryAt(position: nat) returns (entry: Entry<T>)
      requires Valid() && position < count
      ensures entry == ring[position + 1]
    {
      entry := head.next;
      for i := 0 to position
        invariant entry == ring[i + 1]
      {
        entry := entry.next;
      }
    }

    /** The first element the seeker accepts for the key. */
    method Get(key: K) returns (r: Option<T>)
      requires Valid() && !locked
      modifies this`locked
      ensures Valid() && !locked && Contents() == old(Contents())
      ensures r == if seeker.None? then None else FirstOf(Contents(), Sought(seeker.value, key))
    {
      locked := true;
      r := None;
      if seeker.Some? {
        var entry := head.next;
        ghost var k := 1;
        while entry != head
          invariant 1 <= k <= |ring| && entry == if k < |ring| then ring[k] else head
          invariant forall j :: 0 <= j < k - 1 ==> !Sought(seeker.value, key)(Contents()[j])
          decreases |ring| - k
        {
          if seeker.value(entry.data.value, key) {
            r := entry.data;
            break;
          }
          entry := entry.next;
          k := k + 1;
        }
        FirstWhereIs(Contents(), Sought(seeker.value, key), k - 1);
      }
      locked := false;
    }

    method GetAt(position: nat) returns (r: Option<T>)
      requires Valid() && !locked
      modifies this`locked
      ensures Valid() && !locked && Contents() == old(Contents())
      ensures r == if position < |Contents()| then Some(Contents()[position]) else None
    {
      locked := true;
      r := None;
      if position < count {
        var entry := EntryAt(position);
        r := entry.data;
      }
      locked := false;
    }

    method GetFirst() returns (r: Option<T>)
      requires Valid()
      ensures r == if Contents() == [] then None else Some(Contents()[0])
    {
      r := if count == 0 then None else head.next.data;
    }

    method GetLast() returns (r: Option<T>)
      requires Valid()
      ensures r == if Contents() == [] then None else Some(Contents()[|Contents()| - 1])
    {
      r := if count == 0 then None else head.prev.data;
    }

    method IteratorStart()
      requires Valid() && !locked
      modifies this`iterating, this`iter, this`cursor, this`locked
      ensures Valid() && !locked && Contents() == old(Contents())
      ensures iterating && IteratorSafe() && cursor == 0
    {
      locked := true;
      iterating := true;
      iter := head;
      cursor := 0;
      locked := false;
    }

    /** Steps once around the ring. On the sentinel it reports the end, and the next call would
        start over. */
    method IteratorNext() returns (r: Status, element: Option<T>)
      requires Valid() && IteratorSafe() && !locked
      modifies this`iter, this`cursor, this`locked
      ensures Valid() && IteratorSafe() && !locked && Contents() == old(Contents())
      ensures !iterating ==> r == NotInitialized && element == None && cursor == old(cursor)
      ensures iterating ==>
        if old(cursor) < |Contents()|
        then r == Ok && element == Some(Contents()[old(cursor)]) && cursor == old(cursor) + 1
        else r == ObjectNotFound && element == None && cursor == 0
    {
      locked := true;
      r, element := Ok, None;
      if !iterating {
        r := NotInitialized;
      } else {
        iter := iter.next;
        cursor := if cursor + 1 < |ring| then cursor + 1 else 0;
        if iter == head {
          r := ObjectNotFound;
        } else {
          element := iter.data;
        }
      }
      locked := false;
    }
  }

  /** An iterator's ring position after an insertion at place k of the contents. */
  function StepOn(cursor: nat, k: nat): nat {
    if k < cursor then cursor + 1 else cursor
  }

  /** An iterator's ring position after the k-th element was removed: back by one if it stood
      there or beyond. */
  function StepBack(cursor: nat, k: nat): nat {
    if k < cursor then cursor - 1 else cursor
  }

  /** y lies beyond x in the comparator's order, or in its reverse. */
  function Beyond<T>(cmp: (T, T) -> int, x: T, sign: int): T -> bool {
    y => sign * cmp(y, x) > 0
  }

  function Is<T(==)>(x: T): T -> bool {
    y => y == x
  }

  function Sought<T, K>(seeker: (T, K) -> bool, key: K): T -> bool {
    y => seeker(y, key)
  }

  ghost function FirstOf<T>(s: seq<T>, p: T -> bool): Option<T> {
    var k := FirstWhere(s, p);
    if k < |s| then Some(s[k]) else None
  }

  /** The first element that satisfies p is also the first that equals it, so removing what a
      search returned removes it there. */
  lemma FirstIsFirst<T>(s: seq<T>, p: T -> bool)
    ensures var k := FirstWhere(s, p); k < |s| ==> FirstWhere(s, Is(s[k])) == k
  {
    var k := FirstWhere(s, p);
    if k < |s| {
      FirstWhereIs(s, Is(s[k]), k);
    }
  }

  lemma NextSpliced<T>(ring: seq<Entry<T>>, k: nat, entry: Entry<T>)
    requires 1 <= k <= |ring| && ring[k - 1].next == entry && (k < |ring| ==> entry.next == ring[k])
    requires forall i {:trigger ring[i].next} :: 0 <= i < |ring| - 1 && i != k - 1 ==> ring[i].next == ring[i + 1]
    ensures var r := InsertedAt(ring, k, entry);
            forall i {:trigger r[i].next} :: 0 <= i < |r| - 1 ==> r[i].next == r[i + 1]
  {
    var r := InsertedAt(ring, k, entry);
    forall i | 0 <= i < |r| - 1 ensures r[i].next == r[i + 1] {
      if i < k - 1 {
        assert r[i] == ring[i] && r[i + 1] == ring[i + 1];
      } else if i > k {
        assert r[i] == ring[i - 1] && r[i + 1] == ring[i];
      }
    }
  }

  lemma PrevSpliced<T>(ring: seq<Entry<T>>, k: nat, entry: Entry<T>)
    requires 1 <= k <= |ring| && entry.prev == ring[k - 1] && (k < |ring| ==> ring[k].prev == entry)
    requires forall i {:trigger ring[i].prev} :: 1 <= i < |ring| && i != k ==> ring[i].prev == ring[i - 1]
    ensures var r := InsertedAt(ring, k, entry);
            forall i {:trigger r[i].prev} :: 1 <= i < |r| ==> r[i].prev == r[i - 1]
  {
    var r := InsertedAt(ring, k, entry);
    forall i | 1 <= i < |r| ensures r[i].prev == r[i - 1] {
      if i < k {
        assert r[i] == ring[i] && r[i - 1] == ring[i - 1];
      } else if i > k + 1 {
        assert r[i] == ring[i - 1] && r[i - 1] == ring[i - 2];
      }
    }
  }

  lemma ItemsInserted<T>(ring: seq<Entry<T>>, k: nat, entry: Entry<T>)
    requires 1 <= k <= |ring| && entry.data.Some? && forall i :: 1 <= i < |ring| ==> ring[i].data.Some?
    ensures forall i :: 1 <= i < |ring| + 1 ==> InsertedAt(ring, k, entry)[i].data.Some?
    ensures Items(InsertedAt(ring, k, entry)) == InsertedAt(Items(ring), k - 1, entry.data.value)
  {
  }

  lemma ItemsRemoved<T>(ring: seq<Entry<T>>, k: nat)
    requires 1 <= k < |ring| && forall i :: 1 <= i < |ring| ==> ring[i].data.Some?
    ensures forall i :: 1 <= i < |ring| - 1 ==> RemovedAt(ring, k)[i].data.Some?
    ensures Items(RemovedAt(ring, k)) == RemovedAt(Items(ring), k - 1)
  {
  }
}
