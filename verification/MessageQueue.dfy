/** The queue and the message queue of lib/ftm_queue.c and lib/ftm_msgq.c: the objects, used by
    one thread at a time, and the protocol between threads at the grain of the calls that lock. */
module MessageQueue {
  import opened Sequences
  import L = LinkedList

  datatype PopResult<+T> = Popped(item: T) | Failed | Timeout

  class Queue<T(==)> {
    const list: L.List<T, ()>

    ghost predicate Valid()
      reads this, list, list.ring
    {
      list.Valid() && !list.locked
    }

    ghost function Contents(): seq<T>
      requires Valid()
      reads this, list, list.ring
    {
      list.Contents()
    }

    constructor ()
      ensures Valid() && Contents() == [] && fresh(list) && fresh(list.Nodes())
    {
      list := new L.List<T, ()>();
    }

    method Push(item: T)
      requires Valid()
      modifies list, list.ring
      ensures Valid() && Contents() == old(Contents()) + [item]
      ensures fresh(list.Nodes() - old(list.Nodes()))
    {
      var r := list.Append(item);
    }

    /** Two locked calls: read the head, then remove the first entry holding that item. */
    method Pop() returns (r: Option<T>)
      requires Valid()
      modifies list, list.ring
      ensures Valid() && list.Nodes() <= old(list.Nodes())
      ensures old(Contents()) == [] ==> r == None && Contents() == []
      ensures old(Contents()) != [] ==> r == Some(old(Contents())[0]) && Contents() == old(Contents())[1..]
    {
      r := list.GetAt(0);
      if r.Some? {
        FirstWhereIs(list.Contents(), L.Is(r.value), 0);
        var s := list.Remove(r.value);
      }
    }
  }

  class MsgQueue<T(==)> {
    const queue: Queue<T>
    /** The value of the counting semaphore. */
    var lock: nat

    /** Every queued message has been announced, and nothing else has. */
    ghost predicate InStep()
      requires queue.Valid()
      reads this, queue, queue.list, queue.list.ring
    {
      lock == |queue.Contents()|
    }

    constructor ()
      ensures queue.Valid() && queue.Contents() == [] && InStep()
      ensures fresh(queue) && fresh(queue.list) && fresh(queue.list.Nodes())
    {
      queue := new Queue<T>();
      lock := 0;
    }

    method Push(item: T)
      requires queue.Valid()
      modifies this, queue.list, queue.list.ring
      ensures queue.Valid() && queue.Contents() == old(queue.Contents()) + [item] && lock == old(lock) + 1
      ensures old(InStep()) ==> InStep()
      ensures fresh(queue.list.Nodes() - old(queue.list.Nodes()))
    {
      queue.Push(item);
      lock := lock + 1;
    }

    /** A wait that does not succeed within the timeout gives up; an announced message that is
        not there is announced again. In step, neither an empty-handed pop nor a lost message
        can happen. */
    method TimedPop() returns (r: PopResult<T>)
      requires queue.Valid()
      modifies this, queue.list, queue.list.ring
      ensures queue.Valid() && (old(InStep()) ==> InStep() && r != Failed)
      ensures r == if old(lock) == 0 then Timeout else if old(queue.Contents()) == [] then Failed
                   else Popped(old(queue.Contents())[0])
      ensures queue.Contents() == if r.Popped? then old(queue.Contents())[1..] else old(queue.Contents())
      ensures lock == if r.Popped? then old(lock) - 1 else old(lock)
      ensures queue.list.Nodes() <= old(queue.list.Nodes())
    {
      if lock == 0 {
        return Timeout;
      }
      lock := lock - 1;
      var m := queue.Pop();
      if m == None {
        lock := lock + 1;
        r := Failed;
      } else {
        r := Popped(m.value);
      }
    }
  }
}
