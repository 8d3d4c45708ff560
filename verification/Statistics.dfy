/** The bounded statistics log of lib/ftm_catchb.c: a list of samples, oldest first. */
module Statistics {
  import opened Sequences
  import opened LinkedList

  datatype Value = Value(time: nat, info: nat)

  // ---- Adding ----

  /** One sample more; a full log gives up its oldest, and a log that may hold none refuses. */
  ghost function Added(log: seq<Value>, v: Value, max: nat): seq<Value> {
    if |log| < max then log + [v] else if log == [] then [] else log[1..] + [v]
  }

  ghost function AddedAll(log: seq<Value>, vs: seq<Value>, max: nat): seq<Value>
    decreases |vs|
  {
    if vs == [] then log else AddedAll(Added(log, vs[0], max), vs[1..], max)
  }

  ghost function Last(vs: seq<Value>, n: nat): seq<Value> {
    if |vs| <= n then vs else vs[|vs| - n..]
  }

  /** Adding keeps exactly the newest samples in order: as many as the limit, or as many as there
      were if the limit was lowered meanwhile. */
  lemma {:induction false} AddedAllKeepsLast(log: seq<Value>, vs: seq<Value>, max: nat)
    ensures AddedAll(log, vs, max) == Last(log + vs, if |log| < max then max else |log|)
    decreases |vs|
  {
    if vs == [] {
      assert log + vs == log;
    } else {
      var next := Added(log, vs[0], max);
      AddedAllKeepsLast(next, vs[1..], max);
      assert log + vs == (log + [vs[0]]) + vs[1..];
      if |log| >= max {
        if log == [] {
          assert Last(next + vs[1..], 0) == [] == Last(log + vs, 0);
        } else {
          assert next + vs[1..] == (log + vs)[1..];
        }
      }
    }
  }

  // ---- Deleting a period ----

  predicate InPeriod(v: Value, first: nat, last: nat) {
    first <= v.time < last
  }

  /** The scan: earlier samples stay, the first one at or behind the end stops it. */
  ghost function Deleted(log: seq<Value>, first: nat, last: nat): seq<Value> {
    if log == [] then []
    else if log[0].time < first then [log[0]] + Deleted(log[1..], first, last)
    else if log[0].time >= last then log
    else Deleted(log[1..], first, last)
  }

  /** What the operation is for: everything outside the period. */
  ghost function Outside(log: seq<Value>, first: nat, last: nat): seq<Value> {
    if log == [] then []
    else (if InPeriod(log[0], first, last) then [] else [log[0]]) + Outside(log[1..], first, last)
  }

  /** A sample of the period stands behind one that stops the scan. */
  ghost predicate Shadowed(log: seq<Value>, first: nat, last: nat) {
    exists i, j :: 0 <= i < j < |log| && log[i].time >= first && log[i].time >= last && InPeriod(log[j], first, last)
  }

  lemma {:induction false} OutsideLength(log: seq<Value>, first: nat, last: nat)
    ensures |Outside(log, first, last)| <= |log|
    ensures Outside(log, first, last) == log <==> forall k :: 0 <= k < |log| ==> !InPeriod(log[k], first, last)
  {
    if log == [] {
    } else {
      OutsideLength(log[1..], first, last);
      assert log == [log[0]] + log[1..];
      if InPeriod(log[0], first, last) {
        assert |Outside(log, first, last)| < |log|;
      } else {
        assert Outside(log, first, last)[1..] == Outside(log[1..], first, last);
      }
    }
  }

  lemma ShadowedTail(log: seq<Value>, first: nat, last: nat)
    requires log != [] && !(log[0].time >= first && log[0].time >= last)
    ensures Shadowed(log, first, last) <==> Shadowed(log[1..], first, last)
  {
  }

  /** Despite the early stop, the scan deletes exactly the period if and only if no sample of the
      period stands behind the stop. */
  lemma {:induction false} DeletesPeriodIff(log: seq<Value>, first: nat, last: nat)
    ensures Deleted(log, first, last) == Outside(log, first, last) <==> !Shadowed(log, first, last)
  {
    if log == [] {
    } else {
      if log[0].time >= first && log[0].time >= last {
        OutsideLength(log, first, last);
        assert (exists j :: 0 < j < |log| && InPeriod(log[j], first, last)) <==> Shadowed(log, first, last) by {
          if j :| 0 < j < |log| && InPeriod(log[j], first, last) {
            assert log[0].time >= first;
          }
        }
      } else {
        DeletesPeriodIff(log[1..], first, last);
        ShadowedTail(log, first, last);
        if log[0].time < first {
          var d, o := Deleted(log, first, last), Outside(log, first, last);
          assert d[1..] == Deleted(log[1..], first, last) && o[1..] == Outside(log[1..], first, last);
        }
      }
    }
  }

  /** A log in order of time meets the condition. */
  lemma SortedDeletesPeriod(log: seq<Value>, first: nat, last: nat)
    requires forall i, j :: 0 <= i < j < |log| ==> log[i].time <= log[j].time
    ensures Deleted(log, first, last) == Outside(log, first, last)
    ensures forall v :: v in Deleted(log, first, last) <==> v in log && !(first <= v.time < last)
  {
    DeletesPeriodIff(log, first, last);
    OutsideMembers(log, first, last);
  }

  lemma {:induction false} OutsideMembers(log: seq<Value>, first: nat, last: nat)
    ensures forall v :: v in Outside(log, first, last) <==> v in log && !(first <= v.time < last)
  {
    if log == [] {
    } else {
      OutsideMembers(log[1..], first, last);
      assert log == [log[0]] + log[1..];
    }
  }

  /** The log as the scan will leave it, once it stands at index. */
  ghost function Scanned(log: seq<Value>, index: nat, first: nat, last: nat): seq<Value>
    requires index <= |log|
  {
    log[..index] + Deleted(log[index..], first, last)
  }

  lemma ScanStep(log: seq<Value>, index: nat, first: nat, last: nat)
    requires index < |log|
    ensures var time := log[index].time;
            Scanned(log, index, first, last) ==
              if time < first then Scanned(log, index + 1, first, last)
              else if time >= last then log
              else Scanned(RemovedAt(log, index), index, first, last)
  {
  }

  // ---- The code ----

  class Sample {
    var value: Value

    constructor (value: Value)
      ensures this.value == value
    {
      this.value := value;
    }
  }

  ghost function ValuesOf(samples: seq<Sample>): (vs: seq<Value>)
    reads samples
    ensures |vs| == |samples| && forall i :: 0 <= i < |vs| ==> vs[i] == samples[i].value
  {
    seq(|samples|, i requires 0 <= i < |samples| reads samples => samples[i].value)
  }

  lemma SampleTaken(samples: seq<Sample>, k: nat)
    requires Distinct(samples) && k < |samples|
    ensures Distinct(RemovedAt(samples, k)) && samples[k] !in RemovedAt(samples, k)
    ensures forall s :: s in RemovedAt(samples, k) ==> s in samples
    ensures ValuesOf(RemovedAt(samples, k)) == RemovedAt(ValuesOf(samples), k)
  {
  }

  lemma SampleAdded(samples: seq<Sample>, sample: Sample)
    requires Distinct(samples) && sample !in samples
    ensures Distinct(samples + [sample]) && ValuesOf(samples + [sample]) == ValuesOf(samples) + [sample.value]
  {
  }

  class Log {
    const list: List<Sample, ()>
    /** xStatistics.ulCount. */
    var max: nat
    /** Every call of FTM_MEM_free, so that freeing a sample twice shows. */
    var freed: multiset<Sample>

    ghost predicate Valid()
      reads list, list.ring
    {
      list.Valid() && !list.locked
    }

    ghost function Samples(): seq<Sample>
      requires Valid()
      reads list, list.ring
    {
      list.Contents()
    }

    ghost function Values(): seq<Value>
      requires Valid()
      reads list, list.ring, Samples()
    {
      ValuesOf(Samples())
    }

    /** No sample in the list was freed, and none stands there twice. */
    ghost predicate Sane()
      reads this`freed, list, list.ring
    {
      Valid() && Distinct(Samples()) && forall s :: s in Samples() ==> s !in freed
    }

    ghost predicate FreedOnce()
      reads this`freed
    {
      forall s :: s in freed ==> freed[s] == 1
    }

    constructor (max: nat)
      ensures Sane() && Samples() == [] && this.max == max && freed == multiset{}
      ensures fresh(list) && fresh(list.Nodes())
    {
      list := new List<Sample, ()>();
      this.max, freed := max, multiset{};
    }

    /** A full log reuses the memory of its oldest sample. */
    method Add(value: Value) returns (r: Status)
      requires Sane()
      modifies list, list.Nodes(), Samples()
      ensures Sane() && fresh(list.Nodes() - old(list.Nodes()))
      ensures Values() == Added(old(Values()), value, max)
      ensures r == if old(Samples()) == [] && max == 0 then ListEmpty else Ok
      ensures forall s :: s in Samples() && s !in old(Samples()) ==> fresh(s)
    {
      var sample := Obtain(value);
      if sample.None? {
        return ListEmpty;
      }
      Put(sample.value, value);
      r := Ok;
    }

    /** A new sample while there is room, then the oldest one, taken off the list. */
    method Obtain(value: Value) returns (sample: Option<Sample>)
      requires Sane()
      modifies list, list.Nodes()
      ensures Sane() && list.Nodes() <= old(list.Nodes())
      ensures sample.None? <==> old(Samples()) == [] && max == 0
      ensures sample.None? ==> Samples() == [] && Values() == []
      ensures sample.Some? ==>
        && sample.value !in Samples() && sample.value !in freed
        && (sample.value in old(Samples()) || fresh(sample.value))
        && Values() + [value] == Added(old(Values()), value, max)
      ensures forall s :: s in Samples() ==> s in old(Samples())
    {
      if list.count < max {
        var made := new Sample(value);
        sample := Some(made);
      } else {
        sample := list.GetFirst();
        if sample.Some? {
          Take(0);
          assert RemovedAt(old(Values()), 0) == old(Values())[1..];
        }
      }
    }

    /** Copies the value into the sample and appends it. */
    method Put(sample: Sample, value: Value)
      requires Sane() && sample !in Samples() && sample !in freed
      modifies sample, list, list.Nodes()
      ensures Sane() && fresh(list.Nodes() - old(list.Nodes()))
      ensures Samples() == old(Samples()) + [sample] && Values() == old(Values()) + [value]
    {
      ghost var values := Values();
      sample.value := value;
      assert Values() == values;
      Link(sample);
    }

    /** FTM_LIST_getAt. */
    method GetAt(index: nat) returns (sample: Option<Sample>)
      requires Sane()
      modifies list`locked
      ensures Sane() && Samples() == old(Samples()) && Values() == old(Values())
      ensures if index < |Samples()| then sample == Some(Samples()[index]) && sample.value.value == Values()[index]
              else sample == None
    {
      sample := list.GetAt(index);
    }

    /** FTM_LIST_append. */
    method Link(sample: Sample)
      requires Sane() && sample !in Samples() && sample !in freed
      modifies list, list.Nodes()
      ensures Sane() && fresh(list.Nodes() - old(list.Nodes()))
      ensures Samples() == old(Samples()) + [sample] && Values() == old(Values()) + [sample.value]
    {
      SampleAdded(Samples(), sample);
      var r := list.Append(sample);
    }

    /** FTM_LIST_removeAt. */
    method Take(index: nat)
      requires Sane() && index < |Samples()|
      modifies list, list.Nodes()
      ensures Sane() && list.Nodes() <= old(list.Nodes())
      ensures Samples() == RemovedAt(old(Samples()), index) && old(Samples())[index] !in Samples()
      ensures Values() == RemovedAt(old(Values()), index)
    {
      ghost var was := Samples();
      SampleTaken(was, index);
      var r := list.RemoveAt(index);
      assert Samples() == RemovedAt(was, index);
    }

    method Free(sample: Sample)
      modifies this`freed
      ensures freed == old(freed) + multiset{sample}
    {
      freed := freed + multiset{sample};
    }

    /** Takes a sample off the list and frees it. */
    method Drop(index: nat, sample: Sample)
      requires Sane() && FreedOnce() && index < |Samples()| && sample == Samples()[index]
      modifies this`freed, list, list.Nodes()
      ensures Sane() && FreedOnce() && list.Nodes() <= old(list.Nodes())
      ensures Samples() == RemovedAt(old(Samples()), index) && freed == old(freed) + multiset{sample}
      ensures Values() == RemovedAt(old(Values()), index)
    {
      Take(index);
      Free(sample);
    }

    /** delStatistics2. The index only moves on over samples that stay. */
    method Delete(first: nat, last: nat)
      requires Sane() && FreedOnce()
      modifies this`freed, list, list.Nodes()
      ensures Sane() && FreedOnce() && list.Nodes() <= old(list.Nodes())
      ensures Values() == Deleted(old(Values()), first, last)
    {
      var count, index, more := list.count, 0, true;
      for i := 0 to count
        invariant Sane() && FreedOnce() && list.Nodes() <= old(list.Nodes())
        invariant 0 <= index <= i && |Values()| == count - (i - index)
        invariant Scanned(Values(), index, first, last) == Deleted(old(Values()), first, last)
      {
        index, more := Scan(index, first, last);
        if !more {
          return;
        }
      }
      assert Values()[..index] == Values();
    }

    /** The body of that loop. */
    method Scan(index: nat, first: nat, last: nat) returns (next: nat, more: bool)
      requires Sane() && FreedOnce() && index <= |Values()|
      modifies this`freed, list, list.Nodes()
      ensures Sane() && FreedOnce() && list.Nodes() <= old(list.Nodes())
      ensures !more ==> Values() == Scanned(old(Values()), index, first, last)
      ensures more ==> index <= next <= index + 1 && |Values()| - next == |old(Values())| - index - 1 >= 0
      ensures more ==> Scanned(Values(), next, first, last) == Scanned(old(Values()), index, first, last)
    {
      var sample := GetAt(index);
      if sample.None? {
        return index, false;
      }
      ScanStep(Values(), index, first, last);
      var time := sample.value.value.time;
      if time < first {
        next, more := index + 1, true;
      } else if time >= last {
        next, more := index, false;
      } else {
        Drop(index, sample.value);
        next, more := index, true;
      }
    }

    /** setStatisticsMaxCount frees the first sample once for every sample too many, and takes none
        off the list: unless nothing has to go, the list is left with a freed sample in front, and
        with two or more to go that sample is freed again. */
    method SetMaxCount(most: nat)
      requires Sane() && FreedOnce()
      modifies this`freed
      ensures Sane() <==> |Samples()| <= most
      ensures FreedOnce() <==> |Samples()| <= most + 1
    {
      var count := list.count;
      if count > most {
        for i := 0 to count - most
          invariant freed == old(freed)[Samples()[0] := i]
        {
          var sample := list.GetFirst();
          if sample.Some? {
            Free(sample.value);
          }
        }
        assert Samples()[0] in freed && freed[Samples()[0]] == count - most;
      }
    }
  }
}
