/** Stores issued by the parallel instances of a kernel, in any order the hardware picks. */
module ParallelStores {

  datatype Store<A, V> = Store(at: A, value: V)

  /** The value a cell holds after a sequence of stores. */
  ghost function Final<A, V>(start: V, stores: seq<Store<A, V>>, at: A): V {
    if stores == [] then start
    else
      var last := stores[|stores| - 1];
      if last.at == at then last.value else Final(start, stores[..|stores| - 1], at)
  }

  /** How often a cell is stored to. */
  ghost function Count<A, V>(stores: seq<Store<A, V>>, at: A): nat {
    if stores == [] then 0
    else Count(stores[..|stores| - 1], at) + if stores[|stores| - 1].at == at then 1 else 0
  }

  lemma {:induction false} CountAppend<A, V>(a: seq<Store<A, V>>, b: seq<Store<A, V>>, at: A)
    ensures Count(a + b, at) == Count(a, at) + Count(b, at)
  {
    if b == [] {
      assert a + b == a;
    } else {
      assert (a + b)[..|a + b| - 1] == a + b[..|b| - 1];
      CountAppend(a, b[..|b| - 1], at);
    }
  }

  lemma {:induction false} CountPositive<A, V>(stores: seq<Store<A, V>>, at: A)
    ensures Count(stores, at) > 0 <==> exists s :: s in stores && s.at == at
  {
    if stores != [] {
      var n := |stores| - 1;
      assert stores == stores[..n] + [stores[n]];
      CountPositive(stores[..n], at);
      assert stores[n] in stores;
    }
  }

  /** A schedule names the instance that issues its next store; it is complete when every
      instance has issued all of them. */
  ghost predicate Complete<A, V>(programs: seq<seq<Store<A, V>>>, schedule: seq<nat>)
    decreases |schedule|
  {
    if schedule == [] then forall i | 0 <= i < |programs| :: programs[i] == []
    else
      && schedule[0] < |programs|
      && programs[schedule[0]] != []
      && Complete(programs[schedule[0] := programs[schedule[0]][1..]], schedule[1..])
  }

  /** The order in which a schedule lets the stores land. */
  ghost function Interleaved<A, V>(programs: seq<seq<Store<A, V>>>, schedule: seq<nat>): seq<Store<A, V>>
    requires Complete(programs, schedule)
    decreases |schedule|
  {
    if schedule == [] then []
    else
      var i := schedule[0];
      [programs[i][0]] + Interleaved(programs[i := programs[i][1..]], schedule[1..])
  }

  ghost predicate Issued<A, V>(programs: seq<seq<Store<A, V>>>, s: Store<A, V>) {
    exists i | 0 <= i < |programs| :: s in programs[i]
  }

  lemma {:induction false} InterleavedIssued<A, V>(programs: seq<seq<Store<A, V>>>, schedule: seq<nat>, s: Store<A, V>)
    requires Complete(programs, schedule)
    ensures s in Interleaved(programs, schedule) <==> Issued(programs, s)
    decreases |schedule|
  {
    if schedule != [] {
      var i := schedule[0];
      var rest := programs[i := programs[i][1..]];
      InterleavedIssued(rest, schedule[1..], s);
      assert programs[i] == [programs[i][0]] + rest[i];
      forall j | 0 <= j < |programs| && j != i ensures rest[j] == programs[j] {
      }
      if Issued(programs, s) && s != programs[i][0] {
        var j :| 0 <= j < |programs| && s in programs[j];
        assert s in rest[j];
      }
      if Issued(rest, s) {
        var j :| 0 <= j < |rest| && s in rest[j];
        assert s in programs[j];
      }
    }
  }

  /** If the stores to a cell all carry the same value, that value is what the cell ends with. */
  lemma {:induction false} FinalAgreed<A, V>(start: V, stores: seq<Store<A, V>>, s: Store<A, V>)
    requires s in stores
    requires forall t | t in stores && t.at == s.at :: t.value == s.value
    ensures Final(start, stores, s.at) == s.value
  {
    var n := |stores| - 1;
    if stores[n].at != s.at {
      assert stores == stores[..n] + [stores[n]];
      FinalAgreed(start, stores[..n], s);
    }
  }

  lemma {:induction false} FinalUntouched<A, V>(start: V, stores: seq<Store<A, V>>, at: A)
    requires forall t | t in stores :: t.at != at
    ensures Final(start, stores, at) == start
  {
    if stores != [] {
      FinalUntouched(start, stores[..|stores| - 1], at);
    }
  }

  /** A cell whose stores agree ends with their value under every schedule. */
  lemma AgreedUnderAnySchedule<A, V>(start: V, programs: seq<seq<Store<A, V>>>, schedule: seq<nat>, s: Store<A, V>)
    requires Complete(programs, schedule) && Issued(programs, s)
    requires forall i, t | 0 <= i < |programs| && t in programs[i] && t.at == s.at :: t.value == s.value
    ensures Final(start, Interleaved(programs, schedule), s.at) == s.value
  {
    InterleavedIssued(programs, schedule, s);
    forall t | t in Interleaved(programs, schedule) && t.at == s.at ensures t.value == s.value {
      InterleavedIssued(programs, schedule, t);
    }
    FinalAgreed(start, Interleaved(programs, schedule), s);
  }

  /** A cell no instance stores to keeps its value under every schedule. */
  lemma UntouchedUnderAnySchedule<A, V>(start: V, programs: seq<seq<Store<A, V>>>, schedule: seq<nat>, at: A)
    requires Complete(programs, schedule)
    requires forall i, t | 0 <= i < |programs| && t in programs[i] :: t.at != at
    ensures Final(start, Interleaved(programs, schedule), at) == start
  {
    forall t | t in Interleaved(programs, schedule) ensures t.at != at {
      InterleavedIssued(programs, schedule, t);
    }
    FinalUntouched(start, Interleaved(programs, schedule), at);
  }
}
