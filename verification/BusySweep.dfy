/** Busy time of a trace: the sweep over kernel intervals against the measure of their union.
    Times are reals. */
module BusySweep {

  type Duration = d: real | d >= 0.0

  datatype Event = Event(ts: real, dur: Duration)

  function End(e: Event): real { e.ts + e.dur }

  ghost predicate SortedByStart(events: seq<Event>) {
    forall i, j | 0 <= i <= j < |events| :: events[i].ts <= events[j].ts
  }

  /** Whether some event runs at a time. */
  ghost predicate Running(events: seq<Event>, t: real) {
    exists i | 0 <= i < |events| :: events[i].ts <= t < End(events[i])
  }

  function MaxEnd(events: seq<Event>): real
    requires events != []
  {
    var n := |events| - 1;
    if n == 0 || End(events[n]) >= MaxEnd(events[..n]) then End(events[n]) else MaxEnd(events[..n])
  }

  lemma {:induction false} MaxEndBounds(events: seq<Event>, i: nat)
    requires i < |events|
    ensures End(events[i]) <= MaxEnd(events)
  {
    if i < |events| - 1 {
      MaxEndBounds(events[..|events| - 1], i);
    }
  }

  // ---- the measure of the union ----

  ghost predicate Increasing(cuts: seq<real>) {
    forall i, j | 0 <= i <= j < |cuts| :: cuts[i] <= cuts[j]
  }

  /** Cut points from the first start to the last end, every start and end among them. */
  ghost predicate IsCuts(events: seq<Event>, cuts: seq<real>)
    requires events != []
  {
    && Increasing(cuts) && cuts != []
    && cuts[0] == events[0].ts && cuts[|cuts| - 1] == MaxEnd(events)
    && forall i | 0 <= i < |events| :: events[i].ts in cuts && End(events[i]) in cuts
  }

  /** Between two neighbouring cuts either something runs all the time or nothing does. */
  lemma SteadyBetween(events: seq<Event>, cuts: seq<real>, i: nat, t: real)
    requires events != [] && IsCuts(events, cuts) && i + 1 < |cuts| && cuts[i] <= t < cuts[i + 1]
    ensures Running(events, t) <==> Running(events, cuts[i])
  {
    forall j | 0 <= j < |events|
      ensures events[j].ts <= t < End(events[j]) <==> events[j].ts <= cuts[i] < End(events[j])
    {
      var a :| 0 <= a < |cuts| && cuts[a] == events[j].ts;
      var b :| 0 <= b < |cuts| && cuts[b] == End(events[j]);
      assert a <= i || cuts[i + 1] <= cuts[a];
      assert b <= i || cuts[i + 1] <= cuts[b];
    }
  }

  /** So the measure of the union up to cut n is the length of the busy segments. */
  ghost function Measure(events: seq<Event>, cuts: seq<real>, n: nat): real
    requires n < |cuts|
  {
    if n == 0 then 0.0
    else Measure(events, cuts, n - 1) + if Running(events, cuts[n - 1]) then cuts[n] - cuts[n - 1] else 0.0
  }

  /** Nothing runs outside the window, so that is the whole union. */
  lemma NothingOutside(events: seq<Event>, t: real)
    requires events != [] && SortedByStart(events)
    ensures t < events[0].ts || t >= MaxEnd(events) ==> !Running(events, t)
  {
    forall i | 0 <= i < |events| && (t < events[0].ts || t >= MaxEnd(events))
      ensures !(events[i].ts <= t < End(events[i]))
    {
      MaxEndBounds(events, i);
    }
  }

  lemma {:induction false} MeasureCong(a: seq<Event>, b: seq<Event>, cuts: seq<real>, n: nat)
    requires n < |cuts| && forall i | 0 <= i < n :: Running(a, cuts[i]) <==> Running(b, cuts[i])
    ensures Measure(a, cuts, n) == Measure(b, cuts, n)
  {
    if n > 0 {
      MeasureCong(a, b, cuts, n - 1);
    }
  }

  /** Over a stretch of cuts that is busy throughout, or idle throughout. */
  lemma {:induction false} MeasurePlain(events: seq<Event>, cuts: seq<real>, m: nat, n: nat, busy: bool)
    requires m <= n < |cuts| && forall i | m <= i < n :: Running(events, cuts[i]) <==> busy
    ensures Measure(events, cuts, n) == Measure(events, cuts, m) + if busy then cuts[n] - cuts[m] else 0.0
  {
    if m < n {
      MeasurePlain(events, cuts, m, n - 1, busy);
    }
  }

  /** The first cut at a given time. */
  ghost function At(cuts: seq<real>, t: real): (i: nat)
    requires t in cuts
    ensures i < |cuts| && cuts[i] == t
  {
    if cuts[0] == t then 0 else At(cuts[1..], t) + 1
  }

  lemma {:induction false} AtFirst(cuts: seq<real>, t: real, i: nat)
    requires t in cuts && Increasing(cuts) && i < |cuts|
    ensures i < At(cuts, t) <==> cuts[i] < t
  {
    if cuts[0] != t && i > 0 {
      AtFirst(cuts[1..], t, i - 1);
    } else if cuts[0] != t {
      assert cuts[0] <= cuts[At(cuts, t)];
    }
  }

  lemma AtOrder(cuts: seq<real>, s: real, t: real)
    requires s in cuts && t in cuts && Increasing(cuts) && s <= t
    ensures At(cuts, s) <= At(cuts, t)
  {
    AtFirst(cuts, s, At(cuts, t));
  }

  // ---- the sweep ----

  lemma RunningMore(events: seq<Event>, e: Event, t: real)
    ensures Running(events + [e], t) <==> Running(events, t) || e.ts <= t < End(e)
  {
    var more := events + [e];
    if Running(events, t) {
      var i :| 0 <= i < |events| && events[i].ts <= t < End(events[i]);
      assert more[i] == events[i];
    }
    if e.ts <= t < End(e) {
      assert more[|events|] == e;
    }
  }

  /** What the sweep maintains: `done` events processed, the closed stretches counted, the open
      one still busy from start to end. */
  ghost predicate Swept(done: seq<Event>, cuts: seq<real>, busy: real, start: real, end: real) {
    && done != [] && Increasing(cuts) && start in cuts && end in cuts
    && start <= end == MaxEnd(done)
    && (forall t | start <= t < end :: Running(done, t))
    && busy == Measure(done, cuts, At(cuts, start))
  }

  lemma SweptFirst(e: Event, cuts: seq<real>)
    requires Increasing(cuts) && cuts != [] && cuts[0] == e.ts && End(e) in cuts
    ensures Swept([e], cuts, 0.0, e.ts, End(e))
  {
    forall t | e.ts <= t < End(e) ensures Running([e], t) {
      assert [e][0] == e;
    }
  }

  lemma NothingAfter(events: seq<Event>, t: real)
    requires events != [] && t >= MaxEnd(events)
    ensures !Running(events, t)
  {
    forall i | 0 <= i < |events| ensures !(events[i].ts <= t < End(events[i])) {
      MaxEndBounds(events, i);
    }
  }

  /** Up to a cut at or past the open stretch's end, only that stretch is added. */
  lemma StretchAdded(done: seq<Event>, cuts: seq<real>, busy: real, start: real, end: real, n: nat)
    requires Swept(done, cuts, busy, start, end) && n < |cuts| && cuts[n] >= end && At(cuts, end) <= n
    ensures Measure(done, cuts, n) == busy + (end - start)
  {
    var a, b := At(cuts, start), At(cuts, end);
    AtOrder(cuts, start, end);
    forall i | a <= i < b ensures Running(done, cuts[i]) {
      AtFirst(cuts, end, i);
      assert cuts[a] <= cuts[i];
    }
    forall i | b <= i < n ensures !Running(done, cuts[i]) {
      assert cuts[b] <= cuts[i];
      NothingAfter(done, cuts[i]);
    }
    MeasurePlain(done, cuts, a, b, true);
    MeasurePlain(done, cuts, b, n, false);
  }

  /** The next event starts past the open stretch: close it. */
  lemma SweptGap(done: seq<Event>, cuts: seq<real>, busy: real, start: real, end: real, e: Event)
    requires Swept(done, cuts, busy, start, end) && e.ts > end && e.ts in cuts && End(e) in cuts
    ensures Swept(done + [e], cuts, busy + (end - start), e.ts, End(e))
  {
    var more, n := done + [e], At(cuts, e.ts);
    AtOrder(cuts, end, e.ts);
    StretchAdded(done, cuts, busy, start, end, n);
    forall i | 0 <= i < n ensures Running(more, cuts[i]) <==> Running(done, cuts[i]) {
      AtFirst(cuts, e.ts, i);
      RunningMore(done, e, cuts[i]);
    }
    MeasureCong(more, done, cuts, n);
    forall t | e.ts <= t < End(e) ensures Running(more, t) {
      RunningMore(done, e, t);
    }
    assert more[..|done|] == done;
  }

  /** The next event touches or overlaps the open stretch: extend it. */
  lemma SweptExtend(done: seq<Event>, cuts: seq<real>, busy: real, start: real, end: real, e: Event)
    requires Swept(done, cuts, busy, start, end) && start <= e.ts <= end && End(e) in cuts
    ensures Swept(done + [e], cuts, busy, start, if End(e) > end then End(e) else end)
  {
    var more, n := done + [e], At(cuts, start);
    forall i | 0 <= i < n ensures Running(more, cuts[i]) <==> Running(done, cuts[i]) {
      AtFirst(cuts, start, i);
      RunningMore(done, e, cuts[i]);
    }
    MeasureCong(more, done, cuts, n);
    forall t | start <= t < (if End(e) > end then End(e) else end) ensures Running(more, t) {
      RunningMore(done, e, t);
    }
    assert more[..|done|] == done;
  }

  lemma SweepEnds(events: seq<Event>, cuts: seq<real>, busy: real, start: real, end: real)
    requires events != [] && IsCuts(events, cuts) && Swept(events, cuts, busy, start, end)
    ensures busy + (end - start) == Measure(events, cuts, |cuts| - 1)
  {
    StretchAdded(events, cuts, busy, start, end, |cuts| - 1);
  }

  /** The sweep: whatever cut points it is measured with, the result is the measure of the
      union of the events. */
  method Busy(events: seq<Event>) returns (busy: real)
    requires events != [] && SortedByStart(events)
    ensures forall cuts | IsCuts(events, cuts) :: busy == Measure(events, cuts, |cuts| - 1)
  {
    busy := 0.0;
    var start, end, open, i := 0.0, 0.0, false, 0;
    while i < |events|
      invariant i <= |events| && open == (i > 0)
      invariant open ==> start <= events[i - 1].ts
      invariant open ==> forall cuts | IsCuts(events, cuts) :: Swept(events[..i], cuts, busy, start, end)
      invariant !open ==> busy == 0.0
    {
      var e := events[i];
      ghost var done := events[..i];
      assert events[..i + 1] == done + [e];
      if !open || e.ts > end {
        ghost var closed := if open then busy + (end - start) else 0.0;
        forall cuts | IsCuts(events, cuts) ensures Swept(events[..i + 1], cuts, closed, e.ts, End(e)) {
          if open {
            SweptGap(done, cuts, busy, start, end, e);
          } else {
            SweptFirst(e, cuts);
          }
        }
        if open {
          busy := busy + (end - start);
        }
        start, end, open := e.ts, End(e), true;
      } else {
        ghost var longer := if End(e) > end then End(e) else end;
        forall cuts | IsCuts(events, cuts) ensures Swept(events[..i + 1], cuts, busy, start, longer) {
          SweptExtend(done, cuts, busy, start, end, e);
        }
        end := if End(e) > end then End(e) else end;
      }
      i := i + 1;
    }
    assert events[..i] == events;
    forall cuts | IsCuts(events, cuts) ensures busy + (end - start) == Measure(events, cuts, |cuts| - 1) {
      SweepEnds(events, cuts, busy, start, end);
    }
    busy := busy + (end - start);
  }

  // ---- busy time and wall time ----

  lemma {:induction false} MeasureWithin(events: seq<Event>, cuts: seq<real>, n: nat)
    requires Increasing(cuts) && n < |cuts|
    ensures 0.0 <= Measure(events, cuts, n) <= cuts[n] - cuts[0]
    ensures Measure(events, cuts, n) == cuts[n] - cuts[0] <==>
            forall i | 0 <= i < n && cuts[i] < cuts[i + 1] :: Running(events, cuts[i])
  {
    if n > 0 {
      MeasureWithin(events, cuts, n - 1);
      assert cuts[n - 1] <= cuts[n];
    }
  }

  lemma {:induction false} SegmentOf(cuts: seq<real>, n: nat, t: real) returns (i: nat)
    requires n < |cuts| && cuts[0] <= t < cuts[n]
    ensures i < n && cuts[i] <= t < cuts[i + 1]
    decreases n
  {
    if cuts[n - 1] <= t {
      i := n - 1;
    } else {
      i := SegmentOf(cuts, n - 1, t);
    }
  }

  /** Busy time never exceeds the wall time, and equals it exactly when there is no gap. */
  lemma BusyWithinWall(events: seq<Event>, cuts: seq<real>)
    requires events != [] && SortedByStart(events) && IsCuts(events, cuts)
    ensures
      var busy, wall := Measure(events, cuts, |cuts| - 1), MaxEnd(events) - events[0].ts;
      && 0.0 <= busy <= wall
      && (busy == wall <==> forall t | events[0].ts <= t < MaxEnd(events) :: Running(events, t))
  {
    var n := |cuts| - 1;
    MeasureWithin(events, cuts, n);
    if Measure(events, cuts, n) == cuts[n] - cuts[0] {
      forall t | events[0].ts <= t < MaxEnd(events) ensures Running(events, t) {
        var i := SegmentOf(cuts, n, t);
        SteadyBetween(events, cuts, i, t);
      }
    } else {
      var i :| 0 <= i < n && cuts[i] < cuts[i + 1] && !Running(events, cuts[i]);
      assert cuts[0] <= cuts[i] && cuts[i + 1] <= cuts[n];
    }
  }

  // ---- cut points exist ----

  function Inserted(t: real, cuts: seq<real>): (r: seq<real>)
    ensures forall x :: x in r <==> x == t || x in cuts
  {
    if cuts == [] || t <= cuts[0] then [t] + cuts else [cuts[0]] + Inserted(t, cuts[1..])
  }

  lemma {:induction false} InsertedIncreasing(t: real, cuts: seq<real>)
    requires Increasing(cuts)
    ensures Increasing(Inserted(t, cuts))
  {
    if cuts != [] && t > cuts[0] {
      var rest := Inserted(t, cuts[1..]);
      InsertedIncreasing(t, cuts[1..]);
      forall i | 0 <= i < |rest| ensures cuts[0] <= rest[i] {
        assert rest[i] in rest;
      }
    }
  }

  lemma Endpoints(events: seq<Event>) returns (cuts: seq<real>)
    ensures Increasing(cuts)
    ensures forall x :: x in cuts <==> exists i | 0 <= i < |events| :: x == events[i].ts || x == End(events[i])
  {
    cuts := [];
    for n := 0 to |events|
      invariant Increasing(cuts)
      invariant forall x :: x in cuts <==> exists i | 0 <= i < n :: x == events[i].ts || x == End(events[i])
    {
      InsertedIncreasing(events[n].ts, cuts);
      cuts := Inserted(events[n].ts, cuts);
      InsertedIncreasing(End(events[n]), cuts);
      cuts := Inserted(End(events[n]), cuts);
    }
  }

  lemma {:induction false} MaxEndAttained(events: seq<Event>) returns (i: nat)
    requires events != []
    ensures i < |events| && End(events[i]) == MaxEnd(events)
  {
    var n := |events| - 1;
    i := n;
    if n > 0 && End(events[n]) < MaxEnd(events[..n]) {
      i := MaxEndAttained(events[..n]);
    }
  }

  /** Every trace has cut points, so its busy time is measured. */
  lemma CutsExist(events: seq<Event>) returns (cuts: seq<real>)
    requires events != [] && SortedByStart(events)
    ensures IsCuts(events, cuts)
  {
    cuts := Endpoints(events);
    var m := MaxEndAttained(events);
    assert events[0].ts in cuts && End(events[m]) in cuts;
    forall x | x in cuts ensures events[0].ts <= x <= MaxEnd(events) {
      var i :| 0 <= i < |events| && (x == events[i].ts || x == End(events[i]));
      MaxEndBounds(events, i);
    }
    var last := |cuts| - 1;
    var a :| 0 <= a < |cuts| && cuts[a] == events[0].ts;
    var b :| 0 <= b < |cuts| && cuts[b] == MaxEnd(events);
    assert cuts[0] in cuts && cuts[last] in cuts;
    assert cuts[0] <= cuts[a] && cuts[b] <= cuts[last];
    forall i | 0 <= i < |events| ensures events[i].ts in cuts && End(events[i]) in cuts {
    }
  }

  // ---- events that do not overlap ----

  function DurationSum(events: seq<Event>): real {
    if events == [] then 0.0
    else DurationSum(events[..|events| - 1]) + events[|events| - 1].dur
  }

  /** Each event ends before the next one starts. */
  ghost predicate OneByOne(events: seq<Event>) {
    forall i, j | 0 <= i < j < |events| :: events[i].ts + events[i].dur <= events[j].ts
  }

  lemma {:induction false} LastEndIsMax(events: seq<Event>)
    requires events != [] && OneByOne(events)
    ensures MaxEnd(events) == events[|events| - 1].ts + events[|events| - 1].dur
  {
    var n := |events| - 1;
    if n > 0 {
      LastEndIsMax(events[..n]);
    }
  }

  lemma {:induction false} DisjointUpTo(events: seq<Event>, cuts: seq<real>, n: nat)
    requires 0 < n <= |events| && OneByOne(events) && IsCuts(events, cuts)
    ensures MaxEnd(events[..n]) in cuts
    ensures Measure(events[..n], cuts, At(cuts, MaxEnd(events[..n]))) == DurationSum(events[..n])
    decreases n - 1, 1
  {
    var done, e := events[..n - 1], events[n - 1];
    var more := events[..n];
    assert more == done + [e] && more[..n - 1] == done;
    LastEndIsMax(more);
    assert e.ts in cuts && End(e) in cuts;
    var a, b := At(cuts, e.ts), At(cuts, End(e));
    AtOrder(cuts, e.ts, End(e));
    BeforeNext(events, cuts, n - 1);
    forall i | 0 <= i < a ensures Running(more, cuts[i]) <==> Running(done, cuts[i]) {
      AtFirst(cuts, e.ts, i);
      RunningMore(done, e, cuts[i]);
    }
    MeasureCong(more, done, cuts, a);
    forall i | a <= i < b ensures Running(more, cuts[i]) {
      AtFirst(cuts, e.ts, i);
      AtFirst(cuts, End(e), i);
      RunningMore(done, e, cuts[i]);
    }
    MeasurePlain(more, cuts, a, b, true);
  }

  /** Up to the start of event n only the events before it count. */
  lemma {:induction false} BeforeNext(events: seq<Event>, cuts: seq<real>, n: nat)
    requires n < |events| && OneByOne(events) && IsCuts(events, cuts)
    ensures events[n].ts in cuts
    ensures Measure(events[..n], cuts, At(cuts, events[n].ts)) == DurationSum(events[..n])
    decreases n, 0
  {
    var done, t := events[..n], events[n].ts;
    assert t in cuts;
    if n == 0 {
      assert At(cuts, t) == 0;
    } else {
      DisjointUpTo(events, cuts, n);
      LastEndIsMax(done);
      var a, b := At(cuts, MaxEnd(done)), At(cuts, t);
      AtOrder(cuts, MaxEnd(done), t);
      forall i | a <= i < b ensures !Running(done, cuts[i]) {
        AtFirst(cuts, MaxEnd(done), i);
        NothingAfter(done, cuts[i]);
      }
      MeasurePlain(done, cuts, a, b, false);
    }
  }

  /** Events that do not overlap are busy for the sum of their durations. */
  lemma DisjointSum(events: seq<Event>, cuts: seq<real>)
    requires events != [] && OneByOne(events) && IsCuts(events, cuts)
    ensures Measure(events, cuts, |cuts| - 1) == DurationSum(events)
  {
    var n := |cuts| - 1;
    assert events[..|events|] == events;
    DisjointUpTo(events, cuts, |events|);
    var a := At(cuts, MaxEnd(events));
    forall i | a <= i < n ensures !Running(events, cuts[i]) {
      AtFirst(cuts, MaxEnd(events), i);
      NothingAfter(events, cuts[i]);
    }
    MeasurePlain(events, cuts, a, n, false);
  }
}
