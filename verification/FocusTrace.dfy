/**
 scripts/gl_ab_analyze.py: rebuilding when the window was focused from its
 transition events, and telling which samples lie inside a focused interval.
 */
module FocusTrace {
  import opened Options
  import Sorting

  /** A trace line: a window_focus transition, or anything else, unparsable lines included. */
  datatype Line = Transition(ts: int, focused: bool) | OtherLine

  datatype Event = Event(ts: int, focused: bool)
  datatype Interval = Interval(start: int, end: int)

  /** Where an interval still open at the end of the trace is made to end: 2 to the 62. */
  const FOREVER := 0x4000_0000_0000_0000

  function EventsOf(lines: seq<Line>): (es: seq<Event>) {
    if lines == [] then []
    else
      var last := lines[|lines| - 1];
      EventsOf(lines[..|lines| - 1]) + if last.Transition? then [Event(last.ts, last.focused)] else []
  }

  /** Python's order on (timestamp, bool) pairs: False before True at the same time. */
  predicate EventLeq(a: Event, b: Event) {
    a.ts < b.ts || (a.ts == b.ts && (a.focused ==> b.focused))
  }

  /** The scan so far: the closed intervals, and the start of the open one. */
  datatype Scan = Scan(closed: seq<Interval>, openAt: Option<int>)

  function ScanStep(sc: Scan, e: Event): (sc': Scan) {
    if e.focused && sc.openAt.None? then sc.(openAt := Some(e.ts))
    else if !e.focused && sc.openAt.Some? then Scan(sc.closed + [Interval(sc.openAt.value, e.ts)], None)
    else sc
  }

  function ScanAll(es: seq<Event>): (sc: Scan) {
    if es == [] then Scan([], None) else ScanStep(ScanAll(es[..|es| - 1]), es[|es| - 1])
  }

  function Close(sc: Scan): (iv: seq<Interval>) {
    if sc.openAt.Some? then sc.closed + [Interval(sc.openAt.value, FOREVER)] else sc.closed
  }

  function FocusIntervals(lines: seq<Line>): (iv: seq<Interval>) {
    Close(ScanAll(Sorting.Sort(EventsOf(lines), EventLeq)))
  }

  method ReadFocusIntervals(lines: seq<Line>) returns (iv: seq<Interval>)
    ensures iv == FocusIntervals(lines)
  {
    var events: seq<Event> := [];
    for i := 0 to |lines|
      invariant events == EventsOf(lines[..i])
    {
      assert lines[..i + 1][..i] == lines[..i];
      if lines[i].Transition? {
        events := events + [Event(lines[i].ts, lines[i].focused)];
      }
    }
    assert lines[..|lines|] == lines;
    events := Sorting.Sort(events, EventLeq);
    iv := [];
    var openAt: Option<int> := None;
    for i := 0 to |events|
      invariant Scan(iv, openAt) == ScanAll(events[..i])
    {
      assert events[..i + 1][..i] == events[..i];
      var e := events[i];
      if e.focused && openAt.None? {
        openAt := Some(e.ts);
      } else if !e.focused && openAt.Some? {
        iv := iv + [Interval(openAt.value, e.ts)];
        openAt := None;
      }
    }
    assert events[..|events|] == events;
    if openAt.Some? {
      iv := iv + [Interval(openAt.value, FOREVER)];
    }
  }

  predicate WhollyInside(iv: seq<Interval>, t0: int, t1: int) {
    exists k :: 0 <= k < |iv| && iv[k].start <= t0 && t1 <= iv[k].end
  }

  predicate Inside(iv: seq<Interval>, t: int) {
    exists k :: 0 <= k < |iv| && iv[k].start <= t < iv[k].end
  }

  // ------------------------------------------------- what focus means

  /** `e` is the last event at or before `t`, a focus event counting as later than an unfocus one on a tie. */
  predicate LastAt(es: seq<Event>, t: int, e: Event) {
    && e in es && e.ts <= t
    && forall k :: 0 <= k < |es| && es[k].ts <= t ==> EventLeq(es[k], e)
  }

  /** The window has focus at `t`: the last event at or before `t` says so. */
  ghost predicate FocusedAt(es: seq<Event>, t: int) {
    exists e :: LastAt(es, t, e) && e.focused
  }

  /** Some unfocus event lies strictly between the two times. */
  predicate UnfocusBetween(es: seq<Event>, t0: int, t1: int) {
    exists k :: 0 <= k < |es| && !es[k].focused && t0 < es[k].ts < t1
  }

  // ------------------------------------------------------ the scan invariant

  predicate SortedEvents(es: seq<Event>) {
    forall i, j :: 0 <= i < j < |es| ==> EventLeq(es[i], es[j])
  }

  predicate Covered(sc: Scan, t: int) {
    Inside(sc.closed, t) || (sc.openAt.Some? && sc.openAt.value <= t)
  }

  /** Closed intervals are non-empty, in order, touching at most, and end at unfocus events. */
  predicate ClosedShape(es: seq<Event>, closed: seq<Interval>) {
    && (forall k :: 0 <= k < |closed| ==> closed[k].start < closed[k].end && Event(closed[k].end, false) in es)
    && (forall j, k :: 0 <= j < k < |closed| ==> closed[j].end <= closed[k].start)
    && (forall k :: 0 <= k < |closed| ==> !UnfocusBetween(es, closed[k].start, closed[k].end))
  }

  predicate OpenShape(es: seq<Event>, sc: Scan) {
    && (sc.openAt.Some? <==> es != [] && es[|es| - 1].focused)
    && (sc.openAt.Some? ==>
      && Event(sc.openAt.value, true) in es
      && (forall k :: 0 <= k < |sc.closed| ==> sc.closed[k].end <= sc.openAt.value)
      && (forall k :: 0 <= k < |es| ==> !es[k].focused ==> es[k].ts <= sc.openAt.value))
  }

  ghost predicate ScanFacts(es: seq<Event>, sc: Scan) {
    && ClosedShape(es, sc.closed) && OpenShape(es, sc)
    && forall t {:trigger Covered(sc, t)} :: Covered(sc, t) <==> FocusedAt(es, t)
  }

  lemma FocusedAppend(es: seq<Event>, e: Event, t: int)
    requires SortedEvents(es + [e])
    ensures FocusedAt(es + [e], t) <==> if e.ts <= t then e.focused else FocusedAt(es, t)
  {
    var all := es + [e];
    assert all[|es|] == e;
    assert forall k :: 0 <= k < |es| ==> all[k] == es[k] && EventLeq(all[k], all[|es|]);
    if e.ts <= t {
      assert LastAt(all, t, e);
    } else {
      forall x
        ensures LastAt(all, t, x) <==> LastAt(es, t, x)
      {
      }
    }
  }

  lemma EventsBefore(es: seq<Event>, e: Event)
    requires SortedEvents(es + [e])
    ensures SortedEvents(es)
    ensures forall x :: x in es ==> EventLeq(x, e) && x in es + [e]
  {
    var all := es + [e];
    assert all[|es|] == e;
    forall k | 0 <= k < |es|
      ensures EventLeq(es[k], e)
    {
      assert EventLeq(all[k], all[|es|]);
    }
    forall i, j | 0 <= i < j < |es|
      ensures EventLeq(es[i], es[j])
    {
      assert EventLeq(all[i], all[j]);
    }
  }

  lemma CoveredStep(es: seq<Event>, sc: Scan, e: Event, t: int)
    requires SortedEvents(es + [e]) && ClosedShape(es, sc.closed) && OpenShape(es, sc)
    ensures Covered(ScanStep(sc, e), t) <==> if e.ts <= t then e.focused else Covered(sc, t)
  {
    EventsBefore(es, e);
    var sc' := ScanStep(sc, e);
    assert forall k :: 0 <= k < |sc.closed| ==> sc'.closed[k] == sc.closed[k];
    assert forall k :: 0 <= k < |sc.closed| ==> sc.closed[k].end <= e.ts;
    if |sc'.closed| > |sc.closed| {
      assert sc'.closed[|sc.closed|] == Interval(sc.openAt.value, e.ts);
    }
  }

  lemma ShapeStep(es: seq<Event>, sc: Scan, e: Event)
    requires SortedEvents(es + [e]) && ClosedShape(es, sc.closed) && OpenShape(es, sc)
    ensures ClosedShape(es + [e], ScanStep(sc, e).closed) && OpenShape(es + [e], ScanStep(sc, e))
  {
    var all, sc' := es + [e], ScanStep(sc, e);
    EventsBefore(es, e);
    assert e in all;
    forall k | 0 <= k < |sc'.closed|
      ensures !UnfocusBetween(all, sc'.closed[k].start, sc'.closed[k].end)
    {
      if k < |sc.closed| {
        assert !UnfocusBetween(es, sc.closed[k].start, sc.closed[k].end);
      }
    }
  }

  lemma {:induction false} ScanIsExact(es: seq<Event>)
    requires SortedEvents(es)
    ensures ScanFacts(es, ScanAll(es))
    decreases |es|
  {
    if es != [] {
      var before, e := es[..|es| - 1], es[|es| - 1];
      assert es == before + [e];
      EventsBefore(before, e);
      ScanIsExact(before);
      ShapeStep(before, ScanAll(before), e);
      forall t
        ensures Covered(ScanAll(es), t) <==> FocusedAt(es, t)
      {
        CoveredStep(before, ScanAll(before), e, t);
        FocusedAppend(before, e, t);
      }
    }
  }

  // ----------------------------------------------------------- the promises

  lemma EventOrder()
    ensures Sorting.TotalPreorder(EventLeq) && Sorting.Antisymmetric(EventLeq)
  {
  }

  /** The trace's events in time order, and the scan over them. */
  lemma TraceScan(lines: seq<Line>) returns (es: seq<Event>, sc: Scan)
    ensures es == Sorting.Sort(EventsOf(lines), EventLeq) && SortedEvents(es) && sc == ScanAll(es) && ScanFacts(es, sc)
    ensures forall e :: e in es <==> e in EventsOf(lines)
  {
    es := Sorting.Sort(EventsOf(lines), EventLeq);
    EventOrder();
    Sorting.SortSorted(EventsOf(lines), EventLeq);
    Sorting.SameMembers(es, EventsOf(lines));
    sc := ScanAll(es);
    ScanIsExact(es);
  }

  lemma SameFocus(a: seq<Event>, b: seq<Event>, t: int)
    requires forall e :: e in a <==> e in b
    ensures FocusedAt(a, t) <==> FocusedAt(b, t)
  {
    forall e
      ensures LastAt(a, t, e) <==> LastAt(b, t, e)
    {
      assert forall k :: 0 <= k < |a| ==> a[k] in b;
      assert forall k :: 0 <= k < |b| ==> b[k] in a;
    }
  }

  /** A time lies inside an interval exactly when the last event at or before it is a focus event. */
  lemma FocusIsExact(lines: seq<Line>, t: int)
    requires t < FOREVER
    ensures Inside(FocusIntervals(lines), t) <==> FocusedAt(EventsOf(lines), t)
  {
    var es, sc := TraceScan(lines);
    SameFocus(es, EventsOf(lines), t);
    assert Covered(sc, t) <==> FocusedAt(es, t);
    var iv := Close(sc);
    assert forall k :: 0 <= k < |sc.closed| ==> iv[k] == sc.closed[k];
    if sc.openAt.Some? {
      assert iv[|sc.closed|] == Interval(sc.openAt.value, FOREVER);
    }
  }

  /** The intervals are non-empty, in order, and touch at most. */
  lemma IntervalsAreOrdered(lines: seq<Line>)
    requires forall e :: e in EventsOf(lines) ==> e.ts < FOREVER
    ensures var iv := FocusIntervals(lines);
      && (forall k :: 0 <= k < |iv| ==> iv[k].start < iv[k].end)
      && (forall j, k :: 0 <= j < k < |iv| ==> iv[j].end <= iv[k].start)
  {
    var es, sc := TraceScan(lines);
  }

  /** A sample lies wholly inside exactly when focus holds at its start and no unfocus event interrupts it. */
  lemma WhollyInsideIsExact(lines: seq<Line>, t0: int, t1: int)
    requires t0 < t1 <= FOREVER
    ensures WhollyInside(FocusIntervals(lines), t0, t1) <==>
      FocusedAt(EventsOf(lines), t0) && !UnfocusBetween(EventsOf(lines), t0, t1)
  {
    var es, sc := TraceScan(lines);
    var iv := Close(sc);
    FocusIsExact(lines, t0);
    forall k | 0 <= k < |iv| && iv[k].start <= t0 < iv[k].end
      ensures t1 <= iv[k].end <==> !UnfocusBetween(EventsOf(lines), t0, t1)
    {
      IntervalEnds(EventsOf(lines), es, sc, k, t0, t1);
    }
  }

  lemma NoUnfocusInside(es: seq<Event>, sc: Scan, k: nat)
    requires ClosedShape(es, sc.closed) && OpenShape(es, sc) && k < |Close(sc)|
    ensures !UnfocusBetween(es, Close(sc)[k].start, Close(sc)[k].end)
  {
  }

  lemma IntervalEnds(events: seq<Event>, es: seq<Event>, sc: Scan, k: nat, t0: int, t1: int)
    requires forall e :: e in es <==> e in events
    requires ClosedShape(es, sc.closed) && OpenShape(es, sc)
    requires k < |Close(sc)| && Close(sc)[k].start <= t0 < Close(sc)[k].end && t0 < t1 <= FOREVER
    ensures t1 <= Close(sc)[k].end <==> !UnfocusBetween(events, t0, t1)
  {
    var start, end := Close(sc)[k].start, Close(sc)[k].end;
    NoUnfocusInside(es, sc, k);
    if k < |sc.closed| && end < t1 {
      assert Event(end, false) in events;
      assert UnfocusBetween(events, t0, t1);
    }
    if UnfocusBetween(events, t0, t1) {
      var j :| 0 <= j < |events| && !events[j].focused && t0 < events[j].ts < t1;
      assert events[j] in es;
      var i :| 0 <= i < |es| && es[i] == events[j];
      assert t1 <= end ==> UnfocusBetween(es, start, end);
    }
  }

  lemma {:induction false} EventsOfOrder(a: seq<Line>)
    ensures forall e: Event :: multiset(EventsOf(a))[e] == multiset(a)[Transition(e.ts, e.focused)]
    decreases |a|
  {
    if a != [] {
      EventsOfOrder(a[..|a| - 1]);
      assert a == a[..|a| - 1] + [a[|a| - 1]];
    }
  }

  lemma EventsAreLines(lines: seq<Line>, e: Event)
    ensures e in EventsOf(lines) <==> Transition(e.ts, e.focused) in lines
  {
    EventsOfOrder(lines);
    var es, line := EventsOf(lines), Transition(e.ts, e.focused);
    assert multiset(es)[e] == multiset(lines)[line];
    assert e in es <==> e in multiset(es);
    assert line in lines <==> line in multiset(lines);
  }

  lemma {:induction false} LastExists(es: seq<Event>, t: int) returns (e: Event)
    requires exists k :: 0 <= k < |es| && es[k].ts <= t
    ensures LastAt(es, t, e)
    decreases |es|
  {
    var before, last := es[..|es| - 1], es[|es| - 1];
    assert es == before + [last];
    if exists k :: 0 <= k < |before| && before[k].ts <= t {
      e := LastExists(before, t);
      if last.ts <= t && EventLeq(e, last) {
        e := last;
      }
    } else {
      e := last;
      assert forall k :: 0 <= k < |before| ==> es[k] == before[k];
    }
  }

  /** The trace has a focus event at or before `t` and no unfocus event after it up to `t`. */
  ghost predicate FocusHolds(lines: seq<Line>, t: int) {
    exists s :: FocusGained(lines, s) && s <= t && forall u :: FocusLost(lines, u) && u <= t ==> u <= s
  }

  predicate FocusGained(lines: seq<Line>, s: int) {
    Transition(s, true) in lines
  }

  predicate FocusLost(lines: seq<Line>, u: int) {
    Transition(u, false) in lines
  }

  lemma FocusedIsHeld(lines: seq<Line>, t: int)
    ensures FocusedAt(EventsOf(lines), t) <==> FocusHolds(lines, t)
  {
    var es := EventsOf(lines);
    forall e {
      EventsAreLines(lines, e);
    }
    if FocusedAt(es, t) {
      var e :| LastAt(es, t, e) && e.focused;
      assert FocusGained(lines, e.ts);
      forall u | FocusLost(lines, u) && u <= t
        ensures u <= e.ts
      {
        assert Event(u, false) in es;
      }
    }
    if FocusHolds(lines, t) {
      var s :| FocusGained(lines, s) && s <= t && forall u :: FocusLost(lines, u) && u <= t ==> u <= s;
      assert Event(s, true) in es;
      var k :| 0 <= k < |es| && es[k] == Event(s, true);
      var e := LastExists(es, t);
      assert EventLeq(es[k], e);
      assert !e.focused ==> FocusLost(lines, e.ts);
    }
  }

  /** A time lies inside an interval exactly when focus was gained by then and not lost since, as the lines tell it. */
  lemma FocusIsAsTraced(lines: seq<Line>, t: int)
    requires t < FOREVER
    ensures Inside(FocusIntervals(lines), t) <==> FocusHolds(lines, t)
  {
    FocusIsExact(lines, t);
    FocusedIsHeld(lines, t);
  }

  /** A sample lies wholly inside exactly when focus holds at its start and is not lost before its end. */
  lemma WhollyInsideIsAsTraced(lines: seq<Line>, t0: int, t1: int)
    requires t0 < t1 <= FOREVER
    ensures WhollyInside(FocusIntervals(lines), t0, t1) <==>
      FocusHolds(lines, t0) && forall u :: t0 < u < t1 ==> !FocusLost(lines, u)
  {
    WhollyInsideIsExact(lines, t0, t1);
    FocusedIsHeld(lines, t0);
    var es := EventsOf(lines);
    forall u
      ensures FocusLost(lines, u) <==> Event(u, false) in es
    {
      EventsAreLines(lines, Event(u, false));
    }
    if UnfocusBetween(es, t0, t1) {
      var k :| 0 <= k < |es| && !es[k].focused && t0 < es[k].ts < t1;
      assert Event(es[k].ts, false) in es;
    }
    if u :| t0 < u < t1 && FocusLost(lines, u) {
      var k :| 0 <= k < |es| && es[k] == Event(u, false);
    }
  }

  /** The order of the trace lines does not matter. */
  lemma LineOrderIsIrrelevant(a: seq<Line>, b: seq<Line>)
    requires multiset(a) == multiset(b)
    ensures FocusIntervals(a) == FocusIntervals(b)
  {
    EventsOfOrder(a);
    EventsOfOrder(b);
    assert forall e: Event :: multiset(EventsOf(a))[e] == multiset(EventsOf(b))[e];
    EventOrder();
    Sorting.SortForgetsOrder(EventsOf(a), EventsOf(b), EventLeq);
  }
}
