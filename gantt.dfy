/**
 * The integer part of the Gantt (timeline) layout: the padded date range,
 * the row order and each bar's start offset and duration, in milliseconds.
 * Turning these into percentages of the range is floating point and is not
 * part of this model.
 */
module Gantt {
  import opened Wrappers
  import opened Seqs
  import opened Events
  import opened Ordering
  import opened Views

  /** The start and end instants of each event, in order
   *  (`flatMap(e => [timestamp, deadline])`). */
  function Instants(dated: seq<Event>): (r: seq<int>)
    ensures |r| == 2 * |dated|
  {
    if dated == [] then []
    else [dated[0].timestamp, DeadlineOrZero(dated[0])] + Instants(dated[1..])
  }

  lemma {:induction false} InstantsHasBothEnds(dated: seq<Event>, e: Event)
    requires e in dated
    ensures e.timestamp in Instants(dated) && DeadlineOrZero(e) in Instants(dated)
  {
    if dated[0] != e {
      InstantsHasBothEnds(dated[1..], e);
    }
  }

  lemma {:induction false} InstantsComeFromEvents(dated: seq<Event>, x: int)
    requires x in Instants(dated)
    ensures exists e :: e in dated && (x == e.timestamp || x == DeadlineOrZero(e))
  {
    if x != dated[0].timestamp && x != DeadlineOrZero(dated[0]) {
      InstantsComeFromEvents(dated[1..], x);
      var e :| e in dated[1..] && (x == e.timestamp || x == DeadlineOrZero(e));
      assert e in dated;
    }
  }

  /** `Math.min(...s)`: the least element. */
  function MinOf(s: seq<int>): (m: int)
    requires |s| > 0
    ensures m in s && forall x :: x in s ==> m <= x
  {
    if |s| == 1 then s[0]
    else
      var rest := MinOf(s[1..]);
      assert forall x :: x in s ==> x == s[0] || x in s[1..];
      if s[0] <= rest then s[0] else rest
  }

  /** `Math.max(...s)`: the greatest element. */
  function MaxOf(s: seq<int>): (m: int)
    requires |s| > 0
    ensures m in s && forall x :: x in s ==> x <= m
  {
    if |s| == 1 then s[0]
    else
      var rest := MaxOf(s[1..]);
      assert forall x :: x in s ==> x == s[0] || x in s[1..];
      if s[0] >= rest then s[0] else rest
  }

  /** One bar: where it starts after the range start, and how long it is,
   *  never shorter than one day. */
  datatype Bar = Bar(eventId: string, eventName: string, status: Status,
                     startOffset: int, duration: int)

  function BarOf(e: Event, minDate: int, now: int): (bar: Bar)
    ensures bar.startOffset >= 0 && bar.duration >= DAY
    ensures e.timestamp >= minDate ==> minDate + bar.startOffset + bar.duration >= DeadlineOrZero(e)
  {
    var start, end := e.timestamp, DeadlineOrZero(e);
    Bar(e.id, e.eventName, EventStatus(e, now),
        if start - minDate < 0 then 0 else start - minDate,
        if end - start < DAY then DAY else end - start)
  }

  datatype GanttChart =
    | NoDatedEvents
    | Chart(minDate: int, maxDate: int, totalDays: int,
            rows: seq<Event>, bars: seq<Bar>, todayOffset: int)

  /** Every instant of the chart lies at least one day after its start and
   *  at least three days before its end. */
  ghost predicate RangeCovers(events: seq<Event>, now: int, minDate: int, maxDate: int)
  {
    && minDate + DAY <= now && now + 3 * DAY <= maxDate
    && forall e :: e in events && e.deadline.Some? ==>
         && minDate + DAY <= e.timestamp && e.timestamp + 3 * DAY <= maxDate
         && minDate + DAY <= e.deadline.value && e.deadline.value + 3 * DAY <= maxDate
  }

  /** ... and the padding is exactly one and three days: some instant sits on
   *  each padded edge. */
  ghost predicate RangeTight(events: seq<Event>, now: int, minDate: int, maxDate: int)
  {
    && (minDate + DAY == now ||
        exists e :: e in events && e.deadline.Some? &&
          (minDate + DAY == e.timestamp || minDate + DAY == e.deadline.value))
    && (maxDate - 3 * DAY == now ||
        exists e :: e in events && e.deadline.Some? &&
          (maxDate - 3 * DAY == e.timestamp || maxDate - 3 * DAY == e.deadline.value))
  }

  /** Each bar belongs to the row beside it, starts at least one day into
   *  the range (so the `Math.max(0, ...)` clamp never applies), lasts as long
   *  as its event but at least one day (so it reaches the deadline), and ends
   *  at least two days before the range ends. */
  ghost predicate BarsFit(bars: seq<Bar>, rows: seq<Event>, now: int, minDate: int, maxDate: int)
  {
    && |bars| == |rows|
    && forall i :: 0 <= i < |bars| ==>
         && bars[i].eventId == rows[i].id
         && rows[i].deadline.Some?
         && bars[i].status == EventStatus(rows[i], now)
         && bars[i].startOffset == rows[i].timestamp - minDate >= DAY
         && bars[i].duration ==
              (if rows[i].deadline.value - rows[i].timestamp < DAY then DAY
               else rows[i].deadline.value - rows[i].timestamp)
         && bars[i].duration >= DAY
         && minDate + bars[i].startOffset + bars[i].duration >= rows[i].deadline.value
         && bars[i].startOffset + bars[i].duration <= maxDate - minDate - 2 * DAY
  }

  /** The padded range of the dated events and `now`. */
  lemma PaddedRange(events: seq<Event>, now: int)
    ensures var instants := Instants(Dated(events)) + [now];
      && RangeCovers(events, now, MinOf(instants) - DAY, MaxOf(instants) + 3 * DAY)
      && RangeTight(events, now, MinOf(instants) - DAY, MaxOf(instants) + 3 * DAY)
  {
    var dated := Dated(events);
    var instants := Instants(dated) + [now];
    assert now in instants;
    forall e | e in events && e.deadline.Some?
      ensures e.timestamp in instants && e.deadline.value in instants
    {
      FilterKeeps(events, HasDeadline, e);
      InstantsHasBothEnds(dated, e);
    }
    TightEdge(events, now, MinOf(instants));
    TightEdge(events, now, MaxOf(instants));
  }

  lemma BarsOfCoveredRows(rows: seq<Event>, events: seq<Event>, now: int, minDate: int, maxDate: int)
    requires RangeCovers(events, now, minDate, maxDate)
    requires forall i :: 0 <= i < |rows| ==> rows[i] in events && rows[i].deadline.Some?
    ensures BarsFit(seq(|rows|, i requires 0 <= i < |rows| => BarOf(rows[i], minDate, now)),
                    rows, now, minDate, maxDate)
  {
  }

  lemma RowsAreDated(rows: seq<Event>, events: seq<Event>)
    requires multiset(rows) == multiset(Dated(events))
    ensures forall i :: 0 <= i < |rows| ==> rows[i] in events && rows[i].deadline.Some?
  {
    forall i | 0 <= i < |rows|
      ensures rows[i] in events && rows[i].deadline.Some?
    {
      assert rows[i] in multiset(rows);
      assert rows[i] in Dated(events);
    }
  }

  lemma RowsByDeadline(rows: seq<Event>)
    requires Sorted(ByDeadline, rows)
    requires forall i :: 0 <= i < |rows| ==> rows[i].deadline.Some?
    ensures forall i, j :: 0 <= i < j < |rows| ==>
      rows[i].deadline.Some? && rows[j].deadline.Some? &&
      rows[i].deadline.value <= rows[j].deadline.value
  {
    forall i, j | 0 <= i < j < |rows|
      ensures rows[i].deadline.value <= rows[j].deadline.value
    {
      assert KeyLe(SortKey(ByDeadline, rows[i]), SortKey(ByDeadline, rows[j]));
    }
  }

  /** `renderGanttChart` without the markup: the placeholder when no event has
   *  a deadline, otherwise the padded range, the rows by deadline and a bar
   *  per row. */
  method RenderGanttChart(events: seq<Event>, now: int) returns (chart: GanttChart)
    ensures chart.NoDatedEvents? <==> Dated(events) == []
    ensures chart.Chart? ==> RangeCovers(events, now, chart.minDate, chart.maxDate)
    ensures chart.Chart? ==> RangeTight(events, now, chart.minDate, chart.maxDate)
    ensures chart.Chart? ==> chart.totalDays >= 4
    ensures chart.Chart? ==>
      (chart.totalDays - 1) * DAY < chart.maxDate - chart.minDate <= chart.totalDays * DAY
    ensures chart.Chart? ==> StablePermutation(ByDeadline, chart.rows, Dated(events))
    ensures chart.Chart? ==> forall i, j :: 0 <= i < j < |chart.rows| ==>
      chart.rows[i].deadline.Some? && chart.rows[j].deadline.Some? &&
      chart.rows[i].deadline.value <= chart.rows[j].deadline.value
    ensures chart.Chart? ==> BarsFit(chart.bars, chart.rows, now, chart.minDate, chart.maxDate)
    ensures chart.Chart? ==>
      DAY <= chart.todayOffset == now - chart.minDate <= chart.maxDate - chart.minDate - 3 * DAY
  {
    var dated := Dated(events);
    if |dated| == 0 {
      return NoDatedEvents;
    }
    var instants := Instants(dated) + [now];
    var minDate := MinOf(instants) - DAY;
    var maxDate := MaxOf(instants) + 3 * DAY;
    var totalDays := -((minDate - maxDate) / DAY);
    PaddedRange(events, now);

    var a := new Event[|dated|](i requires 0 <= i < |dated| => dated[i]);
    assert a[..] == dated;
    SortInPlace(a, ByDeadline);
    var rows := a[..];
    RowsAreDated(rows, events);
    RowsByDeadline(rows);
    var bars := seq(|rows|, i requires 0 <= i < |rows| => BarOf(rows[i], minDate, now));
    BarsOfCoveredRows(rows, events, now, minDate, maxDate);
    chart := Chart(minDate, maxDate, totalDays, rows, bars, now - minDate);
  }

  /** An instant of the range is `now` or an end of some dated event. */
  lemma TightEdge(events: seq<Event>, now: int, x: int)
    requires x in Instants(Dated(events)) + [now]
    ensures x == now || exists e :: e in events && e.deadline.Some? &&
                                    (x == e.timestamp || x == e.deadline.value)
  {
    if x != now {
      var dated := Dated(events);
      assert x in Instants(dated);
      InstantsComeFromEvents(dated, x);
      var e :| e in dated && (x == e.timestamp || x == DeadlineOrZero(e));
      assert e in events && e.deadline.Some?;
    }
  }
}
