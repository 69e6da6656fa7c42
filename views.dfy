/**
 * The derived views of the event list: the "today" list, the filtered "all"
 * list, the calendar feed and the pending count. Each takes the cached list
 * explicitly; none of them changes it (the sorts work on copies).
 */
module Views {
  import opened Wrappers
  import opened Seqs
  import opened Events
  import opened Ordering

  // ----- calendar days -----

  /** Midnight at the start of the day holding `t` (`setHours(0, 0, 0, 0)`). */
  function DayStart(t: int): (midnight: int)
    ensures midnight <= t < midnight + DAY && midnight % DAY == 0
  {
    t - t % DAY
  }

  /** The last millisecond of the day holding `t` (`setHours(23, 59, 59, 999)`). */
  function DayEnd(t: int): (last: int)
    ensures t <= last < t + DAY && (last + 1) % DAY == 0
  {
    DayStart(t) + DAY - 1
  }

  /** The number of the day holding `t`. */
  function DayOf(t: int): int
  {
    t / DAY
  }

  // ----- the "today" list -----

  /** Whether `e` is listed under "today": an undated event always is; a dated
   *  one when today's midnight lies between its start day and the end of its
   *  deadline day. Completion plays no part. */
  predicate ShownToday(e: Event, now: int)
    ensures e.deadline.None? ==> ShownToday(e, now)
  {
    if e.deadline.Some? then
      var today := DayStart(now);
      today >= DayStart(e.timestamp) && today <= DayEnd(e.deadline.value)
    else true
  }

  /** The clock-time comparison is the comparison of day numbers. */
  lemma ShownTodayByDay(e: Event, now: int)
    ensures ShownToday(e, now) <==>
      e.deadline.None? || DayOf(e.timestamp) <= DayOf(now) <= DayOf(e.deadline.value)
  {
    if e.deadline.Some? {
      var d := e.deadline.value;
      assert DayStart(now) == DayOf(now) * DAY;
      assert DayStart(e.timestamp) == DayOf(e.timestamp) * DAY;
      assert DayEnd(d) == DayOf(d) * DAY + DAY - 1;
    }
  }

  /** An event starting on a later day, or due on an earlier day, is not shown. */
  lemma NotShownOutsideInterval(e: Event, now: int)
    requires e.deadline.Some?
    requires DayOf(now) < DayOf(e.timestamp) || DayOf(e.deadline.value) < DayOf(now)
    ensures !ShownToday(e, now)
  {
    ShownTodayByDay(e, now);
  }

  function TodayEvents(events: seq<Event>, now: int): (selected: seq<Event>)
    ensures |selected| <= |events|
    ensures forall i :: 0 <= i < |selected| ==> ShownToday(selected[i], now)
  {
    Filter(events, e => ShownToday(e, now))
  }

  /** The "today" selection holds exactly the cached events shown today: every
   *  undated one, done or not, and every dated one whose day interval
   *  contains today. */
  lemma TodayEventsMembers(events: seq<Event>, now: int, e: Event)
    ensures e in TodayEvents(events, now) <==>
      e in events && (e.deadline.None? ||
                      DayOf(e.timestamp) <= DayOf(now) <= DayOf(e.deadline.value))
  {
    ShownTodayByDay(e, now);
    if e in events && ShownToday(e, now) {
      FilterKeeps(events, e => ShownToday(e, now), e);
    }
  }

  /** `renderTodayEvents`: select, then sort urgent, warn, safe, done. */
  method RenderTodayEvents(events: seq<Event>, now: int) returns (view: seq<Event>)
    ensures forall e :: e in view <==> e in events && ShownToday(e, now)
    ensures StablePermutation(ByPriority(now), view, TodayEvents(events, now))
    ensures forall i, j :: 0 <= i < j < |view| ==>
      Priority(EventStatus(view[i], now)) <= Priority(EventStatus(view[j], now))
  {
    var selected := TodayEvents(events, now);
    var a := new Event[|selected|](i requires 0 <= i < |selected| => selected[i]);
    assert a[..] == selected;
    SortInPlace(a, ByPriority(now));
    view := a[..];
    forall e | e in events && ShownToday(e, now)
      ensures e in view
    {
      TodayEventsMembers(events, now, e);
      ShownTodayByDay(e, now);
      assert e in multiset(selected);
    }
    forall e | e in view
      ensures e in events && ShownToday(e, now)
    {
      assert e in multiset(view);
    }
  }

  // ----- the "all" list -----

  /** The filter buttons; a value other than these three lists everything,
   *  as `ShowAll` does. */
  datatype FilterMode = ShowActive | ShowDone | ShowAll

  predicate Allowed(mode: FilterMode, e: Event)
  {
    match mode
    case ShowActive => !e.isDone
    case ShowDone => e.isDone
    case ShowAll => true
  }

  function FilteredEvents(events: seq<Event>, mode: FilterMode): (selected: seq<Event>)
    ensures forall i :: 0 <= i < |selected| ==> Allowed(mode, selected[i])
    ensures mode == ShowAll ==> selected == events
  {
    match mode
    case ShowActive => Filter(events, IsPending)
    case ShowDone => Filter(events, IsCompleted)
    case ShowAll => events
  }

  /** The filter keeps exactly the events the selected mode allows, in order. */
  lemma FilteredEventsMembers(events: seq<Event>, mode: FilterMode, e: Event)
    ensures e in FilteredEvents(events, mode) <==> e in events && Allowed(mode, e)
  {
    if e in events && Allowed(mode, e) {
      match mode
      case ShowActive => FilterKeeps(events, IsPending, e);
      case ShowDone => FilterKeeps(events, IsCompleted, e);
      case ShowAll =>
    }
  }

  /** `renderAllEvents`: filter by mode, then sort by deadline with undated
   *  events last. */
  method RenderAllEvents(events: seq<Event>, mode: FilterMode) returns (view: seq<Event>)
    ensures forall e :: e in view <==> e in events && Allowed(mode, e)
    ensures StablePermutation(ByDeadlineUndatedLast, view, FilteredEvents(events, mode))
    ensures forall i, j :: 0 <= i < j < |view| && view[j].deadline.Some? ==>
      view[i].deadline.Some? && view[i].deadline.value <= view[j].deadline.value
  {
    var selected := FilteredEvents(events, mode);
    var a := new Event[|selected|](i requires 0 <= i < |selected| => selected[i]);
    assert a[..] == selected;
    SortInPlace(a, ByDeadlineUndatedLast);
    view := a[..];
    forall e
      ensures e in view <==> e in events && Allowed(mode, e)
    {
      FilteredEventsMembers(events, mode, e);
      assert e in view <==> e in multiset(view);
      assert e in selected <==> e in multiset(selected);
    }
  }

  // ----- cards and empty states -----

  /** A rendered list: the placeholder, or one card per event in order. */
  datatype ListPanel = EmptyState | Cards(cards: seq<Card>)

  function ListPanelOf(view: seq<Event>, now: int): (panel: ListPanel)
    ensures panel.EmptyState? <==> |view| == 0
    ensures panel.Cards? ==> |panel.cards| == |view|
    ensures panel.Cards? ==> forall i :: 0 <= i < |view| ==> panel.cards[i] == CardOf(view[i], now)
  {
    if |view| == 0 then EmptyState
    else Cards(seq(|view|, i requires 0 <= i < |view| => CardOf(view[i], now)))
  }

  // ----- the calendar feed -----

  /** The dated events, in cache order. */
  function Dated(events: seq<Event>): (dated: seq<Event>)
    ensures forall i :: 0 <= i < |dated| ==> dated[i].deadline.Some?
  {
    Filter(events, HasDeadline)
  }

  datatype CalendarEntry = CalendarEntry(
    title: string, start: int, end: int, color: string, eventId: string)

  /** The palette; the `|| '#3b82f6'` fallback is unreachable. */
  function StatusColor(st: Status): (color: string)
    ensures color == "#6b7280" <==> st == Done
  {
    match st
    case Safe => "#3b82f6"
    case Warn => "#f59e0b"
    case Urgent => "#ef4444"
    case Done => "#6b7280"
  }

  lemma StatusColorsDistinct(a: Status, b: Status)
    ensures StatusColor(a) == StatusColor(b) <==> a == b
  {
  }

  function CalendarEntryOf(e: Event, now: int): (c: CalendarEntry)
    requires e.deadline.Some?
    ensures c.eventId == e.id && c.start == e.timestamp && c.end == e.deadline.value
    ensures c.color == "#6b7280" <==> EventStatus(e, now) == Done
  {
    CalendarEntry(e.eventName, e.timestamp, e.deadline.value,
                  StatusColor(EventStatus(e, now)), e.id)
  }

  /** `getCalendarEvents`: one entry per dated event, in cache order. */
  function CalendarEvents(events: seq<Event>, now: int): (feed: seq<CalendarEntry>)
    ensures |feed| == |Dated(events)|
    ensures forall i :: 0 <= i < |feed| ==>
      var e := Dated(events)[i];
      && feed[i].eventId == e.id && feed[i].title == e.eventName
      && feed[i].start == e.timestamp && feed[i].end == e.deadline.value
      && feed[i].color == StatusColor(EventStatus(e, now))
  {
    var dated := Dated(events);
    seq(|dated|, i requires 0 <= i < |dated| => CalendarEntryOf(dated[i], now))
  }

  /** The feed holds an entry for every dated event and for nothing else; an
   *  entry is gray exactly when its event counts as done. */
  lemma CalendarFeedCoversDated(events: seq<Event>, now: int)
    ensures forall e :: e in events && e.deadline.Some? ==>
      CalendarEntryOf(e, now) in CalendarEvents(events, now)
    ensures forall c :: c in CalendarEvents(events, now) ==>
      exists e :: e in events && e.deadline.Some? && c == CalendarEntryOf(e, now)
    ensures forall c :: c in CalendarEvents(events, now) ==>
      (c.color == "#6b7280" <==> exists e :: e in events && e.deadline.Some? &&
                                   c == CalendarEntryOf(e, now) && EventStatus(e, now) == Done)
  {
    var dated := Dated(events);
    var feed := CalendarEvents(events, now);
    forall e | e in events && e.deadline.Some?
      ensures CalendarEntryOf(e, now) in feed
    {
      FilterKeeps(events, HasDeadline, e);
      var i :| 0 <= i < |dated| && dated[i] == e;
      assert feed[i] == CalendarEntryOf(e, now);
    }
    forall c | c in feed
      ensures exists e :: e in events && e.deadline.Some? && c == CalendarEntryOf(e, now)
    {
      var i :| 0 <= i < |feed| && feed[i] == c;
      assert dated[i] in dated;
    }
    forall c | c in feed
      ensures c.color == "#6b7280" <==> exists e :: e in events && e.deadline.Some? &&
                                          c == CalendarEntryOf(e, now) && EventStatus(e, now) == Done
    {
      var i :| 0 <= i < |feed| && feed[i] == c;
      assert dated[i] in dated;
      forall e: Event | e.deadline.Some? && c == CalendarEntryOf(e, now)
        ensures c.color == "#6b7280" <==> EventStatus(e, now) == Done
      {
        StatusColorsDistinct(EventStatus(e, now), Done);
      }
    }
  }

  // ----- the pending count -----

  /** `updateEventCount`: the number of events not marked done. */
  function ActiveCount(events: seq<Event>): (n: nat)
    ensures n <= |events|
  {
    |Filter(events, IsPending)|
  }

  /** Pending and done events together make up the whole list, and the count
   *  equals the length of the "active" list. */
  lemma {:induction false} ActiveCountSplit(events: seq<Event>)
    ensures ActiveCount(events) + |Filter(events, IsCompleted)| == |events|
    ensures ActiveCount(events) == |FilteredEvents(events, ShowActive)|
  {
    if events != [] {
      ActiveCountSplit(events[1..]);
    }
  }

  /** The count depends on the completion flags alone. */
  lemma {:induction false} ActiveCountFollowsFlags(s: seq<Event>, t: seq<Event>)
    requires |s| == |t|
    requires forall i :: 0 <= i < |s| ==> s[i].isDone == t[i].isDone
    ensures ActiveCount(s) == ActiveCount(t)
  {
    if s != [] {
      ActiveCountFollowsFlags(s[1..], t[1..]);
    }
  }
}
