/**
 * The event record, its status classifier and the per-card texts derived from
 * it. Instants are integer milliseconds; the current instant is always passed
 * in as `now` rather than read from a clock.
 */
module Events {
  import opened Wrappers

  const HOUR: int := 3_600_000
  const DAY: int := 86_400_000

  /** An event as the background process delivers it. Empty strings for
   *  `deadline` and `postUrl` count as absent, as they are falsy. */
  datatype Event = Event(
    id: string,
    eventName: string,
    timestamp: int,
    deadline: Option<int>,
    isDone: bool,
    hashtags: seq<string>,
    rules: seq<string>,
    memo: string,
    images: seq<string>,
    postUrl: Option<string>)

  predicate HasDeadline(e: Event) { e.deadline.Some? }

  predicate IsPending(e: Event) { !e.isDone }

  predicate IsCompleted(e: Event) { e.isDone }

  datatype Status = Safe | Warn | Urgent | Done

  /** Status of `e` at instant `now`: completion first, then the hours left. */
  function EventStatus(e: Event, now: int): (st: Status)
    ensures st == Done <==> e.isDone || (e.deadline.Some? && e.deadline.value <= now)
  {
    if e.isDone then Done
    else if e.deadline.None? then Safe
    else
      var diffMs := e.deadline.value - now;
      if diffMs <= 0 then Done
      else if diffMs <= 24 * HOUR then Urgent
      else if diffMs <= 72 * HOUR then Warn
      else Safe
  }

  /** Each status bucket, described by the hours remaining until the deadline. */
  lemma StatusThresholds(e: Event, now: int)
    ensures e.isDone ==> EventStatus(e, now) == Done
    ensures !e.isDone && e.deadline.None? ==> EventStatus(e, now) == Safe
    ensures !e.isDone && e.deadline.Some? ==>
      var left := e.deadline.value - now;
      && (EventStatus(e, now) == Done <==> left <= 0)
      && (EventStatus(e, now) == Urgent <==> 0 < left <= 24 * HOUR)
      && (EventStatus(e, now) == Warn <==> 24 * HOUR < left <= 72 * HOUR)
      && (EventStatus(e, now) == Safe <==> 72 * HOUR < left)
  {
  }

  /** The exact boundaries fall into the tighter bucket; one millisecond more
   *  moves to the next. */
  lemma StatusBoundaries(e: Event, now: int)
    requires !e.isDone && e.deadline.Some?
    ensures e.deadline.value == now ==> EventStatus(e, now) == Done
    ensures e.deadline.value == now + 1 ==> EventStatus(e, now) == Urgent
    ensures e.deadline.value == now + 24 * HOUR ==> EventStatus(e, now) == Urgent
    ensures e.deadline.value == now + 24 * HOUR + 1 ==> EventStatus(e, now) == Warn
    ensures e.deadline.value == now + 72 * HOUR ==> EventStatus(e, now) == Warn
    ensures e.deadline.value == now + 72 * HOUR + 1 ==> EventStatus(e, now) == Safe
  {
  }

  /** How far along the path safe, warn, urgent, done a status is. */
  function Stage(st: Status): nat
  {
    match st
    case Safe => 0
    case Warn => 1
    case Urgent => 2
    case Done => 3
  }

  /** As time passes a status never moves back towards `Safe`. */
  lemma StatusMonotoneInTime(e: Event, earlier: int, later: int)
    requires earlier <= later
    ensures Stage(EventStatus(e, earlier)) <= Stage(EventStatus(e, later))
  {
  }

  /** The badge text of a status; the switch's empty default is unreachable. */
  function StatusLabel(st: Status): (text: string)
    ensures text != ""
  {
    match st
    case Safe => "余裕あり"
    case Warn => "期限間近"
    case Urgent => "24h以内"
    case Done => "済"
  }

  lemma StatusLabelsDistinct(a: Status, b: Status)
    ensures StatusLabel(a) == StatusLabel(b) <==> a == b
  {
  }

  /** Whole days until `deadline`, rounded up (`Math.ceil`); None without one. */
  function DaysUntil(deadline: Option<int>, now: int): (days: Option<int>)
    ensures days.None? <==> deadline.None?
    ensures days.Some? ==> (days.value - 1) * DAY < deadline.value - now <= days.value * DAY
  {
    match deadline
    case None => None
    case Some(d) => Some(-((now - d) / DAY))
  }

  /** The remaining-days text of a card: "あと{days}日", "今日まで",
   *  "期限切れ", or nothing. */
  datatype DaysText = NoDaysText | DaysLeft(days: int) | DueToday | Overdue

  function CardDaysText(e: Event, now: int): (t: DaysText)
    ensures t == NoDaysText <==> e.isDone || e.deadline.None?
  {
    match DaysUntil(e.deadline, now)
    case None => NoDaysText
    case Some(d) =>
      if e.isDone then NoDaysText
      else if d > 0 then DaysLeft(d)
      else if d == 0 then DueToday
      else Overdue
  }

  /** What each text says about the deadline, in milliseconds from `now`. */
  lemma DaysTextMeaning(e: Event, now: int)
    ensures CardDaysText(e, now) == NoDaysText <==> e.isDone || e.deadline.None?
    ensures !e.isDone && e.deadline.Some? ==>
      var left := e.deadline.value - now;
      var t := CardDaysText(e, now);
      && (t.DaysLeft? <==> left > 0)
      && (t.DaysLeft? ==> (t.days - 1) * DAY < left <= t.days * DAY)
      && (t == DueToday <==> -DAY < left <= 0)
      && (t == Overdue <==> left <= -DAY)
  {
  }

  /** The days text and the status badge of a pending dated card agree:
   *  one day left is urgent, two or three warn, four or more safe, and
   *  "due today" or "overdue" means the deadline has passed. */
  lemma DaysTextAgreesWithStatus(e: Event, now: int)
    requires !e.isDone && e.deadline.Some?
    ensures EventStatus(e, now) == Urgent <==> CardDaysText(e, now) == DaysLeft(1)
    ensures EventStatus(e, now) == Warn <==>
      CardDaysText(e, now) == DaysLeft(2) || CardDaysText(e, now) == DaysLeft(3)
    ensures EventStatus(e, now) == Safe <==>
      CardDaysText(e, now).DaysLeft? && CardDaysText(e, now).days >= 4
    ensures EventStatus(e, now) == Done <==>
      CardDaysText(e, now) == DueToday || CardDaysText(e, now) == Overdue
  {
    DaysTextMeaning(e, now);
  }

  /** The data a card shows, without its markup. */
  datatype Card = Card(
    id: string,
    eventName: string,
    isDone: bool,
    status: Status,
    statusLabel: string,
    deadline: Option<int>,
    daysText: DaysText,
    hashtags: seq<string>)

  function CardOf(e: Event, now: int): (c: Card)
    ensures c.id == e.id && c.isDone == e.isDone && c.deadline == e.deadline
    ensures c.statusLabel == StatusLabel(c.status) && c.status == EventStatus(e, now)
    ensures c.daysText == CardDaysText(e, now)
    ensures c.daysText != NoDaysText <==> !e.isDone && e.deadline.Some?
  {
    var status := EventStatus(e, now);
    DaysTextMeaning(e, now);
    Card(e.id, e.eventName, e.isDone, status, StatusLabel(status),
         e.deadline, CardDaysText(e, now), e.hashtags)
  }
}
