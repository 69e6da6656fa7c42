/**
 * The side panel's in-memory event cache (`allEvents`) and the actions that
 * patch, shrink or replace it. Replies from the background process are
 * inputs: each action is given what `sendMessage` produced.
 */
module Cache {
  import opened Wrappers
  import opened Seqs
  import opened Events
  import opened Views

  /** `i` is where `find(e => e.id === id)` stops. */
  ghost predicate IsFirstWithId(events: seq<Event>, id: string, i: int)
  {
    0 <= i < |events| && events[i].id == id &&
    forall j :: 0 <= j < i ==> events[j].id != id
  }

  /** `Array.prototype.find` by id, as a position. */
  function FirstIndexOf(events: seq<Event>, id: string): (found: Option<nat>)
    ensures found.Some? ==> IsFirstWithId(events, id, found.value)
    ensures found.None? ==> forall j :: 0 <= j < |events| ==> events[j].id != id
  {
    if events == [] then None
    else if events[0].id == id then Some(0)
    else match FirstIndexOf(events[1..], id)
      case None => None
      case Some(i) => Some(i + 1)
  }

  /** The cache after `toggleStatus` succeeds: the first record with `id`
   *  gets the new flag. */
  function WithDone(events: seq<Event>, id: string, isDone: bool): (after: seq<Event>)
    ensures |after| == |events|
    ensures forall i :: 0 <= i < |after| ==> after[i].id == events[i].id
  {
    match FirstIndexOf(events, id)
    case None => events
    case Some(i) => events[i := events[i].(isDone := isDone)]
  }

  /** The cache after `saveMemo`: the first record with `id` gets the memo. */
  function WithMemo(events: seq<Event>, id: string, memo: string): (after: seq<Event>)
    ensures |after| == |events|
    ensures forall i :: 0 <= i < |after| ==> after[i].id == events[i].id
  {
    match FirstIndexOf(events, id)
    case None => events
    case Some(i) => events[i := events[i].(memo := memo)]
  }

  /** The filter callback `e => e.id !== id`. */
  function KeepOther(id: string): Event -> bool
  {
    (e: Event) => e.id != id
  }

  /** The cache after `deleteEvent` succeeds: every record with `id` is gone. */
  function WithoutId(events: seq<Event>, id: string): (rest: seq<Event>)
    ensures |rest| <= |events|
    ensures forall i :: 0 <= i < |rest| ==> rest[i].id != id
  {
    Filter(events, KeepOther(id))
  }

  /** Toggling changes the completion flag of the first record with `id` and
   *  nothing else: no other record, no other field. */
  lemma ToggleTouchesOnlyFirstMatch(events: seq<Event>, id: string, isDone: bool)
    ensures |WithDone(events, id, isDone)| == |events|
    ensures forall i :: 0 <= i < |events| ==>
      WithDone(events, id, isDone)[i] ==
        if IsFirstWithId(events, id, i) then events[i].(isDone := isDone) else events[i]
  {
  }

  /** Toggling a record and toggling it back restores the cache. */
  lemma ToggleTwiceRestores(events: seq<Event>, id: string, i: int)
    requires IsFirstWithId(events, id, i)
    ensures WithDone(WithDone(events, id, !events[i].isDone), id, events[i].isDone) == events
  {
    var once := WithDone(events, id, !events[i].isDone);
    assert IsFirstWithId(once, id, i);
    assert FirstIndexOf(once, id) == Some(i) by {
      var f := FirstIndexOf(once, id);
      assert f.Some?;
      assert !(f.value < i) && !(i < f.value);
    }
  }

  /** The pending count moves by one exactly when the flag really changes. */
  lemma ToggleCountEffect(events: seq<Event>, id: string, isDone: bool, i: int)
    requires IsFirstWithId(events, id, i)
    ensures ActiveCount(WithDone(events, id, isDone)) ==
      ActiveCount(events) + (if events[i].isDone == isDone then 0
                             else if isDone then -1 else 1)
  {
    var after := WithDone(events, id, isDone);
    assert FirstIndexOf(events, id) == Some(i) by {
      var f := FirstIndexOf(events, id);
      assert !(f.value < i) && !(i < f.value);
    }
    assert events == events[..i] + [events[i]] + events[i + 1..];
    assert after == events[..i] + [after[i]] + events[i + 1..];
    FilterAppend(events[..i] + [events[i]], events[i + 1..], IsPending);
    FilterAppend(events[..i], [events[i]], IsPending);
    FilterAppend(events[..i] + [after[i]], events[i + 1..], IsPending);
    FilterAppend(events[..i], [after[i]], IsPending);
  }

  /** Saving a memo changes the memo of the first record with `id` and
   *  nothing else. */
  lemma MemoTouchesOnlyFirstMatch(events: seq<Event>, id: string, memo: string)
    ensures |WithMemo(events, id, memo)| == |events|
    ensures forall i :: 0 <= i < |events| ==>
      WithMemo(events, id, memo)[i] ==
        if IsFirstWithId(events, id, i) then events[i].(memo := memo) else events[i]
  {
  }

  /** A memo takes no part in any view: statuses and the pending count stay. */
  lemma MemoLeavesStatusAlone(events: seq<Event>, id: string, memo: string, now: int)
    ensures forall i :: 0 <= i < |events| ==>
      EventStatus(WithMemo(events, id, memo)[i], now) == EventStatus(events[i], now)
    ensures ActiveCount(WithMemo(events, id, memo)) == ActiveCount(events)
  {
    var after := WithMemo(events, id, memo);
    MemoTouchesOnlyFirstMatch(events, id, memo);
    ActiveCountFollowsFlags(after, events);
  }

  /** Deleting keeps exactly the records with another id. */
  lemma DeleteKeepsOthers(events: seq<Event>, id: string)
    ensures forall e :: e in WithoutId(events, id) <==> e in events && e.id != id
  {
    forall e | e in events && e.id != id
      ensures e in WithoutId(events, id)
    {
      FilterKeeps(events, KeepOther(id), e);
    }
  }

  /** Deleting keeps the relative order of what remains: it works piecewise
   *  over any split of the list, and leaves a list without `id` as it is. */
  lemma DeleteKeepsOrder(s: seq<Event>, t: seq<Event>, id: string)
    ensures WithoutId(s + t, id) == WithoutId(s, id) + WithoutId(t, id)
    ensures (forall i :: 0 <= i < |s| ==> s[i].id != id) ==> WithoutId(s, id) == s
  {
    FilterAppend(s, t, KeepOther(id));
    if forall i :: 0 <= i < |s| ==> s[i].id != id {
      FilterAllPass(s, KeepOther(id));
    }
  }

  /** Deleting the same id twice is deleting it once. */
  lemma DeleteIdempotent(events: seq<Event>, id: string)
    ensures WithoutId(WithoutId(events, id), id) == WithoutId(events, id)
  {
    var once := WithoutId(events, id);
    FilterAllPass(once, KeepOther(id));
  }

  /** What `sendMessage` produced: it threw, resolved to nothing, or resolved
   *  to a response with a `success` flag and a payload. */
  datatype Reply<T> = Threw | NoResponse | Responded(success: bool, payload: T)
  {
    /** `response && response.success` */
    predicate Succeeded() { Responded? && success }
  }

  /** A message pushed by the background process. */
  datatype Message = EventUpdated(data: seq<Event>) | OtherMessage(kind: string)

  /** Whether an awaited storage write completed or threw. */
  datatype Completion = Completed | Failed

  class EventCache {
    var events: seq<Event>   // allEvents
    var filter: FilterMode   // currentFilter

    constructor ()
      ensures events == [] && filter == ShowActive
    {
      events := [];
      filter := ShowActive;
    }

    /** The `EVENT_UPDATED` listener replaces the cache; other messages are ignored. */
    method OnMessage(msg: Message)
      modifies this
      ensures events == (if msg.EventUpdated? then msg.data else old(events))
      ensures filter == old(filter)
    {
      if msg.EventUpdated? {
        events := msg.data;
      }
    }

    /** `loadEvents`: a successful `GET_EVENTS` reply replaces the cache. */
    method LoadEvents(reply: Reply<seq<Event>>)
      modifies this
      ensures events == (if reply.Succeeded() then reply.payload else old(events))
      ensures filter == old(filter)
    {
      if reply.Succeeded() {
        events := reply.payload;
      }
    }

    /** `toggleStatus`: on a successful reply, set the flag of the first
     *  record with `id`; otherwise leave the cache alone. */
    method ToggleStatus(id: string, isDone: bool, reply: Reply<()>)
      modifies this
      ensures events == (if reply.Succeeded() then WithDone(old(events), id, isDone)
                         else old(events))
      ensures filter == old(filter)
    {
      if reply.Succeeded() {
        var found := FirstIndexOf(events, id);
        if found.Some? {
          var i := found.value;
          events := events[i := events[i].(isDone := isDone)];
        }
      }
    }

    /** `saveMemo`: unless sending threw, set the memo of the first record
     *  with `id`, whatever the reply says. */
    method SaveMemo(id: string, memo: string, reply: Reply<()>)
      modifies this
      ensures events == (if reply.Threw? then old(events) else WithMemo(old(events), id, memo))
      ensures filter == old(filter)
    {
      if !reply.Threw? {
        var found := FirstIndexOf(events, id);
        if found.Some? {
          var i := found.value;
          events := events[i := events[i].(memo := memo)];
        }
      }
    }

    /** `deleteEvent`: on a successful reply, drop every record with `id`. */
    method DeleteEvent(id: string, reply: Reply<()>)
      modifies this
      ensures events == (if reply.Succeeded() then WithoutId(old(events), id) else old(events))
      ensures filter == old(filter)
    {
      if reply.Succeeded() {
        events := WithoutId(events, id);
      }
    }

    /** The reset button: once confirmed and once the stored list has been
     *  cleared, empty the cache. */
    method Reset(confirmed: bool, storage: Completion)
      modifies this
      ensures events == (if confirmed && storage == Completed then [] else old(events))
      ensures filter == old(filter)
    {
      if confirmed && storage == Completed {
        events := [];
      }
    }

    /** A filter button selects the mode of the "all" list. */
    method SetFilter(mode: FilterMode)
      modifies this
      ensures filter == mode && events == old(events)
    {
      filter := mode;
    }
  }
}
