# ArtEventManager side panel: event cache and derived views

This project models the side panel of the ArtEventManager browser extension
(`ArtEventManager/sidepanel.js`). The model covers the panel's in-memory event
cache (`allEvents`), the status classifier, and the views derived from the
cache: the "today" list, the filtered "all" list, the calendar feed, the
pending count, the days-remaining text of a card, and the integer part of the
Gantt layout. It also covers the actions that patch, shrink or replace the
cache.

Conventions:

- Instants are integer milliseconds. Wherever the code reads `new Date()`, the
  model takes the current instant as a parameter `now`. The code reads the
  clock several times within one render: `renderTodayEvents` reads it for
  today's midnight (line 295), and `getEventStatus` reads it again on every
  comparator call (330-331) and for every card (230). The model uses one
  instant for all the clock reads of a render.
- A calendar day is `t - t % DAY`. This is a clock with a fixed offset: time
  zones and daylight-saving changes are not modelled.
- A missing or empty `deadline` (or `postUrl`) is `None`.
- The replies of `chrome.runtime.sendMessage` are inputs to the cache methods
  (`Reply<T>`): the call threw, it resolved to nothing, or it resolved to a
  response with a `success` flag.
- `Array.prototype.sort` is modelled as a stable in-place insertion sort
  (`Ordering.SortInPlace`), driven by the same comparators the code passes
  (`Ordering.Compare`). Each comparator is proved to order like a
  lexicographic key. Stability means that every group of elements that compare
  equal keeps its input order (`Ordering.StablePermutation`).
- The views copy the list before sorting, as the code does. They take the
  cached list as an argument and never change it.

Modules, one file each:

- `Wrappers` (Option)
- `Seqs` (filter)
- `Events` (record, classifier, card texts)
- `Ordering` (comparators and sort)
- `Views` ("today", "all", calendar, count)
- `Gantt`
- `Cache` (the `EventCache` class and the functions that specify its actions)

## Model

| member | source | states |
|---|---|---|
| `Events.EventStatus` | ArtEventManager/sidepanel.js:182-195 | `done` iff the event is marked done or its deadline is not after `now`. The other buckets are stated by `StatusThresholds`. |
| `Events.StatusThresholds` | ArtEventManager/sidepanel.js:182-195 | A done event is `done` whatever its deadline. A pending undated event is `safe`. Otherwise, with `left` ms to the deadline: `done` iff left <= 0, `urgent` iff 0 < left <= 24 h, `warn` iff 24 h < left <= 72 h, `safe` iff left > 72 h. |
| `Events.StatusBoundaries` | ArtEventManager/sidepanel.js:191-194 | Each boundary (0, 24 h, 72 h) falls into the tighter bucket. One millisecond later gives the next bucket. |
| `Events.StatusMonotoneInTime` | ArtEventManager/sidepanel.js:186-194 | As `now` grows, a status only moves along safe, warn, urgent, done. It never moves back. |
| `Events.StatusLabel` | ArtEventManager/sidepanel.js:197-205 | Every status has a non-empty label, so the empty default is unreachable. |
| `Events.StatusLabelsDistinct` | ArtEventManager/sidepanel.js:197-205 | Two statuses have the same label only if they are the same status. |
| `Events.DaysUntil` | ArtEventManager/sidepanel.js:220-226 | `None` exactly when there is no deadline. Otherwise it is the ceiling of the days left: (d-1)·DAY < deadline-now <= d·DAY. |
| `Events.CardDaysText` | ArtEventManager/sidepanel.js:232-238 | There is no text exactly when the event is done or has no deadline. The meaning of each text is stated by `DaysTextMeaning`. |
| `Events.DaysTextMeaning` | ArtEventManager/sidepanel.js:232-238 | There is no text iff the event is done or undated. For a pending dated event, "あと{d}日" is shown iff the deadline is still ahead (d its ceiling day count), "今日まで" iff it passed less than a day ago, and "期限切れ" iff it passed a day or more ago. |
| `Events.DaysTextAgreesWithStatus` | ArtEventManager/sidepanel.js:229-238 | For a pending dated card: `urgent` iff "あと1日"; `warn` iff 2 or 3 days; `safe` iff 4 or more days; `done` iff "今日まで" or "期限切れ". |
| `Events.CardOf` | ArtEventManager/sidepanel.js:229-261 | A card shows its event's id, flag and deadline, its status and that status's label. Its days text is `CardDaysText` of the event, so `DaysTextMeaning` and `DaysTextAgreesWithStatus` describe what the card shows. It has a days text iff the event is pending and dated. |
| `Ordering.Priority` | ArtEventManager/sidepanel.js:328 | Every status has a priority between 0 and 3. `PriorityOrder` states their order. |
| `Ordering.PriorityOrder` | ArtEventManager/sidepanel.js:328-332 | The "today" priorities order urgent < warn < safe < done and are pairwise distinct. The `?? 2` fallback is never used. |
| `Ordering.Compare` | ArtEventManager/sidepanel.js:329-333 | Each comparator (today: 329-333, all: 353-358, Gantt: 503) returns 0 exactly when the two events have equal sort keys, that is, when a stable sort must keep their order. |
| `Ordering.CompareAgreesWithKey` | ArtEventManager/sidepanel.js:353-358 | Each comparator (today: 329-333, all: 353-358, Gantt: 503) is <= 0 iff the key order holds. It is 0 iff the keys are equal, and it is antisymmetric. |
| `Ordering.SortInPlace` | ArtEventManager/sidepanel.js:353-358 | After the in-place sort the array is in comparator order. It is a permutation of the input, and elements that compare equal keep their input order. |
| `Views.DayStart` | ArtEventManager/sidepanel.js:296 | `setHours(0, 0, 0, 0)` gives a midnight at or before the instant, less than a day earlier. |
| `Views.DayEnd` | ArtEventManager/sidepanel.js:306 | `setHours(23, 59, 59, 999)` gives the last millisecond of the instant's day: at or after it, less than a day later. |
| `Views.ShownToday` | ArtEventManager/sidepanel.js:298-312 | An undated event is always shown. Dated events are described by `ShownTodayByDay`. |
| `Views.TodayEvents` | ArtEventManager/sidepanel.js:298-312 | The selection is no longer than the cache, and every selected event is shown today. `TodayEventsMembers` gives the converse. |
| `Views.ShownTodayByDay` | ArtEventManager/sidepanel.js:295-311 | The midnight / 23:59:59.999 comparison holds iff the event is undated or day(timestamp) <= day(now) <= day(deadline). |
| `Views.NotShownOutsideInterval` | ArtEventManager/sidepanel.js:304-308 | A dated event that starts on a later day, or is due on an earlier day, is not in "today". |
| `Views.TodayEventsMembers` | ArtEventManager/sidepanel.js:298-312 | An event is selected for "today" iff it is cached and is undated or spans today's day. Done events are not filtered out. |
| `Views.RenderTodayEvents` | ArtEventManager/sidepanel.js:294-335 | The list holds exactly the cached events shown today, as a stable permutation. It is in priority order urgent, warn, safe, done. |
| `Views.FilteredEvents` | ArtEventManager/sidepanel.js:340-350 | Every kept event is allowed by the mode, and `all` keeps the list unchanged. |
| `Views.FilteredEventsMembers` | ArtEventManager/sidepanel.js:340-350 | `active` keeps exactly the pending events, `done` exactly the done ones, and `all` everything. |
| `Views.RenderAllEvents` | ArtEventManager/sidepanel.js:339-374 | The list holds exactly the events the filter allows, as a stable permutation of the filtered list. Dated events are in non-decreasing deadline order, and every undated event comes after every dated one. |
| `Views.ListPanelOf` | ArtEventManager/sidepanel.js:314-335 | An empty list shows the placeholder. Otherwise the i-th card is `CardOf` the i-th event. |
| `Views.Dated` | ArtEventManager/sidepanel.js:406 | Every element of the dated selection has a deadline. |
| `Views.StatusColorsDistinct` | ArtEventManager/sidepanel.js:409-414 | The four palette colours are pairwise distinct, so the fallback colour is never needed. |
| `Views.StatusColor` | ArtEventManager/sidepanel.js:409-414 | The colour is gray exactly for the `done` status. |
| `Views.CalendarEntryOf` | ArtEventManager/sidepanel.js:416-421 | An entry carries the event's id, starts at its timestamp, ends at its deadline, and is gray iff the event is `done`. |
| `Views.CalendarEvents` | ArtEventManager/sidepanel.js:404-424 | There is one entry per dated event, in cache order. Each entry has title = name, start = timestamp, end = deadline, the status colour and the event id. |
| `Views.CalendarFeedCoversDated` | ArtEventManager/sidepanel.js:404-424 | Every dated event has its entry, and every entry comes from a dated event. An entry is gray iff its event is `done`. |
| `Views.ActiveCount` | ArtEventManager/sidepanel.js:169-172 | The count is at most the number of cached events. |
| `Views.ActiveCountSplit` | ArtEventManager/sidepanel.js:169-171 | Pending count + done count = list length. The pending count equals the length of the `active` list. |
| `Views.ActiveCountFollowsFlags` | ArtEventManager/sidepanel.js:170 | The count depends only on the `isDone` flags, position by position. |
| `Gantt.Instants` | ArtEventManager/sidepanel.js:487-490 | There are two instants per dated event. `InstantsHasBothEnds` shows they are its timestamp and deadline. |
| `Gantt.MinOf` | ArtEventManager/sidepanel.js:493 | `Math.min` over the instants returns one of them, and it is <= all of them. |
| `Gantt.MaxOf` | ArtEventManager/sidepanel.js:494 | `Math.max` over the instants returns one of them, and it is >= all of them. |
| `Gantt.PaddedRange` | ArtEventManager/sidepanel.js:486-498 | The range starts one day before the earliest instant and ends three days after the latest. "Now" and every timestamp and deadline are inside it. |
| `Gantt.RowsByDeadline` | ArtEventManager/sidepanel.js:503 | Rows sorted by the Gantt comparator are in non-decreasing deadline order. |
| `Gantt.BarOf` | ArtEventManager/sidepanel.js:506-512 | A bar has a non-negative start offset and lasts at least one day. When the event starts inside the range, the bar reaches the event's deadline. |
| `Gantt.BarsOfCoveredRows` | ArtEventManager/sidepanel.js:506-512 | Each bar starts at least one day into the range, so the `Math.max(0, …)` clamp never fires. Each bar lasts `max(DAY, deadline - timestamp)`, so at least one day, and it reaches its deadline. Each bar ends at least two days before the range ends. |
| `Gantt.RenderGanttChart` | ArtEventManager/sidepanel.js:470-512 | With no dated event it shows the placeholder. Otherwise: the padded range (exact: one instant on each padded edge) covers "now" and every bar end; every bar lasts `max(DAY, deadline - timestamp)`; `totalDays` is the ceiling of the span in days and is at least 4; rows are a stable permutation of the dated events, sorted by deadline; every bar fits; the "today" offset lies inside the range. |
| `Cache.FirstIndexOf` | ArtEventManager/sidepanel.js:689 | It finds the position of the first record with the id, or `None` when no record has it. |
| `Cache.WithDone` | ArtEventManager/sidepanel.js:689-690 | The list keeps its length and the id at every position. `ToggleTouchesOnlyFirstMatch` states what changes. |
| `Cache.ToggleTouchesOnlyFirstMatch` | ArtEventManager/sidepanel.js:688-690 | The toggle changes only `isDone` of the first record with the id. Every other record and field is unchanged. |
| `Cache.ToggleTwiceRestores` | ArtEventManager/sidepanel.js:689-690 | Setting the flag of the first match to its negation and back restores the cache. |
| `Cache.ToggleCountEffect` | ArtEventManager/sidepanel.js:689-691 | After a toggle the pending count goes down by 1 when an event is marked done, up by 1 when it is reopened, and stays the same when the flag is unchanged. |
| `Cache.WithMemo` | ArtEventManager/sidepanel.js:704-705 | The list keeps its length and the id at every position. `MemoTouchesOnlyFirstMatch` states what changes. |
| `Cache.MemoTouchesOnlyFirstMatch` | ArtEventManager/sidepanel.js:704-705 | A memo save changes only `memo` of the first record with the id. |
| `Cache.MemoLeavesStatusAlone` | ArtEventManager/sidepanel.js:704-705 | Saving a memo changes no status and not the pending count. |
| `Cache.WithoutId` | ArtEventManager/sidepanel.js:718 | No remaining record has the id, and the list does not grow. |
| `Cache.DeleteKeepsOthers` | ArtEventManager/sidepanel.js:718 | After a delete, a record remains iff it was cached and has another id. |
| `Cache.DeleteKeepsOrder` | ArtEventManager/sidepanel.js:718 | Delete distributes over concatenation and leaves a list without the id unchanged, so the remaining records keep their relative order. |
| `Cache.DeleteIdempotent` | ArtEventManager/sidepanel.js:718 | Deleting the same id twice is the same as deleting it once. |
| `Cache.EventCache.constructor` | ArtEventManager/sidepanel.js:7-8 | The cache starts empty with the `active` filter. |
| `Cache.EventCache.OnMessage` | ArtEventManager/sidepanel.js:139-144 | `EVENT_UPDATED` replaces the list. Other messages change nothing. |
| `Cache.EventCache.LoadEvents` | ArtEventManager/sidepanel.js:147-157 | A successful `GET_EVENTS` reply replaces the list. A failed reply, no reply or an exception changes nothing. |
| `Cache.EventCache.ToggleStatus` | ArtEventManager/sidepanel.js:682-696 | On a successful reply the list becomes `WithDone`, which changes the first match only. Otherwise it is unchanged. |
| `Cache.EventCache.SaveMemo` | ArtEventManager/sidepanel.js:698-709 | Unless sending threw, the list becomes `WithMemo`, with `success` not checked. If sending threw, it is unchanged. |
| `Cache.EventCache.DeleteEvent` | ArtEventManager/sidepanel.js:711-724 | On a successful reply the list becomes `WithoutId`. Otherwise it is unchanged. |
| `Cache.EventCache.Reset` | ArtEventManager/sidepanel.js:774-788 | The list is emptied only if the user confirmed and the storage write completed. |
| `Cache.EventCache.SetFilter` | ArtEventManager/sidepanel.js:754-764 | The filter takes the chosen mode, and the list is unchanged. |

`saveMemo` (sidepanel.js:698-709) updates the cache whenever sending does
not throw, even when the reply reports failure. `Cache.EventCache.SaveMemo`
does the same.

## Left out

- DOM and markup: card and modal HTML, tabs, filter-button styling, theme handling, `escapeHtml`, `updateTodayDate`, `openEventDetail` and `closeModal`. `Events.CardOf` keeps only the data a card shows.
- Extension runtime: `chrome.runtime.sendMessage`, `connect` and `chrome.storage`. Their outcomes are parameters (`Reply`, `Completion`, and the `confirmed` flag of `Reset` for the `confirm` dialog).
- Calendar and diagram widgets (`initCalendar`, `updateCalendar`, `initMermaid`): they are foreign libraries. Only the feed they receive (`Views.CalendarEvents`) is modelled.
- The URL collection flow (`setupUrlCollection`): its busy state and status text are UI. Its only effect on the cache is a reload, which `Cache.EventCache.LoadEvents` models.
- Re-rendering after an action (`renderAll`): the views are functions of the cached list, so each one can be recomputed from the new list.
- Timers (`setTimeout` status clearing, calendar resize) and overlapping or stale asynchronous replies: each action is modelled as one atomic step on the cache.
- Floating point in the Gantt layout: the percentages, the day-valued offsets and the date labels. Offsets and durations are kept in exact milliseconds. `Math.max(1, days)` becomes `max(DAY, ms)`.
- Time zones and daylight saving: `setHours` and `setDate(±n)` are modelled on a fixed-offset clock (±n·DAY).
- Date strings that do not parse (`NaN` instants): every deadline and timestamp is assumed to be a valid instant.
- Aliasing of event objects: records are values, and an in-place field write is a sequence update at the position `find` returns.
- A `currentFilter` value other than `active`, `done` or `all`: the switch lets it fall through to the unfiltered list, which is `ShowAll`.
- `Ordering.SortInPlace`: the exact algorithm of `Array.prototype.sort` is not modelled, only the result a stable sort must produce.
- `Gantt.RenderGanttChart`: its comparator is total only on dated events. For an undated event the model uses deadline 0, but no undated event ever reaches it.
