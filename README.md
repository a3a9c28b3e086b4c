# Appointment slots, food cart and API-key check, modelled in Dafny

This project models the logic of two conversational-agent webhook backends.

The **appointment scheduler** proposes meeting slots. Each working day's hours,
given as a weekday map, are cut into slots of `MEETING_TIME` (30) minutes. Each
slot is tested against the busy intervals the calendar returns. A slot conflicts
with a busy interval when `slot_start < busy_end and slot_end > busy_start`. The
free slots are collected in time order, and at most four of them are picked at
random. The scheduler does this in two places:

- `get_free_slots_for_day` searches one day and keeps a slot only if it ends by
  closing time.
- `get_random_free_slots` searches seven days and keeps every slot that starts
  before closing time.

The scheduler also has three smaller pieces:

- `is_slot_free` asks the calendar about one exact slot.
- `create_event` books that slot.
- `append_to_google_sheet` writes a record as a row lined up with the sheet's
  header row.

The **food-ordering agent** keeps a cart of `{food_item, quantity, price}`
entries in the session parameters. One handler adds a menu item, one removes a
quantity and drops entries left at zero, and one prints a numbered summary with
line amounts and a total.

Both backends check the `X-API-Key` header before handling a request.

How the model represents things:

- Instants are whole minutes in one zone. Day `d` counts days from a Monday.
- Working hours map a `Weekday` to opening and closing minutes.
- Busy intervals are a `seq<Interval>`.
- The calendar query, the menu lookup and the random source are parameters.
- The handlers are methods over values that return a `WebhookResponse`, or a
  `MissingParameter` failure where the source would raise a `KeyError`.

Files:

- `calendar_apis.dfy`: the slot engine, the exact-slot check, the booked window
  and the sheet row.
- `api_key.dfy`: the header check.
- `order_cart.dfy`: the cart and reply types.
- `check_item_availability.dfy`, `remove_item.dfy`, `show_summary.dfy`: the
  three cart handlers.
- `seqs.dfy`, `decimal.dfy`, `wrappers.dfy`: sequence, number-formatting and
  option/result helpers.

Three behaviours of the code are easy to miss:

- Both slot searches sample at random. Neither returns the full list in a
  fixed order.
- The weekly search's last slot of a day can run past closing time.
- Working hours with start at or after end raise no error. They just give no
  slots.

## Model

| member | source | states |
|---|---|---|
| CalendarApis.SlotFreeAgainst | Appointment-Scheduler-Agent/src/calendar_utils/calendar_apis.py:105-113 | the busy loop with its early `break` answers free exactly when no busy interval meets the overlap rule |
| CalendarApis.ConflictsIffShareMinute | Appointment-Scheduler-Agent/src/calendar_utils/calendar_apis.py:111-113 | for non-empty intervals the overlap rule holds iff some minute lies in both half-open intervals |
| CalendarApis.TouchingIsNoConflict | Appointment-Scheduler-Agent/src/calendar_utils/calendar_apis.py:262-264 | a busy interval that only touches a slot, before or after, does not conflict; overlapping by one minute does |
| CalendarApis.CandidateAt | Appointment-Scheduler-Agent/src/calendar_utils/calendar_apis.py:253-269 | the k-th visited slot starts at `start_of_day + k*MEETING_TIME` and satisfies the loop condition (so ends by `end_of_day` in the one-day search) |
| CalendarApis.CandidatesComplete | Appointment-Scheduler-Agent/src/calendar_utils/calendar_apis.py:253-269 | every grid point after opening that satisfies the loop condition is visited |
| CalendarApis.CandidatesSpaced | Appointment-Scheduler-Agent/src/calendar_utils/calendar_apis.py:253-269 | visited slot starts are at least MEETING_TIME apart, in increasing order |
| CalendarApis.SpacedSlotsDisjoint | Appointment-Scheduler-Agent/src/calendar_utils/calendar_apis.py:253-269 | such starts are strictly increasing, distinct, and their slots are pairwise disjoint |
| CalendarApis.CandidatesCount | Appointment-Scheduler-Agent/src/calendar_utils/calendar_apis.py:253-269 | the one-day search visits `(end - start) / MEETING_TIME` slots |
| CalendarApis.BoundsAgreeWhenDivisible | Appointment-Scheduler-Agent/src/calendar_utils/calendar_apis.py:101-118 | when MEETING_TIME divides the window, both loop conditions visit the same slots |
| CalendarApis.StartBeforeEndOverruns | Appointment-Scheduler-Agent/src/calendar_utils/calendar_apis.py:101-104 | otherwise the weekly loop visits one slot more, and that slot ends after closing time |
| CalendarApis.OverrunExample | Appointment-Scheduler-Agent/src/calendar_utils/calendar_apis.py:101 | hours 9:00-9:45: the one-day loop visits 9:00 only, the weekly loop 9:00 and 9:30 |
| CalendarApis.FreeAmongExactly | Appointment-Scheduler-Agent/src/calendar_utils/calendar_apis.py:257-267 | the pre-sample free list holds exactly the visited starts whose slot conflicts with no busy interval |
| CalendarApis.FreeAmongIsSubsequence | Appointment-Scheduler-Agent/src/calendar_utils/calendar_apis.py:252-269 | the free list keeps the visiting order |
| CalendarApis.FreeAmongSpaced | Appointment-Scheduler-Agent/src/calendar_utils/calendar_apis.py:252-269 | the free list is chronological with slots at least MEETING_TIME apart |
| CalendarApis.DayCandidatesExactly | Appointment-Scheduler-Agent/src/calendar_utils/calendar_apis.py:212-256 | a one-day slot is visited iff its weekday is open and it lies on the grid within the working window |
| CalendarApis.DayCandidatesInDay | Appointment-Scheduler-Agent/src/calendar_utils/calendar_apis.py:83-101 | with hours inside the day, every weekly slot of a day starts during that day |
| CalendarApis.DefaultHoursValid | Appointment-Scheduler-Agent/src/calendar_utils/calendar_apis.py:14-19 | the default hours lie inside the day |
| CalendarApis.DefaultHoursNoOverrun | Appointment-Scheduler-Agent/src/calendar_utils/calendar_apis.py:14-19 | with the default 9:00-20:00 hours both loops visit the same slots every day |
| CalendarApis.NineToTenHasTwoSlots | Appointment-Scheduler-Agent/src/calendar_utils/calendar_apis.py:252-269 | hours 9:00-10:00 and no busy interval give the free list 9:00, 9:30 |
| CalendarApis.FridayIsClosed | Appointment-Scheduler-Agent/src/calendar_utils/calendar_apis.py:214-216 | a Friday has no slots under the default hours |
| CalendarApis.CollectFreeSlots | Appointment-Scheduler-Agent/src/calendar_utils/calendar_apis.py:252-269 | the slot loop returns the free list of the visited slots, for either loop condition |
| CalendarApis.Sample | Appointment-Scheduler-Agent/src/calendar_utils/calendar_apis.py:271 | the sample has `min(k, n)` elements, is a sub-multiset of the population, and is duplicate-free when the population is |
| CalendarApis.FreeSlotsForDay | Appointment-Scheduler-Agent/src/calendar_utils/calendar_apis.py:199-272 | a closed weekday gives `[]`; otherwise `min(4, n)` distinct free slots from the day's free list, each free and on the grid within working hours |
| CalendarApis.WeekFreeExactly | Appointment-Scheduler-Agent/src/calendar_utils/calendar_apis.py:82-118 | the weekly free list holds exactly the free visited slots of the seven days; closed days contribute none |
| CalendarApis.WeekFreeChronological | Appointment-Scheduler-Agent/src/calendar_utils/calendar_apis.py:82-118 | with hours inside the day the weekly free list is strictly increasing |
| CalendarApis.RandomFreeSlots | Appointment-Scheduler-Agent/src/calendar_utils/calendar_apis.py:50-121 | for hours that `"%H:%M"` parsing accepts, `min(4, n)` distinct slots from the weekly free list, each free and visited on one of the seven days |
| CalendarApis.IsSlotFree | Appointment-Scheduler-Agent/src/calendar_utils/calendar_apis.py:124-153 | the slot is reported free iff the calendar query for the window `[dt, dt + MEETING_TIME]` returns no events |
| CalendarApis.IsSlotFreeAgreesWithOverlap | Appointment-Scheduler-Agent/src/calendar_utils/calendar_apis.py:138-153 | the count of events fetched for `[dt, dt + MEETING_TIME]` is zero iff, for a query returning the overlapping events, no calendar event conflicts with the slot |
| CalendarApis.ExactCheckExample | Appointment-Scheduler-Agent/src/calendar_utils/calendar_apis.py:138-153 | in the single-zone model, with a busy 9:00-9:30, the slot at 9:00 is taken and the slot at 9:30 is free |
| CalendarApis.ExactCheckIgnoresWorkingHours | Appointment-Scheduler-Agent/src/calendar_utils/calendar_apis.py:124-153 | the exact check reports Monday 3:00 free on an empty calendar, although neither the one-day nor the weekly loop offers it under the default hours |
| CalendarApis.EventWindow | Appointment-Scheduler-Agent/src/calendar_utils/calendar_apis.py:156-170 | the booked event starts at the requested time and lasts a hard-coded 30 minutes |
| CalendarApis.BookedEventIsCheckedWindow | Appointment-Scheduler-Agent/src/calendar_utils/calendar_apis.py:170 | in the single-zone model, the booked event is the checked slot while MEETING_TIME is 30 |
| CalendarApis.BuildSheetRow | Appointment-Scheduler-Agent/src/calendar_utils/calendar_apis.py:42-45 | one cell per existing header, in header order, holding the record's value or `""` when the key is absent |
| ApiKey.VerifyApiKey | Appointment-Scheduler-Agent/src/utils.py:6-20 | an absent or empty header is rejected 401 "X-API-Key header is required" before any comparison; a different key is rejected 401 "Invalid API key"; the configured key gives `True`; `False` never comes back |
| ApiKey.OnlyConfiguredKeyAccepted | Appointment-Scheduler-Agent/src/utils.py:15-20 | any two accepted headers equal the configured key, which is non-empty |
| ApiKey.UnsetKeyRejectsAll | Appointment-Scheduler-Agent/src/utils.py:9-20 | with no key, or an empty key, configured, every request is rejected with 401 |
| CheckItemAvailability.StartingCart | Food-Ordering-Agent/src/actions/check_item_availability.py:24-26 | without an `order_cart` parameter the cart starts empty |
| CheckItemAvailability.CheckItemAvailability | Food-Ordering-Agent/src/actions/check_item_availability.py:21-70 | a found item returns the old cart plus one final entry `{food_item, quantity, db price}` and no target page; a missing item returns no session parameters and moves to the menu page; messages as written, the price printed as a whole-valued float (`250.0`) |
| CheckItemAvailability.AddingAppendsSeparateEntry | Food-Ordering-Agent/src/actions/check_item_availability.py:36-38 | earlier entries stay in place; a repeated item gets a separate entry, so its entry count and total quantity both grow |
| RemoveItem.DecrementAllAt | Food-Ordering-Agent/src/actions/remove_item.py:23-25 | every matching entry, not just the first, loses exactly `quantity`; other entries keep theirs; names and prices are unchanged |
| RemoveItem.UpdatedCartExactly | Food-Ordering-Agent/src/actions/remove_item.py:23-29 | an entry is in the updated cart iff it is a decremented entry with quantity not 0 |
| RemoveItem.NoZeroRemains | Food-Ordering-Agent/src/actions/remove_item.py:26-29 | no remaining entry has quantity 0, including a non-matching entry that already had 0 |
| RemoveItem.OnlyExactZeroDropped | Food-Ordering-Agent/src/actions/remove_item.py:26-29 | a decremented entry is kept iff its quantity is not exactly 0, so one driven negative is kept |
| RemoveItem.UpdatedCartIsDropZeros | Food-Ordering-Agent/src/actions/remove_item.py:21-29 | the updated cart equals the decremented cart with exactly its zero-quantity entries filtered out, so order and every non-zero duplicate are kept |
| RemoveItem.UpdatedCartIsSubsequence | Food-Ordering-Agent/src/actions/remove_item.py:21-29 | the updated cart is an order-preserving subsequence of the decremented cart |
| RemoveItem.UpdatedCartQuantities | Food-Ordering-Agent/src/actions/remove_item.py:23-29 | the removed item's total falls by `quantity` per entry it had; every other item's total is conserved |
| RemoveItem.RemoveItem | Food-Ordering-Agent/src/actions/remove_item.py:17-66 | the reply carries the updated cart; an empty one sets the menu page and `order_cart = []`, a non-empty one sets no page; messages as written |
| ShowSummary.TotalConcat | Food-Ordering-Agent/src/actions/show_summary.py:26-35 | the total is additive over cart concatenation, so the empty cart totals 0 |
| ShowSummary.TotalNonNegative | Food-Ordering-Agent/src/actions/show_summary.py:29-34 | with no negative quantity or price the total is not negative |
| ShowSummary.FormatSummary | Food-Ordering-Agent/src/actions/show_summary.py:25-35 | the loop yields one line per cart entry, in cart order, numbered from 1 in steps of 1, reading `"{i}. {food_item} X {qty} = {qty*price}"`, and the total is the sum of the line amounts |
| ShowSummary.ShowSummary | Food-Ordering-Agent/src/actions/show_summary.py:20-47 | four messages in fixed order: heading, joined lines, `Total cost: {total}`, confirmation question; no cart and no page returned |
| Decimal.NatToStringRoundTrip | Food-Ordering-Agent/src/actions/show_summary.py:32-44 | the decimal text of a number reads back as that number |

## Left out

- Google Calendar, Google Sheets, Dialogflow and Twilio client calls are foreign APIs. The calendar query is a parameter:
  - for `is_slot_free`, a function from the window to events;
  - for the slot searches, the returned busy list.
  - Reading the header row and appending the row to the sheet are not modelled.
- `FetchesOverlapping` states what the calendar query is assumed to return:
  - the events that overlap the window;
  - nothing is assumed beyond that, and the engine's results are stated for any returned list.
- Time zones, ISO-8601 strings and `pytz` are not modelled:
  - the weekly search attaches the zone with `.replace(tzinfo=...)`, the one-day search with `localize`;
  - `create_event` builds a naive local time.
  - `is_slot_free` builds its instant with `datetime.datetime(..., tzinfo=pytz.timezone(timezone))` (calendar_apis.py:129-137).
  - With `pytz`, both `tzinfo=` and `.replace(tzinfo=...)` attach the zone's first offset. For Asia/Kolkata that is local mean time, +05:53, not +05:30.
  - So in the program, the exact check and the weekly search query windows about 23 minutes earlier than the booked event and the busy events. The single-zone model removes that shift. `ExactCheckExample` and `BookedEventIsCheckedWindow` describe the model, not the zoned program.
  - All instants are minutes in one zone. The seconds of `meeting_time` are dropped.
- The busy list holds only timed events. An all-day event has no `dateTime`, so `fromisoformat(None)` raises `TypeError` in both searches (calendar_apis.py:77-78, 108-109, 247-248, 260-261). It raises unless an earlier busy entry already conflicted and hit the `break`. That error path is not modelled.
- Calendar dates are day numbers whose remainder modulo 7 gives the weekday (day 0 is a Monday). Going from a year, month and day to a day number is not modelled.
- `datetime.now()` is the day number `today`.
- The weekly fetch covers `[now, now + 7 days]`, but the loop also visits today's slots before `now`. The model keeps that behaviour: the busy list is whatever the fetch returned.
- `random.sample` draws without a seed. The model takes an injected list of picks. Its contract fixes the size and the multiset membership, not which elements are chosen or their order.
- The menu lookup (`fetch_item_by_name`: case-insensitive name, then synonym match) is the `dbPrice` input.
- Float prices from the database, and `int()` truncation of quantities and prices, are not modelled. Quantities and prices are integers.
- CheckItemAvailability: the price is printed as a whole-valued float, `250.0`. A fractional price such as `12.5`, and the exponent form Python uses from `1e16` on, are not modelled.
- `remove_item` changes the request's own cart dictionaries in place. The model builds new entries instead. The aliased request is dropped after the reply, so nothing observable is lost.
- The echoed session id, the `Message`/`Text` wrapping and rich-content payloads are not modelled. A reply is its text messages, its `order_cart` session parameter and its target page.
- `Food-Ordering-Agent/src/utils.py:7-21` is a verbatim copy of `verify_api_key`, so one model covers both copies. Twilio `send_message` is left out as foreign.
- The rest is transport, persistence or formatting glue and is not part of this model:
  - the action handlers of the appointment agent;
  - `detect_intent.py`, `database.py`, `confirm_order.py`, `order_status.py`;
  - the FastAPI routers and schemas, the entity-creation script, and the template and constant-reply handlers.
- The check-then-book race between `is_slot_free` and `create_event` is concurrency outside the code. It is not modelled.
- Working hours are taken as already parsed. `"%H:%M"` parsing accepts only 0:00 to 23:59 and raises `ValueError` for anything else (calendar_apis.py:87-92, 219-224). `RandomFreeSlots` therefore requires `ValidHours`, which excludes no hour the program accepts.
