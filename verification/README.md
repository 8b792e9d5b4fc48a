# Event Planner core, modelled in Dafny

Event Planner is a desktop tool. It keeps a list of events, each with a title, a description, a date, recipient addresses and an optional notification time. A background poller sends each notification through Gmail once its time has come. This project models the logic underneath the user interface, as pure functions:

- `timestamps.dfy` models Python `datetime` values.
  - It keeps the Gregorian validity rules and a second count (`ToSeconds`) that orders timestamps.
  - A clock reading (`Instant`) carries microseconds, as `datetime.now()` does.
- `timeformat.dfy` models the `"%Y-%m-%d %H:%M:%S"` text form, written by `strftime` and read by `strptime`.
- `text.dfy` models `str.strip`, `str.split(',')` and `', '.join`, plus the recipient-list parser the dialogs build from them.
- `events.dfy` models the `Event` record and its persisted dictionary form (`serialize` / `deserialize`), for one event and for the whole list.
- `dialogs.dfy` models the Create, Edit and Delete dialogs.
  - Each is a function from the event list and the widgets' values to the new list and the error box shown, if any.
  - The calendar hands its day over as `m/d/yy` text, so only years 1969..2068 survive it unchanged.
- `poller.dfy` models one pass of `send_notifications`.
  - It is a fold over the list with one clock reading.
  - What the mail service does is an input sequence of outcomes (`Ok`, `HttpErr`, `Abort`). Only the events the pass selects consume outcomes.
- `delivery.dfy` derives those outcomes from the replies of the userinfo request and the Gmail send call, as the pass's exception handlers treat them. It also models the `name` variable that only a successful userinfo request binds.
- `status.dfy` models the details pane: the field lines and the sent / pending / failed status line.

The English and Ukrainian window classes hold the same logic (EventPlanner.py:1364-1391, 1441-1453, 1688-1712, 1719-1784). It is modelled once, citing the English copy.

## Model

| member | source | states |
|---|---|---|
| Timestamps.DaysInMonth | EventPlanner.py:56 | every month has 28..31 days, and 29 days exactly for February of a leap year |
| Timestamps.ToSecondsMonotone | EventPlanner.py:783 | a timestamp earlier in year-month-day-hour-minute-second order has a strictly smaller second count |
| Timestamps.ToSecondsOrder | EventPlanner.py:783 | `datetime` ordering is exactly the order of second counts, and equal counts mean equal timestamps |
| Timestamps.ComparisonsIgnoreMicros | EventPlanner.py:473 | `now >= notify_date` and `now < notify_date + 1 minute` depend only on the whole-second part of the clock reading; the first is "the reading's second does not precede the timestamp" |
| TimeFormat.Pad | EventPlanner.py:46 | zero-padding gives exactly the requested width of digits |
| TimeFormat.ValueOfPad | EventPlanner.py:46 | reading back a zero-padded number gives the number |
| TimeFormat.PadOfValue | EventPlanner.py:56 | a digit string is the zero-padding of its own value |
| TimeFormat.Format | EventPlanner.py:46 | a timestamp prints as exactly 19 characters in the form `YYYY-MM-DD HH:MM:SS` |
| TimeFormat.Parse | EventPlanner.py:56 | only a string of that form parses |
| TimeFormat.ParseFormat | EventPlanner.py:46-56 | parsing a printed timestamp gives it back |
| TimeFormat.FormatParse | EventPlanner.py:46-56 | a string that parses is exactly the print of what it parses to |
| TimeFormat.FormatInjective | EventPlanner.py:46 | distinct timestamps print differently |
| Text.Strip | EventPlanner.py:392 | `strip()` leaves no whitespace at either end and never lengthens |
| Text.StripOf | EventPlanner.py:392 | a core with non-space ends, wrapped in whitespace runs, strips to that core |
| Text.StripShape | EventPlanner.py:392 | what `strip()` removes is whitespace runs at the two ends and nothing else |
| Text.StripIdempotent | EventPlanner.py:392 | stripping twice is stripping once |
| Text.StripKeepsOut | EventPlanner.py:397 | stripping brings in no character the input lacked |
| Text.Split | EventPlanner.py:397 | `split(',')` gives one more piece than there are commas, and no piece holds a comma |
| Text.JoinSplit | EventPlanner.py:397 | joining the pieces of a split with the separator restores the string |
| Text.Join | EventPlanner.py:654 | `', '.join` gives the empty text for no pieces; otherwise its length is the pieces' total plus one glue per gap, and it starts with the first piece |
| Text.SplitJoin | EventPlanner.py:397 | splitting a join of comma-free pieces gives the pieces back |
| Text.StripAll | EventPlanner.py:397 | the list comprehension strips each piece in place |
| Text.ParseEmails | EventPlanner.py:397 | the recipient list has one entry per comma plus one, each comma-free and stripped |
| Text.ParseEmailsOfJoin | EventPlanner.py:654 | the `', '.join` the Edit dialog shows reads back as the same address list, for addresses without commas or surrounding spaces |
| Events.Serialize | EventPlanner.py:41-51 | dates become 19-character strings, an absent notification becomes null, and the other fields are copied |
| Events.Deserialize | EventPlanner.py:53-58 | loading succeeds exactly when the date parses and a non-empty notification date parses; null or empty reads as no notification |
| Events.DeserializeSerialize | EventPlanner.py:41-58 | deserialising a serialised event gives it back, with or without a notification |
| Events.SerializeDeserialize | EventPlanner.py:41-58 | a record that loads is the serialisation of what it loaded to, up to writing an empty notification date as null |
| Events.SerializeAll | EventPlanner.py:193-195 | the saved list has one record per event, in order |
| Events.DeserializeAll | EventPlanner.py:147-150 | loading succeeds exactly when every record loads, and then each event is its record's |
| Events.DeserializeAllSerializeAll | EventPlanner.py:147-195 | saving the list and loading it back restores it |
| Dialogs.TwoDigitYear | EventPlanner.py:396 | a `%y` year lands in 1969..2068, a whole number of centuries from the picked year |
| Dialogs.TwoDigitYearKeeps | EventPlanner.py:396 | a picked year survives the calendar's text exactly when it lies in 1969..2068 |
| Dialogs.At | EventPlanner.py:396 | `strptime(...).replace(hour, minute)` succeeds exactly for a valid day, hour 0..23 and minute 0..59, with zero seconds. A failure blames the day when the day is invalid; else an hour or minute outside the C `int` range (the `OverflowError` of `replace`); else an hour out of range; else the minute |
| Dialogs.BuildEvent | EventPlanner.py:391-406 | the dialog builds an event exactly when its entries are accepted, with a stripped description, the parsed addresses, a notification exactly when the box is ticked, and `sent` false; a rejection names the first entry `At` refuses, the event's date before the notification's |
| Dialogs.NotifyEntryIgnoredWhenOff | EventPlanner.py:398-403 | with the box unticked, the notification widgets do not affect the outcome |
| Dialogs.Create | EventPlanner.py:389-416 | on accepted entries, exactly one event is appended after the unchanged list; otherwise the list is unchanged: a `ValueError` from `BuildEvent` is shown in the error box, and an `OverflowError` passes `except ValueError` and shows none |
| Dialogs.Edit | EventPlanner.py:544-742 | with a valid index and accepted entries, only that event is replaced, by the built one; otherwise the list is unchanged. With a valid index, a `ValueError` from `BuildEvent` is shown in the error box, and an `OverflowError` passes `except ValueError` and shows none |
| Dialogs.Delete | EventPlanner.py:744-752 | a valid index gives a list one shorter with the others in their order; anything else changes nothing |
| Dialogs.DeleteRemovesOne | EventPlanner.py:746 | the events left are exactly the old ones minus one copy of the deleted one |
| Dialogs.WideEntryUncaught | EventPlanner.py:396-416 | under a valid day, an hour or minute too wide for a C `int` leaves the list unchanged with no error box, because `except ValueError` does not catch the `OverflowError` |
| Dialogs.BuildEventEditable | EventPlanner.py:391-406 | every event the dialogs build has a stripped description, at least one clean address and whole-minute times in 1969..2068, so the Edit dialog can show it and read it back |
| Dialogs.CreateKeepsConsistent | EventPlanner.py:405-408 | creating keeps every sent event's notification date present |
| Dialogs.EditKeepsConsistent | EventPlanner.py:719-729 | editing keeps every sent event's notification date present |
| Dialogs.DeleteKeepsConsistent | EventPlanner.py:744-746 | deleting keeps every sent event's notification date present |
| Dialogs.Prefill | EventPlanner.py:593-691 | the Edit dialog's opening values read back, through `strip()`, the address parser and `At`, as the event's description, addresses, date and notification date, whenever the event's values are ones the widgets can carry; the Notify box is ticked exactly when a notification is set |
| Dialogs.AtOfTimestamp | EventPlanner.py:396 | a whole-minute time in 1969..2068, entered through the day, hour and minute widgets, is read back as the same timestamp |
| Dialogs.PrefillBuildsSame | EventPlanner.py:593-729 | the Edit dialog's opening values build the edited event back, with `sent` false |
| Dialogs.EditUnchangedResetsSent | EventPlanner.py:593-729 | saving the Edit dialog as it opened changes only `sent`, which becomes false, for an event the dialogs could have made |
| Poller.Due | EventPlanner.py:783 | an event is selected exactly when a notification is set, it is unsent, and the clock's whole second is not before the notification time |
| Poller.Sweep | EventPlanner.py:781-806 | every event is either untouched or, if due and attempted, marked sent; the length is kept |
| Poller.Tick | EventPlanner.py:757-809 | length and order kept; only due events attempted; only `sent` may change, and only false to true; a credential failure changes nothing; sent events keep their notification date |
| Poller.TickAt | EventPlanner.py:781-806 | event `i` is attempted exactly when it is due and no earlier attempt aborted, and is marked sent exactly when its own outcome is `Ok` |
| Poller.AttemptsExactlyDue | EventPlanner.py:781-783 | without an abort, a pass attempts exactly the events with a notification date that has come and `sent` false |
| Poller.SentOnlyOnOk | EventPlanner.py:798-806 | an attempted event comes out sent exactly when its outcome is `Ok`; `HttpErr` and `Abort` leave it unsent |
| Poller.AbortEndsPass | EventPlanner.py:808-809 | after an aborted attempt, no later event is attempted and each comes out unchanged |
| Poller.NoResend | EventPlanner.py:783 | once an event is sent, no later pass attempts it, at any time and whatever the mail service does |
| Poller.NotYetDueSkipped | EventPlanner.py:783 | an event whose notification second is still ahead of the clock is neither attempted nor changed |
| Delivery.HandlersDifferOnlyOnApiError | EventPlanner.py:804 | the handlers as written and as intended treat every send reply alike except the Gmail client's `HttpError`, which as written ends the pass and as intended skips the event |
| Delivery.Outcomes | EventPlanner.py:786-806 | one outcome per attempt. Attempt `k` aborts when its userinfo request raises, or when the request returns a status other than 200 and `name` was neither bound on entry nor by an earlier successful request. Otherwise the send handlers decide its outcome |
| Delivery.Poll | EventPlanner.py:757-809 | a pass driven by the service's replies, under the handlers as written (`AsWritten`) or the corrected ones (`Intended`), keeps the list's shape and changes only due events' `sent` |
| Delivery.OrderlyNeverAborts | EventPlanner.py:786-806 | if the first userinfo succeeds and nothing raises, no attempt aborts under the intended handlers |
| Delivery.PollAttemptsEveryDueEvent | EventPlanner.py:781-806 | under those conditions a pass attempts exactly the due events, whatever HTTP errors Gmail returns |
| Delivery.ApiErrorAbortsAsWritten | EventPlanner.py:804 | as written, an attempt answered with a Gmail API `HttpError` aborts, whatever the userinfo reply |
| Delivery.ApiErrorEndsPassAsWritten | EventPlanner.py:15 | as written, after a Gmail API error no later event is attempted in that pass |
| Delivery.ApiErrorStrandsSecondEvent | EventPlanner.py:804 | with two due events and an API error on the first, the pass as written never attempts the second, while the intended handlers send it |
| Status.Classify | EventPlanner.py:466-477 | no status line without a notification date; "sent" exactly when sent; "failed" exactly when unsent and the clock's second is at least a minute past the notification time; otherwise "pending" |
| Status.FailedMeansDue | EventPlanner.py:473 | an event shown as failed is one the poller selects, and a due event shows pending or failed |
| Status.NotYetDuePending | EventPlanner.py:473-474 | an unsent notification whose time has not come shows as pending |
| Status.PendingBecomesFailed | EventPlanner.py:473-477 | left unsent, a pending notification shows as failed once its minute has passed |
| Status.DeliveredShowsSent | EventPlanner.py:470 | an event a pass delivered shows "sent" from then on |
| Status.UndeliveredShowsUnsent | EventPlanner.py:472-477 | an attempt that did not go out leaves the event showing pending or failed |
| Status.Details | EventPlanner.py:458-467 | four field lines, plus the notification date line exactly when one is set |
| Status.DetailsDatesRoundTrip | EventPlanner.py:462-467 | the date lines read back as the event's own timestamps |
| Status.DetailsEmailsRoundTrip | EventPlanner.py:463 | the recipients line, read with the dialogs' parser, gives back the event's addresses |

## Left out

- The Tk widgets, layout, themes, zoom, language switching and the event listbox: user-interface code.
- OAuth login, token refresh, the userinfo HTTP request and Gmail's `messages().send`: external services. Their replies are inputs, as an outcome sequence or as `Delivery.Attempt` values.
- MIME message construction and base64url encoding: opaque library calls. The message's text, including the sender's `name`, is not modelled; only whether `name` is bound is.
- The background thread, its 60-second sleep loop and the race between that thread and the dialogs: a single pass is modelled, on its own.
- Poller.Tick: reads the clock once per pass, where the source calls `datetime.now()` again for every event. A pass over many events could see later readings.
- Reading and writing `events.json` and JSON text: the persisted form is the dictionary-shaped `Events.Record`. The loader's check that the file exists and is non-empty is not modelled either.
- Events.Deserialize: records are typed, so a missing key (a `KeyError`) or a field of the wrong JSON type cannot arise.
- TimeFormat.Parse: accepts only the 19-character layout with ASCII digits and a single space. `strptime` also loads strings the model refuses, none of which the program writes itself:
  - one-digit fields;
  - a space-padded day, such as `2024-01- 5 03:04:05`;
  - a tab or any other whitespace run in place of the space;
  - non-ASCII decimal digits, which `\d` and `int()` accept;
  - years 0001..0999, such as `0999-01-01 00:00:00`, which loads as year 999.
- Events.Deserialize: refuses every record whose date or notification date is one of the strings listed under TimeFormat.Parse, although the program loads it.
- Years outside 1000..9999 are not modelled. That is the range `"%Y"` prints as four digits; a loaded file with a year 0001..0999 is covered under TimeFormat.Parse.
- Status.Classify: ignores the `OverflowError` that `notify_date + 1 minute` raises for a notification in the last minute of 9999-12-31.
- Dialogs.BuildEvent: hour and minute are integers. The `int()` conversion of the spin-box text and its `ValueError` are not modelled.
- Dialogs.At: assumes the calendar's date text is in `m/d/yy` order, as `'%m/%d/%y'` expects. The locale-dependent pattern of the calendar widget is not modelled.
- Dialogs.Edit: checks the index when the dialog is saved. The program checks it only when the non-modal dialog opens (EventPlanner.py:545) and writes `self.events[event_index]` at save (EventPlanner.py:729) without a check. If a Delete shrank the list in between, the program raises an `IndexError` that `except ValueError` (EventPlanner.py:736) does not catch; the model reports `NothingSelected` instead.
- Poller.Tick: a reply that never comes is not modelled. `requests.get` (EventPlanner.py:786) and `execute()` (EventPlanner.py:799) have no timeout, so a stalled reply stalls the pass and the poller thread for good. No `Outcome` stands for it.
- Dialogs.Edit and Dialogs.Delete: the message boxes and the refresh of the details pane are not modelled beyond the returned error value.

## Findings

| source | as written | input that shows it | evidently intended | confidence | as-written member | corrected member |
|---|---|---|---|---|---|---|
| EventPlanner.py:15 | `except HTTPError` at EventPlanner.py:804 names the `requests` library's class. The Gmail client's `execute()` raises `googleapiclient.errors.HttpError`, which is not caught there, so it reaches the outer `except Exception` and ends the pass | two due events, with the Gmail send for the first failing with an HTTP error: the second event is not attempted in that pass | an HTTP error from the send skips only its own event; the loop goes on with the next | not executed | Delivery.ApiErrorStrandsSecondEvent | Delivery.PollAttemptsEveryDueEvent |
