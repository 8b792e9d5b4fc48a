/**
 * The event-list operations behind the Create, Edit and Delete dialogs
 * (`save_event`, `save_changes`, `delete_event`), as pure functions from the
 * list and the values the dialog's widgets hold when its button is pressed.
 */
module Dialogs {
  import opened Base
  import opened Timestamps
  import opened Text
  import opened Events

  /** A day picked on a calendar widget. */
  datatype CalendarDate = CalendarDate(year: int, month: int, day: int)

  /** What the Create and Edit dialogs read from their widgets. */
  datatype Form = Form(
    title: string,
    descriptionText: string,
    date: CalendarDate,
    hour: int,
    minute: int,
    emailsText: string,
    notify: bool,
    notifyDate: CalendarDate,
    notifyHour: int,
    notifyMinute: int)

  /**
   * The part of a date-and-time entry that `strptime` or `replace` rejects.
   * `WideArgument` is an hour or minute that does not fit the C `int`
   * `replace` converts it to: an `OverflowError`, not a `ValueError`.
   */
  datatype Part = DayPart | HourPart | MinutePart | WideArgument

  /** The form value a `ValueError` is raised for. */
  datatype Field = EventField(part: Part) | NotifyField(part: Part)

  /**
   * Why a dialog's button changed nothing: no event selected or a
   * `ValueError`, each shown in an error box; or an exception the handler
   * does not catch, which shows no box.
   */
  datatype DialogError = NothingSelected | BadValue(field: Field) | Uncaught(field: Field)

  /** The error a rejected form ends in: only a `ValueError` reaches `except ValueError`. */
  function Rejection(field: Field): (e: DialogError)
    ensures e.Uncaught? <==> field.part == WideArgument
    ensures !e.NothingSelected? && e.field == field
  {
    if field.part == WideArgument then Uncaught(field) else BadValue(field)
  }

  /** The event list after a dialog's button, and why it changed nothing, if it did not. */
  datatype Update = Update(events: seq<Event>, error: Option<DialogError>)

  /**
   * The calendar hands its day over as `m/d/yy` text, and `%y` reads a
   * two-digit year as one of 1969..2068: the picked year is kept only up
   * to a multiple of a century.
   */
  function TwoDigitYear(year: int): (y: int)
    ensures 1969 <= y <= 2068
    ensures (y - year) % 100 == 0
  {
    var yy := year % 100;
    if yy < 69 then 2000 + yy else 1900 + yy
  }

  /** Exactly the years 1969..2068 survive the calendar's two-digit year. */
  lemma {:induction false} TwoDigitYearKeeps(year: int)
    ensures TwoDigitYear(year) == year <==> 1969 <= year <= 2068
  {
    if 1969 <= year <= 2068 {
      var yy := year % 100;
      if year < 2000 {
        assert year == 1900 + yy;
      } else {
        assert year == 2000 + yy;
      }
    }
  }

  /** The range of a C `int`, which `datetime.replace` converts its arguments to. */
  const CIntMin: int := -0x8000_0000
  const CIntMax: int := 0x7fff_ffff

  predicate FitsCInt(x: int) {
    CIntMin <= x <= CIntMax
  }

  predicate ValidEntry(d: CalendarDate, h: int, m: int) {
    ValidDate(TwoDigitYear(d.year), d.month, d.day) && 0 <= h < 24 && 0 <= m < 60
  }

  /**
   * `datetime.strptime(day, '%m/%d/%y').replace(hour=h, minute=m)`: the day
   * is checked first; then `replace` converts both arguments to C `int`s,
   * and only then checks the hour and the minute. Seconds are zero.
   */
  function At(d: CalendarDate, h: int, m: int): (r: Result<Timestamp, Part>)
    ensures r.Success? <==> ValidEntry(d, h, m)
    ensures r.Success? ==> r.value == DateTime(TwoDigitYear(d.year), d.month, d.day, h, m, 0)
    ensures r == Failure(DayPart) <==> !ValidDate(TwoDigitYear(d.year), d.month, d.day)
    ensures r == Failure(WideArgument) <==> ValidDate(TwoDigitYear(d.year), d.month, d.day) && !(FitsCInt(h) && FitsCInt(m))
    ensures r == Failure(HourPart) <==> ValidDate(TwoDigitYear(d.year), d.month, d.day) && FitsCInt(h) && FitsCInt(m) && !(0 <= h < 24)
    ensures r == Failure(MinutePart) <==> ValidDate(TwoDigitYear(d.year), d.month, d.day) && 0 <= h < 24 && FitsCInt(m) && !(0 <= m < 60)
  {
    var y := TwoDigitYear(d.year);
    if !ValidDate(y, d.month, d.day) then Failure(DayPart)
    else if !(FitsCInt(h) && FitsCInt(m)) then Failure(WideArgument)
    else if !(0 <= h < 24) then Failure(HourPart)
    else if !(0 <= m < 60) then Failure(MinutePart)
    else Success(DateTime(y, d.month, d.day, h, m, 0))
  }

  /** The dialog's values are accepted; the notification entry only matters when it is switched on. */
  predicate Accepted(f: Form) {
    ValidEntry(f.date, f.hour, f.minute) && (f.notify ==> ValidEntry(f.notifyDate, f.notifyHour, f.notifyMinute))
  }

  /** The `Event(...)` a dialog builds: a fresh event, so `sent` takes the constructor default. */
  function BuildEvent(f: Form): (r: Result<Event, Field>)
    ensures r.Success? <==> Accepted(f)
    ensures r.Failure? && r.error.EventField? ==> At(f.date, f.hour, f.minute) == Failure(r.error.part)
    ensures r.Failure? && r.error.NotifyField? ==> (
      && f.notify && ValidEntry(f.date, f.hour, f.minute)
      && At(f.notifyDate, f.notifyHour, f.notifyMinute) == Failure(r.error.part))
    ensures r.Success? ==> (
      && !r.value.sent
      && r.value.title == f.title
      && r.value.description == Strip(f.descriptionText)
      && r.value.date == DateTime(TwoDigitYear(f.date.year), f.date.month, f.date.day, f.hour, f.minute, 0)
      && r.value.emails == ParseEmails(f.emailsText)
      && (r.value.notifyDate.Some? <==> f.notify)
      && (f.notify ==> r.value.notifyDate.value
                       == DateTime(TwoDigitYear(f.notifyDate.year), f.notifyDate.month, f.notifyDate.day,
                                   f.notifyHour, f.notifyMinute, 0)))
  {
    match At(f.date, f.hour, f.minute)
    case Failure(p) => Failure(EventField(p))
    case Success(date) =>
      var emails := ParseEmails(f.emailsText);
      if !f.notify then
        Success(Event(f.title, Strip(f.descriptionText), date, emails, None, false))
      else
        match At(f.notifyDate, f.notifyHour, f.notifyMinute)
        case Failure(p) => Failure(NotifyField(p))
        case Success(notify) => Success(Event(f.title, Strip(f.descriptionText), date, emails, Some(notify), false))
  }

  /** With the Notify box unticked, whatever the notification widgets hold is never read. */
  lemma {:induction false} NotifyEntryIgnoredWhenOff(f: Form, d: CalendarDate, h: int, m: int)
    requires !f.notify
    ensures BuildEvent(f.(notifyDate := d, notifyHour := h, notifyMinute := m)) == BuildEvent(f)
  {
  }

  function IndexOf(events: seq<Event>, index: Option<int>): (r: Option<nat>)
    ensures r.Some? <==> index.Some? && 0 <= index.value < |events|
    ensures r.Some? ==> r.value == index.value
  {
    if index.Some? && 0 <= index.value < |events| then Some(index.value) else None
  }

  /** `save_event`: append the new event, or show the `ValueError` and change nothing. */
  function Create(events: seq<Event>, f: Form): (u: Update)
    ensures u.error.None? <==> Accepted(f)
    ensures u.error.Some? ==> u.events == events && u.error.value == Rejection(BuildEvent(f).error)
    ensures u.error.None? ==> (
      && |u.events| == |events| + 1
      && u.events[..|events|] == events
      && u.events[|events|] == BuildEvent(f).value)
  {
    match BuildEvent(f)
    case Failure(field) => Update(events, Some(Rejection(field)))
    case Success(e) => Update(events + [e], None)
  }

  /**
   * `edit_event` then `save_changes`: the event at `index` is replaced by a
   * freshly built one; an index that selects nothing, or a rejected value,
   * changes nothing.
   */
  function Edit(events: seq<Event>, index: Option<int>, f: Form): (u: Update)
    ensures IndexOf(events, index).None? ==> u == Update(events, Some(NothingSelected))
    ensures u.error.None? <==> IndexOf(events, index).Some? && Accepted(f)
    ensures u.error.Some? ==> u.events == events
    ensures u.error.Some? && IndexOf(events, index).Some? ==> u.error.value == Rejection(BuildEvent(f).error)
    ensures u.error.None? ==> (
      && |u.events| == |events|
      && u.events[index.value] == BuildEvent(f).value
      && forall j :: 0 <= j < |events| && j != index.value ==> u.events[j] == events[j])
  {
    match IndexOf(events, index)
    case None => Update(events, Some(NothingSelected))
    case Some(i) =>
      match BuildEvent(f)
      case Failure(field) => Update(events, Some(Rejection(field)))
      case Success(e) => Update(events[i := e], None)
  }

  /** `delete_event`: remove the event at `index`, or change nothing when it selects none. */
  function Delete(events: seq<Event>, index: Option<int>): (u: Update)
    ensures IndexOf(events, index).None? ==> u == Update(events, Some(NothingSelected))
    ensures IndexOf(events, index).Some? ==> (
      var i := index.value;
      && u.error.None?
      && |u.events| == |events| - 1
      && (forall j :: 0 <= j < i ==> u.events[j] == events[j])
      && (forall j :: i <= j < |u.events| ==> u.events[j] == events[j + 1]))
  {
    match IndexOf(events, index)
    case None => Update(events, Some(NothingSelected))
    case Some(i) => Update(events[..i] + events[i + 1..], None)
  }

  /** Deleting removes exactly one occurrence of the selected event and nothing else. */
  lemma {:induction false} DeleteRemovesOne(events: seq<Event>, i: nat)
    requires i < |events|
    ensures multiset(Delete(events, Some(i)).events) + multiset{events[i]} == multiset(events)
  {
    assert events == events[..i] + [events[i]] + events[i + 1..];
  }

  /** A created event is never a sent one, so the list stays consistent. */
  lemma {:induction false} CreateKeepsConsistent(events: seq<Event>, f: Form)
    requires Consistent(events)
    ensures Consistent(Create(events, f).events)
  {
    if Accepted(f) {
      var e := BuildEvent(f).value;
      assert !e.sent;
      assert Create(events, f).events == events + [e];
      AppendUnsentKeepsConsistent(events, e);
    }
  }

  lemma {:induction false} AppendUnsentKeepsConsistent(events: seq<Event>, e: Event)
    requires Consistent(events) && !e.sent
    ensures Consistent(events + [e])
  {
  }

  /** An edited event is never a sent one, so the list stays consistent. */
  lemma {:induction false} EditKeepsConsistent(events: seq<Event>, index: Option<int>, f: Form)
    requires Consistent(events)
    ensures Consistent(Edit(events, index, f).events)
  {
  }

  /** Deleting keeps the list consistent. */
  lemma {:induction false} DeleteKeepsConsistent(events: seq<Event>, index: Option<int>)
    requires Consistent(events)
    ensures Consistent(Delete(events, index).events)
  {
    var d := Delete(events, index).events;
    forall j | 0 <= j < |d| ensures SentHasNotifyDate(d[j]) {
      if index.Some? && 0 <= index.value <= j < |events| - 1 {
        assert d[j] == events[j + 1];
      }
    }
  }

  /** A list the recipients entry can carry: at least one address, none with a comma or surrounding spaces. */
  predicate CleanAddresses(emails: seq<string>) {
    |emails| >= 1 && forall k :: 0 <= k < |emails| ==> CleanAddress(emails[k])
  }

  /** A timestamp the day, hour and minute widgets can show exactly. */
  predicate Enterable(t: Timestamp) {
    t.second == 0 && 1969 <= t.year <= 2068
  }

  /**
   * The values the Edit dialog opens with for event `e`: the description as
   * the Text widget returns it, with its trailing newline; the addresses
   * joined with `", "`; and notification widgets that default to `now`.
   * Read back through the dialog's parsers, each value gives the field it
   * came from, as far as the widgets can carry it.
   */
  function Prefill(e: Event, now: Instant): (f: Form)
    ensures f.title == e.title
    ensures f.notify <==> e.notifyDate.Some?
    ensures Trimmed(e.description) ==> Strip(f.descriptionText) == e.description
    ensures CleanAddresses(e.emails) ==> ParseEmails(f.emailsText) == e.emails
    ensures Enterable(e.date) ==> At(f.date, f.hour, f.minute) == Success(e.date)
    ensures e.notifyDate.Some? && Enterable(e.notifyDate.value)
            ==> At(f.notifyDate, f.notifyHour, f.notifyMinute) == Success(e.notifyDate.value)
  {
    var n := match e.notifyDate case Some(t) => t case None => now.at;
    DescriptionReadsBack(e.description);
    EmailsReadBack(e.emails);
    AtOfTimestamp(e.date);
    AtOfTimestamp(n);
    Form(
      e.title,
      e.description + "\n",
      CalendarDate(e.date.year, e.date.month, e.date.day),
      e.date.hour,
      e.date.minute,
      Join(e.emails, ", "),
      e.notifyDate.Some?,
      CalendarDate(n.year, n.month, n.day),
      n.hour,
      n.minute)
  }

  /** The Text widget's trailing newline is whitespace, so `strip()` takes it off a stripped description. */
  lemma {:induction false} DescriptionReadsBack(d: string)
    ensures Trimmed(d) ==> Strip(d + "\n") == d
  {
    if Trimmed(d) {
      StripOf([], d, "\n");
      assert [] + d + "\n" == d + "\n";
    }
  }

  lemma {:induction false} EmailsReadBack(emails: seq<string>)
    ensures CleanAddresses(emails) ==> ParseEmails(Join(emails, ", ")) == emails
  {
    if CleanAddresses(emails) {
      ParseEmailsOfJoin(emails);
    }
  }

  /** A whole-minute timestamp in 1969..2068, entered through the day, hour and minute widgets, reads back unchanged. */
  lemma {:induction false} AtOfTimestamp(t: Timestamp)
    ensures Enterable(t) ==> At(CalendarDate(t.year, t.month, t.day), t.hour, t.minute) == Success(t)
  {
    TwoDigitYearKeeps(t.year);
  }

  /** An event the dialogs could have produced: whole minutes in 1969..2068, stripped text, clean addresses. */
  predicate Editable(e: Event) {
    && Trimmed(e.description)
    && CleanAddresses(e.emails)
    && Enterable(e.date)
    && (e.notifyDate.Some? ==> Enterable(e.notifyDate.value))
  }

  /** The Edit dialog opened on an editable event builds that event back, unsent. */
  lemma {:induction false} PrefillBuildsSame(e: Event, now: Instant)
    requires Editable(e)
    ensures BuildEvent(Prefill(e, now)) == Success(e.(sent := false))
  {
    var f := Prefill(e, now);
    assert Accepted(f);
    var r := BuildEvent(f);
    assert r.value.date == e.date;
    assert r.value.notifyDate == e.notifyDate;
  }

  lemma {:induction false} BuiltTextClean(f: Form)
    requires BuildEvent(f).Success?
    ensures Trimmed(BuildEvent(f).value.description) && CleanAddresses(BuildEvent(f).value.emails)
  {
    var e := BuildEvent(f).value;
    assert e.description == Strip(f.descriptionText);
    var emails := ParseEmails(f.emailsText);
    assert e.emails == emails;
    assert |emails| >= 1;
    forall k | 0 <= k < |emails| ensures CleanAddress(emails[k]) {
    }
  }

  lemma {:induction false} BuiltDatesEnterable(f: Form)
    requires BuildEvent(f).Success?
    ensures Enterable(BuildEvent(f).value.date)
    ensures BuildEvent(f).value.notifyDate.Some? ==> Enterable(BuildEvent(f).value.notifyDate.value)
  {
  }

  /** Every event the Create and Edit dialogs build is one the Edit dialog can show and read back. */
  lemma {:induction false} BuildEventEditable(f: Form)
    requires BuildEvent(f).Success?
    ensures Editable(BuildEvent(f).value)
  {
    BuiltTextClean(f);
    BuiltDatesEnterable(f);
  }

  /**
   * An hour or minute too wide for a C `int`, under a valid day, raises an
   * `OverflowError` that `except ValueError` lets through: no error box,
   * and the list is unchanged.
   */
  lemma {:induction false} WideEntryUncaught(events: seq<Event>, f: Form)
    requires ValidDate(TwoDigitYear(f.date.year), f.date.month, f.date.day)
    requires !FitsCInt(f.hour) || !FitsCInt(f.minute)
    ensures Create(events, f) == Update(events, Some(Uncaught(EventField(WideArgument))))
  {
    assert At(f.date, f.hour, f.minute) == Failure(WideArgument);
  }

  /**
   * Saving the Edit dialog without touching it changes only `sent`, which
   * goes back to false.
   */
  lemma {:induction false} EditUnchangedResetsSent(events: seq<Event>, i: nat, now: Instant)
    requires i < |events| && Editable(events[i])
    ensures Edit(events, Some(i), Prefill(events[i], now)) == Update(events[i := events[i].(sent := false)], None)
  {
    PrefillBuildsSame(events[i], now);
  }
}
