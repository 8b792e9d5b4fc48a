/**
 * The details pane of the main window (`show_event_details`): the event's
 * fields as text lines, and the status line it adds under a scheduled
 * notification.
 */
module Status {
  import opened Base
  import opened Timestamps
  import opened TimeFormat
  import opened Text
  import opened Events
  import opened Poller

  /** The status line under an event's details; which message text is shown. */
  datatype Status =
    | NoStatusLine  // no notification is scheduled, so neither the date nor a status is shown
    | SentStatus    // "The notification was sent successfully!"
    | Pending       // "Notification will be sent when notification time arrives."
    | Failed        // "The notification was not sent because an error occurred. ..."

  /**
   * The status shown for `e` at clock reading `now`. An unsent notification
   * counts as pending until a minute after its time, then as failed.
   */
  function Classify(e: Event, now: Instant): (s: Status)
    ensures s == NoStatusLine <==> e.notifyDate.None?
    ensures s == SentStatus <==> e.notifyDate.Some? && e.sent
    ensures s == Failed <==> e.notifyDate.Some? && !e.sent && ToSeconds(now.at) >= ToSeconds(e.notifyDate.value) + 60
  {
    match e.notifyDate
    case None => NoStatusLine
    case Some(t) =>
      ComparisonsIgnoreMicros(now, t);
      if e.sent then SentStatus
      else if WithinMinuteOf(now, t) then Pending
      else Failed
  }

  /**
   * A failed status is only ever shown for an event the poller still
   * selects, so the next pass retries it; a due event shows pending or
   * failed.
   */
  lemma {:induction false} FailedMeansDue(e: Event, now: Instant)
    ensures Classify(e, now) == Failed ==> Due(e, now)
    ensures Due(e, now) ==> Classify(e, now) == Pending || Classify(e, now) == Failed
  {
    if e.notifyDate.Some? {
      ComparisonsIgnoreMicros(now, e.notifyDate.value);
    }
  }

  /** An unsent notification whose time has not come shows as pending. */
  lemma {:induction false} NotYetDuePending(e: Event, now: Instant)
    requires e.notifyDate.Some? && !e.sent && !AtOrAfter(now, e.notifyDate.value)
    ensures Classify(e, now) == Pending
  {
    ComparisonsIgnoreMicros(now, e.notifyDate.value);
  }

  /** Left undelivered, a pending notification shows as failed once its minute has passed. */
  lemma {:induction false} PendingBecomesFailed(e: Event, now: Instant, later: Instant)
    requires Classify(e, now) == Pending
    requires ToSeconds(later.at) >= ToSeconds(e.notifyDate.value) + 60
    ensures Classify(e, later) == Failed
  {
  }

  /** An event a pass delivered with `Ok` shows the sent status from then on. */
  lemma {:induction false} DeliveredShowsSent(events: seq<Event>, now: Instant, outcomes: seq<Outcome>, i: nat, later: Instant)
    requires i < |events|
    requires Tick(events, now, Loaded, outcomes).attempted[i]
    requires OutcomeAt(outcomes, DueCount(events[..i], now)) == Ok
    ensures Classify(Tick(events, now, Loaded, outcomes).events[i], later) == SentStatus
  {
    SentOnlyOnOk(events, now, outcomes, i);
  }

  /**
   * An attempt that did not go out leaves the event unsent, so it shows
   * pending or failed until a later pass delivers it.
   */
  lemma {:induction false} UndeliveredShowsUnsent(events: seq<Event>, now: Instant, outcomes: seq<Outcome>, i: nat, later: Instant)
    requires i < |events|
    requires Tick(events, now, Loaded, outcomes).attempted[i]
    requires OutcomeAt(outcomes, DueCount(events[..i], now)) != Ok
    ensures Classify(Tick(events, now, Loaded, outcomes).events[i], later) in {Pending, Failed}
  {
    SentOnlyOnOk(events, now, outcomes, i);
  }

  /** The field lines of the details pane, before any status line. */
  function Details(e: Event): (lines: seq<string>)
    ensures |lines| == if e.notifyDate.Some? then 5 else 4
    ensures lines[0] == "Name: " + e.title && lines[1] == "Description: " + e.description
  {
    var fields := [
      "Name: " + e.title,
      "Description: " + e.description,
      "Date: " + Format(e.date),
      "Emails: " + Join(e.emails, ", ")
    ];
    match e.notifyDate
    case None => fields
    case Some(t) => fields + ["Notification date: " + Format(t)]
  }

  /** The dates in the details pane read back as the event's own timestamps. */
  lemma {:induction false} DetailsDatesRoundTrip(e: Event)
    ensures Parse(Details(e)[2][|"Date: "|..]) == Some(e.date)
    ensures e.notifyDate.Some? ==> Parse(Details(e)[4][|"Notification date: "|..]) == e.notifyDate
  {
    var lines := Details(e);
    assert lines[2][|"Date: "|..] == Format(e.date);
    ParseFormat(e.date);
    if e.notifyDate.Some? {
      assert lines[4][|"Notification date: "|..] == Format(e.notifyDate.value);
      ParseFormat(e.notifyDate.value);
    }
  }

  /** The recipients line reads back, through the form's parser, as the event's addresses. */
  lemma {:induction false} DetailsEmailsRoundTrip(e: Event)
    requires |e.emails| >= 1
    requires forall i :: 0 <= i < |e.emails| ==> CleanAddress(e.emails[i])
    ensures ParseEmails(Details(e)[3][|"Emails: "|..]) == e.emails
  {
    assert Details(e)[3][|"Emails: "|..] == Join(e.emails, ", ");
    ParseEmailsOfJoin(e.emails);
  }
}
