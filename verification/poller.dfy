/**
 * One pass of the notification poller (`send_notifications`), with a fixed
 * clock reading. What the mail service does is an input: one `Outcome` per
 * delivery, consumed in list order by the events the pass selects.
 */
module Poller {
  import opened Base
  import opened Timestamps
  import opened Events

  /**
   * What one delivery attempt comes to: the message went out; the send raised
   * the `HTTPError` the inner handler catches; or an exception reached the
   * outer handler, which ends the pass.
   */
  datatype Outcome = Ok | HttpErr | Abort

  /** Whether `credentials.json` loaded and the mail service could be built. */
  datatype Credentials = Loaded | LoadFailed

  /**
   * The selection test: a notification is scheduled, its time has come, and
   * it has not gone out. Its time has come once the clock's whole second
   * has reached it; the microseconds never matter.
   */
  predicate Due(e: Event, now: Instant)
    ensures Due(e, now) <==> e.notifyDate.Some? && !e.sent && ToSeconds(now.at) >= ToSeconds(e.notifyDate.value)
  {
    match e.notifyDate
    case None => false
    case Some(t) =>
      ComparisonsIgnoreMicros(now, t);
      AtOrAfter(now, t) && !e.sent
  }

  /** The outcome of the `k`-th delivery of the pass; an exhausted oracle reads as an abort. */
  function OutcomeAt(outcomes: seq<Outcome>, k: nat): Outcome {
    if k < |outcomes| then outcomes[k] else Abort
  }

  /** The list after a pass, which events it attempted to deliver, and whether it ended early. */
  datatype Pass = Pass(events: seq<Event>, attempted: seq<bool>, aborted: bool)

  /** What a pass may do to one event: nothing, or mark a due event sent. */
  predicate Step(before: Event, after: Event, attempted: bool, now: Instant) {
    && (attempted ==> Due(before, now))
    && (after == before || (attempted && after == before.(sent := true)))
  }

  function NoneAttempted(n: nat): (r: seq<bool>)
    ensures |r| == n && forall i :: 0 <= i < n ==> !r[i]
  {
    seq(n, _ => false)
  }

  /** Every event of `events` steps to the matching entry of `after` and `attempted`. */
  predicate StepsAll(events: seq<Event>, after: seq<Event>, attempted: seq<bool>, now: Instant)
    requires |after| == |events| && |attempted| == |events|
  {
    forall i :: 0 <= i < |events| ==> Step(events[i], after[i], attempted[i], now)
  }

  /** Steps for the head and for the tail give steps for the whole list. */
  lemma {:induction false} StepsCons(events: seq<Event>, a: Event, att: bool, rest: Pass, now: Instant)
    requires |events| > 0 && |rest.events| == |events| - 1 && |rest.attempted| == |events| - 1
    requires Step(events[0], a, att, now)
    requires StepsAll(events[1..], rest.events, rest.attempted, now)
    ensures StepsAll(events, [a] + rest.events, [att] + rest.attempted, now)
  {
    forall i | 1 <= i < |events|
      ensures Step(events[i], ([a] + rest.events)[i], ([att] + rest.attempted)[i], now)
    {
      assert events[i] == events[1..][i - 1];
    }
  }

  /** The `for event in self.events` loop, from the first event on. */
  function Sweep(events: seq<Event>, now: Instant, outcomes: seq<Outcome>): (p: Pass)
    ensures |p.events| == |events| && |p.attempted| == |events|
    ensures forall i :: 0 <= i < |events| ==> Step(events[i], p.events[i], p.attempted[i], now)
    decreases |events|
  {
    if events == [] then Pass([], [], false)
    else
      var e := events[0];
      if !Due(e, now) then
        var rest := Sweep(events[1..], now, outcomes);
        StepsCons(events, e, false, rest, now);
        Pass([e] + rest.events, [false] + rest.attempted, rest.aborted)
      else
        match OutcomeAt(outcomes, 0)
        case Abort => Pass(events, [true] + NoneAttempted(|events| - 1), true)
        case HttpErr =>
          var rest := Sweep(events[1..], now, outcomes[1..]);
          StepsCons(events, e, true, rest, now);
          Pass([e] + rest.events, [true] + rest.attempted, rest.aborted)
        case Ok =>
          var rest := Sweep(events[1..], now, outcomes[1..]);
          StepsCons(events, e.(sent := true), true, rest, now);
          Pass([e.(sent := true)] + rest.events, [true] + rest.attempted, rest.aborted)
  }

  /**
   * `send_notifications`: a credential failure abandons the pass before any
   * event is looked at; otherwise the events are swept in order.
   */
  function Tick(events: seq<Event>, now: Instant, creds: Credentials, outcomes: seq<Outcome>): (p: Pass)
    ensures |p.events| == |events| && |p.attempted| == |events|
    ensures forall i :: 0 <= i < |events| ==> Step(events[i], p.events[i], p.attempted[i], now)
    ensures creds == LoadFailed ==> p.events == events && forall i :: 0 <= i < |events| ==> !p.attempted[i]
    ensures forall i :: 0 <= i < |events| ==> (p.events[i].sent <==> events[i].sent || (p.attempted[i] && p.events[i] != events[i]))
    ensures Consistent(events) ==> Consistent(p.events)
  {
    if creds == LoadFailed then Pass(events, NoneAttempted(|events|), true)
    else Sweep(events, now, outcomes)
  }

  /** Number of due events in `events`: the outcomes a pass over them consumes if none aborts. */
  function DueCount(events: seq<Event>, now: Instant): (n: nat)
    ensures n <= |events|
  {
    if events == [] then 0 else (if Due(events[0], now) then 1 else 0) + DueCount(events[1..], now)
  }

  lemma {:induction false} DueCountAppend(a: seq<Event>, b: seq<Event>, now: Instant)
    ensures DueCount(a + b, now) == DueCount(a, now) + DueCount(b, now)
    decreases |a|
  {
    if a != [] {
      assert (a + b)[1..] == a[1..] + b;
      DueCountAppend(a[1..], b, now);
    } else {
      assert a + b == b;
    }
  }

  /** A later prefix holds every due event of an earlier one, plus event `i` itself when it is due. */
  lemma {:induction false} DueCountGrows(events: seq<Event>, now: Instant, i: nat, j: nat)
    requires i < j <= |events|
    ensures DueCount(events[..j], now) >= DueCount(events[..i], now) + (if Due(events[i], now) then 1 else 0)
  {
    assert events[..j] == events[..i] + ([events[i]] + events[i + 1..j]);
    DueCountAppend(events[..i], [events[i]] + events[i + 1..j], now);
    assert ([events[i]] + events[i + 1..j])[1..] == events[i + 1..j];
  }

  /** Event `i` is reached: no delivery for an earlier event aborted the pass. */
  predicate Reached(events: seq<Event>, now: Instant, outcomes: seq<Outcome>, i: nat)
    requires i <= |events|
  {
    forall k :: 0 <= k < DueCount(events[..i], now) ==> OutcomeAt(outcomes, k) != Abort
  }

  /** The event after a pass, given directly: delivered exactly when reached, due and answered `Ok`. */
  function Expected(events: seq<Event>, now: Instant, outcomes: seq<Outcome>, i: nat): Event
    requires i < |events|
  {
    if Due(events[i], now) && Reached(events, now, outcomes, i)
       && OutcomeAt(outcomes, DueCount(events[..i], now)) == Ok
    then events[i].(sent := true)
    else events[i]
  }

  lemma {:induction false} ReachedAfterSkipped(events: seq<Event>, now: Instant, outcomes: seq<Outcome>, i: nat)
    requires 0 < i <= |events| && !Due(events[0], now)
    ensures DueCount(events[..i], now) == DueCount(events[1..][..i - 1], now)
    ensures Reached(events, now, outcomes, i) <==> Reached(events[1..], now, outcomes, i - 1)
  {
    assert events[..i][1..] == events[1..][..i - 1];
  }

  lemma {:induction false} ReachedAfterDelivery(events: seq<Event>, now: Instant, outcomes: seq<Outcome>, i: nat)
    requires 0 < i <= |events| && Due(events[0], now) && OutcomeAt(outcomes, 0) != Abort
    ensures DueCount(events[..i], now) == 1 + DueCount(events[1..][..i - 1], now)
    ensures forall k :: 0 <= k ==> OutcomeAt(outcomes, k + 1) == OutcomeAt(outcomes[1..], k)
    ensures Reached(events, now, outcomes, i) <==> Reached(events[1..], now, outcomes[1..], i - 1)
  {
    assert events[..i][1..] == events[1..][..i - 1];
    var n := DueCount(events[1..][..i - 1], now);
    if Reached(events[1..], now, outcomes[1..], i - 1) {
      forall k | 0 <= k < 1 + n ensures OutcomeAt(outcomes, k) != Abort {
        if k > 0 {
          assert OutcomeAt(outcomes, k) == OutcomeAt(outcomes[1..], k - 1);
        }
      }
    }
    if Reached(events, now, outcomes, i) {
      forall k | 0 <= k < n ensures OutcomeAt(outcomes[1..], k) != Abort {
        assert OutcomeAt(outcomes, k + 1) == OutcomeAt(outcomes[1..], k);
      }
    }
  }

  /** The fold's answer at position `i` matches the direct description. */
  predicate AgreesAt(events: seq<Event>, now: Instant, outcomes: seq<Outcome>, i: nat)
    requires i < |events|
  {
    var p := Sweep(events, now, outcomes);
    && (p.attempted[i] <==> Due(events[i], now) && Reached(events, now, outcomes, i))
    && p.events[i] == Expected(events, now, outcomes, i)
  }

  lemma {:induction false} AgreesAtHead(events: seq<Event>, now: Instant, outcomes: seq<Outcome>)
    requires 0 < |events|
    ensures AgreesAt(events, now, outcomes, 0)
  {
    assert events[..0] == [];
  }

  lemma {:induction false} AgreesAfterSkipped(events: seq<Event>, now: Instant, outcomes: seq<Outcome>, i: nat)
    requires 0 < i < |events| && !Due(events[0], now)
    requires AgreesAt(events[1..], now, outcomes, i - 1)
    ensures AgreesAt(events, now, outcomes, i)
  {
    ReachedAfterSkipped(events, now, outcomes, i);
    var rest := Sweep(events[1..], now, outcomes);
    assert Sweep(events, now, outcomes).events[i] == rest.events[i - 1];
    assert Sweep(events, now, outcomes).attempted[i] == rest.attempted[i - 1];
    assert events[i] == events[1..][i - 1];
  }

  lemma {:induction false} AgreesAfterAbort(events: seq<Event>, now: Instant, outcomes: seq<Outcome>, i: nat)
    requires 0 < i < |events| && Due(events[0], now) && OutcomeAt(outcomes, 0) == Abort
    ensures AgreesAt(events, now, outcomes, i)
  {
    DueCountGrows(events, now, 0, i);
    assert events[..0] == [];
    assert !Reached(events, now, outcomes, i);
    var p := Sweep(events, now, outcomes);
    assert p.events == events;
    assert !p.attempted[i];
  }

  /** After a delivery that did not abort, the fold continues on the rest of the list and the rest of the oracle. */
  lemma {:induction false} SweepAfterDelivery(events: seq<Event>, now: Instant, outcomes: seq<Outcome>, i: nat)
    requires 0 < i < |events| && Due(events[0], now) && OutcomeAt(outcomes, 0) != Abort
    ensures Sweep(events, now, outcomes).events[i] == Sweep(events[1..], now, outcomes[1..]).events[i - 1]
    ensures Sweep(events, now, outcomes).attempted[i] == Sweep(events[1..], now, outcomes[1..]).attempted[i - 1]
  {
  }

  lemma {:induction false} ExpectedAfterDelivery(events: seq<Event>, now: Instant, outcomes: seq<Outcome>, i: nat)
    requires 0 < i < |events| && Due(events[0], now) && OutcomeAt(outcomes, 0) != Abort
    ensures Reached(events, now, outcomes, i) <==> Reached(events[1..], now, outcomes[1..], i - 1)
    ensures Expected(events, now, outcomes, i) == Expected(events[1..], now, outcomes[1..], i - 1)
  {
    ReachedAfterDelivery(events, now, outcomes, i);
    assert events[i] == events[1..][i - 1];
    assert OutcomeAt(outcomes, DueCount(events[..i], now))
        == OutcomeAt(outcomes[1..], DueCount(events[1..][..i - 1], now));
  }

  lemma {:induction false} AgreesAfterDelivery(events: seq<Event>, now: Instant, outcomes: seq<Outcome>, i: nat)
    requires 0 < i < |events| && Due(events[0], now) && OutcomeAt(outcomes, 0) != Abort
    requires AgreesAt(events[1..], now, outcomes[1..], i - 1)
    ensures AgreesAt(events, now, outcomes, i)
  {
    SweepAfterDelivery(events, now, outcomes, i);
    ExpectedAfterDelivery(events, now, outcomes, i);
    assert events[i] == events[1..][i - 1];
  }

  /**
   * The fold agrees with the direct description: event `i` is attempted iff
   * it is due and reached, and comes out as `Expected` says.
   */
  lemma {:induction false} SweepAt(events: seq<Event>, now: Instant, outcomes: seq<Outcome>, i: nat)
    requires i < |events|
    ensures AgreesAt(events, now, outcomes, i)
    decreases |events|
  {
    if i == 0 {
      AgreesAtHead(events, now, outcomes);
    } else if !Due(events[0], now) {
      SweepAt(events[1..], now, outcomes, i - 1);
      AgreesAfterSkipped(events, now, outcomes, i);
    } else if OutcomeAt(outcomes, 0) == Abort {
      AgreesAfterAbort(events, now, outcomes, i);
    } else {
      SweepAt(events[1..], now, outcomes[1..], i - 1);
      AgreesAfterDelivery(events, now, outcomes, i);
    }
  }

  /** A pass with credentials follows the direct description at every position. */
  lemma {:induction false} TickAt(events: seq<Event>, now: Instant, outcomes: seq<Outcome>, i: nat)
    requires i < |events|
    ensures Tick(events, now, Loaded, outcomes).attempted[i] <==> Due(events[i], now) && Reached(events, now, outcomes, i)
    ensures Tick(events, now, Loaded, outcomes).events[i] == Expected(events, now, outcomes, i)
  {
    SweepAt(events, now, outcomes, i);
  }

  /**
   * When no delivery aborts, a pass attempts delivery for exactly the due
   * events.
   */
  lemma {:induction false} AttemptsExactlyDue(events: seq<Event>, now: Instant, outcomes: seq<Outcome>)
    requires forall k :: 0 <= k < DueCount(events, now) ==> OutcomeAt(outcomes, k) != Abort
    ensures forall i :: 0 <= i < |events| ==> (Tick(events, now, Loaded, outcomes).attempted[i] <==> Due(events[i], now))
  {
    forall i | 0 <= i < |events|
      ensures Tick(events, now, Loaded, outcomes).attempted[i] <==> Due(events[i], now)
    {
      TickAt(events, now, outcomes, i);
      assert events[..|events|] == events;
      DueCountGrows(events, now, i, |events|);
    }
  }

  /**
   * An attempted delivery marks the event sent iff its outcome is `Ok`: an
   * `HttpErr` or an `Abort` leaves it unsent.
   */
  lemma {:induction false} SentOnlyOnOk(events: seq<Event>, now: Instant, outcomes: seq<Outcome>, i: nat)
    requires i < |events|
    requires Tick(events, now, Loaded, outcomes).attempted[i]
    ensures Tick(events, now, Loaded, outcomes).events[i].sent
        <==> OutcomeAt(outcomes, DueCount(events[..i], now)) == Ok
  {
    TickAt(events, now, outcomes, i);
  }

  /** After an `Abort`, no later event is attempted and every later event comes out unchanged. */
  lemma {:induction false} AbortEndsPass(events: seq<Event>, now: Instant, outcomes: seq<Outcome>, i: nat, j: nat)
    requires i < j < |events|
    requires Tick(events, now, Loaded, outcomes).attempted[i]
    requires OutcomeAt(outcomes, DueCount(events[..i], now)) == Abort
    ensures !Tick(events, now, Loaded, outcomes).attempted[j]
    ensures Tick(events, now, Loaded, outcomes).events[j] == events[j]
  {
    TickAt(events, now, outcomes, i);
    TickAt(events, now, outcomes, j);
    DueCountGrows(events, now, i, j);
  }

  /** Once sent, an event is never attempted again, at any later time and whatever the oracle. */
  lemma {:induction false} NoResend(events: seq<Event>, now: Instant, creds: Credentials, outcomes: seq<Outcome>,
                 later: Instant, creds': Credentials, outcomes': seq<Outcome>, i: nat)
    requires i < |events|
    requires Tick(events, now, creds, outcomes).events[i].sent
    ensures !Tick(Tick(events, now, creds, outcomes).events, later, creds', outcomes').attempted[i]
  {
  }

  /** An event whose notification time is still ahead of the clock's second is never attempted. */
  lemma {:induction false} NotYetDueSkipped(events: seq<Event>, now: Instant, creds: Credentials, outcomes: seq<Outcome>, i: nat)
    requires i < |events|
    requires events[i].notifyDate.Some? && ToSeconds(now.at) < ToSeconds(events[i].notifyDate.value)
    ensures !Tick(events, now, creds, outcomes).attempted[i]
    ensures Tick(events, now, creds, outcomes).events[i] == events[i]
  {
    ComparisonsIgnoreMicros(now, events[i].notifyDate.value);
  }
}
