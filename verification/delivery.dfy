/**
 * How the mail provider's replies inside one pass of `send_notifications`
 * turn into the poller's delivery outcomes: the userinfo request that names
 * the sender, and the Gmail `send` call with its exception handlers.
 */
module Delivery {
  import opened Base
  import opened Timestamps
  import opened Events
  import opened Poller

  /** The userinfo request: status 200 (its `name` is bound), another status, or an exception. */
  datatype UserInfoReply = InfoOk | InfoNotOk | InfoRaised

  /**
   * The Gmail send call: accepted; failed with the Google client's own
   * `HttpError`; failed with the `requests` library's `HTTPError`; or raised
   * anything else.
   */
  datatype SendReply = Accepted | ApiHttpError | RequestsHttpError | SendRaised

  /** The provider's replies to one selected event. */
  datatype Attempt = Attempt(info: UserInfoReply, send: SendReply)

  /**
   * The send call's handlers as written: `except HTTPError` names the
   * `requests` class, so the Google client's `HttpError` escapes to the outer
   * handler and ends the pass.
   */
  function SendOutcomeAsWritten(s: SendReply): (o: Outcome)
    ensures o == Ok <==> s == Accepted
    ensures o == HttpErr <==> s == RequestsHttpError
    ensures s == ApiHttpError ==> o == Abort
  {
    match s
    case Accepted => Ok
    case RequestsHttpError => HttpErr
    case ApiHttpError => Abort
    case SendRaised => Abort
  }

  /** The send call's handlers as intended: a provider HTTP error of either kind skips only this event. */
  function SendOutcome(s: SendReply): (o: Outcome)
    ensures o == Ok <==> s == Accepted
    ensures o == HttpErr <==> s == ApiHttpError || s == RequestsHttpError
    ensures o == Abort <==> s == SendRaised
  {
    match s
    case Accepted => Ok
    case RequestsHttpError => HttpErr
    case ApiHttpError => HttpErr
    case SendRaised => Abort
  }

  /**
   * The two handler sets part only on the Google client's `HttpError`: as
   * written it ends the pass, as intended it skips the one event.
   */
  lemma {:induction false} HandlersDifferOnlyOnApiError(s: SendReply)
    ensures SendOutcomeAsWritten(s) != SendOutcome(s) <==> s == ApiHttpError
    ensures s == ApiHttpError ==> SendOutcomeAsWritten(s) == Abort && SendOutcome(s) == HttpErr
  {
  }

  /** Which of the two handler mappings above a pass runs under. */
  datatype Handlers = AsWritten | Intended

  function HandleSend(h: Handlers, s: SendReply): Outcome {
    match h
    case AsWritten => SendOutcomeAsWritten(s)
    case Intended => SendOutcome(s)
  }

  /** The userinfo step lets the send go ahead: its request succeeded, or an earlier one bound `name`. */
  predicate NameAvailable(a: Attempt, nameBound: bool) {
    a.info == InfoOk || (a.info == InfoNotOk && nameBound)
  }

  /** Whether `name` is bound when attempt `k` starts: bound on entry, or by an earlier successful userinfo request. */
  predicate NameBoundBefore(attempts: seq<Attempt>, nameBound: bool, k: nat)
    requires k <= |attempts|
  {
    nameBound || exists j :: 0 <= j < k && attempts[j].info == InfoOk
  }

  /** What attempt `k` comes to, given whether `name` is bound when it starts. */
  function OutcomeOf(a: Attempt, bound: bool, h: Handlers): Outcome {
    if NameAvailable(a, bound) then HandleSend(h, a.send) else Abort
  }

  /** Dropping the first attempt moves its userinfo reply into the flag. */
  lemma {:induction false} NameBoundShift(attempts: seq<Attempt>, nameBound: bool, k: nat)
    requires 1 <= k <= |attempts|
    ensures NameBoundBefore(attempts[1..], nameBound || attempts[0].info == InfoOk, k - 1)
        <==> NameBoundBefore(attempts, nameBound, k)
  {
    var rest := attempts[1..];
    if j :| 0 <= j < k && attempts[j].info == InfoOk {
      if j > 0 {
        assert rest[j - 1].info == InfoOk;
      }
    }
    if j :| 0 <= j < k - 1 && rest[j].info == InfoOk {
      assert attempts[j + 1].info == InfoOk;
    }
  }

  /**
   * The outcomes of a pass's attempts in order. `name` is bound by the first
   * successful userinfo request and stays bound for the rest of the pass; a
   * non-200 reply before that leaves it unbound, and building the message
   * then raises `NameError`. Otherwise the send handlers decide.
   */
  function Outcomes(attempts: seq<Attempt>, nameBound: bool, h: Handlers): (r: seq<Outcome>)
    ensures |r| == |attempts|
    ensures forall k :: 0 <= k < |attempts| && attempts[k].info == InfoRaised ==> r[k] == Abort
    ensures forall k :: 0 <= k < |attempts| ==> r[k] == OutcomeOf(attempts[k], NameBoundBefore(attempts, nameBound, k), h)
    decreases |attempts|
  {
    if attempts == [] then []
    else
      var a := attempts[0];
      var nb := nameBound || a.info == InfoOk;
      var rest := Outcomes(attempts[1..], nb, h);
      var r := [OutcomeOf(a, nameBound, h)] + rest;
      assert forall k :: 1 <= k < |attempts| ==> r[k] == OutcomeOf(attempts[k], NameBoundBefore(attempts, nameBound, k), h) by {
        forall k | 1 <= k < |attempts|
          ensures r[k] == OutcomeOf(attempts[k], NameBoundBefore(attempts, nameBound, k), h)
        {
          NameBoundShift(attempts, nameBound, k);
          assert attempts[1..][k - 1] == attempts[k];
        }
      }
      r
  }

  /**
   * One pass with the provider's replies given per attempt, under handler set
   * `h`: `AsWritten` is the program's pass, `Intended` the corrected one.
   */
  function Poll(events: seq<Event>, now: Instant, creds: Credentials, attempts: seq<Attempt>, h: Handlers): (p: Pass)
    ensures |p.events| == |events| && |p.attempted| == |events|
    ensures forall i :: 0 <= i < |events| ==> Step(events[i], p.events[i], p.attempted[i], now)
  {
    Tick(events, now, creds, Outcomes(attempts, false, h))
  }

  /** No attempt raises outside the HTTP handlers. */
  predicate Orderly(attempts: seq<Attempt>) {
    forall k :: 0 <= k < |attempts| ==> attempts[k].info != InfoRaised && attempts[k].send != SendRaised
  }

  /**
   * Under the intended handlers, orderly replies never abort once the first
   * userinfo request has bound the sender's name.
   */
  lemma {:induction false} OrderlyNeverAborts(attempts: seq<Attempt>, nameBound: bool)
    requires Orderly(attempts)
    requires nameBound || (|attempts| > 0 ==> attempts[0].info == InfoOk)
    ensures forall k :: 0 <= k < |attempts| ==> Outcomes(attempts, nameBound, Intended)[k] != Abort
    decreases |attempts|
  {
    if attempts != [] {
      var a := attempts[0];
      var rest := attempts[1..];
      assert a.info != InfoRaised && a.send != SendRaised;
      OrderlyNeverAborts(rest, nameBound || a.info == InfoOk);
      var r := Outcomes(attempts, nameBound, Intended);
      assert r[1..] == Outcomes(rest, nameBound || a.info == InfoOk, Intended);
      forall k | 1 <= k < |attempts| ensures r[k] != Abort {
        assert r[k] == r[1..][k - 1];
      }
    }
  }

  /**
   * The intended behaviour: when the first userinfo request succeeds and
   * nothing raises, a pass attempts every due event, whatever HTTP errors
   * the Gmail API answers with.
   */
  lemma {:induction false} PollAttemptsEveryDueEvent(events: seq<Event>, now: Instant, attempts: seq<Attempt>)
    requires Orderly(attempts) && |attempts| >= DueCount(events, now)
    requires |attempts| > 0 ==> attempts[0].info == InfoOk
    ensures forall i :: 0 <= i < |events| ==> (Poll(events, now, Loaded, attempts, Intended).attempted[i] <==> Due(events[i], now))
  {
    var outcomes := Outcomes(attempts, false, Intended);
    OrderlyNeverAborts(attempts, false);
    AttemptsExactlyDue(events, now, outcomes);
  }

  /**
   * As written, one Gmail API error ends the pass: every later event, due or
   * not, is left unattempted and unchanged until the next tick.
   */
  lemma {:induction false} ApiErrorEndsPassAsWritten(events: seq<Event>, now: Instant, attempts: seq<Attempt>, i: nat, j: nat)
    requires i < j < |events|
    requires Poll(events, now, Loaded, attempts, AsWritten).attempted[i]
    requires DueCount(events[..i], now) < |attempts| && attempts[DueCount(events[..i], now)].send == ApiHttpError
    ensures !Poll(events, now, Loaded, attempts, AsWritten).attempted[j]
  {
    var outcomes := Outcomes(attempts, false, AsWritten);
    var k := DueCount(events[..i], now);
    ApiErrorAbortsAsWritten(attempts, false, k);
    assert OutcomeAt(outcomes, k) == Abort;
    AbortEndsPass(events, now, outcomes, i, j);
  }

  /** As written, an attempt whose send fails with the Google client's `HttpError` aborts. */
  lemma {:induction false} ApiErrorAbortsAsWritten(attempts: seq<Attempt>, nameBound: bool, k: nat)
    requires k < |attempts| && attempts[k].send == ApiHttpError
    ensures Outcomes(attempts, nameBound, AsWritten)[k] == Abort
    decreases k
  {
    if k > 0 {
      var b' := nameBound || attempts[0].info == InfoOk;
      ApiErrorAbortsAsWritten(attempts[1..], b', k - 1);
      assert Outcomes(attempts, nameBound, AsWritten)[k]
          == Outcomes(attempts[1..], b', AsWritten)[k - 1];
    }
  }

  /**
   * Two due events, and a Gmail API error on the first send: as written the
   * second event is never attempted in that pass, while the intended
   * handlers go on to deliver it.
   */
  lemma {:induction false} ApiErrorStrandsSecondEvent(e0: Event, e1: Event, now: Instant)
    requires Due(e0, now) && Due(e1, now)
    ensures !Poll([e0, e1], now, Loaded, [Attempt(InfoOk, ApiHttpError), Attempt(InfoOk, Accepted)], AsWritten).attempted[1]
    ensures Poll([e0, e1], now, Loaded, [Attempt(InfoOk, ApiHttpError), Attempt(InfoOk, Accepted)], Intended).events[1] == e1.(sent := true)
  {
    var events := [e0, e1];
    var attempts := [Attempt(InfoOk, ApiHttpError), Attempt(InfoOk, Accepted)];
    var written := Outcomes(attempts, false, AsWritten);
    var intended := Outcomes(attempts, false, Intended);
    assert written[0] == Abort;
    assert attempts[1..] == [Attempt(InfoOk, Accepted)];
    assert intended[0] == HttpErr && intended[1..] == [Ok];
    TickAt(events, now, written, 0);
    TickAt(events, now, written, 1);
    TickAt(events, now, intended, 1);
    assert events[..0] == [] && events[..1] == [e0];
  }
}
