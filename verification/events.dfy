/**
 * The planner's `Event` record and the dictionary form in which the event
 * list is persisted (`Event.serialize` / `Event.deserialize`).
 */
module Events {
  import opened Base
  import opened Timestamps
  import opened TimeFormat

  /**
   * One planned event. `notifyDate` is `None` when no notification is
   * scheduled; `sent` records that the notification went out.
   */
  datatype Event = Event(
    title: string,
    description: string,
    date: Timestamp,
    emails: seq<string>,
    notifyDate: Option<Timestamp>,
    sent: bool)

  /**
   * The dictionary an event is persisted as. Dates are text; a `None`
   * `notifyDate` is JSON null.
   */
  datatype Record = Record(
    title: string,
    description: string,
    date: string,
    emails: seq<string>,
    notifyDate: Option<string>,
    sent: bool)

  /** The whole-list invariant the poller keeps: only a scheduled notification can have been sent. */
  predicate SentHasNotifyDate(e: Event) {
    e.sent ==> e.notifyDate.Some?
  }

  /** Every event of the list satisfies `SentHasNotifyDate`. */
  predicate Consistent(events: seq<Event>) {
    forall i :: 0 <= i < |events| ==> SentHasNotifyDate(events[i])
  }

  /** `Event.serialize`. */
  function Serialize(e: Event): (r: Record)
    ensures WellFormed(r.date)
    ensures r.notifyDate.None? <==> e.notifyDate.None?
    ensures r.notifyDate.Some? ==> WellFormed(r.notifyDate.value)
    ensures r.title == e.title && r.description == e.description && r.emails == e.emails && r.sent == e.sent
  {
    Record(
      e.title,
      e.description,
      Format(e.date),
      e.emails,
      match e.notifyDate case None => None case Some(t) => Some(Format(t)),
      e.sent)
  }

  /**
   * `Event.deserialize`: `None` where `strptime` raises. A null or empty
   * `notify_date` is read as no notification.
   */
  function Deserialize(r: Record): (e: Option<Event>)
    ensures e.Some? ==> (&& e.value.title == r.title && e.value.description == r.description
                         && e.value.emails == r.emails && e.value.sent == r.sent)
    ensures e.Some? ==> (e.value.notifyDate.None? <==> r.notifyDate.None? || r.notifyDate.value == "")
    ensures e.Some? <==> Parse(r.date).Some? && (r.notifyDate.Some? && r.notifyDate.value != "" ==> Parse(r.notifyDate.value).Some?)
  {
    match Parse(r.date)
    case None => None
    case Some(date) =>
      if r.notifyDate.None? || r.notifyDate.value == "" then
        Some(Event(r.title, r.description, date, r.emails, None, r.sent))
      else
        match Parse(r.notifyDate.value)
        case None => None
        case Some(notify) => Some(Event(r.title, r.description, date, r.emails, Some(notify), r.sent))
  }

  /** Deserialising a serialised event gives it back, with or without a notification date. */
  lemma {:induction false} DeserializeSerialize(e: Event)
    ensures Deserialize(Serialize(e)) == Some(e)
  {
    ParseFormat(e.date);
    if e.notifyDate.Some? {
      ParseFormat(e.notifyDate.value);
    }
  }

  /** A record with an empty-string `notify_date` is read back as written with null. */
  function Canonical(r: Record): Record {
    if r.notifyDate == Some("") then r.(notifyDate := None) else r
  }

  /**
   * Every record that deserialises is, up to writing an empty `notify_date`
   * as null, exactly the serialisation of what it deserialised to.
   */
  lemma {:induction false} SerializeDeserialize(r: Record)
    requires Deserialize(r).Some?
    ensures Serialize(Deserialize(r).value) == Canonical(r)
  {
    FormatParse(r.date);
    if r.notifyDate.Some? && r.notifyDate.value != "" {
      FormatParse(r.notifyDate.value);
    }
  }

  /** What `save_events_to_file` writes: every event serialised, in order. */
  function SerializeAll(events: seq<Event>): (rs: seq<Record>)
    ensures |rs| == |events|
    ensures forall i :: 0 <= i < |events| ==> rs[i] == Serialize(events[i])
  {
    if events == [] then [] else [Serialize(events[0])] + SerializeAll(events[1..])
  }

  /**
   * `[Event.deserialize(d) for d in events_data]`: one malformed record
   * fails the whole load.
   */
  function DeserializeAll(rs: seq<Record>): (r: Option<seq<Event>>)
    ensures r.Some? <==> forall i :: 0 <= i < |rs| ==> Deserialize(rs[i]).Some?
    ensures r.Some? ==> |r.value| == |rs| && forall i :: 0 <= i < |rs| ==> Some(r.value[i]) == Deserialize(rs[i])
  {
    if rs == [] then Some([])
    else
      match Deserialize(rs[0])
      case None => None
      case Some(e) =>
        match DeserializeAll(rs[1..])
        case None => None
        case Some(es) => Some([e] + es)
  }

  /** Loading a non-empty list is loading its head, then its tail. */
  lemma {:induction false} DeserializeAllCons(rs: seq<Record>, es: seq<Event>)
    requires |rs| > 0 && |es| > 0 && Deserialize(rs[0]) == Some(es[0]) && DeserializeAll(rs[1..]) == Some(es[1..])
    ensures DeserializeAll(rs) == Some(es)
  {
    assert es == [es[0]] + es[1..];
  }

  /** Saving a non-empty list is saving its head, then its tail. */
  lemma {:induction false} SerializeAllCons(events: seq<Event>)
    requires |events| > 0
    ensures SerializeAll(events)[0] == Serialize(events[0])
    ensures SerializeAll(events)[1..] == SerializeAll(events[1..])
  {
  }

  /** One step of the round trip: the head survives it, and the tail is done by induction. */
  lemma {:induction false} DeserializeAllSerializeAllStep(events: seq<Event>)
    requires |events| > 0 && DeserializeAll(SerializeAll(events[1..])) == Some(events[1..])
    ensures DeserializeAll(SerializeAll(events)) == Some(events)
  {
    var rs := SerializeAll(events);
    SerializeAllCons(events);
    DeserializeSerialize(events[0]);
    DeserializeAllCons(rs, events);
  }

  /** Saving the event list and loading it back restores it exactly. */
  lemma {:induction false} DeserializeAllSerializeAll(events: seq<Event>)
    ensures DeserializeAll(SerializeAll(events)) == Some(events)
    decreases |events|
  {
    if events != [] {
      DeserializeAllSerializeAll(events[1..]);
      DeserializeAllSerializeAllStep(events);
    }
  }
}
