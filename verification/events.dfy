/**
 `addEvent`: builds the event record from an associative array without
 storing it anywhere.

 Reading `$event['title']` or `$event['date']` when the key is missing raises
 PHP's "Undefined array key" warning, which the Laravel error handler the
 package runs under turns into an `ErrorException`. The array literal is
 evaluated in order, so a missing `title` is reported before a missing `date`.
 `$event['repeat'] ?? 'none'` reads its key without a warning.
 */
module Events {

  datatype Option<T> = None | Some(value: T)

  /** The exception `addEvent` ends with instead of returning. */
  datatype EventError = UndefinedKey(key: string)

  datatype Result<T> = Success(value: T) | Failure(error: EventError)

  /** The array returned by `addEvent`. */
  datatype EventRecord = EventRecord(title: string, date: string, repeat: string)

  /** The PHP array entry under `key`, `None` when there is none. */
  function Entry(event: map<string, string>, key: string): Option<string>
  {
    if key in event then Some(event[key]) else None
  }

  /** `title` and `date` are copied and must be present; `repeat` defaults to
      `"none"` through `??`. */
  function AddEvent(event: map<string, string>): (r: Result<EventRecord>)
    ensures r.Success? <==> "title" in event && "date" in event
    ensures "title" !in event ==> r == Failure(UndefinedKey("title"))
    ensures "title" in event && "date" !in event ==> r == Failure(UndefinedKey("date"))
    ensures r.Success? ==> r.value.title == event["title"] && r.value.date == event["date"]
    ensures r.Success? && "repeat" in event ==> r.value.repeat == event["repeat"]
    ensures r.Success? && "repeat" !in event ==> r.value.repeat == "none"
  {
    match (Entry(event, "title"), Entry(event, "date"))
    case (None, _) => Failure(UndefinedKey("title"))
    case (Some(_), None) => Failure(UndefinedKey("date"))
    case (Some(title), Some(date)) =>
      Success(EventRecord(title, date, match Entry(event, "repeat") case Some(r) => r case None => "none"))
  }

  /** Only the three keys are read: arrays that agree on them give the same outcome. */
  lemma AddEventReadsOnlyItsKeys(e1: map<string, string>, e2: map<string, string>)
    requires forall k :: k in {"title", "date", "repeat"} ==> Entry(e1, k) == Entry(e2, k)
    ensures AddEvent(e1) == AddEvent(e2)
  {
    assert Entry(e1, "title") == Entry(e2, "title");
    assert Entry(e1, "date") == Entry(e2, "date");
    assert Entry(e1, "repeat") == Entry(e2, "repeat");
  }

  /** Keys other than the three never change the outcome. */
  lemma AddEventIgnoresOtherKeys(event: map<string, string>, key: string, value: string)
    requires key != "title" && key != "date" && key != "repeat"
    ensures AddEvent(event[key := value]) == AddEvent(event)
  {
    AddEventReadsOnlyItsKeys(event[key := value], event);
  }
}
