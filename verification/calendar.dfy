/**
 * The in-memory event store of cmd/calendar/main.go. Each HTTP handler is a
 * pure transition from the store and the request to the new store and the
 * reply. The request reaches a handler already decoded: the form body as
 * url.Values (or the error reading it gave), `time.Parse` as a parameter,
 * and `time.Now()` as a clock value.
 */
module Calendar {
  import opened Wrappers
  import Decimal
  import opened Event

  /** A decoded form body: every key with its values in order. */
  type Values = map<string, seq<string>>

  /** url.Values.Get: the first value stored under key, or "" when there is none. */
  function Get(values: Values, key: string): (v: string)
    ensures key in values && 0 < |values[key]| ==> v == values[key][0]
    ensures key !in values || |values[key]| == 0 ==> v == ""
  {
    if key in values && 0 < |values[key]| then values[key][0] else ""
  }

  /** `time.Parse("2006-01-02", ·)`, reduced to the date it yields or its failure. */
  type DateParser = string -> Option<CalendarDate>

  const InvalidUserID := "invalid user_id"
  const InvalidDate := "invalid date format, expected YYYY-MM-DD"

  /**
   * parseEventParams: a body error is passed on as it is; then user_id must
   * pass strconv.Atoi and date must parse, in that order.
   */
  function ParseEventParams(body: Result<Values, string>, parseDate: DateParser): (r: Result<Event, string>)
    ensures body.Failure? ==> r == Failure(body.error)
    ensures body.Success? && Decimal.Atoi(Get(body.value, "user_id")).None? ==> r == Failure(InvalidUserID)
    ensures body.Success? && Decimal.Atoi(Get(body.value, "user_id")).Some?
            ==> (r == Failure(InvalidDate) <==> parseDate(Get(body.value, "date")).None?)
    ensures r.Success? ==> body.Success?
                           && Decimal.Atoi(Get(body.value, "user_id")) == Some(r.value.userID)
                           && parseDate(Get(body.value, "date")) == Some(r.value.date)
    ensures body.Success? && Decimal.Atoi(Get(body.value, "user_id")).Some? && parseDate(Get(body.value, "date")).Some?
            ==> r == Success(Event(Decimal.Atoi(Get(body.value, "user_id")).value, parseDate(Get(body.value, "date")).value))
  {
    if body.Failure? then Failure(body.error)
    else
      var userID := Decimal.Atoi(Get(body.value, "user_id"));
      if userID.None? then Failure(InvalidUserID)
      else
        var date := parseDate(Get(body.value, "date"));
        if date.None? then Failure(InvalidDate)
        else Success(New(userID.value, date.value))
  }

  /** A form carrying a printed user id and a parsable date decodes to that event. */
  lemma ParseEventParamsReadsForm(values: Values, parseDate: DateParser, userID: int, date: CalendarDate)
    requires Decimal.MinInt64 <= userID <= Decimal.MaxInt64
    requires "user_id" in values && 0 < |values["user_id"]| && values["user_id"][0] == Decimal.IntToString(userID)
    requires parseDate(Get(values, "date")) == Some(date)
    ensures ParseEventParams(Success(values), parseDate) == Success(Event(userID, date))
  {
    Decimal.AtoiIntToString(userID);
  }

  /** Atoi's leading zeros and plus sign are accepted: "007" and "+7" both name user 7. */
  lemma UnprintedUserID(parseDate: DateParser, date: CalendarDate)
    requires parseDate("2025-10-22") == Some(date)
    ensures ParseEventParams(Success(map["user_id" := ["007"], "date" := ["2025-10-22"]]), parseDate)
            == Success(Event(7, date))
    ensures ParseEventParams(Success(map["user_id" := ["+7"], "date" := ["2025-10-22"]]), parseDate)
            == Success(Event(7, date))
  {
    var zeros := map["user_id" := ["007"], "date" := ["2025-10-22"]];
    var plus := map["user_id" := ["+7"], "date" := ["2025-10-22"]];
    assert Get(zeros, "user_id") == "007" && Get(zeros, "date") == "2025-10-22";
    assert Get(plus, "user_id") == "+7" && Get(plus, "date") == "2025-10-22";
    assert Decimal.Unsigned("007") == "007" && Decimal.AllDigits("007");
    assert Decimal.ValueOf("007") == 7 by {
      assert "007"[..2] == "00" && "00"[..1] == "0" && "0"[..0] == "";
    }
    assert Decimal.Unsigned("+7") == "7" && Decimal.AllDigits("7");
    assert Decimal.ValueOf("7") == 7 by {
      assert "7"[..0] == "";
    }
  }

  /** A user id that is not a number is refused before the date is looked at. */
  lemma NonNumericUserID(parseDate: DateParser)
    ensures ParseEventParams(Success(map["user_id" := ["abc"], "date" := ["2025-10-22"]]), parseDate)
            == Failure(InvalidUserID)
  {
    var values := map["user_id" := ["abc"], "date" := ["2025-10-22"]];
    assert Get(values, "user_id") == "abc";
    assert !Decimal.IsDigit("abc"[0]);
  }

  const StatusBadRequest := 400
  const StatusServiceUnavailable := 503
  const NotFound := "event not found"

  /** What a handler answers: a success payload, or an HTTP status with an error message. */
  datatype Reply<+T> = Ok(result: T) | Error(status: int, message: string)

  type Store = seq<Event>

  /** The store after a mutating handler, and its reply. */
  datatype Outcome = Outcome(store: Store, reply: Reply<string>)

  /** The handlers' match test: same user id and same date. */
  predicate SameEvent(a: Event, b: Event) {
    a.userID == b.userID && a.date == b.date
  }

  /** An event is nothing but its user id and date, so the match test is equality. */
  lemma SameEventIsEquality(a: Event, b: Event)
    ensures SameEvent(a, b) <==> a == b
  {
  }

  /** Position of the first stored event at or after `from` matching e, or -1. */
  function FindFrom(store: Store, e: Event, from: nat): (i: int)
    requires from <= |store|
    ensures i == -1 || (from <= i < |store| && SameEvent(store[i], e))
    ensures forall j :: from <= j < |store| && (i == -1 || j < i) ==> !SameEvent(store[j], e)
    decreases |store| - from
  {
    if from == |store| then -1
    else if SameEvent(store[from], e) then from
    else FindFrom(store, e, from + 1)
  }

  /** The handlers' range loop: the first matching position, or -1 when e is not stored. */
  function FindEvent(store: Store, e: Event): (i: int)
    ensures i == -1 <==> e !in store
    ensures i != -1 ==> 0 <= i < |store| && store[i] == e && e !in store[..i]
  {
    var i := FindFrom(store, e, 0);
    assert i != -1 ==> forall j :: 0 <= j < i ==> store[..i][j] == store[j];
    i
  }

  /** createEventHandler: a parsed event is appended after everything stored, duplicates included. */
  function CreateEvent(store: Store, request: Result<Event, string>): (o: Outcome)
    ensures request.Failure? ==> o == Outcome(store, Error(StatusBadRequest, request.error))
    ensures request.Success? ==> o.reply == Ok("event created")
    ensures request.Success? ==> |o.store| == |store| + 1 && o.store[..|store|] == store
                                 && o.store[|store|] == request.value
  {
    if request.Failure? then Outcome(store, Error(StatusBadRequest, request.error))
    else Outcome(store + [request.value], Ok("event created"))
  }

  /**
   * updateEventHandler: the first matching event is overwritten with the
   * request's event. That event equals the one it replaces, so the store
   * never changes; the reply says whether a match was found.
   */
  function UpdateEvent(store: Store, request: Result<Event, string>): (o: Outcome)
    ensures o.store == store
    ensures request.Failure? ==> o.reply == Error(StatusBadRequest, request.error)
    ensures request.Success? ==> (o.reply == Ok("event updated") <==> request.value in store)
    ensures request.Success? && request.value !in store ==> o.reply == Error(StatusBadRequest, NotFound)
  {
    if request.Failure? then Outcome(store, Error(StatusBadRequest, request.error))
    else
      var e := request.value;
      var i := FindEvent(store, e);
      if i < 0 then Outcome(store, Error(StatusBadRequest, NotFound))
      else Outcome(store[i := e], Ok("event updated"))
  }

  /**
   * deleteEventHandler: the first matching event is cut out and the rest
   * keep their order; without a match the store stays as it is and the
   * reply is 503.
   */
  function DeleteEvent(store: Store, request: Result<Event, string>): (o: Outcome)
    ensures request.Failure? ==> o == Outcome(store, Error(StatusBadRequest, request.error))
    ensures request.Success? && request.value !in store ==> o == Outcome(store, Error(StatusServiceUnavailable, NotFound))
    ensures request.Success? && request.value in store ==>
              && o.reply == Ok("event deleted")
              && |o.store| == |store| - 1
              && multiset(o.store) == multiset(store) - multiset{request.value}
              && exists i :: 0 <= i < |store| && store[i] == request.value && request.value !in store[..i]
                             && o.store == store[..i] + store[i + 1..]
  {
    if request.Failure? then Outcome(store, Error(StatusBadRequest, request.error))
    else
      var e := request.value;
      var i := FindEvent(store, e);
      if i < 0 then Outcome(store, Error(StatusServiceUnavailable, NotFound))
      else
        assert store == store[..i] + [e] + store[i + 1..];
        Outcome(store[..i] + store[i + 1..], Ok("event deleted"))
  }

  /** Deleting what was just created gives back the store, whenever the event was not already stored. */
  lemma DeleteUndoesCreate(store: Store, e: Event)
    requires e !in store
    ensures DeleteEvent(CreateEvent(store, Success(e)).store, Success(e)) == Outcome(store, Ok("event deleted"))
  {
    var s := store + [e];
    assert FindEvent(s, e) == |store| by {
      assert s[..|store|] == store;
    }
    assert s[..|store|] == store;
    assert s[|store| + 1..] == [];
  }

  /** Create then delete of the same event leaves the same multiset of events, duplicates or not. */
  lemma DeleteAfterCreateKeepsContents(store: Store, e: Event)
    ensures multiset(DeleteEvent(CreateEvent(store, Success(e)).store, Success(e)).store) == multiset(store)
  {
    var s := store + [e];
    assert e in s by {
      assert s[|store|] == e;
    }
  }

  /** An update right after a create always finds the created event. */
  lemma UpdateAfterCreateFinds(store: Store, e: Event)
    ensures UpdateEvent(CreateEvent(store, Success(e)).store, Success(e)).reply == Ok("event updated")
  {
    var s := store + [e];
    assert s[|store|] == e;
  }

  /** The update and delete scenarios against a store holding one event on 2025-11-22. */
  lemma SingleEventScenarios()
    ensures UpdateEvent([Event(1, Date(2025, 11, 22))], Success(Event(1, Date(2025, 11, 22)))).reply
            == Ok("event updated")
    ensures DeleteEvent([Event(1, Date(2025, 11, 22))], Success(Event(1, Date(2025, 11, 22))))
            == Outcome([], Ok("event deleted"))
    ensures DeleteEvent([Event(1, Date(2025, 11, 22))], Success(Event(2, Date(2025, 11, 22))))
            == Outcome([Event(1, Date(2025, 11, 22))], Error(StatusServiceUnavailable, NotFound))
  {
    var e := Event(1, Date(2025, 11, 22));
    assert [e][0] == e;
    assert [e][..0] + [e][1..] == [];
  }

  /** time.Weekday: Sunday is 0, Saturday is 6. */
  type Weekday = w: int | 0 <= w <= 6

  /** The moment `time.Now()` returns, as its date and day of the week. */
  datatype Clock = Clock(today: CalendarDate, weekday: Weekday)

  datatype Period = Day | Week | Month

  const MissingPeriod := "missing period parameter"
  const InvalidPeriod := "invalid period, expected: day, week, month"

  /** The handler's reading of the period query parameter. */
  function ParsePeriod(raw: string): (r: Result<Period, string>)
    ensures raw == "" ==> r == Failure(MissingPeriod)
    ensures r == Success(Day) <==> raw == "day"
    ensures r == Success(Week) <==> raw == "week"
    ensures r == Success(Month) <==> raw == "month"
    ensures r.Failure? && raw != "" ==> r.error == InvalidPeriod
  {
    if raw == "" then Failure(MissingPeriod)
    else if raw == "day" then Success(Day)
    else if raw == "week" then Success(Week)
    else if raw == "month" then Success(Month)
    else Failure(InvalidPeriod)
  }

  /** The condition getEventsHandler writes out inline for each period. */
  predicate InPeriod(p: Period, e: Event, now: Clock)
    ensures InPeriod(p, e, now) ==> e.date.year == now.today.year
    ensures p == Day ==> (InPeriod(p, e, now) <==> e.date == now.today)
    ensures p == Week && InPeriod(p, e, now) ==> YearDay(e.date) <= YearDay(now.today)
  {
    DayMeansSameDate(e, now.today);
    match p
    case Day => e.date.year == now.today.year && YearDay(e.date) == YearDay(now.today)
    case Week =>
      && e.date.year == now.today.year
      && YearDay(e.date) >= YearDay(now.today) - now.weekday
      && YearDay(e.date) <= YearDay(now.today)
    case Month => e.date.year == now.today.year && e.date.month == now.today.month
  }

  /** The handler's inline conditions are the predicates of the event package, applied to now. */
  lemma InPeriodIsEventPredicate(e: Event, now: Clock)
    ensures InPeriod(Day, e, now) == IncludeInDay(e, now.today.year, YearDay(now.today))
    ensures InPeriod(Week, e, now) == IncludeInWeek(e, now.today.year, YearDay(now.today), now.weekday)
    ensures InPeriod(Month, e, now) == IncludeInMonth(e, now.today.year, now.today.month)
  {
  }

  /** The events that pass keep, in store order. */
  function Filter(store: Store, keep: Event -> bool): (r: seq<Event>)
    ensures |r| <= |store|
    ensures forall e :: multiset(r)[e] == if keep(e) then multiset(store)[e] else 0
    ensures forall e :: e in r <==> e in store && keep(e)
  {
    if |store| == 0 then []
    else
      var init := store[..|store| - 1];
      var last := store[|store| - 1];
      assert store == init + [last];
      Filter(init, keep) + (if keep(last) then [last] else [])
  }

  /** Filtering a store with one more event at the end. */
  lemma FilterSnoc(s: Store, x: Event, keep: Event -> bool)
    ensures Filter(s + [x], keep) == Filter(s, keep) + if keep(x) then [x] else []
  {
    assert (s + [x])[..|s|] == s;
  }

  /** Filtering commutes with concatenation: the filter keeps the store's order. */
  lemma {:induction false} FilterAppend(s: Store, t: Store, keep: Event -> bool)
    ensures Filter(s + t, keep) == Filter(s, keep) + Filter(t, keep)
    decreases |t|
  {
    if |t| == 0 {
      assert s + t == s;
    } else {
      var init := t[..|t| - 1];
      var last := t[|t| - 1];
      var tail := if keep(last) then [last] else [];
      assert t == init + [last];
      assert s + t == (s + init) + [last];
      calc {
        Filter(s + t, keep);
      == { FilterSnoc(s + init, last, keep); }
        Filter(s + init, keep) + tail;
      == { FilterAppend(s, init, keep); }
        (Filter(s, keep) + Filter(init, keep)) + tail;
      ==
        Filter(s, keep) + (Filter(init, keep) + tail);
      == { FilterSnoc(init, last, keep); }
        Filter(s, keep) + Filter(t, keep);
      }
    }
  }

  /** A filter that keeps every stored event returns the store itself. */
  lemma {:induction false} FilterKeepsAll(store: Store, keep: Event -> bool)
    requires forall e :: e in store ==> keep(e)
    ensures Filter(store, keep) == store
  {
    if |store| > 0 {
      var init := store[..|store| - 1];
      var last := store[|store| - 1];
      assert store == init + [last];
      assert keep(last) by {
        assert last in store;
      }
      assert forall e :: e in init ==> e in store;
      FilterKeepsAll(init, keep);
      FilterSnoc(init, last, keep);
    }
  }


  /**
   * getEventsHandler: a missing or unknown period is a 400; otherwise the
   * stored events in that period around now, in store order.
   */
  function GetEvents(store: Store, period: string, now: Clock): (r: Reply<seq<Event>>)
    ensures period == "" ==> r == Error(StatusBadRequest, MissingPeriod)
    ensures (period != "" && period != "day" && period != "week" && period != "month")
            ==> r == Error(StatusBadRequest, InvalidPeriod)
    ensures r.Ok? <==> period == "day" || period == "week" || period == "month"
    ensures r.Ok? ==> |r.result| <= |store|
    ensures r.Ok? ==> forall e :: e in r.result <==> e in store && InPeriod(ParsePeriod(period).value, e, now)
    ensures r.Ok? ==> forall e :: multiset(r.result)[e]
                                  == if InPeriod(ParsePeriod(period).value, e, now) then multiset(store)[e] else 0
  {
    match ParsePeriod(period)
    case Failure(message) => Error(StatusBadRequest, message)
    case Success(p) => Ok(Filter(store, e => InPeriod(p, e, now)))
  }

  /** The day period returns exactly the stored events dated today, with their multiplicity. */
  lemma DayIsToday(store: Store, now: Clock)
    ensures GetEvents(store, "day", now).Ok?
    ensures forall e :: e in GetEvents(store, "day", now).result <==> e in store && e.date == now.today
    ensures forall e: Event :: e.date == now.today ==> multiset(GetEvents(store, "day", now).result)[e] == multiset(store)[e]
  {
    forall e: Event
      ensures InPeriod(Day, e, now) <==> e.date == now.today
    {
      DayMeansSameDate(e, now.today);
    }
  }

  /** Whatever the day period returns, the week and month periods return as well. */
  lemma DayWithinWeekAndMonth(store: Store, now: Clock, e: Event)
    requires e in GetEvents(store, "day", now).result
    ensures e in GetEvents(store, "week", now).result
    ensures e in GetEvents(store, "month", now).result
  {
    DayMeansSameDate(e, now.today);
  }

  /**
   * Two events dated today and one dated 2024-10-23: outside October 2024,
   * the month period returns the two of today.
   */
  lemma MonthScenario(now: Clock)
    requires now.today.year != 2024
    ensures GetEvents([Event(1, now.today), Event(2, now.today), Event(3, Date(2024, 10, 23))], "month", now)
            == Ok([Event(1, now.today), Event(2, now.today)])
  {
    var a, b, c := Event(1, now.today), Event(2, now.today), Event(3, Date(2024, 10, 23));
    var keep := e => InPeriod(Month, e, now);
    assert keep(a) && keep(b) && !keep(c);
    assert Filter([a, b, c], keep) == [a, b] by {
      assert [a, b, c] == [a, b] + [c];
      FilterSnoc([a, b], c, keep);
      FilterKeepsAll([a, b], keep);
      assert [a, b] + [] == [a, b];
    }
  }

}
