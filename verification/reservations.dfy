/** A reservation record, the in-memory collection of them, the four field
    checks a new reservation must pass (in the order name, date, time,
    number of guests) and the append that follows them. */
module Reservations {
  import opened Wrappers
  import opened Text
  import opened Calendar
  import opened Formats

  /** A number of guests as `int()` can produce it: at most
      `MaxStrDigits` decimal digits. */
  type GuestCount = n: int | WithinDigitLimit(n) witness 0

  /** One table row. `None` is a null cell: a date or time that failed to
      parse on load, or a missing guest count. */
  datatype Reservation = Reservation(
    name: string,
    date: Option<Date>,
    time: Option<TimeOfDay>,
    guests: Option<GuestCount>)

  /** Opening hours; both ends are bookable. */
  const OpeningTime: TimeOfDay := 8 * 60
  const ClosingTime: TimeOfDay := 22 * 60

  /** Why a new reservation was refused: the first field that failed. */
  datatype AddError =
    | DuplicateName
    | BadDateFormat
    | PastDate
    | BadTimeFormat
    | OutsideHours
    | NotAnInteger
    | NotPositive

  /** Names compare case-insensitively. */
  predicate SameName(a: string, b: string) {
    Lower(a) == Lower(b)
  }

  /** No two reservations share a name, ignoring case. */
  predicate UniqueNames(c: seq<Reservation>) {
    forall i, j :: 0 <= i < j < |c| ==> !SameName(c[i].name, c[j].name)
  }

  /** Whether some stored reservation already has `name`, ignoring case. */
  function NameTaken(c: seq<Reservation>, name: string): (taken: bool)
    ensures taken <==> exists i :: 0 <= i < |c| && SameName(c[i].name, name)
    decreases |c|
  {
    if |c| == 0 then false
    else if SameName(c[0].name, name) then true
    else
      var t := NameTaken(c[1..], name);
      assert forall i :: 1 <= i < |c| ==> c[i] == c[1..][i - 1];
      t
  }

  /** The name check: a name is refused when it equals a stored one
      after lower-casing both. */
  function CheckName(c: seq<Reservation>, name: string): (r: Result<string, AddError>)
    ensures r == Ok(name) || r == Err(DuplicateName)
    ensures r.Ok? <==> forall i :: 0 <= i < |c| ==> !SameName(c[i].name, name)
  {
    if NameTaken(c, name) then Err(DuplicateName) else Ok(name)
  }

  /** The date check: the text must read as `DD-MM-YYYY` and the day must
      not lie before `today`. */
  function CheckDate(text: string, today: Date): (r: Result<Date, AddError>)
    ensures r.Ok? <==> ParseDate(text).Some? && !Before(ParseDate(text).value, today)
    ensures r.Ok? ==> ParseDate(text) == Some(r.value)
    ensures r.Err? ==> r.error == (if ParseDate(text).None? then BadDateFormat else PastDate)
  {
    match ParseDate(text)
    case None => Err(BadDateFormat)
    case Some(d) => if Before(d, today) then Err(PastDate) else Ok(d)
  }

  /** The time check: the text must read as `HH:MM` and lie within the
      opening hours, both ends included. */
  function CheckTime(text: string): (r: Result<TimeOfDay, AddError>)
    ensures r.Ok? <==>
      (ParseTime(text).Some? && OpeningTime <= ParseTime(text).value <= ClosingTime)
    ensures r.Ok? ==> ParseTime(text) == Some(r.value)
    ensures r.Err? ==> r.error == (if ParseTime(text).None? then BadTimeFormat else OutsideHours)
  {
    match ParseTime(text)
    case None => Err(BadTimeFormat)
    case Some(t) => if t < OpeningTime || t > ClosingTime then Err(OutsideHours) else Ok(t)
  }

  /** The guest check: `int(text)` must succeed and be greater than zero. */
  function CheckGuests(text: string): (r: Result<GuestCount, AddError>)
    ensures r.Ok? <==> ParseInt(text).Some? && ParseInt(text).value > 0
    ensures r.Ok? ==> ParseInt(text) == Some(r.value) && r.value >= 1
    ensures r.Err? ==> r.error == (if ParseInt(text).None? then NotAnInteger else NotPositive)
  {
    match ParseInt(text)
    case None => Err(NotAnInteger)
    case Some(n) => if n <= 0 then Err(NotPositive) else Ok(n)
  }

  /** Appending a record: one more element, the old ones untouched and in
      their order, the new one last. */
  function Append(c: seq<Reservation>, rec: Reservation): (c': seq<Reservation>)
    ensures |c'| == |c| + 1
    ensures c'[..|c|] == c
    ensures c'[|c|] == rec
  {
    c + [rec]
  }

  /** Adding a reservation from its four input texts. The first failing
      check, in the order name, date, time, guests, is reported; only when
      all pass is the record appended. */
  function AddReservation(c: seq<Reservation>, today: Date, name: string,
                          dateText: string, timeText: string, guestsText: string)
    : (r: Result<seq<Reservation>, AddError>)
    ensures CheckName(c, name).Err? ==> r == Err(DuplicateName)
    ensures CheckName(c, name).Ok? && CheckDate(dateText, today).Err? ==>
      r == Err(CheckDate(dateText, today).error)
    ensures (CheckName(c, name).Ok? && CheckDate(dateText, today).Ok?
             && CheckTime(timeText).Err?) ==>
      r == Err(CheckTime(timeText).error)
    ensures (CheckName(c, name).Ok? && CheckDate(dateText, today).Ok?
             && CheckTime(timeText).Ok? && CheckGuests(guestsText).Err?) ==>
      r == Err(CheckGuests(guestsText).error)
    ensures r.Ok? <==>
      (CheckName(c, name).Ok? && CheckDate(dateText, today).Ok?
       && CheckTime(timeText).Ok? && CheckGuests(guestsText).Ok?)
    ensures r.Ok? ==>
      && |r.value| == |c| + 1
      && r.value[..|c|] == c
      && r.value[|c|] == Reservation(name,
           Some(ParseDate(dateText).value), Some(ParseTime(timeText).value),
           Some(ParseInt(guestsText).value))
  {
    match CheckName(c, name)
    case Err(e) => Err(e)
    case Ok(n) =>
      match CheckDate(dateText, today)
      case Err(e) => Err(e)
      case Ok(d) =>
        match CheckTime(timeText)
        case Err(e) => Err(e)
        case Ok(t) =>
          match CheckGuests(guestsText)
          case Err(e) => Err(e)
          case Ok(g) => Ok(Append(c, Reservation(n, Some(d), Some(t), Some(g))))
  }
}
