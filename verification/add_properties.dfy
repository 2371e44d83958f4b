/** What the field checks and the add operation promise, stated against
    the written forms of dates, times and numbers and against the
    collection's name invariant. */
module AddProperties {
  import opened Wrappers
  import opened Text
  import opened Calendar
  import opened Formats
  import opened Reservations

  /** A written date is refused as past exactly when it is before today. */
  lemma CheckDateOfWritten(d: Date, today: Date)
    ensures CheckDate(FormatDate(d), today)
      == (if Before(d, today) then Err(PastDate) else Ok(d))
  {
    ParseFormatDate(d);
  }

  /** Today itself is bookable. */
  lemma TodayIsBookable(today: Date)
    ensures CheckDate(FormatDate(today), today) == Ok(today)
  {
    CheckDateOfWritten(today, today);
    BeforeIsStrictTotalOrder(today, today, today);
  }

  /** Yesterday is not: `d` is the day before `NextDay(d)`. */
  lemma YesterdayIsPast(d: Date)
    requires d != LastDate()
    ensures CheckDate(FormatDate(d), NextDay(d)) == Err(PastDate)
  {
    CheckDateOfWritten(d, NextDay(d));
  }

  /** Single-digit day and month fields are read as `strptime` reads
      them, e.g. "1-2-2027". */
  lemma SingleDigitFieldsAccepted(d: char, m: char, yyyy: string)
    requires IsNonZeroDigit(d) && IsNonZeroDigit(m)
    requires YearField(yyyy) && DigitsValue(yyyy) >= MinYear
    ensures ParseDate([d] + "-" + [m] + "-" + yyyy)
      == Some(CalendarDate(DigitValue(d), DigitValue(m), DigitsValue(yyyy)))
  {
    FourDigitsValue(yyyy);
    ParseDateFields([d], [m], yyyy);
  }

  /** The day may be padded with a space instead of a zero, e.g. " 1-02-2027". */
  lemma SpacePaddedDayAccepted(d: char, mm: string, yyyy: string)
    requires IsNonZeroDigit(d) && MonthField(mm) && '-' !in mm
    requires YearField(yyyy) && DigitsValue(yyyy) >= MinYear
    ensures ParseDate([' ', d] + "-" + mm + "-" + yyyy)
      == Some(CalendarDate(DigitValue(d), FieldValue(mm), DigitsValue(yyyy)))
  {
    FourDigitsValue(yyyy);
    ParseDateFields([' ', d], mm, yyyy);
  }

  /** The 29th of February is a date exactly in leap years. */
  lemma LeapDayOnlyInLeapYears(yyyy: string)
    requires YearField(yyyy) && DigitsValue(yyyy) >= MinYear
    ensures ParseDate("29-02-" + yyyy).Some? <==> IsLeapYear(DigitsValue(yyyy))
  {
    assert "29-02-" + yyyy == "29" + "-" + "02" + "-" + yyyy;
    assert FieldValue("29") == 29 && FieldValue("02") == 2;
    FourDigitsValue(yyyy);
    ParseDateFields("29", "02", yyyy);
  }

  /** A written time is refused exactly when it lies outside opening hours. */
  lemma CheckTimeOfWritten(t: TimeOfDay)
    ensures CheckTime(FormatTime(t))
      == (if OpeningTime <= t <= ClosingTime then Ok(t) else Err(OutsideHours))
  {
    ParseFormatTime(t);
  }

  /** Reading an `hh:mm` text with two-digit fields. */
  lemma ReadTwoDigitTime(hh: string, mm: string)
    requires |hh| == 2 && |mm| == 2 && AllDigits(hh) && AllDigits(mm)
    ensures ParseTime(hh + ":" + mm)
      == (if DigitsValue(hh) <= 23 && DigitsValue(mm) <= 59
          then Some(60 * DigitsValue(hh) + DigitsValue(mm)) else None)
  {
    assert hh[1] in hh;
    TwoDigitFields(hh);
    TwoDigitFields(mm);
    ParseTimeFields(hh, mm);
  }

  /** Opening time is bookable. */
  lemma OpeningTimeBookable()
    ensures CheckTime("08:00") == Ok(8 * 60)
  {
    assert "08:00" == "08" + ":" + "00";
    ReadTwoDigitTime("08", "00");
  }

  /** Closing time is bookable. */
  lemma ClosingTimeBookable()
    ensures CheckTime("22:00") == Ok(22 * 60)
  {
    assert "22:00" == "22" + ":" + "00";
    ReadTwoDigitTime("22", "00");
  }

  /** A minute before opening is refused. */
  lemma MinuteBeforeOpeningRefused()
    ensures CheckTime("07:59") == Err(OutsideHours)
  {
    assert "07:59" == "07" + ":" + "59";
    ReadTwoDigitTime("07", "59");
  }

  /** A minute after closing is refused. */
  lemma MinuteAfterClosingRefused()
    ensures CheckTime("22:01") == Err(OutsideHours)
  {
    assert "22:01" == "22" + ":" + "01";
    ReadTwoDigitTime("22", "01");
  }

  /** "24:00" is not a time; a single-digit hour is. */
  lemma HourFieldForms()
    ensures CheckTime("24:00") == Err(BadTimeFormat)
    ensures CheckTime("8:00") == Ok(8 * 60)
  {
    ReadTwoDigitTime("24", "00");
    assert "24:00" == "24" + ":" + "00";
    ParseTimeFields("8", "00");
    assert "8:00" == "8" + ":" + "00";
    TwoDigitFields("00");
  }

  /** A written integer is refused exactly when it is not positive. */
  lemma CheckGuestsOfWritten(n: int)
    requires WithinDigitLimit(n)
    ensures CheckGuests(FormatInt(n)) == (if n > 0 then Ok(n) else Err(NotPositive))
  {
    ParseFormatInt(n);
  }

  /** Zero and negative counts are refused; one guest is the least accepted. */
  lemma GuestBoundaries()
    ensures CheckGuests("0") == Err(NotPositive)
    ensures CheckGuests("-1") == Err(NotPositive)
    ensures CheckGuests("1") == Ok(1)
  {
    CheckGuestsOfWritten(0);
    CheckGuestsOfWritten(-1);
    CheckGuestsOfWritten(1);
    assert FormatInt(0) == "0" && FormatInt(1) == "1" && FormatInt(-1) == "-1";
  }

  /** `int()` ignores whitespace around the number. */
  lemma SpacedCountAccepted()
    ensures CheckGuests(" 4\n") == Ok(4)
  {
    ParseIntForms(" ", "", "4", "\n");
    assert " " + "" + "4" + "\n" == " 4\n";
  }

  /** A leading plus sign is accepted. */
  lemma PlusSignedCountAccepted()
    ensures CheckGuests("+5") == Ok(5)
  {
    ParseIntForms("", "+", "5", "");
    assert "" + "+" + "5" + "" == "+5";
  }

  /** An underscore between two digits is accepted and ignored. */
  lemma UnderscoredCountAccepted()
    ensures CheckGuests("1_2") == Ok(12)
  {
    ParseIntForms("", "", "1_2", "");
    assert "" + "" + "1_2" + "" == "1_2";
    assert DigitGroups("1_2") == Some(12) by {
      assert "1_2"[..1] == "1";
    }
    assert DigitCount("1_2") == 2 by {
      assert "1_2"[..2] == "1_";
      assert "1_"[..1] == "1";
    }
  }

  /** Text that is not a number is refused as such. */
  lemma WordCountRefused()
    ensures CheckGuests("four") == Err(NotAnInteger)
  {
    ParseIntForms("", "", "four", "");
    assert "" + "" + "four" + "" == "four";
  }

  /** "alice" is refused once "Alice" is booked. */
  lemma NameCheckIgnoresCase(d: Option<Date>, t: Option<TimeOfDay>, g: Option<GuestCount>)
    ensures CheckName([Reservation("Alice", d, t, g)], "alice") == Err(DuplicateName)
    ensures CheckName([Reservation("Alice", d, t, g)], "Bob") == Ok("Bob")
  {
    assert SameName("Alice", "alice") by {
      assert Lower("Alice") == "alice";
    }
    assert Lower("Alice")[0] != Lower("Bob")[0];
  }

  /** A successful add keeps names unique, ignoring case. */
  lemma AddKeepsNamesUnique(c: seq<Reservation>, today: Date, name: string,
                            dateText: string, timeText: string, guestsText: string)
    requires UniqueNames(c)
    requires AddReservation(c, today, name, dateText, timeText, guestsText).Ok?
    ensures UniqueNames(AddReservation(c, today, name, dateText, timeText, guestsText).value)
  {
    var c' := AddReservation(c, today, name, dateText, timeText, guestsText).value;
    forall i, j | 0 <= i < j < |c'|
      ensures !SameName(c'[i].name, c'[j].name)
    {
      assert c'[i] == c[i];
      if j < |c| {
        assert c'[j] == c[j];
      }
    }
  }

  /** Once a name is booked, every spelling of it differing only in case is
      refused by the next add, before any other field is looked at. */
  lemma AddedNameIsTaken(c: seq<Reservation>, today: Date, name: string,
                         dateText: string, timeText: string, guestsText: string,
                         today': Date, name': string,
                         dateText': string, timeText': string, guestsText': string)
    requires AddReservation(c, today, name, dateText, timeText, guestsText).Ok?
    requires SameName(name', name)
    ensures AddReservation(AddReservation(c, today, name, dateText, timeText, guestsText).value,
                           today', name', dateText', timeText', guestsText')
      == Err(DuplicateName)
  {
    var c' := AddReservation(c, today, name, dateText, timeText, guestsText).value;
    assert c'[|c|].name == name;
    assert CheckName(c', name').Err?;
  }
}
