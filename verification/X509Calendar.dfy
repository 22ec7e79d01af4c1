/** Accepted times against the calendar. */
module X509Calendar {
  import opened Bytes
  import opened X509Time

  predicate Leap(year: nat) {
    year % 4 == 0 && (year % 100 != 0 || year % 400 == 0)
  }

  function DaysIn(year: nat, month: nat): nat
    requires 1 <= month <= 12
  {
    if month == 2 then if Leap(year) then 29 else 28
    else if month in {4, 6, 9, 11} then 30
    else 31
  }

  /** A second of a day of the Gregorian calendar, from 1950 on, in a year of four digits. */
  predicate RealDate(t: Stamp) {
    && 1950 <= t.year <= 9999 && 1 <= t.month <= 12 && 1 <= t.day <= DaysIn(t.year, t.month)
    && t.hour < 24 && t.minute < 60 && t.second < 60
  }

  /** Every real date is accepted in its prescribed form, and read as that date. */
  lemma RealDatesAreAccepted(t: Stamp)
    requires RealDate(t)
    ensures Expressible(t)
    ensures BoundAt(BoundOctets(t)) == Some(ParsedTime(KindFor(t.year), |BoundOctets(t)|, t))
  {
    hide BoundAt, BoundOctets;
    var s := BoundOctets(t);
    BoundExact(s, ParsedTime(KindFor(t.year), |s|, t));
    assert s[..|s|] == s;
  }

  /** Nothing outside these ranges is accepted; within them the real dates are those whose month and day are not zero
      and whose day the month has. */
  lemma RealDatesExactly(t: Stamp)
    ensures Expressible(t) <==>
            && 1950 <= t.year <= 9999 && t.month <= 12 && t.day <= 31 && t.hour < 24 && t.minute < 60 && t.second < 60
    ensures RealDate(t) <==> Expressible(t) && 1 <= t.month && 1 <= t.day <= DaysIn(t.year, t.month)
  {
  }

  /** The thirty-first of February is accepted, and so is day zero of month zero. */
  lemma NotInTheCalendar()
    ensures Expressible(Stamp(2024, 2, 31, 0, 0, 0)) && !RealDate(Stamp(2024, 2, 31, 0, 0, 0))
    ensures Expressible(Stamp(2024, 0, 0, 0, 0, 0)) && !RealDate(Stamp(2024, 0, 0, 0, 0, 0))
  {
  }

  // The first and the last second of two-digit years, and the first of four-digit ones.

  /** "500101000000Z" */
  lemma FirstOfTwoDigits()
    ensures BoundAt([0x17, 13, 0x35, 0x30, 0x30, 0x31, 0x30, 0x31, 0x30, 0x30, 0x30, 0x30, 0x30, 0x30, 0x5A])
         == Some(ParsedTime(0x17, 15, Stamp(1950, 1, 1, 0, 0, 0)))
  {
    hide BoundAt, TwoDigits;
    var t := Stamp(1950, 1, 1, 0, 0, 0);
    RealDatesAreAccepted(t);
    Midnight(t);
    Digit(50);
    assert BoundOctets(t) == [0x17, 13, 0x35, 0x30, 0x30, 0x31, 0x30, 0x31, 0x30, 0x30, 0x30, 0x30, 0x30, 0x30, 0x5A];
  }

  /** "491231235959Z" */
  lemma LastOfTwoDigits()
    ensures BoundAt([0x17, 13, 0x34, 0x39, 0x31, 0x32, 0x33, 0x31, 0x32, 0x33, 0x35, 0x39, 0x35, 0x39, 0x5A])
         == Some(ParsedTime(0x17, 15, Stamp(2049, 12, 31, 23, 59, 59)))
  {
    hide BoundAt, TwoDigits;
    var t := Stamp(2049, 12, 31, 23, 59, 59);
    RealDatesAreAccepted(t);
    Digit(49);
    Digit(12);
    Digit(31);
    Digit(23);
    Digit(59);
    assert BoundOctets(t) == [0x17, 13, 0x34, 0x39, 0x31, 0x32, 0x33, 0x31, 0x32, 0x33, 0x35, 0x39, 0x35, 0x39, 0x5A];
  }

  /** "20500101000000Z" */
  lemma FirstOfFourDigits()
    ensures BoundAt([0x18, 15, 0x32, 0x30, 0x35, 0x30, 0x30, 0x31, 0x30, 0x31, 0x30, 0x30, 0x30, 0x30, 0x30, 0x30,
                     0x5A])
         == Some(ParsedTime(0x18, 17, Stamp(2050, 1, 1, 0, 0, 0)))
  {
    hide BoundAt, TwoDigits;
    var t := Stamp(2050, 1, 1, 0, 0, 0);
    RealDatesAreAccepted(t);
    Midnight(t);
    Digit(20);
    Digit(50);
    assert BoundOctets(t)
        == [0x18, 15, 0x32, 0x30, 0x35, 0x30, 0x30, 0x31, 0x30, 0x31, 0x30, 0x30, 0x30, 0x30, 0x30, 0x30, 0x5A];
  }

  lemma Digit(n: nat)
    requires n < 100
    ensures TwoDigits(n) == [0x30 + n / 10, 0x30 + n % 10]
  {
  }

  lemma Midnight(t: Stamp)
    requires InRange(t) && t == Stamp(t.year, 1, 1, 0, 0, 0)
    ensures Tail(t) == [0x30, 0x31, 0x30, 0x31, 0x30, 0x30, 0x30, 0x30, 0x30, 0x30, 0x5A]
  {
  }
}
