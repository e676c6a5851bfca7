/**
 * The controller's `formatDateToDDMMYYYY` and a reader for the text it
 * produces, so that what the formatter promises can be stated as a round trip.
 */
module DateFormat {
  import opened Wrappers
  import opened Text
  import opened Dates

  /**
   * `null` for a missing or invalid date; otherwise the day and the one-based
   * month, each padded to two digits, and the full year, joined by slashes.
   */
  function FormatDate(d: Option<Instant>): (r: Option<string>)
    ensures r.None? <==> d.None? || !Valid(d.value)
    ensures r.Some? ==> |r.value| >= 7 && r.value[2] == '/' && r.value[5] == '/'
  {
    if d.None? || !Valid(d.value) then None
    else
      var i := d.value;
      Some(PadStart2(NatToString(i.day)) + "/" + PadStart2(NatToString(i.month + 1)) + "/" + IntToString(i.year))
  }

  datatype DayMonthYear = DayMonthYear(day: int, month: int, year: int)

  /** Splits a display date on "/" and reads the three numbers back. */
  function ParseDisplay(s: string): Option<DayMonthYear> {
    var parts := Split(s, '/');
    if |parts| != 3 then None
    else match (ParseInt(parts[0]), ParseInt(parts[1]), ParseInt(parts[2]))
      case (Some(d), Some(m), Some(y)) => Some(DayMonthYear(d, m, y))
      case _ => None
  }

  /** Splitting a formatted date on "/" gives back its day, its one-based month and its year. */
  lemma FormatRoundTrip(d: Instant)
    requires Valid(d)
    ensures FormatDate(Some(d)).Some?
    ensures ParseDisplay(FormatDate(Some(d)).value) == Some(DayMonthYear(d.day, d.month + 1, d.year))
  {
    var dd := PadStart2(NatToString(d.day));
    var mm := PadStart2(NatToString(d.month + 1));
    var yy := IntToString(d.year);
    TwoDigitsRoundTrip(d.day);
    TwoDigitsRoundTrip(d.month + 1);
    IntToStringRoundTrip(d.year);
    SplitThree(dd, mm, yy);
    assert FormatDate(Some(d)).value == dd + "/" + mm + "/" + yy;
  }

  /** Three slash-free parts joined by slashes split back into those three parts. */
  lemma SplitThree(a: string, b: string, c: string)
    requires '/' !in a && '/' !in b && '/' !in c
    ensures Split(a + "/" + b + "/" + c, '/') == [a, b, c]
  {
    assert a + "/" + b + "/" + c == a + ['/'] + (b + ['/'] + c);
    SplitAtSep(a, '/', b + ['/'] + c);
    SplitAtSep(b, '/', c);
    SplitNoSep(c, '/');
  }
}
