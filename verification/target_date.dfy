/** The target-date rule of the booking job: which day to book, given the
    optional manual override and today's date. */
module TargetDate {
  import opened Options
  import opened Calendar

  datatype TargetResult =
    | Target(date: string)   // the `YYYY-MM-DD` text to book for
    | Weekend                // the job does nothing on Saturday and Sunday
    | OutOfRange             // the shifted date would pass 9999-12-31 (`OverflowError`)

  predicate IsWorkingDay(n: int) {
    Weekday(n) < 5
  }

  /** How far ahead the job books: Monday to Wednesday two days, Thursday and
      Friday four days, and not at all at the weekend. */
  /** How far ahead the booking is made from a given weekday: `None` on the
      weekend, and otherwise a distance that lands on a working day. */
  function DaysAhead(weekday: int): (r: Option<int>)
    ensures r.None? <==> !(0 <= weekday <= 4)
    ensures r.Some? ==> r.value in {2, 4} && 0 <= (weekday + r.value) % 7 <= 4
  {
    if 0 <= weekday <= 2 then Some(2)
    else if 3 <= weekday <= 4 then Some(4)
    else None
  }

  /** The day number to book for, before range checking and formatting. */
  function TargetDay(today: int): (r: Option<int>)
    ensures r.None? <==> !IsWorkingDay(today)
    ensures r.Some? ==> today < r.value <= today + 4
  {
    match DaysAhead(Weekday(today))
    case None => None
    case Some(k) => Some(today + k)
  }

  /** Working days in the half-open interval (a, b]. */
  function WorkingDaysBetween(a: int, b: int): nat
    decreases b - a
  {
    if b <= a then 0
    else WorkingDaysBetween(a, b - 1) + (if IsWorkingDay(b) then 1 else 0)
  }

  /** The booked day is always a working day: Monday books Wednesday, Tuesday
      Thursday, Wednesday Friday, Thursday the next Monday and Friday the next
      Tuesday. */
  lemma TargetDayWeekday(today: int)
    requires IsWorkingDay(today)
    ensures TargetDay(today).Some?
    ensures Weekday(TargetDay(today).value) == [2, 3, 4, 0, 1][Weekday(today)]
    ensures IsWorkingDay(TargetDay(today).value)
  {
  }

  /** Independently of the table of offsets: the booked day is the second
      working day after today. */
  lemma {:induction false} TargetIsSecondWorkingDay(today: int)
    requires IsWorkingDay(today)
    ensures TargetDay(today).Some?
    ensures IsWorkingDay(TargetDay(today).value)
    ensures WorkingDaysBetween(today, TargetDay(today).value) == 2
  {
    var w := Weekday(today);
    assert WorkingDaysBetween(today, today) == 0;
    assert WorkingDaysBetween(today, today + 1) == (if w <= 3 then 1 else 0);
    assert WorkingDaysBetween(today, today + 2) == (if w <= 2 then 2 else if w == 3 then 1 else 0);
    if w >= 3 {
      assert WorkingDaysBetween(today, today + 3) == 1;
      assert WorkingDaysBetween(today, today + 4) == 2;
    }
  }

  /** `get_target_date`: a set override is returned verbatim; otherwise the
      weekday rule picks the day, which is formatted as `YYYY-MM-DD`. */
  function GetTargetDate(bookingDate: Option<string>, today: int): (r: TargetResult)
    requires 1 <= today <= MaxOrdinal
    ensures IsSet(bookingDate) ==> r == Target(bookingDate.value)
    ensures !IsSet(bookingDate) ==> (r == Weekend <==> !IsWorkingDay(today))
    ensures !IsSet(bookingDate) && r.Target? ==>
      && TargetDay(today).Some?
      && var d := ParseFullDate(r.date);
      && d.Some?
      && ToOrdinal(d.value) == TargetDay(today).value
    ensures r.OutOfRange? <==> !IsSet(bookingDate) && TargetDay(today).Some? && TargetDay(today).value > MaxOrdinal
    ensures r.Target? ==> r.date != ""
  {
    if IsSet(bookingDate) then Target(bookingDate.value)
    else
      match TargetDay(today)
      case None => Weekend
      case Some(n) =>
        if n > MaxOrdinal then OutOfRange
        else
          var d := FromOrdinal(n);
          ParseFormat(d);
          Target(FormatFullDate(d))
  }

  /** Without an override, the date produced names a working day. */
  lemma TargetDateIsWorkingDay(today: int)
    requires 1 <= today <= MaxOrdinal
    ensures var r := GetTargetDate(None, today);
      r.Target? ==>
        var d := ParseFullDate(r.date);
        d.Some? && IsWorkingDay(ToOrdinal(d.value))
  {
    if IsWorkingDay(today) {
      TargetDayWeekday(today);
    }
  }

  /** An empty override counts as no override. */
  lemma EmptyOverrideIgnored(today: int)
    requires 1 <= today <= MaxOrdinal
    ensures GetTargetDate(Some(""), today) == GetTargetDate(None, today)
  {
  }
}
