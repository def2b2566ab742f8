/** time_functions.py: hours in 12-hour and 24-hour notation, and the lecture slot record. */
module TimeModel {
  import opened Options
  import opened Exceptions
  import opened Text

  /** The week days a lecture can fall on, Monday first (DAYS_OF_THE_WEEK). */
  const DaysOfTheWeek: seq<string> := ["Monday", "Tuesday", "Wednesday", "Thursday", "Friday"]

  /** One weekly meeting of a course. Set once by the constructor and never updated. */
  datatype LectureSlot = LectureSlot(
    courseName: string,
    dayOfWeek: string,
    dayNum: int,
    startHour: int,
    endHour: int)

  /** A slot as the constructor builds it: its day number is its day's position in the week. */
  ghost predicate WellFormed(slot: LectureSlot)
  {
    1 <= slot.dayNum <= 5 && DaysOfTheWeek[slot.dayNum - 1] == slot.dayOfWeek
  }

  /** LectureSlot.day_map: Monday is 1, ..., Friday is 5; any other name has no entry. */
  function DayNumber(day: string): (n: Option<int>)
    ensures n.Some? <==> day in DaysOfTheWeek
    ensures n.Some? ==> 1 <= n.value <= 5 && DaysOfTheWeek[n.value - 1] == day
  {
    if day == "Monday" then Some(1)
    else if day == "Tuesday" then Some(2)
    else if day == "Wednesday" then Some(3)
    else if day == "Thursday" then Some(4)
    else if day == "Friday" then Some(5)
    else None
  }

  /** LectureSlot(course_name, day, begin, end): the lookup of day in day_map raises KeyError
      for a name that is not a week day. */
  function MakeSlot(courseName: string, day: string, begin: int, end: int): (r: Result<LectureSlot>)
    ensures r.Ok? <==> day in DaysOfTheWeek
    ensures r.Err? ==> r.error == KeyError
    ensures r.Ok? ==> WellFormed(r.value)
    ensures r.Ok? ==> (r.value.courseName == courseName && r.value.dayOfWeek == day
                       && r.value.startHour == begin && r.value.endHour == end)
  {
    match DayNumber(day)
    case None => Err(KeyError)
    case Some(n) => Ok(LectureSlot(courseName, day, n, begin, end))
  }

  /** Every slot the constructor can build is rebuilt from its own fields. */
  lemma {:induction false} MakeSlotOfFields(slot: LectureSlot)
    requires WellFormed(slot)
    ensures MakeSlot(slot.courseName, slot.dayOfWeek, slot.startHour, slot.endHour) == Ok(slot)
  {
    var n := DayNumber(slot.dayOfWeek).value;
    assert DaysOfTheWeek[n - 1] == DaysOfTheWeek[slot.dayNum - 1];
  }

  /** convert_to_12h: an hour in 12-hour notation, minutes always ":00". */
  function ConvertTo12h(time24h: int): (r: string)
    ensures LastTwo(r) == (if time24h >= 12 then "PM" else "AM")
  {
    if time24h > 12 then
      LastTwoOfAppend(IntToString(time24h - 12), ":00PM");
      IntToString(time24h - 12) + ":00PM"
    else if time24h == 12 then
      LastTwoOfAppend(IntToString(time24h), ":00PM");
      IntToString(time24h) + ":00PM"
    else
      LastTwoOfAppend(IntToString(time24h), ":00AM");
      IntToString(time24h) + ":00AM"
  }

  lemma {:induction false} LastTwoOfAppend(s: string, suffix: string)
    requires |suffix| >= 2
    ensures LastTwo(s + suffix) == suffix[|suffix| - 2..]
  {
    assert (s + suffix)[|s + suffix| - 2..] == suffix[|suffix| - 2..];
  }

  /** convert_to_24h: the number before the first ':' taken modulo 12, plus 12 when the text
      ends in "PM"; int() raises ValueError when that number is not a decimal integer. */
  function ConvertTo24h(time12h: string): (r: Result<int>)
    ensures r.Ok? <==> ParseInt(BeforeFirst(time12h, ':')).Some?
    ensures r.Err? ==> r.error == ValueError
    ensures r.Ok? ==> 0 <= r.value <= 23
    ensures r.Ok? ==> r.value % 12 == ParseInt(BeforeFirst(time12h, ':')).value % 12
    ensures r.Ok? ==> (r.value >= 12 <==> LastTwo(time12h) == "PM")
  {
    match ParseInt(BeforeFirst(time12h, ':'))
    case None => Err(ValueError)
    case Some(n) =>
      var hour := n % 12;
      if LastTwo(time12h) == "PM" then Ok(hour + 12) else Ok(hour)
  }

  /** The doctests of convert_to_12h. */
  lemma {:induction false} ConvertTo12hExamples()
    ensures ConvertTo12h(16) == "4:00PM"
    ensures ConvertTo12h(12) == "12:00PM"
    ensures ConvertTo12h(5) == "5:00AM"
  {
  }

  /** The doctests of convert_to_24h, and midnight. */
  lemma {:induction false} ConvertTo24hExamples()
    ensures ConvertTo24h("4:00PM") == Ok(16)
    ensures ConvertTo24h("12:00PM") == Ok(12)
    ensures ConvertTo24h("5:00AM") == Ok(5)
    ensures ConvertTo24h("12:00AM") == Ok(0)
  {
    FourPM();
    NoonPM();
    FiveAM();
    MidnightAM();
  }

  lemma {:induction false} FourPM()
    ensures ConvertTo24h("4:00PM") == Ok(16)
  {
    HourTextExample(4, ":00PM", "4:00PM");
  }

  lemma {:induction false} NoonPM()
    ensures ConvertTo24h("12:00PM") == Ok(12)
  {
    HourTextExample(12, ":00PM", "12:00PM");
  }

  lemma {:induction false} FiveAM()
    ensures ConvertTo24h("5:00AM") == Ok(5)
  {
    HourTextExample(5, ":00AM", "5:00AM");
  }

  lemma {:induction false} MidnightAM()
    ensures ConvertTo24h("12:00AM") == Ok(0)
  {
    HourTextExample(12, ":00AM", "12:00AM");
  }

  /** Only the text before the first ':' and the last two characters matter: minutes are ignored. */
  lemma {:induction false} ConvertTo24hIgnoresMinutes(s: string, t: string)
    requires BeforeFirst(s, ':') == BeforeFirst(t, ':')
    requires LastTwo(s) == LastTwo(t)
    ensures ConvertTo24h(s) == ConvertTo24h(t)
  {
  }

  /** Converting an hour of the day to 12-hour notation and back gives the same hour. */
  lemma {:induction false} ConvertRoundTrip(h: int)
    requires 0 <= h <= 23
    ensures ConvertTo24h(ConvertTo12h(h)) == Ok(h)
  {
    if h > 12 {
      assert ConvertTo12h(h) == IntToString(h - 12) + ":00PM";
      HourTextConverts(h - 12, ":00PM");
    } else if h == 12 {
      assert ConvertTo12h(h) == IntToString(12) + ":00PM";
      HourTextConverts(12, ":00PM");
    } else {
      assert ConvertTo12h(h) == IntToString(h) + ":00AM";
      HourTextConverts(h, ":00AM");
    }
  }

  /** For 0 <= k <= 12, str(k) + ":00PM" converts to k mod 12 plus 12, and str(k) + ":00AM"
      to k mod 12. */
  lemma {:induction false} HourTextConverts(k: nat, tail: string)
    requires k <= 12
    requires tail == ":00PM" || tail == ":00AM"
    ensures ConvertTo24h(IntToString(k) + tail)
         == Ok((if k == 12 then 0 else k) + (if tail == ":00PM" then 12 else 0))
  {
    DigitsValueOfNatToString(k);
    HourModTwelve(k);
    HourDigitsConvert(NatToString(k), tail, k, IntToString(k) + tail,
                      (if k == 12 then 0 else k) + (if tail == ":00PM" then 12 else 0));
  }

  lemma {:induction false} HourModTwelve(k: nat)
    requires k <= 12
    ensures k % 12 == if k == 12 then 0 else k
  {
  }

  lemma {:induction false} HourTextExample(k: nat, tail: string, text: string)
    requires k <= 12
    requires tail == ":00PM" || tail == ":00AM"
    requires text == IntToString(k) + tail
    ensures ConvertTo24h(text) == Ok((if k == 12 then 0 else k) + (if tail == ":00PM" then 12 else 0))
  {
    HourTextConverts(k, tail);
  }

  /** Digits followed by ":00PM" or ":00AM" convert to their value mod 12, plus 12 for PM. */
  lemma {:induction false} HourDigitsConvert(digits: string, tail: string, value: nat, text: string, hour: int)
    requires IsDigits(digits) && DigitsValue(digits) == value
    requires tail == ":00PM" || tail == ":00AM"
    requires text == digits + tail
    requires hour == value % 12 + (if tail == ":00PM" then 12 else 0)
    ensures ConvertTo24h(text) == Ok(hour)
  {
    BeforeFirstDigits(digits, tail);
    ParseDigits(digits);
    LastTwoOfAppend(digits, tail);
  }

  lemma {:induction false} BeforeFirstDigits(digits: string, rest: string)
    requires forall i :: 0 <= i < |digits| ==> IsDigit(digits[i])
    requires rest != [] && rest[0] == ':'
    ensures BeforeFirst(digits + rest, ':') == digits
    decreases |digits|
  {
    if digits != [] {
      assert (digits + rest)[1..] == digits[1..] + rest;
      BeforeFirstDigits(digits[1..], rest);
    }
  }
}
