/**
 * Models: the Time duration and the Dish record (RestaurantMenu/models.cpp).
 *
 * Time keeps the four `tm` fields the source uses: minute, hour, mday (the
 * 1-based day of a 30-day month) and year (a unit of 30 days). The
 * constructor and setTime store the raw components and normalise them.
 */
module Models {
  import opened StringUtils

  /** Minutes per hour, day and 30-day "year" as normalizeTime counts them. */
  const MinutesPerHour: int := 60
  const MinutesPerDay: int := 24 * 60
  const MinutesPerYear: int := 30 * 24 * 60

  /** The longest duration a Time can hold: 999 years, day index 29, 23 h 59 min. */
  const MaxTotal: int := 999 * MinutesPerYear + 29 * MinutesPerDay + 23 * MinutesPerHour + 59

  /** A duration in the tm fields of models.cpp. */
  datatype Time = Time(minute: int, hour: int, mday: int, year: int)

  /** totalMinutes: the duration on one linear scale. */
  function TotalMinutes(t: Time): int {
    t.minute + t.hour * 60 + (t.mday - 1) * 24 * 60 + t.year * 30 * 24 * 60
  }

  /**
   * normalizeTime: carry minutes into hours, hours into days and days into
   * years, each carry guarded as in the source, then clamp beyond 999 years.
   * Every division happens on a positive operand, so C++ truncation and
   * Dafny's Euclidean division agree.
   */
  function Normalize(t: Time): Time {
    var t1 := if t.minute >= 60 then t.(hour := t.hour + t.minute / 60, minute := t.minute % 60) else t;
    var t2 := if t1.hour >= 24 then t1.(mday := t1.mday + t1.hour / 24, hour := t1.hour % 24) else t1;
    var t3 := if t2.mday > 30 then t2.(year := t2.year + (t2.mday - 1) / 30, mday := (t2.mday - 1) % 30 + 1) else t2;
    if t3.year > 999 then Time(59, 23, 30, 999) else t3
  }

  /** The constructor Time(hours, minutes, days, years) and setTime. */
  function MakeTime(hours: int, minutes: int, days: int, years: int): Time {
    Normalize(Time(minutes, hours, days + 1, years))
  }

  /** The reference form: the Time whose fields are the mixed-radix digits of n. */
  function FromTotal(n: nat): Time {
    Time(n % 60, n / 60 % 24, n / 1440 % 30 + 1, n / 43200)
  }

  /** The field ranges normalisation establishes. */
  predicate InRange(t: Time) {
    0 <= t.minute < 60 && 0 <= t.hour < 24 && 1 <= t.mday <= 30 && 0 <= t.year
  }

  function Min(a: int, b: int): int {
    if a <= b then a else b
  }

  /** The total an un-normalised (hours, minutes, days, years) stands for. */
  function RawTotal(hours: int, minutes: int, days: int, years: int): int {
    minutes + 60 * hours + 1440 * days + 43200 * years
  }

  // ---------------------------------------------------------------------
  // Arithmetic helpers
  // ---------------------------------------------------------------------

  /** Multiplying a positive number by at least one does not make it smaller. */
  lemma {:induction false} MulAtLeast(n: int, k: int)
    requires n > 0 && k >= 1
    ensures n * k >= n
    decreases k
  {
    if k > 1 {
      MulAtLeast(n, k - 1);
      assert n * k == n * (k - 1) + n;
    }
  }

  /** Quotient and remainder are the only pair with x == n * q + r and 0 <= r < n. */
  lemma DivModUnique(x: int, n: int, q: int, r: int)
    requires n > 0 && 0 <= r < n && x == n * q + r
    ensures x / n == q && x % n == r
  {
    var q', r' := x / n, x % n;
    assert x == n * q' + r';
    assert n * (q - q') == r' - r by {
      assert n * (q - q') == n * q - n * q';
    }
    if q > q' {
      MulAtLeast(n, q - q');
    } else if q < q' {
      MulAtLeast(n, q' - q);
    }
  }

  // ---------------------------------------------------------------------
  // Properties of normalisation
  // ---------------------------------------------------------------------

  /** The reference form is in range and holds exactly n minutes. */
  lemma FromTotalInRange(n: nat)
    ensures InRange(FromTotal(n)) && FromTotal(n).year == n / 43200
    ensures TotalMinutes(FromTotal(n)) == n
  {
    var t := FromTotal(n);
    DivModUnique(n, 60, n / 60, n % 60);
    var h := n / 60;
    DivModUnique(h, 24, h / 24, h % 24);
    var dd := h / 24;
    DivModUnique(dd, 30, dd / 30, dd % 30);
    DivModUnique(n, 1440, dd, 60 * (h % 24) + n % 60);
    DivModUnique(n, 43200, dd / 30, 1440 * (dd % 30) + 60 * (h % 24) + n % 60);
  }

  /** A Time in range is the reference form of its own total. */
  lemma InRangeIsFromTotal(t: Time)
    requires InRange(t)
    ensures TotalMinutes(t) >= 0 && t == FromTotal(TotalMinutes(t))
  {
    var n := TotalMinutes(t);
    var rest := 1440 * (t.mday - 1) + 60 * t.hour + t.minute;
    DivModUnique(n, 60, t.hour + 24 * (t.mday - 1) + 720 * t.year, t.minute);
    DivModUnique(n / 60, 24, (t.mday - 1) + 30 * t.year, t.hour);
    DivModUnique(n, 1440, (t.mday - 1) + 30 * t.year, 60 * t.hour + t.minute);
    DivModUnique(n / 1440, 30, t.year, t.mday - 1);
    DivModUnique(n, 43200, t.year, rest);
  }

  /** The fields normalizeTime produces from non-negative components, carry by carry. */
  lemma CarriedFields(hours: int, minutes: int, days: int, years: int)
    requires hours >= 0 && minutes >= 0 && days >= 0 && years >= 0
    ensures var hh := hours + minutes / 60;
            var dd := days + hh / 24;
            var yy := years + dd / 30;
            MakeTime(hours, minutes, days, years) ==
              if yy > 999 then Time(59, 23, 30, 999) else Time(minutes % 60, hh % 24, dd % 30 + 1, yy)
  {
    var hh := hours + minutes / 60;
    var dd := days + hh / 24;
    var t0 := Time(minutes, hours, days + 1, years);
    var t1 := if t0.minute >= 60 then t0.(hour := t0.hour + t0.minute / 60, minute := t0.minute % 60) else t0;
    assert t1 == Time(minutes % 60, hh, days + 1, years);
    var t2 := if t1.hour >= 24 then t1.(mday := t1.mday + t1.hour / 24, hour := t1.hour % 24) else t1;
    assert t2 == Time(minutes % 60, hh % 24, dd + 1, years);
  }

  /** The mixed-radix digits of the raw total are the carried fields. */
  lemma RawTotalDigits(hours: int, minutes: int, days: int, years: int)
    requires hours >= 0 && minutes >= 0 && days >= 0 && years >= 0
    ensures var n := RawTotal(hours, minutes, days, years);
            var hh := hours + minutes / 60;
            var dd := days + hh / 24;
            var yy := years + dd / 30;
            n % 60 == minutes % 60 && n / 60 % 24 == hh % 24 && n / 1440 % 30 == dd % 30 && n / 43200 == yy &&
            (yy > 999 <==> n > MaxTotal)
  {
    var n := RawTotal(hours, minutes, days, years);
    var hh := hours + minutes / 60;
    var dd := days + hh / 24;
    var yy := years + dd / 30;
    DivModUnique(n, 60, hh + 24 * days + 720 * years, minutes % 60);
    DivModUnique(n / 60, 24, hh / 24 + days + 30 * years, hh % 24);
    DivModUnique(n, 1440, dd + 30 * years, 60 * (hh % 24) + minutes % 60);
    DivModUnique(n / 1440, 30, yy, dd % 30);
    DivModUnique(n, 43200, yy, 1440 * (dd % 30) + 60 * (hh % 24) + minutes % 60);
  }

  /**
   * For non-negative components, setTime yields the reference form of the
   * total those components stand for, capped at MaxTotal.
   */
  lemma MakeTimeCanonical(hours: int, minutes: int, days: int, years: int)
    requires hours >= 0 && minutes >= 0 && days >= 0 && years >= 0
    ensures MakeTime(hours, minutes, days, years) == FromTotal(Min(RawTotal(hours, minutes, days, years), MaxTotal))
  {
    CarriedFields(hours, minutes, days, years);
    RawTotalDigits(hours, minutes, days, years);
    assert FromTotal(MaxTotal) == Time(59, 23, 30, 999);
  }

  /**
   * Normalisation of non-negative components below the clamp: every field is
   * in range, at most 999 years, and the total duration is preserved.
   */
  lemma MakeTimeNormalises(hours: int, minutes: int, days: int, years: int)
    requires hours >= 0 && minutes >= 0 && days >= 0 && years >= 0
    requires RawTotal(hours, minutes, days, years) <= MaxTotal
    ensures InRange(MakeTime(hours, minutes, days, years))
    ensures MakeTime(hours, minutes, days, years).year <= 999
    ensures TotalMinutes(MakeTime(hours, minutes, days, years)) == RawTotal(hours, minutes, days, years)
  {
    MakeTimeCanonical(hours, minutes, days, years);
    FromTotalInRange(RawTotal(hours, minutes, days, years));
  }

  /** Past 999 carried years the result is exactly 999 years, day index 29, 23 h 59 min. */
  lemma MakeTimeClamps(hours: int, minutes: int, days: int, years: int)
    requires hours >= 0 && minutes >= 0 && days >= 0 && years >= 0
    requires RawTotal(hours, minutes, days, years) > MaxTotal
    ensures MakeTime(hours, minutes, days, years) == Time(59, 23, 30, 999)
  {
    MakeTimeCanonical(hours, minutes, days, years);
  }

  /** Any Time built from non-negative components is in range and at most MaxTotal. */
  lemma MakeTimeBounded(hours: int, minutes: int, days: int, years: int)
    requires hours >= 0 && minutes >= 0 && days >= 0 && years >= 0
    ensures InRange(MakeTime(hours, minutes, days, years))
    ensures 0 <= TotalMinutes(MakeTime(hours, minutes, days, years)) <= MaxTotal
  {
    var n := Min(RawTotal(hours, minutes, days, years), MaxTotal);
    MakeTimeCanonical(hours, minutes, days, years);
    FromTotalInRange(n);
  }

  /** Normalisation only ever moves minutes and hours above their ranges; a negative hour stays. */
  lemma MakeTimeKeepsNegativeHours(hours: int, minutes: int)
    requires hours < 0 && 0 <= minutes < 60
    ensures MakeTime(hours, minutes, 0, 0) == Time(minutes, hours, 1, 0)
  {
  }

  /** Examples of normalisation: over-long minutes and hours carry over, days use a 30-day month. */
  lemma NormalisationExamples()
    ensures MakeTime(1, 65, 0, 0) == Time(5, 2, 1, 0)
    ensures MakeTime(25, 30, 0, 0) == Time(30, 1, 2, 0)
    ensures MakeTime(1, 75, 0, 0) == Time(15, 2, 1, 0)
    ensures MakeTime(0, 0, 35, 0) == Time(0, 0, 6, 1)
    ensures TotalMinutes(MakeTime(2, 30, 0, 1)) == 150 + 30 * 24 * 60
  {
  }

  // ---------------------------------------------------------------------
  // Comparison
  // ---------------------------------------------------------------------

  /** operator<: compares total minutes. */
  predicate TimeLess(a: Time, b: Time) {
    TotalMinutes(a) < TotalMinutes(b)
  }

  /** operator< is a strict order. */
  lemma TimeLessStrictOrder(a: Time, b: Time, c: Time)
    ensures !TimeLess(a, a)
    ensures TimeLess(a, b) ==> !TimeLess(b, a)
    ensures TimeLess(a, b) && TimeLess(b, c) ==> TimeLess(a, c)
  {
  }

  /**
   * operator== compares all four fields, which is datatype equality here.
   * On normalised times it coincides with equal totals.
   */
  lemma EqualityOfNormalisedTimes(a: Time, b: Time)
    requires InRange(a) && InRange(b)
    ensures a == b <==> TotalMinutes(a) == TotalMinutes(b)
  {
    InRangeIsFromTotal(a);
    InRangeIsFromTotal(b);
  }

  /** Two times built from different components can be equal, as when 1 h 75 min meets 2 h 15 min. */
  lemma ComparisonExamples()
    ensures MakeTime(2, 30, 0, 0) == MakeTime(2, 30, 0, 0)
    ensures MakeTime(2, 30, 0, 0) != MakeTime(3, 0, 0, 0)
    ensures TimeLess(MakeTime(2, 30, 0, 0), MakeTime(3, 0, 0, 0))
    ensures !TimeLess(MakeTime(3, 0, 0, 0), MakeTime(2, 30, 0, 0))
    ensures !TimeLess(MakeTime(2, 30, 0, 0), MakeTime(2, 30, 0, 0))
    ensures MakeTime(1, 75, 0, 0) == MakeTime(2, 15, 0, 0)
  {
  }

  // ---------------------------------------------------------------------
  // toString
  // ---------------------------------------------------------------------

  /** Neither the unit letters nor blanks are ever among the characters of a number. */
  lemma UnitsNotInNumbers(n: int)
    ensures 'г' !in IntDecimal(n) && 'д' !in IntDecimal(n) && 'ч' !in IntDecimal(n) && 'м' !in IntDecimal(n)
  {
    IntDecimalChars(n);
  }

  /** The years part of toString: "<years>г. ", present only when there are years. */
  function YearsPart(t: Time): string {
    if t.year > 0 then IntDecimal(t.year) + "г. " else ""
  }

  /** The days part: "<days>д. ", when there are days or years. */
  function DaysPart(t: Time): string {
    if t.mday > 1 || t.year > 0 then IntDecimal(t.mday - 1) + "д. " else ""
  }

  /** The hours part: "<hours>ч ", when there are hours or a larger unit is shown. */
  function HoursPart(t: Time): string {
    if t.hour > 0 || t.mday > 1 || t.year > 0 then IntDecimal(t.hour) + "ч " else ""
  }

  /** toString: the parts in order from years down, then the minutes, always. */
  function ToString(t: Time): string {
    YearsPart(t) + DaysPart(t) + HoursPart(t) + (IntDecimal(t.minute) + "м")
  }

  /** The text always ends with the minutes and the letter м. */
  lemma ToStringEndsWithMinutes(t: Time)
    ensures var s := ToString(t);
            |s| > |IntDecimal(t.minute)| && s[|s| - |IntDecimal(t.minute)| - 1..] == IntDecimal(t.minute) + "м"
  {
    var front := YearsPart(t) + DaysPart(t) + HoursPart(t);
    var tail := IntDecimal(t.minute) + "м";
    assert ToString(t) == front + tail;
    assert (front + tail)[|front|..] == tail;
  }

  /** Each unit letter appears exactly when toString shows that unit. */
  lemma ToStringUnitLetters(t: Time)
    ensures 'г' in ToString(t) <==> t.year > 0
    ensures 'д' in ToString(t) <==> t.mday > 1 || t.year > 0
    ensures 'ч' in ToString(t) <==> t.hour > 0 || t.mday > 1 || t.year > 0
  {
    UnitsNotInNumbers(t.year);
    UnitsNotInNumbers(t.mday - 1);
    UnitsNotInNumbers(t.hour);
    UnitsNotInNumbers(t.minute);
    var y, d, h, m := YearsPart(t), DaysPart(t), HoursPart(t), IntDecimal(t.minute) + "м";
    assert ToString(t) == y + d + h + m;
    assert 'г' !in d && 'г' !in h && 'г' !in m;
    assert 'д' !in y && 'д' !in h && 'д' !in m;
    assert 'ч' !in y && 'ч' !in d && 'ч' !in m;
  }

  /** With years, the text starts with them. */
  lemma ToStringYearsFirst(t: Time)
    requires t.year > 0
    ensures var s := ToString(t);
            |IntDecimal(t.year)| + 3 <= |s| && s[..|IntDecimal(t.year)| + 3] == IntDecimal(t.year) + "г. "
  {
    var y := IntDecimal(t.year) + "г. ";
    assert YearsPart(t) == y && |y| == |IntDecimal(t.year)| + 3;
    var rest := DaysPart(t) + HoursPart(t) + (IntDecimal(t.minute) + "м");
    assert ToString(t) == y + rest;
    assert (y + rest)[..|y|] == y;
  }

  /** Below one day, only hours (when non-zero) and minutes are written. */
  lemma ToStringShortForms(t: Time)
    requires t.year <= 0 && t.mday <= 1
    ensures t.hour <= 0 ==> ToString(t) == IntDecimal(t.minute) + "м"
    ensures t.hour > 0 ==> ToString(t) == IntDecimal(t.hour) + "ч " + IntDecimal(t.minute) + "м"
  {
    assert YearsPart(t) == "" && DaysPart(t) == "";
  }

  /** The texts the tests expect for 2:30, 0:45, one year three days 2:30, and zero. */
  lemma ToStringExamples()
    ensures ToString(MakeTime(2, 30, 0, 0)) == "2ч 30м"
    ensures ToString(MakeTime(0, 45, 0, 0)) == "45м"
    ensures ToString(MakeTime(2, 30, 3, 1)) == "1г. 3д. 2ч 30м"
    ensures ToString(MakeTime(0, 0, 0, 0)) == "0м"
  {
    HoursMinutesText(MakeTime(2, 30, 0, 0));
    MinutesText(MakeTime(0, 45, 0, 0));
    FullText(MakeTime(2, 30, 3, 1));
    ZeroText(MakeTime(0, 0, 0, 0));
  }

  /** 2:30 is written "2ч 30м". */
  lemma HoursMinutesText(t: Time)
    requires t == MakeTime(2, 30, 0, 0)
    ensures ToString(t) == "2ч 30м"
  {
    assert t == Time(30, 2, 1, 0);
    ToStringShortForms(t);
    assert IntDecimal(2) == "2" && IntDecimal(30) == "30";
  }

  /** 0:45 is written "45м". */
  lemma MinutesText(t: Time)
    requires t == MakeTime(0, 45, 0, 0)
    ensures ToString(t) == "45м"
  {
    assert t == Time(45, 0, 1, 0);
    ToStringShortForms(t);
    assert IntDecimal(45) == "45";
  }

  /** One year, three days and 2:30 are written "1г. 3д. 2ч 30м". */
  lemma FullText(t: Time)
    requires t == MakeTime(2, 30, 3, 1)
    ensures ToString(t) == "1г. 3д. 2ч 30м"
  {
    assert t == Time(30, 2, 4, 1);
    assert IntDecimal(1) == "1" && IntDecimal(3) == "3";
    assert IntDecimal(2) == "2" && IntDecimal(30) == "30";
    assert YearsPart(t) == "1г. ";
    assert DaysPart(t) == "3д. ";
    assert HoursPart(t) == "2ч ";
  }

  /** The zero time is written "0м". */
  lemma ZeroText(t: Time)
    requires t == MakeTime(0, 0, 0, 0)
    ensures ToString(t) == "0м"
  {
    assert t == Time(0, 0, 1, 0);
    ToStringShortForms(t);
    assert IntDecimal(0) == "0";
  }

  // ---------------------------------------------------------------------
  // Dish
  // ---------------------------------------------------------------------

  /** A menu entry: name, price (an exact number here) and preparation time. */
  datatype Dish = Dish(name: string, price: real, time: Time)

  /** Dish(name, price, hours, minutes, days, years). */
  function NewDish(name: string, price: real, hours: int, minutes: int, days: int, years: int): Dish {
    Dish(name, price, MakeTime(hours, minutes, days, years))
  }

  /** Dish::setTime: the contained Time is set again; name and price stay. */
  function SetDishTime(d: Dish, hours: int, minutes: int, days: int, years: int): Dish {
    d.(time := MakeTime(hours, minutes, days, years))
  }

  /** Dish::totalMinutes. */
  function DishMinutes(d: Dish): int {
    TotalMinutes(d.time)
  }

  /** Dish's time setter and total delegate to Time: name and price stay, the total is the Time's. */
  lemma DishDelegatesToTime(d: Dish, hours: int, minutes: int, days: int, years: int)
    ensures SetDishTime(d, hours, minutes, days, years).name == d.name
    ensures SetDishTime(d, hours, minutes, days, years).price == d.price
    ensures DishMinutes(SetDishTime(d, hours, minutes, days, years)) == TotalMinutes(MakeTime(hours, minutes, days, years))
    ensures NewDish(d.name, d.price, hours, minutes, days, years) == SetDishTime(d, hours, minutes, days, years)
    ensures hours >= 0 && minutes >= 0 && days >= 0 && years >= 0 ==>
      DishMinutes(SetDishTime(d, hours, minutes, days, years)) == Min(RawTotal(hours, minutes, days, years), MaxTotal)
  {
    if hours >= 0 && minutes >= 0 && days >= 0 && years >= 0 {
      MakeTimeCanonical(hours, minutes, days, years);
      FromTotalInRange(Min(RawTotal(hours, minutes, days, years), MaxTotal));
    }
  }
}
