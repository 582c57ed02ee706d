/**
 * The age line of the digimon details dialog: the calendar difference
 * between the birth date and now in years, months, days and hours, and
 * its rendering as translated phrases.
 */
module DetailsAge {

  /** The local calendar fields of a `Date`: month 0..11, day 1..31, hour 0..23. */
  datatype DateTime = DateTime(year: int, month: int, day: int, hour: int)

  predicate IsLeapYear(year: int) {
    (year % 4 == 0 && year % 100 != 0) || year % 400 == 0
  }

  /** Days in a month of the Gregorian calendar (month 0..11). */
  function DaysInMonth(year: int, month: int): (n: int)
    requires 0 <= month < 12
    ensures 28 <= n <= 31
    ensures month == 1 ==> (n == 29 <==> IsLeapYear(year))
  {
    if month == 1 then (if IsLeapYear(year) then 29 else 28)
    else if month == 3 || month == 5 || month == 8 || month == 10 then 30
    else 31
  }

  /** The fields a `Date` can hold. */
  predicate ValidDate(d: DateTime) {
    0 <= d.month < 12 && 1 <= d.day <= DaysInMonth(d.year, d.month) && 0 <= d.hour < 24
  }

  /** `new Date(year, month, 0).getDate()`: the length of the month before `month` (December of the year before for January). */
  function PreviousMonthDays(year: int, month: int): (n: int)
    requires 0 <= month < 12
    ensures 28 <= n <= 31
    ensures month > 0 ==> n == DaysInMonth(year, month - 1)
    ensures month == 0 ==> n == DaysInMonth(year - 1, 11)
  {
    if month == 0 then 31 else DaysInMonth(year, month - 1)
  }

  datatype Age = Age(years: int, months: int, days: int, hours: int)

  /** `birth` is not later than `now`, comparing the fields in order. */
  predicate NotAfter(birth: DateTime, now: DateTime) {
    || birth.year < now.year
    || (birth.year == now.year && birth.month < now.month)
    || (birth.year == now.year && birth.month == now.month && birth.day < now.day)
    || (birth.year == now.year && birth.month == now.month && birth.day == now.day && birth.hour <= now.hour)
  }

  /** `calculateDetailedAge` as written: field differences, borrowing a day, then a month, then a year. */
  function CalculateDetailedAge(now: DateTime, birth: DateTime): (a: Age)
    requires ValidDate(now) && ValidDate(birth)
    ensures 0 <= a.hours < 24
    ensures 0 <= a.months < 12
    ensures -3 <= a.days <= 30
    ensures NotAfter(birth, now) ==> a.years >= 0
  {
    var years := now.year - birth.year;
    var months := now.month - birth.month;
    var days := now.day - birth.day;
    var hours := now.hour - birth.hour;
    var (hours, days) := if hours < 0 then (hours + 24, days - 1) else (hours, days);
    var (days, months) := if days < 0 then (days + PreviousMonthDays(now.year, now.month), months - 1) else (days, months);
    var (months, years) := if months < 0 then (months + 12, years - 1) else (months, years);
    Age(years, months, days, hours)
  }

  /** Born at 23:00 on the 31st of January, seen at midnight on the 1st of March of a common year: the age has minus three days. */
  lemma NegativeDaysAtMonthStart()
    ensures CalculateDetailedAge(DateTime(2023, 2, 1, 0), DateTime(2023, 0, 31, 23)) == Age(0, 1, -3, 1)
  {
  }

  /** The age with the borrowed days kept at or above zero: a month shorter than the birth day contributes none. */
  function CalculateDetailedAgeFixed(now: DateTime, birth: DateTime): (a: Age)
    requires ValidDate(now) && ValidDate(birth)
    ensures 0 <= a.hours < 24
    ensures 0 <= a.months < 12
    ensures 0 <= a.days <= 30
    ensures NotAfter(birth, now) ==> a.years >= 0
    ensures CalculateDetailedAge(now, birth).days >= 0 ==> a == CalculateDetailedAge(now, birth)
    ensures CalculateDetailedAge(now, birth).days < 0 ==> a == CalculateDetailedAge(now, birth).(days := 0)
  {
    var written := CalculateDetailedAge(now, birth);
    if written.days < 0 then written.(days := 0) else written
  }

  /** The corrected age never has a negative field once the birth is in the past. */
  lemma FixedAgeIsNonNegative(now: DateTime, birth: DateTime)
    requires ValidDate(now) && ValidDate(birth) && NotAfter(birth, now)
    ensures var a := CalculateDetailedAgeFixed(now, birth);
            a.years >= 0 && a.months >= 0 && a.days >= 0 && a.hours >= 0
  {
  }

  /** One translated phrase: the translation key and its `count` parameter. */
  datatype Phrase = Phrase(key: string, count: int)

  const KeyPrefix := "SHARED.COMPONENTS.DIGIMON_DETAILS_MODAL."
  const LessThanHourKey := KeyPrefix + "LESS_THAN_HOUR"

  /** The singular key for exactly one, the `_PLURAL` key otherwise. */
  function KeyFor(unit: string, value: int): string {
    if value == 1 then KeyPrefix + unit else KeyPrefix + unit + "_PLURAL"
  }

  /** `addPart`: a phrase for a positive value, singular for exactly one. */
  function AddPart(parts: seq<Phrase>, value: int, unit: string): (r: seq<Phrase>)
    ensures value <= 0 ==> r == parts
    ensures value > 0 ==> |r| == |parts| + 1 && r[..|parts|] == parts
    ensures value > 0 ==> r[|parts|].count == value
    ensures value > 0 ==> r[|parts|].key == KeyFor(unit, value)
  {
    if value > 0 then
      parts + [Phrase(KeyFor(unit, value), value)]
    else parts
  }

  /** The phrase one component contributes: one for a positive value, none otherwise. */
  function PhraseIf(value: int, unit: string): seq<Phrase> {
    if value > 0 then [Phrase(KeyFor(unit, value), value)] else []
  }

  /** The phrases of `formatAge`, in the order years, months, days, hours. */
  function AgePhrases(age: Age): (r: seq<Phrase>)
    // one phrase per positive component, and only those, in the fixed order
    ensures r == PhraseIf(age.years, "YEAR") + PhraseIf(age.months, "MONTH")
                 + PhraseIf(age.days, "DAY") + PhraseIf(age.hours, "HOUR")
    ensures |r| == 0 <==> age.years <= 0 && age.months <= 0 && age.days <= 0 && age.hours <= 0
    ensures forall k :: 0 <= k < |r| ==> r[k].count > 0
    ensures age.years > 0 ==> r[0] == Phrase(KeyFor("YEAR", age.years), age.years)
    ensures age.hours > 0 ==> r[|r| - 1] == Phrase(KeyFor("HOUR", age.hours), age.hours)
  {
    var r := AddPart(AddPart(AddPart(AddPart([], age.years, "YEAR"), age.months, "MONTH"), age.days, "DAY"), age.hours, "HOUR");
    assert r == PhraseIf(age.years, "YEAR") + PhraseIf(age.months, "MONTH")
                + PhraseIf(age.days, "DAY") + PhraseIf(age.hours, "HOUR") by {
      var p1 := AddPart([], age.years, "YEAR");
      var p2 := AddPart(p1, age.months, "MONTH");
      var p3 := AddPart(p2, age.days, "DAY");
      assert p1 == PhraseIf(age.years, "YEAR") by { AddPartAppends([], age.years, "YEAR"); }
      AddPartAppends(p1, age.months, "MONTH");
      AddPartAppends(p2, age.days, "DAY");
      AddPartAppends(p3, age.hours, "HOUR");
    }
    r
  }

  /** `addPart` appends the component's phrase, if any, to what is already there. */
  lemma AddPartAppends(parts: seq<Phrase>, value: int, unit: string)
    ensures AddPart(parts, value, unit) == parts + PhraseIf(value, unit)
  {
  }

  /** Texts joined with a separator. */
  function JoinWith(texts: seq<string>, sep: string): string {
    if |texts| == 0 then "" else if |texts| == 1 then texts[0] else texts[0] + sep + JoinWith(texts[1..], sep)
  }

  /** `formatAge`, with `translate` standing for the translation service. */
  function FormatAge(age: Age, translate: Phrase -> string): (r: string)
    ensures |AgePhrases(age)| == 0 ==> r == translate(Phrase(LessThanHourKey, 0))
    ensures |AgePhrases(age)| == 1 ==> r == translate(AgePhrases(age)[0])
  {
    var phrases := AgePhrases(age);
    if |phrases| == 0 then translate(Phrase(LessThanHourKey, 0))
    else JoinWith(seq(|phrases|, k requires 0 <= k < |phrases| => translate(phrases[k])), ", ")
  }

  /** In the counterexample the negative days vanish from the text: only "1 month" and "1 hour" are shown. */
  lemma NegativeDaysAreHidden()
    ensures AgePhrases(CalculateDetailedAge(DateTime(2023, 2, 1, 0), DateTime(2023, 0, 31, 23)))
            == [Phrase(KeyPrefix + "MONTH", 1), Phrase(KeyPrefix + "HOUR", 1)]
  {
    NegativeDaysAtMonthStart();
    var afterMonths := AddPart(AddPart([], 0, "YEAR"), 1, "MONTH");
    assert afterMonths == [Phrase(KeyPrefix + "MONTH", 1)];
    assert AddPart(afterMonths, -3, "DAY") == afterMonths;
    assert AddPart(afterMonths, 1, "HOUR") == afterMonths + [Phrase(KeyPrefix + "HOUR", 1)];
  }
}
