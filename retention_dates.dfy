/** Date normalisation of the backup retention program: a creation date is
    reduced to the start of its period before it is compared with interval
    boundaries. Dates are records of integer fields; the time zone, which
    `date_norm` can overwrite without converting, is not modelled. */
module RetentionDates {
  import opened Wrappers

  datatype DateTime = DateTime(year: int, month: int, day: int, hour: int, minute: int, second: int, microsecond: int)

  const Year := "year"
  const Month := "month"
  const Week := "week"
  const Day := "day"
  const Hour := "hour"
  const Minute := "minute"
  const Second := "second"
  const Microsecond := "microsecond"

  /** `UNITS_DATETIME_ORDERED`, most significant first; `week` is not a
      keyword of `datetime.replace()`. */
  const UnitsOrdered: seq<string> := [Year, Month, Day, Hour, Minute, Second, Microsecond]

  /** `UNIT_DATETIME_VAL_MIN`. */
  const ValMin: map<string, int> := map[Month := 1, Day := 1, Hour := 0, Minute := 0, Second := 0, Microsecond := 0]

  function IndexOf(s: seq<string>, x: string): (i: nat)
    requires x in s
    ensures i < |s| && s[i] == x
    ensures forall j :: 0 <= j < i ==> s[j] != x
  {
    if s[0] == x then 0 else 1 + IndexOf(s[1..], x)
  }

  /** `units_smaller_get`: the units after `unitLargest`; `week` is treated
      as `day`, and an unknown unit has no smaller units. Never `year`, so
      every unit it returns has a minimum value. */
  function UnitsSmaller(unitLargest: string): (r: seq<string>)
    ensures forall k :: k in r ==> k in ValMin
    decreases if unitLargest == Week then 1 else 0
  {
    if unitLargest in UnitsOrdered then UnitsOrdered[IndexOf(UnitsOrdered, unitLargest) + 1..]
    else if unitLargest == Week then UnitsSmaller(Day)
    else []
  }

  /** `unit_is_time`: None for a unit it does not recognise. */
  function UnitIsTime(unit: string): Option<bool> {
    if unit in {Hour, Minute, Second, Microsecond} then Some(true)
    else if unit in {Year, Month, Day, Week} then Some(false)
    else None
  }

  /** `replace_kwargs_norm_get`: every smaller unit set to its minimum. */
  function ReplaceKwargsNorm(unitLargest: string): map<string, int> {
    map k | k in UnitsSmaller(unitLargest) :: ValMin[k]
  }

  /** `getattr(date, unit)`. */
  function Field(d: DateTime, unit: string): int
    requires unit in UnitsOrdered
  {
    if unit == Year then d.year
    else if unit == Month then d.month
    else if unit == Day then d.day
    else if unit == Hour then d.hour
    else if unit == Minute then d.minute
    else if unit == Second then d.second
    else d.microsecond
  }

  function Get(kw: map<string, int>, k: string, default: int): int {
    if k in kw then kw[k] else default
  }

  /** `date.replace(**kwargs)`, for the integer keywords. */
  function Replace(d: DateTime, kw: map<string, int>): DateTime {
    DateTime(Get(kw, Year, d.year), Get(kw, Month, d.month), Get(kw, Day, d.day), Get(kw, Hour, d.hour),
             Get(kw, Minute, d.minute), Get(kw, Second, d.second), Get(kw, Microsecond, d.microsecond))
  }

  /** Whether `date_norm` floors `unitLargest` itself: Python's
      `multiple > 1 and unit_is_time(unit)`, where None is false. */
  predicate FloorsUnit(unitLargest: string, multiple: int) {
    multiple > 1 && UnitIsTime(unitLargest) == Some(true)
  }

  /** The keywords `date_norm` passes to `replace()`. Python's `//` floors,
      as Dafny's `/` does for a positive divisor. */
  function NormKwargs(d: DateTime, unitLargest: string, multiple: int): map<string, int> {
    if FloorsUnit(unitLargest, multiple) then
      ReplaceKwargsNorm(unitLargest)[unitLargest := Field(d, unitLargest) / multiple * multiple]
    else ReplaceKwargsNorm(unitLargest)
  }

  function DateNormOf(d: DateTime, unitLargest: string, multiple: int): DateTime {
    Replace(d, NormKwargs(d, unitLargest, multiple))
  }

  /** `date_norm`, building the keywords step by step. */
  method DateNorm(d: DateTime, unitLargest: string, multiple: int) returns (r: DateTime)
    ensures r == DateNormOf(d, unitLargest, multiple)
    ensures forall k :: k in UnitsOrdered ==> Field(r, k) == NormField(d, unitLargest, multiple, k)
  {
    var replaceKwargs := ReplaceKwargsNorm(unitLargest);
    if multiple > 1 && UnitIsTime(unitLargest) == Some(true) {
      replaceKwargs := replaceKwargs[unitLargest := Field(d, unitLargest) / multiple * multiple];
    }
    r := Replace(d, replaceKwargs);
    DateNormFields(d, unitLargest, multiple);
  }

  /** What `date_norm`'s documentation promises of one field. */
  function NormField(d: DateTime, unitLargest: string, multiple: int, k: string): int
    requires k in UnitsOrdered
  {
    if k in UnitsSmaller(unitLargest) then ValMin[k]
    else if k == unitLargest && FloorsUnit(unitLargest, multiple) then Field(d, k) / multiple * multiple
    else Field(d, k)
  }

  lemma FieldReplace(d: DateTime, kw: map<string, int>, k: string)
    requires k in UnitsOrdered
    ensures Field(Replace(d, kw), k) == Get(kw, k, Field(d, k))
  {
  }

  predicate Distinct(s: seq<string>) {
    forall i, j :: 0 <= i < j < |s| ==> s[i] != s[j]
  }

  lemma {:induction false} SuffixIff(s: seq<string>, x: string, k: string)
    requires Distinct(s) && x in s
    ensures k in s[IndexOf(s, x) + 1..] <==> k in s && IndexOf(s, k) > IndexOf(s, x)
  {
    var t := s[IndexOf(s, x) + 1..];
    if k in t {
      var j :| 0 <= j < |t| && t[j] == k;
      assert s[IndexOf(s, x) + 1 + j] == k;
    }
    if k in s && IndexOf(s, k) > IndexOf(s, x) {
      assert t[IndexOf(s, k) - IndexOf(s, x) - 1] == k;
    }
  }

  /** The smaller units are exactly those after `unitLargest` in the order
      (after `day` for `week`); an unknown unit has none. */
  lemma UnitsSmallerIff(unitLargest: string, k: string)
    ensures unitLargest in UnitsOrdered ==>
              (k in UnitsSmaller(unitLargest) <==> k in UnitsOrdered && IndexOf(UnitsOrdered, k) > IndexOf(UnitsOrdered, unitLargest))
    ensures unitLargest == Week ==> UnitsSmaller(unitLargest) == UnitsSmaller(Day)
    ensures unitLargest !in UnitsOrdered && unitLargest != Week ==> UnitsSmaller(unitLargest) == []
  {
    if unitLargest in UnitsOrdered {
      SuffixIff(UnitsOrdered, unitLargest, k);
    }
  }

  /** `year` is the largest unit: all others are smaller. */
  lemma UnitsSmallerYear()
    ensures UnitsSmaller(Year) == [Month, Day, Hour, Minute, Second, Microsecond]
  {
    assert IndexOf(UnitsOrdered, Year) == 0;
  }

  /** Units `week` and `day` have the same smaller units: everything from
      `hour` down. */
  lemma UnitsSmallerDay()
    ensures UnitsSmaller(Week) == UnitsSmaller(Day) == [Hour, Minute, Second, Microsecond]
  {
    assert IndexOf(UnitsOrdered, Day) == 2;
  }

  lemma UnitsSmallerMinute()
    ensures UnitsSmaller(Minute) == [Second, Microsecond]
    ensures UnitsSmaller(Microsecond) == []
  {
    assert IndexOf(UnitsOrdered, Minute) == 4;
    assert IndexOf(UnitsOrdered, Microsecond) == 6;
  }

  /** Each field of the result: the smaller units at their minimum, the
      unit itself floored to the multiple when it is a time unit and the
      multiple exceeds 1, every other field unchanged. */
  lemma DateNormFields(d: DateTime, unitLargest: string, multiple: int)
    ensures forall k :: k in UnitsOrdered ==> Field(DateNormOf(d, unitLargest, multiple), k) == NormField(d, unitLargest, multiple, k)
  {
    forall k | k in UnitsOrdered
      ensures Field(DateNormOf(d, unitLargest, multiple), k) == NormField(d, unitLargest, multiple, k)
    {
      FieldReplace(d, NormKwargs(d, unitLargest, multiple), k);
      if FloorsUnit(unitLargest, multiple) && k != unitLargest {
        assert k in NormKwargs(d, unitLargest, multiple) <==> k in ReplaceKwargsNorm(unitLargest);
      }
      if k == unitLargest {
        UnitsSmallerIff(unitLargest, k);
      }
    }
  }

  /** Units larger than `unitLargest` are never changed. */
  lemma DateNormLarger(d: DateTime, unitLargest: string, multiple: int, k: string)
    requires unitLargest in UnitsOrdered && k in UnitsOrdered
    requires IndexOf(UnitsOrdered, k) < IndexOf(UnitsOrdered, unitLargest)
    ensures Field(DateNormOf(d, unitLargest, multiple), k) == Field(d, k)
  {
    DateNormFields(d, unitLargest, multiple);
    UnitsSmallerIff(unitLargest, k);
  }

  lemma {:induction false} MulAtLeast(z: int, m: int)
    requires z >= 1 && m > 0
    ensures z * m >= m
    decreases z
  {
    if z > 1 {
      MulAtLeast(z - 1, m);
      assert z * m == (z - 1) * m + m;
    }
  }

  lemma MulDiv(q: int, m: int)
    requires m > 0
    ensures (q * m) / m == q
  {
    var y := q * m;
    var q' := y / m;
    assert (q - q') * m == y % m;
    if q' < q {
      MulAtLeast(q - q', m);
    } else if q' > q {
      MulAtLeast(q' - q, m);
    }
  }

  lemma FloorTwice(x: int, m: int)
    requires m > 0
    ensures (x / m * m) / m * m == x / m * m
  {
    MulDiv(x / m, m);
  }

  /** Normalising twice is normalising once. */
  lemma DateNormIdempotent(d: DateTime, unitLargest: string, multiple: int)
    ensures DateNormOf(DateNormOf(d, unitLargest, multiple), unitLargest, multiple) == DateNormOf(d, unitLargest, multiple)
  {
    var n := DateNormOf(d, unitLargest, multiple);
    var nn := DateNormOf(n, unitLargest, multiple);
    DateNormFields(d, unitLargest, multiple);
    DateNormFields(n, unitLargest, multiple);
    forall k | k in UnitsOrdered
      ensures Field(nn, k) == Field(n, k)
    {
      if k !in UnitsSmaller(unitLargest) && k == unitLargest && FloorsUnit(unitLargest, multiple) {
        FloorTwice(Field(d, k), multiple);
      }
    }
    assert Field(nn, Year) == Field(n, Year) && Field(nn, Month) == Field(n, Month) && Field(nn, Day) == Field(n, Day);
    assert Field(nn, Hour) == Field(n, Hour) && Field(nn, Minute) == Field(n, Minute);
    assert Field(nn, Second) == Field(n, Second) && Field(nn, Microsecond) == Field(n, Microsecond);
  }

  /** `create_date_aws_norm`: to the start of the 10-minute period in which
      images and snapshots are made (the UTC time zone it sets is not
      modelled). */
  function CreateDateAwsNorm(d: DateTime): DateTime {
    DateNormOf(d, Minute, 10)
  }

  /** The keywords for minute and 10. */
  lemma AwsNormKwargs(d: DateTime)
    ensures NormKwargs(d, Minute, 10) == map[Second := 0, Microsecond := 0, Minute := d.minute / 10 * 10]
  {
    UnitsSmallerMinute();
    assert ReplaceKwargsNorm(Minute) == map[Second := 0, Microsecond := 0];
  }

  lemma FloorTen(x: int)
    ensures (x / 10 * 10) % 10 == 0 && x / 10 * 10 <= x < x / 10 * 10 + 10
  {
  }

  /** The normalised creation date has a minute that is a multiple of 10,
      no seconds or microseconds, is at most 9 minutes earlier, and keeps
      the date and the hour. */
  lemma CreateDateAwsNormShape(d: DateTime)
    ensures var n := CreateDateAwsNorm(d);
      && n.minute % 10 == 0 && n.minute <= d.minute < n.minute + 10
      && n.second == 0 && n.microsecond == 0
      && n.year == d.year && n.month == d.month && n.day == d.day && n.hour == d.hour
  {
    AwsNormKwargs(d);
    assert CreateDateAwsNorm(d) == DateTime(d.year, d.month, d.day, d.hour, d.minute / 10 * 10, 0, 0);
    FloorTen(d.minute);
  }

  /** The example of `date_norm`'s documentation: T10:36:05.000090 becomes
      T10:30. */
  lemma DateNormExample(year: int, month: int, day: int)
    ensures DateNormOf(DateTime(year, month, day, 10, 36, 5, 90), Minute, 10) == DateTime(year, month, day, 10, 30, 0, 0)
  {
    AwsNormKwargs(DateTime(year, month, day, 10, 36, 5, 90));
    assert 36 / 10 * 10 == 30;
  }
}
