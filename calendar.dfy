/** The date-time value CronTimer works on and its per-level tables
    (getUnitName, getLimitByLevel, getFormatByLevel, setTimeUnit). */
module Calendar {

  /** A level of the search: 0 second, 1 minute, 2 hour, 3 day, 4 month, 5 year. */
  type Level = k: int | 0 <= k < 6

  /** The six fields of a date-time, as the integers its format codes print. */
  datatype Instant = Instant(sec: int, min: int, hour: int, day: int, mon: int, year: int)

  /** The field of `t` that a level stands for. */
  function Unit(t: Instant, level: Level): int {
    if level == 0 then t.sec
    else if level == 1 then t.min
    else if level == 2 then t.hour
    else if level == 3 then t.day
    else if level == 4 then t.mon
    else t.year
  }

  /** `t` with the field of `level` replaced; any other level leaves `t` as it is,
      as the switch of setTimeUnit does. */
  function WithUnit(t: Instant, level: int, value: int): (r: Instant)
    ensures forall k: Level :: Unit(r, k) == if k == level then value else Unit(t, k)
  {
    if level == 0 then t.(sec := value)
    else if level == 1 then t.(min := value)
    else if level == 2 then t.(hour := value)
    else if level == 3 then t.(day := value)
    else if level == 4 then t.(mon := value)
    else if level == 5 then t.(year := value)
    else t
  }

  /** Two instants that agree on every level are equal. */
  lemma InstantByUnits(a: Instant, b: Instant)
    requires forall k: Level :: Unit(a, k) == Unit(b, k)
    ensures a == b
  {
    assert Unit(a, 0) == Unit(b, 0) && Unit(a, 1) == Unit(b, 1) && Unit(a, 2) == Unit(b, 2);
    assert Unit(a, 3) == Unit(b, 3) && Unit(a, 4) == Unit(b, 4) && Unit(a, 5) == Unit(b, 5);
  }

  /** The criteria keys, listed in level order; normalizeParams fills them in this order too. */
  const UnitNames: seq<string> := ["sec", "min", "hour", "day", "mon", "year"]

  /** CronTimer::getUnitName: the key of the criterion that governs a level. */
  function UnitName(level: Level): (name: string)
    ensures name in UnitNames
  {
    UnitNames[level]
  }

  /** Distinct levels read distinct criteria. */
  lemma UnitNamesDistinct(i: Level, j: Level)
    requires i != j
    ensures UnitName(i) != UnitName(j)
  {
  }

  /** CronTimer::getLimitByLevel: the largest value the scan of a level tries.
      The day limit is 31 whatever the month. */
  function LimitByLevel(level: Level): (limit: int)
    ensures limit > 0
    ensures level == 3 ==> limit == 31
  {
    [59, 59, 23, 31, 12, 9999][level]
  }

  /** The date() format letters CronTimer reads fields with. */
  predicate IsFormatCode(f: char) {
    f == 's' || f == 'i' || f == 'H' || f == 'j' || f == 'n' || f == 'Y'
  }

  /** `(int) $t->format(f)` for the format letters CronTimer uses; leading zeros
      printed by 's', 'i', 'H' and 'Y' disappear in the cast. */
  function FormatField(t: Instant, f: char): int
    requires IsFormatCode(f)
  {
    match f
    case 's' => t.sec
    case 'i' => t.min
    case 'H' => t.hour
    case 'j' => t.day
    case 'n' => t.mon
    case 'Y' => t.year
  }

  /** CronTimer::getFormatByLevel: the format letter that reads back the field of a level. */
  function FormatByLevel(level: Level): (f: char)
    ensures IsFormatCode(f)
    ensures forall t: Instant :: FormatField(t, f) == Unit(t, level)
  {
    ['s', 'i', 'H', 'j', 'n', 'Y'][level]
  }

  /** The mutable date-time object of nextTime. Its setTime and setDate write the given
      fields as they are: the calendar roll-over PHP applies to out-of-range dates is not modelled. */
  class DateTime {
    var sec: int
    var min: int
    var hour: int
    var day: int
    var mon: int
    var year: int

    function Snapshot(): Instant
      reads this
    {
      Instant(sec, min, hour, day, mon, year)
    }

    constructor (t: Instant)
      ensures Snapshot() == t
    {
      sec, min, hour, day, mon, year := t.sec, t.min, t.hour, t.day, t.mon, t.year;
    }

    /** `(int) $this->format(f)`. */
    function Format(f: char): int
      reads this
      requires IsFormatCode(f)
    {
      FormatField(Snapshot(), f)
    }

    /** DateTime::setTime(hour, minute, second). */
    method SetTime(hour': int, minute: int, second: int)
      modifies this
      ensures Snapshot() == old(Snapshot()).(hour := hour', min := minute, sec := second)
    {
      hour, min, sec := hour', minute, second;
    }

    /** DateTime::setDate(year, month, day). */
    method SetDate(year': int, month: int, day': int)
      modifies this
      ensures Snapshot() == old(Snapshot()).(year := year', mon := month, day := day')
    {
      year, mon, day := year', month, day';
    }

    /** CronTimer::setTimeUnit($this, level, value): rewrites the field of `level`,
      re-supplying the other fields of the same setter from the current value. */
    method SetTimeUnit(level: int, value: int)
      modifies this
      ensures Snapshot() == WithUnit(old(Snapshot()), level, value)
    {
      if level == 0 {
        SetTime(Format('H'), Format('i'), value);
      } else if level == 1 {
        SetTime(Format('H'), value, Format('s'));
      } else if level == 2 {
        SetTime(value, Format('i'), Format('s'));
      } else if level == 3 {
        SetDate(Format('Y'), Format('n'), value);
      } else if level == 4 {
        SetDate(Format('Y'), value, Format('j'));
      } else if level == 5 {
        SetDate(value, Format('n'), Format('j'));
      }
    }
  }
}
