/** The calls of the repository's index.php, and one daily criterion, with the results the
    contract of CronTimer.NextTime forces for them. */
module Examples {
  import opened Results
  import opened Criteria
  import opened Calendar
  import opened CronTimer

  /** From a contract-satisfying result and one instant the search provably stops at,
      that instant is the result. */
  lemma ResultIs(params: Params, t: Instant, level: Level, expected: Instant, r: Outcome<Option<Instant>>)
    requires SucceedsAt(params, t, level, expected)
    requires r == Ok(None) <==> FinerLevelsFail(params, t, 6)
    requires r == ModuloByZero ==>
      exists l: Level :: FinerLevelsFail(params, t, l) && LevelThrows(params, t, l)
    requires r.Ok? && r.value.Some? ==> exists l: Level :: SucceedsAt(params, t, l, r.value.value)
    ensures r == Ok(Some(expected))
  {
    SuccessExcludesOtherOutcomes(params, t, level, expected);
    var l: Level :| SucceedsAt(params, t, l, r.value.value);
    SuccessIsUnique(params, t, l, r.value.value, level, expected);
  }

  /** nextTime([], '01.01.2024 10:00:00') is 01.01.2024 10:00:01. */
  method NoCriteria() returns (r: Outcome<Option<Instant>>)
    ensures r == Ok(Some(Instant(1, 0, 10, 1, 1, 2024)))
  {
    var params, t := Assoc(map[]), Instant(0, 0, 10, 1, 1, 2024);
    r := NextTime(params, Some(t));
    assert "sec" in UnitNames;
    WildcardSecondStep(params, t);
    ResultIs(params, t, 0, Instant(1, 0, 10, 1, 1, 2024), r);
  }

  /** nextTime(['sec' => 15], '01.01.2024 10:00:00') is 01.01.2024 10:00:15
      (the integer 15 reaches matchCriteria as the string "15"). */
  method SecondFifteen() returns (r: Outcome<Option<Instant>>)
    ensures r == Ok(Some(Instant(15, 0, 10, 1, 1, 2024)))
  {
    var params, t := Assoc(map["sec" := "15"]), Instant(0, 0, 10, 1, 1, 2024);
    r := NextTime(params, Some(t));
    SecondFifteenStops(params, t);
    ResultIs(params, t, 0, Instant(15, 0, 10, 1, 1, 2024), r);
  }

  lemma SecondFifteenStops(params: Params, t: Instant)
    requires params == Assoc(map["sec" := "15"]) && t == Instant(0, 0, 10, 1, 1, 2024)
    ensures SucceedsAt(params, t, 0, Instant(15, 0, 10, 1, 1, 2024))
  {
    assert UnitName(0) == "sec";
    assert DigitsValue("15") == 15 by { assert "15"[..1] == "1"; }
    BareNumberStops(params, t, 0, "15");
    InstantByUnits(Carried(t, 0, 15), Instant(15, 0, 10, 1, 1, 2024));
  }

  /** nextTime(['min' => '5/10'], '01.01.2024 10:00:00') is 01.01.2024 10:00:01: the
      search stops at the seconds and never looks at the minute criterion. */
  method MinuteStep() returns (r: Outcome<Option<Instant>>)
    ensures r == Ok(Some(Instant(1, 0, 10, 1, 1, 2024)))
  {
    var params, t := Assoc(map["min" := "5/10"]), Instant(0, 0, 10, 1, 1, 2024);
    r := NextTime(params, Some(t));
    assert CriterionAt(params, 0) == "*";
    WildcardSecondStep(params, t);
    ResultIs(params, t, 0, Instant(1, 0, 10, 1, 1, 2024), r);
  }

  /** nextTime(['year' => 2023], '01.01.2024 10:00:00') is 01.01.2024 10:00:01, not false:
      the year 2024 is kept without being checked against "2023". */
  method PastYear() returns (r: Outcome<Option<Instant>>)
    ensures r == Ok(Some(Instant(1, 0, 10, 1, 1, 2024)))
  {
    var params, t := Assoc(map["year" := "2023"]), Instant(0, 0, 10, 1, 1, 2024);
    r := NextTime(params, Some(t));
    assert CriterionAt(params, 0) == "*";
    WildcardSecondStep(params, t);
    ResultIs(params, t, 0, Instant(1, 0, 10, 1, 1, 2024), r);
  }

  /** nextTime(['sec' => 40], '18.08.2024 10:10:40') is 18.08.2024 10:01:00, which is
      earlier than the reference: the failed second level resets the minute to 0 and the
      minute level then moves it to 1. */
  method SecondFortyCarry() returns (r: Outcome<Option<Instant>>)
    ensures r == Ok(Some(Instant(0, 1, 10, 18, 8, 2024)))
  {
    var params, t := Assoc(map["sec" := "40"]), Instant(40, 10, 10, 18, 8, 2024);
    r := NextTime(params, Some(t));
    SecondFortyStops(params, t);
    ResultIs(params, t, 1, Instant(0, 1, 10, 18, 8, 2024), r);
  }

  lemma SecondFortyStops(params: Params, t: Instant)
    requires params == Assoc(map["sec" := "40"]) && t == Instant(40, 10, 10, 18, 8, 2024)
    ensures SucceedsAt(params, t, 1, Instant(0, 1, 10, 18, 8, 2024))
  {
    assert UnitName(0) == "sec" && UnitName(1) == "min";
    assert DigitsValue("40") == 40 by { assert "40"[..1] == "4"; }
    BareNumberFails(params, t, 0, "40");
    WildcardCarry(params, t, 1);
    InstantByUnits(Carried(t, 1, 1), Instant(0, 1, 10, 18, 8, 2024));
  }

  /** A daily criterion, sec "0", min "0" and hour "0", from 15.04.2024 10:20:30: the three
      time levels fail, each failure writes 0 into the next coarser field, and the day level
      stops with 1, giving 01.04.2024 00:00:00 under plain field writes. (PHP's setDate reads
      the day 0 written at line 38 as the last day of the previous month, so PHP itself goes
      on from 31 March instead; that roll-over is not part of this model.) */
  method DailyMidnight() returns (r: Outcome<Option<Instant>>)
    ensures r == Ok(Some(Instant(0, 0, 0, 1, 4, 2024)))
  {
    var params := Assoc(map["sec" := "0", "min" := "0", "hour" := "0"]);
    var t := Instant(30, 20, 10, 15, 4, 2024);
    r := NextTime(params, Some(t));
    DailyMidnightStops(params, t);
    ResultIs(params, t, 3, Instant(0, 0, 0, 1, 4, 2024), r);
  }

  lemma DailyMidnightStops(params: Params, t: Instant)
    requires params == Assoc(map["sec" := "0", "min" := "0", "hour" := "0"])
    requires t == Instant(30, 20, 10, 15, 4, 2024)
    ensures SucceedsAt(params, t, 3, Instant(0, 0, 0, 1, 4, 2024))
  {
    assert UnitName(0) == "sec" && UnitName(1) == "min" && UnitName(2) == "hour" && UnitName(3) == "day";
    assert DigitsValue("0") == 0;
    BareNumberFails(params, t, 0, "0");
    BareNumberFails(params, t, 1, "0");
    BareNumberFails(params, t, 2, "0");
    WildcardCarry(params, t, 3);
    InstantByUnits(Carried(t, 3, 1), Instant(0, 0, 0, 1, 4, 2024));
  }
}
