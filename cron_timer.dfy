/** CronTimer::nextTime and the helpers that feed it: normalizeParams and findNextValidValue. */
module CronTimer {
  import opened Results
  import opened Criteria
  import opened Calendar

  /** The `$params` argument: an associative array of criterion strings, or a value that is not an array. */
  datatype Params = NotAnArray | Assoc(entries: map<string, string>)

  /** The map normalizeParams returns: the six criteria keys are always present; a non-empty
      array keeps every entry it has (extra keys too) and gets "*" for each missing key;
      an empty array or a non-array gets exactly the six keys, all "*". */
  function Normalized(params: Params): (p: map<string, string>)
    ensures forall k :: k in UnitNames ==> k in p
    ensures params.Assoc? && params.entries != map[] ==>
      p.Keys == params.entries.Keys + set k | k in UnitNames
    ensures params.Assoc? && params.entries != map[] ==>
      forall k :: k in params.entries ==> p[k] == params.entries[k]
    ensures forall k :: k in p && (params.NotAnArray? || k !in params.entries) ==> p[k] == "*"
    ensures params.NotAnArray? || params.entries == map[] ==> p.Keys == set k | k in UnitNames
  {
    if params.Assoc? && params.entries != map[] then
      map k | k in params.entries.Keys + (set k | k in UnitNames) ::
        if k in params.entries then params.entries[k] else "*"
    else
      map k | k in UnitNames :: "*"
  }

  /** Normalising an already normalised map changes nothing. */
  lemma NormalizedIdempotent(params: Params)
    ensures Normalized(Assoc(Normalized(params))) == Normalized(params)
  {
    var p := Normalized(params);
    assert "sec" in UnitNames;
    assert p != map[] by { assert "sec" in p; }
    var q := Normalized(Assoc(p));
    assert q.Keys == p.Keys;
  }

  /** CronTimer::normalizeParams. */
  method NormalizeParams(params: Params) returns (p: map<string, string>)
    ensures p == Normalized(params)
  {
    if params.Assoc? && params.entries != map[] {
      p := params.entries;
      for i := 0 to |UnitNames|
        invariant p.Keys == params.entries.Keys + set k | k in UnitNames[..i]
        invariant forall k :: k in p ==> p[k] == if k in params.entries then params.entries[k] else "*"
      {
        var key := UnitNames[i];
        if key !in p {
          p := p[key := "*"];
        }
        assert UnitNames[..i + 1] == UnitNames[..i] + [key];
      }
      assert UnitNames[..|UnitNames|] == UnitNames;
    } else {
      p := map k | k in UnitNames :: "*";
    }
  }

  /** No value in (lo, hi] satisfies the criterion (and none raises an error). */
  ghost predicate NoMatchIn(criterion: string, lo: int, hi: int) {
    forall i :: lo < i <= hi ==> MatchCriteria(i, criterion) == Ok(false)
  }

  /** A value that does not match extends a range without matches by one. */
  lemma NoMatchExtended(criterion: string, lo: int, hi: int)
    requires NoMatchIn(criterion, lo, hi - 1)
    requires MatchCriteria(hi, criterion) == Ok(false)
    ensures NoMatchIn(criterion, lo, hi)
  {
  }

  /** CronTimer::findNextValidValue: the least value in (currentValue, limit] that matches. */
  method FindNextValidValue(currentValue: int, criterion: string, limit: int) returns (r: Outcome<Option<int>>)
    ensures r == ModuloByZero <==> currentValue < limit && DividesByZero(Classify(criterion))
    ensures r == Ok(None) <==> NoMatchIn(criterion, currentValue, limit)
    ensures r.Ok? && r.value.Some? ==>
      var next := r.value.value;
      currentValue < next <= limit && MatchCriteria(next, criterion) == Ok(true) &&
      NoMatchIn(criterion, currentValue, next - 1)
  {
    var i := currentValue + 1;
    while i <= limit
      invariant currentValue < i
      invariant i <= limit + 1 || i == currentValue + 1
      invariant NoMatchIn(criterion, currentValue, i - 1)
      decreases limit - i
    {
      var m := MatchCriteria(i, criterion);
      if m == ModuloByZero {
        return ModuloByZero;
      }
      if m.value {
        return Ok(Some(i));
      }
      NoMatchExtended(criterion, currentValue, i);
      i := i + 1;
    }
    assert currentValue < limit ==> MatchCriteria(currentValue + 1, criterion) == Ok(false);
    return Ok(None);
  }

  /** The criterion string that governs `level` once the parameters are normalised. */
  function CriterionAt(params: Params, level: Level): (c: string)
    ensures params.Assoc? && UnitName(level) in params.entries ==> c == params.entries[UnitName(level)]
    ensures !(params.Assoc? && UnitName(level) in params.entries) ==> c == "*"
  {
    Normalized(params)[UnitName(level)]
  }

  /** The value the scan of `level` starts above: the reference's second at level 0; at every
      coarser level 0, because the level below wrote 0 into it when it failed. */
  function ScanStart(t: Instant, level: Level): int {
    if level == 0 then t.sec else 0
  }

  /** The scan of `level` finds no value. */
  ghost predicate LevelFails(params: Params, t: Instant, level: Level) {
    NoMatchIn(CriterionAt(params, level), ScanStart(t, level), LimitByLevel(level))
  }

  /** The scan of `level` evaluates its criterion and that criterion divides by zero. */
  ghost predicate LevelThrows(params: Params, t: Instant, level: Level) {
    ScanStart(t, level) < LimitByLevel(level) && DividesByZero(Classify(CriterionAt(params, level)))
  }

  /** Every level below `level` fails. */
  ghost predicate FinerLevelsFail(params: Params, t: Instant, level: int) {
    forall k: Level :: k < level ==> LevelFails(params, t, k)
  }

  /** `result` is what nextTime returns when the search stops at `level`: every finer level
      failed; the field of `level` holds the least matching value above the scan start, within
      the level's limit; every finer field is 0; every coarser field is the reference's,
      whether or not it satisfies its own criterion. */
  ghost predicate SucceedsAt(params: Params, t: Instant, level: Level, result: Instant) {
    var c := CriterionAt(params, level);
    var v := Unit(result, level);
    FinerLevelsFail(params, t, level) &&
    ScanStart(t, level) < v <= LimitByLevel(level) &&
    MatchCriteria(v, c) == Ok(true) &&
    NoMatchIn(c, ScanStart(t, level), v - 1) &&
    forall k: Level :: (k < level ==> Unit(result, k) == 0) && (k > level ==> Unit(result, k) == Unit(t, k))
  }

  /** CronTimer::nextTime. `start` is the reference instant after parsing, None when
      createFromFormat fails. Ok(None) is the source's `false`; ModuloByZero is the
      error matchCriteria raises. */
  method NextTime(params: Params, start: Option<Instant>) returns (r: Outcome<Option<Instant>>)
    ensures start.None? ==> r == Ok(None)
    ensures r == Ok(None) <==> start.None? || FinerLevelsFail(params, start.value, 6)
    ensures r == ModuloByZero ==>
      start.Some? &&
      exists level: Level :: FinerLevelsFail(params, start.value, level) && LevelThrows(params, start.value, level)
    ensures r.Ok? && r.value.Some? ==>
      start.Some? && exists level: Level :: SucceedsAt(params, start.value, level, r.value.value)
  {
    var p := NormalizeParams(params);
    if start.None? {
      return Ok(None);
    }
    var t := start.value;
    var current := new DateTime(t);
    ghost var stop: Level := 0;
    for level := 0 to 6
      invariant level <= 5
      invariant FinerLevelsFail(params, t, level)
      invariant forall k: Level ::
        Unit(current.Snapshot(), k) == if k < level || (k == level && level > 0) then 0 else Unit(t, k)
    {
      var unitName := UnitName(level);
      var value := current.Format(FormatByLevel(level));
      var criterion := p[unitName];
      assert value == ScanStart(t, level);
      assert criterion == CriterionAt(params, level);

      var nextValue := FindNextValidValue(value, criterion, LimitByLevel(level));
      if nextValue == ModuloByZero {
        assert LevelThrows(params, t, level);
        assert !LevelFails(params, t, level) by {
          assert MatchCriteria(value + 1, criterion) == ModuloByZero;
        }
        return ModuloByZero;
      }
      if nextValue.value.None? {
        assert LevelFails(params, t, level);
        if level == 5 {
          return Ok(None);
        }
        current.SetTimeUnit(level + 1, 0);
        current.SetTimeUnit(level, 0);
        continue;
      }

      var next := nextValue.value.value;
      if next > value {
        current.SetTimeUnit(level, next);
        for resetLevel := level downto 0
          invariant forall k: Level ::
            Unit(current.Snapshot(), k) ==
              if resetLevel <= k < level then 0
              else if k == level then next
              else if k < level then (if level > 0 then 0 else Unit(t, k))
              else Unit(t, k)
        {
          current.SetTimeUnit(resetLevel, 0);
        }
        stop := level;
        break;
      } else {
        // lines 51-58: findNextValidValue only returns values above `value`
        assert false;
      }
    }
    r := Ok(Some(current.Snapshot()));
    assert SucceedsAt(params, t, stop, current.Snapshot());
    assert !LevelFails(params, t, stop) by {
      var v := Unit(current.Snapshot(), stop);
      assert MatchCriteria(v, CriterionAt(params, stop)) == Ok(true);
    }
  }

  // ---------------------------------------------------------------------------
  // The contract of NextTime leaves exactly one result

  /** A level whose criterion divides by zero never fails: its first evaluation raises. */
  lemma ThrowingLevelDoesNotFail(params: Params, t: Instant, level: Level)
    requires LevelThrows(params, t, level)
    ensures !LevelFails(params, t, level)
  {
    assert MatchCriteria(ScanStart(t, level) + 1, CriterionAt(params, level)) == ModuloByZero;
  }

  /** The search can stop at only one level and with only one instant. */
  lemma SuccessIsUnique(params: Params, t: Instant, l1: Level, r1: Instant, l2: Level, r2: Instant)
    requires SucceedsAt(params, t, l1, r1) && SucceedsAt(params, t, l2, r2)
    ensures l1 == l2 && r1 == r2
  {
    var v1, v2 := Unit(r1, l1), Unit(r2, l2);
    assert MatchCriteria(v1, CriterionAt(params, l1)) == Ok(true);
    assert MatchCriteria(v2, CriterionAt(params, l2)) == Ok(true);
    assert l1 < l2 ==> LevelFails(params, t, l1);
    assert l2 < l1 ==> LevelFails(params, t, l2);
    assert l1 == l2;
    InstantByUnits(r1, r2);
  }

  /** The instant the search stops with is the reference with the stopping level's field set
      to the value found and every finer field set to 0. */
  lemma SuccessIsCarried(params: Params, t: Instant, level: Level, result: Instant)
    requires SucceedsAt(params, t, level, result)
    ensures result == Carried(t, level, Unit(result, level))
  {
    InstantByUnits(result, Carried(t, level, Unit(result, level)));
  }

  /** When the search can stop at some level, it neither fails at every level nor throws. */
  lemma SuccessExcludesOtherOutcomes(params: Params, t: Instant, level: Level, result: Instant)
    requires SucceedsAt(params, t, level, result)
    ensures !FinerLevelsFail(params, t, 6)
    ensures forall l: Level :: !(FinerLevelsFail(params, t, l) && LevelThrows(params, t, l))
  {
    var v := Unit(result, level);
    assert MatchCriteria(v, CriterionAt(params, level)) == Ok(true);
    assert !LevelFails(params, t, level);
    forall l: Level | LevelThrows(params, t, l) ensures !FinerLevelsFail(params, t, l) {
      ThrowingLevelDoesNotFail(params, t, l);
    }
  }

  /** With "*" for seconds and a reference second below 59, the search stops at level 0 and
      the result is the reference one second later. */
  lemma WildcardSecondStep(params: Params, t: Instant)
    requires CriterionAt(params, 0) == "*"
    requires t.sec < 59
    ensures SucceedsAt(params, t, 0, t.(sec := t.sec + 1))
  {
    StarCriterion(t.sec + 1);
  }

  /** When every level below `level` fails and `level` has "*", the search stops at `level`
      with value 1 there: the field of a level reached by carrying was reset to 0 first. */
  lemma WildcardCarry(params: Params, t: Instant, level: Level)
    requires 0 < level
    requires FinerLevelsFail(params, t, level)
    requires CriterionAt(params, level) == "*"
    ensures SucceedsAt(params, t, level, Carried(t, level, 1))
  {
    StarCriterion(1);
  }

  /** A bare number N at a reached level stops the search there with N when N lies in
      (scan start, limit]. */
  lemma BareNumberStops(params: Params, t: Instant, level: Level, n: string)
    requires FinerLevelsFail(params, t, level)
    requires IsDigits(n) && CriterionAt(params, level) == n
    requires ScanStart(t, level) < DigitsValue(n) <= LimitByLevel(level)
    ensures SucceedsAt(params, t, level, Carried(t, level, DigitsValue(n)))
  {
    forall v ensures MatchCriteria(v, n) == Ok(v == DigitsValue(n)) {
      BareNumberCriterion(v, n);
    }
  }

  /** A bare number N outside (scan start, limit] makes its level fail. */
  lemma BareNumberFails(params: Params, t: Instant, level: Level, n: string)
    requires IsDigits(n) && CriterionAt(params, level) == n
    requires DigitsValue(n) <= ScanStart(t, level) || LimitByLevel(level) < DigitsValue(n)
    ensures LevelFails(params, t, level)
  {
    forall v ensures MatchCriteria(v, n) == Ok(v == DigitsValue(n)) {
      BareNumberCriterion(v, n);
    }
  }

  /** The instant nextTime returns when it stops at `level` with `value`. */
  function Carried(t: Instant, level: Level, value: int): (r: Instant)
    ensures forall k: Level :: Unit(r, k) == if k < level then 0 else if k == level then value else Unit(t, k)
  {
    var field := (k: Level) => if k < level then 0 else if k == level then value else Unit(t, k);
    Instant(field(0), field(1), field(2), field(3), field(4), field(5))
  }
}
