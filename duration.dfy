/** internal/timeparse/duration.go: durations written as a decimal count and
    a unit ("10h", "2d", "3weeks"), as integer nanoseconds in the int64 range
    of Go's `time.Duration`. */
module Duration {
  import opened Results
  import opened GoStrings

  const Second: int := 1_000_000_000
  const Minute: int := 60 * Second
  const Hour: int := 60 * Minute
  const Day: int := 24 * Hour
  const Week: int := 7 * Day

  /** The unit table: single letters and the long forms of day and week. */
  const Units: map<string, int> := map[
    "s" := Second, "m" := Minute, "h" := Hour, "d" := Day, "w" := Week,
    "day" := Day, "days" := Day, "week" := Week, "weeks" := Week]

  /** Each error names the trimmed input it was found in. */
  datatype DurationError =
    | EmptyDuration
    | MissingNumber(input: string)
    | MissingUnit(input: string)
    | BadNumber(input: string, cause: NumError)
    | UnknownUnit(input: string, unit: string)
    | TooLarge(input: string)

  /** What the parsing relies on about a unit table: every unit is
      non-empty, starts with neither a digit nor white space, ends without
      white space, and is worth a positive whole number of seconds. */
  predicate UnitTable(units: map<string, int>)
  {
    forall u :: u in units ==>
      u != [] && !IsDigit(u[0]) && !IsSpace(u[0]) && !IsSpace(u[|u| - 1]) &&
      units[u] >= Second && units[u] % Second == 0
  }

  lemma UnitsWellFormed()
    ensures UnitTable(Units)
  {
    forall u | u in Units
      ensures u != [] && !IsDigit(u[0]) && !IsSpace(u[0]) && !IsSpace(u[|u| - 1])
      ensures Units[u] >= Second && Units[u] % Second == 0
    {
      assert u in {"s", "m", "h", "d", "w", "day", "days", "week", "weeks"};
    }
  }

  /** The result `ParseDuration` computes. */
  function DurationOf(s: string): Result<int, DurationError>
  {
    UnitsWellFormed();
    DurationIn(s, Units)
  }

  /** The result for a given unit table. */
  function DurationIn(s: string, units: map<string, int>): Result<int, DurationError>
    requires UnitTable(units)
  {
    DurationOfTrimmed(TrimSpace(s), units)
  }

  /** The result for an input already stripped of surrounding white space. */
  function DurationOfTrimmed(t: string, units: map<string, int>): Result<int, DurationError>
    requires UnitTable(units)
  {
    if t == [] then Err(EmptyDuration)
    else
      var i := LeadingDigits(t);
      if i == 0 then Err(MissingNumber(t))
      else if i == |t| then Err(MissingUnit(t))
      else
        match ParseInt(t[..i])
        case Err(e) => Err(BadNumber(t, e))
        case Ok(num) =>
          var unit := TrimSpace(t[i..]);
          if unit !in units then Err(UnknownUnit(t, unit))
          else if num > MaxInt64 / units[unit] then Err(TooLarge(t))
          else Ok(num * units[unit])
  }

  /** `ParseDuration` with the unit table of the source. */
  method ParseDuration(s: string) returns (r: Result<int, DurationError>)
    ensures r == DurationOf(s)
  {
    UnitsWellFormed();
    r := ParseDurationIn(s, Units);
  }

  /** `ParseDuration`: trim, scan the leading digits, parse them, look up the
      (trimmed) rest in the unit table and refuse a product past int64. The
      source's check for a negative count follows a scan that only accepts
      digits, so it can never fire. */
  method ParseDurationIn(s: string, units: map<string, int>) returns (r: Result<int, DurationError>)
    requires UnitTable(units)
    ensures r == DurationIn(s, units)
  {
    var t := TrimSpace(s);
    if t == [] {
      return Err(EmptyDuration);
    }
    var i := 0;
    while i < |t| && IsDigit(t[i])
      invariant 0 <= i <= LeadingDigits(t)
    {
      i := i + 1;
    }
    assert i == LeadingDigits(t);
    if i == 0 {
      return Err(MissingNumber(t));
    }
    if i == |t| {
      return Err(MissingUnit(t));
    }
    r := ScaleCount(t, i, units);
  }

  /** The rest of `ParseDuration` once the count's digits `t[..i]` are
      found: parse them, look up the unit and guard against overflow. */
  method ScaleCount(t: string, i: nat, units: map<string, int>) returns (r: Result<int, DurationError>)
    requires UnitTable(units)
    requires 0 < i < |t| && i == LeadingDigits(t)
    ensures r == DurationOfTrimmed(t, units)
  {
    var parsed := ParseInt(t[..i]);
    if parsed.Err? {
      return Err(BadNumber(t, parsed.error));
    }
    var num := parsed.value;
    assert AllDigits(t[..i]);
    if num < 0 {
      assert false;
    }
    var unit := TrimSpace(t[i..]);
    if unit !in units {
      return Err(UnknownUnit(t, unit));
    }
    if num > MaxInt64 / units[unit] {
      return Err(TooLarge(t));
    }
    r := Ok(num * units[unit]);
  }

  /** A parsed duration is a non-negative whole number of seconds within
      the int64 range. */
  lemma DurationInRange(s: string, units: map<string, int>)
    requires UnitTable(units)
    ensures DurationIn(s, units).Ok? ==>
      0 <= DurationIn(s, units).value <= MaxInt64 && DurationIn(s, units).value % Second == 0
  {
    TrimmedInRange(TrimSpace(s), units);
  }

  lemma TrimmedInRange(t: string, units: map<string, int>)
    requires UnitTable(units)
    ensures DurationOfTrimmed(t, units).Ok? ==>
      0 <= DurationOfTrimmed(t, units).value <= MaxInt64 && DurationOfTrimmed(t, units).value % Second == 0
  {
    if DurationOfTrimmed(t, units).Ok? {
      var i := LeadingDigits(t);
      var num := ParseInt(t[..i]).value;
      assert AllDigits(t[..i]);
      var unit := TrimSpace(t[i..]);
      ScaledInRange(num, units[unit]);
    }
  }

  /** A count that passes the overflow guard, times a unit of whole
      seconds, is an in-range whole number of seconds. */
  lemma ScaledInRange(num: int, u: int)
    requires u >= Second && u % Second == 0 && 0 <= num <= MaxInt64 / u
    ensures 0 <= num * u <= MaxInt64 && (num * u) % Second == 0
  {
    ProductGuard(num, u);
    WholeSeconds(num, u / Second);
    assert u == u / Second * Second;
  }

  lemma WholeSeconds(num: nat, k: nat)
    ensures (num * (k * Second)) % Second == 0
  {
    assert num * (k * Second) == (num * k) * Second;
  }

  /** Writing a count, optional white space and a unit and parsing it gives
      the count times the unit, or `TooLarge` when that leaves int64. */
  lemma DurationRoundTrip(n: nat, w: string, unit: string, units: map<string, int>)
    requires UnitTable(units)
    requires n <= MaxInt64 && AllSpace(w) && unit in units
    ensures DurationIn(Itoa(n) + w + unit, units) ==
      if n * units[unit] <= MaxInt64 then Ok(n * units[unit]) else Err(TooLarge(Itoa(n) + w + unit))
  {
    var digits := Itoa(n);
    WrittenIsTrimmed(digits, w, unit);
    assert ParseInt(digits) == Ok(n);
    WrittenDuration(digits, n, w, unit, units);
    ProductGuard(n, units[unit]);
  }

  /** The round trip for any decimal spelling `digits` of the count. */
  lemma WrittenDuration(digits: string, n: nat, w: string, unit: string, units: map<string, int>)
    requires UnitTable(units)
    requires digits != [] && AllDigits(digits) && ParseInt(digits) == Ok(n)
    requires AllSpace(w) && unit in units
    ensures DurationOfTrimmed(digits + w + unit, units) ==
      if n > MaxInt64 / units[unit] then Err(TooLarge(digits + w + unit)) else Ok(n * units[unit])
  {
    WrittenDigits(digits, w, unit);
    WrittenUnit(digits, w, unit);
    DurationAt(digits + w + unit, |digits|, n, unit, units);
  }

  /** The written form has no white space at either end. */
  lemma WrittenIsTrimmed(digits: string, w: string, unit: string)
    requires digits != [] && AllDigits(digits)
    requires unit != [] && !IsSpace(unit[|unit| - 1])
    ensures TrimSpace(digits + w + unit) == digits + w + unit
  {
    var s := digits + w + unit;
    assert s[0] == digits[0] && s[|s| - 1] == unit[|unit| - 1];
    DigitIsNotSpace(digits[0]);
    TrimSpaceUnchanged(s);
  }

  /** Its leading digits are exactly the written count. */
  lemma WrittenDigits(digits: string, w: string, unit: string)
    requires AllDigits(digits) && AllSpace(w)
    requires unit != [] && !IsDigit(unit[0]) && !IsSpace(unit[0])
    ensures LeadingDigits(digits + w + unit) == |digits|
    ensures (digits + w + unit)[..|digits|] == digits
  {
    var rest := w + unit;
    assert digits + w + unit == digits + rest;
    assert rest[0] == if w == [] then unit[0] else w[0];
    LeadingDigitsOf(digits, rest);
  }

  /** What follows the count trims to the unit. */
  lemma WrittenUnit(digits: string, w: string, unit: string)
    requires AllSpace(w)
    requires unit != [] && !IsSpace(unit[0]) && !IsSpace(unit[|unit| - 1])
    ensures TrimSpace((digits + w + unit)[|digits|..]) == unit
  {
    assert (digits + w + unit)[|digits|..] == w + unit + "";
    TrimSpaceSurrounded(w, unit, "");
    TrimSpaceUnchanged(unit);
  }

  /** The result once the pieces of a well-formed input are known. */
  lemma DurationAt(t: string, i: nat, num: int, unit: string, units: map<string, int>)
    requires UnitTable(units)
    requires 0 < i < |t| && LeadingDigits(t) == i
    requires ParseInt(t[..i]) == Ok(num) && TrimSpace(t[i..]) == unit && unit in units
    ensures DurationOfTrimmed(t, units) == if num > MaxInt64 / units[unit] then Err(TooLarge(t)) else Ok(num * units[unit])
  {
  }

  /** White space around a duration is ignored, in its result and in the
      input its errors name. */
  lemma DurationIgnoresSurroundingSpace(a: string, s: string, b: string, units: map<string, int>)
    requires UnitTable(units) && AllSpace(a) && AllSpace(b)
    ensures DurationIn(a + s + b, units) == DurationIn(s, units)
  {
    TrimSpaceSurrounded(a, s, b);
  }

  /** A sign is not a digit: a negative duration is refused as having no
      number, before the count is parsed. */
  lemma NegativeHasNoNumber(x: string, units: map<string, int>)
    requires UnitTable(units)
    ensures DurationIn("-" + x, units) == Err(MissingNumber(TrimSpace("-" + x)))
  {
    var s := "-" + x;
    TrimLeftNoSpace(s);
    TrimRightShape(s);
    assert TrimSpace(s)[0] == '-';
  }
}
