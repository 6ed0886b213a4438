// Certificate validity arithmetic (crates/fakecloud-acmpca/src/validate.rs):
// resolving a `Validity` value and type into an absolute expiry that an X.509
// certificate can encode. Moments are nanoseconds since the Unix epoch.

module Validity {
  import opened Common
  import opened Calendar

  type Time = int

  const NANOS: int := 1_000_000_000
  const DAY: int := 86_400_000_000_000

  newtype i64 = x: int | -0x8000_0000_0000_0000 <= x < 0x8000_0000_0000_0000

  const MAX_VALIDITY_DAYS: int := 2_900_000
  const MAX_CERT_YEAR: int := 9999

  // The first and last year chrono's `DateTime<Utc>` can hold.
  const MIN_CHRONO_YEAR: int := -262143
  const MAX_CHRONO_YEAR: int := 262142

  // chrono's `timestamp()`: whole seconds, rounded down.
  function WholeSeconds(t: Time): int { t / NANOS }

  predicate Representable(t: Time) {
    StartOfYear(MIN_CHRONO_YEAR) * NANOS <= t < StartOfYear(MAX_CHRONO_YEAR + 1) * NANOS
  }

  // The first moment no certificate can carry: 10000-01-01T00:00:00Z.
  const CEILING: Time := StartOfYear(MAX_CERT_YEAR + 1) * NANOS

  // `i64::checked_mul`
  function CheckedMul(a: i64, b: i64): (r: Option<i64>)
    ensures r.Some? ==> r.value as int == a as int * b as int
  {
    var product := a as int * b as int;
    if -0x8000_0000_0000_0000 <= product < 0x8000_0000_0000_0000 then Some(product as i64) else None
  }

  // `chrono::Duration::days`, which panics once the milliseconds leave an i64.
  // Its precondition is that panic: every call below proves it away.
  function DurationDays(days: i64): (nanos: int)
    requires -106_751_991_167 <= days <= 106_751_991_167
    ensures nanos == days as int * DAY
  {
    days as int * DAY
  }

  // `checked_add_signed`
  function CheckedAdd(from: Time, nanos: int): Option<Time> {
    if Representable(from + nanos) then Some(from + nanos) else None
  }

  // The year test refuses exactly the moments at or past the ceiling.
  function EnsureRepresentable(t: Time): (r: Reply<Time>)
    ensures r.Ok? <==> t < CEILING
    ensures r.Ok? ==> r.value == t
  {
    YearBefore(WholeSeconds(t), MAX_CERT_YEAR + 1);
    if YearOf(WholeSeconds(t)) > MAX_CERT_YEAR
    then Err(InvalidArgs)
    else Ok(t)
  }

  predicate IsRelative(ty: string) { ty in {"DAYS", "MONTHS", "YEARS"} }

  // Months count 30 days and years 365.
  function RelativeDays(value: int, ty: string): int
    requires IsRelative(ty)
  {
    if ty == "DAYS" then value else if ty == "MONTHS" then value * 30 else value * 365
  }

  function ResolveDays(from: Time, days: i64): (r: Reply<Time>)
    requires 1 <= days
    ensures r.Ok? ==> r.value < CEILING
  {
    if days as int > MAX_VALIDITY_DAYS then Err(InvalidArgs)
    else
      var end := CheckedAdd(from, DurationDays(days));
      if end.None? then Err(InvalidArgs) else EnsureRepresentable(end.value)
  }

  function ResolveValidity(from: Time, value: i64, ty: string): (r: Reply<Time>)
    ensures r.Ok? ==> r.value < CEILING
  {
    if IsRelative(ty) then
      if value < 1 then Err(InvalidArgs)
      else
        var days := if ty == "DAYS" then Some(value)
                    else if ty == "MONTHS" then CheckedMul(value, 30)
                    else CheckedMul(value, 365);
        if days.None? then Err(InvalidArgs) else ResolveDays(from, days.value)
    else if ty == "ABSOLUTE" then
      if Representable(value as int * NANOS) then EnsureRepresentable(value as int * NANOS)
      else Err(InvalidArgs)
    else if ty == "END_DATE" then
      var parsed := ParseEndDate(value);
      if parsed.Err? then parsed else EnsureRepresentable(parsed.value)
    else Err(InvalidArgs)
  }

  // The six fields of an integer YYYYMMDDHHMMSS.
  function EndDateFields(value: int): (c: Civil)
    requires value > 0
  {
    Civil(value / 10_000_000_000, value / 100_000_000 % 100, value / 1_000_000 % 100,
          value / 10_000 % 100, value / 100 % 100, value % 100)
  }

  function ParseEndDate(value: i64): Reply<Time> {
    if value <= 0 then Err(InvalidArgs)
    else
      var c := EndDateFields(value as int);
      if ValidCivil(c) && c.year <= MAX_CHRONO_YEAR then Ok(Timestamp(c) * NANOS)
      else Err(InvalidArgs)
  }

  // The integer a caller writes for a civil time.
  function EncodeEndDate(c: Civil): int {
    ((((c.year * 100 + c.month) * 100 + c.day) * 100 + c.hour) * 100 + c.minute) * 100 + c.second
  }

  // ---- the year-9999 ceiling ----

  lemma LastSecond()
    ensures (Timestamp(Civil(9999, 12, 31, 23, 59, 59)) + 1) * NANOS == CEILING
  {
    YearEnds(MAX_CERT_YEAR);
  }

  // No validity, whatever its value and type, resolves past
  // 9999-12-31T23:59:59Z: the second that is encoded is at most that one.
  lemma NeverPastCeiling(from: Time, value: i64, ty: string)
    ensures var r := ResolveValidity(from, value, ty);
            r.Ok? ==> r.value < CEILING
                      && WholeSeconds(r.value) <= Timestamp(Civil(9999, 12, 31, 23, 59, 59))
  {
    var r := ResolveValidity(from, value, ty);
    if r.Ok? {
      BelowCeiling(r.value);
    }
  }

  lemma BelowCeiling(t: Time)
    requires t < CEILING
    ensures WholeSeconds(t) <= Timestamp(Civil(9999, 12, 31, 23, 59, 59))
  {
    LastSecond();
  }

  // ---- relative validities ----

  ghost predicate RelativeAccepted(from: Time, value: int, ty: string)
    requires IsRelative(ty)
  {
    && 1 <= value
    && RelativeDays(value, ty) <= MAX_VALIDITY_DAYS
    && from + RelativeDays(value, ty) * DAY < CEILING
  }

  lemma DaysExact(from: Time, days: i64, end: Time)
    requires Representable(from) && 1 <= days && end == from + days as int * DAY
    ensures ResolveDays(from, days).Ok? <==> days as int <= MAX_VALIDITY_DAYS && end < CEILING
    ensures var r := ResolveDays(from, days); r.Ok? ==> r.value == end
  {
    if days as int <= MAX_VALIDITY_DAYS {
      assert DurationDays(days) == end - from;
    }
  }

  // A relative validity is accepted exactly when it is positive, within the cap
  // and ends before the ceiling, and then ends that many days after its start.
  lemma RelativeExact(from: Time, value: i64, ty: string)
    requires IsRelative(ty) && Representable(from)
    ensures ResolveValidity(from, value, ty).Ok? <==> RelativeAccepted(from, value as int, ty)
    ensures var r := ResolveValidity(from, value, ty);
            r.Ok? ==> r.value == from + RelativeDays(value as int, ty) * DAY && r.value > from
  {
    if value >= 1 {
      var days := if ty == "DAYS" then Some(value)
                  else if ty == "MONTHS" then CheckedMul(value, 30)
                  else CheckedMul(value, 365);
      if days.Some? {
        DaysExact(from, days.value, from + RelativeDays(value as int, ty) * DAY);
      }
    }
  }

  // Asking for longer ends later, and whatever is accepted stays accepted when
  // less is asked for.
  lemma RelativeIncreasing(from: Time, shorter: i64, longer: i64, ty: string)
    requires IsRelative(ty) && Representable(from)
    requires 1 <= shorter < longer
    requires ResolveValidity(from, longer, ty).Ok?
    ensures ResolveValidity(from, shorter, ty).Ok?
    ensures ResolveValidity(from, shorter, ty).value < ResolveValidity(from, longer, ty).value
  {
    RelativeExact(from, shorter, ty);
    RelativeExact(from, longer, ty);
  }

  // ---- absolute validities ----

  lemma AbsoluteExact(from: Time, value: i64)
    ensures ResolveValidity(from, value, "ABSOLUTE").Ok? <==>
            StartOfYear(MIN_CHRONO_YEAR) <= value as int <= Timestamp(Civil(9999, 12, 31, 23, 59, 59))
    ensures var r := ResolveValidity(from, value, "ABSOLUTE"); r.Ok? ==> r.value == value as int * NANOS
  {
    assert WholeSeconds(value as int * NANOS) == value as int;
    YearBefore(value as int, MIN_CHRONO_YEAR);
    YearBefore(value as int, MAX_CERT_YEAR + 1);
    YearEnds(MAX_CERT_YEAR);
  }

  // ---- END_DATE validities ----

  // Splitting an encoded civil time gives the civil time back.
  lemma FieldsOfEncoding(c: Civil)
    requires ValidCivil(c) && 0 <= c.year
    ensures EncodeEndDate(c) > 0 && EndDateFields(EncodeEndDate(c)) == c
  {
    PeelTwoDigits(((((c.year * 100 + c.month) * 100 + c.day) * 100 + c.hour) * 100 + c.minute), c.second);
    PeelTwoDigits((((c.year * 100 + c.month) * 100 + c.day) * 100 + c.hour), c.minute);
    PeelTwoDigits(((c.year * 100 + c.month) * 100 + c.day), c.hour);
    PeelTwoDigits((c.year * 100 + c.month), c.day);
    PeelTwoDigits(c.year, c.month);
    NestedHundreds(EncodeEndDate(c));
  }

  lemma PeelTwoDigits(high: int, low: int)
    requires 0 <= low < 100
    ensures (high * 100 + low) % 100 == low && (high * 100 + low) / 100 == high
  {
  }

  lemma NestedHundreds(v: int)
    requires v >= 0
    ensures v / 10_000 == v / 100 / 100
    ensures v / 1_000_000 == v / 100 / 100 / 100
    ensures v / 100_000_000 == v / 100 / 100 / 100 / 100
    ensures v / 10_000_000_000 == v / 100 / 100 / 100 / 100 / 100
  {
  }

  // Putting the fields of any positive integer back together gives the integer.
  lemma EncodingOfFields(v: int)
    requires v > 0
    ensures EncodeEndDate(EndDateFields(v)) == v
  {
    NestedHundreds(v);
  }

  lemma CivilCeiling(c: Civil)
    requires ValidCivil(c)
    ensures EnsureRepresentable(Timestamp(c) * NANOS).Ok? <==> c.year <= 9999
  {
    var t := Timestamp(c);
    assert WholeSeconds(t * NANOS) == t;
    YearOfCivil(c);
  }

  // `value` is the integer for the civil time `c`, of a year a certificate can carry.
  ghost predicate Spells(c: Civil, value: i64) {
    ValidCivil(c) && 0 <= c.year <= 9999 && EncodeEndDate(c) == value as int
  }

  lemma ParseOfEncoding(c: Civil, value: i64)
    requires Spells(c, value)
    ensures ParseEndDate(value) == Ok(Timestamp(c) * NANOS)
  {
    FieldsOfEncoding(c);
  }

  // An END_DATE integer is accepted exactly when it spells a valid civil time in
  // years 0 through 9999, and then resolves to that time.
  lemma EndDateExact(from: Time, value: i64)
    ensures ResolveValidity(from, value, "END_DATE").Ok? <==>
            exists c :: Spells(c, value)
    ensures forall c :: Spells(c, value) ==> ResolveValidity(from, value, "END_DATE") == Ok(Timestamp(c) * NANOS)
  {
    var parsed := ParseEndDate(value);
    if parsed.Ok? {
      var c := EndDateFields(value as int);
      EncodingOfFields(value as int);
      CivilCeiling(c);
      assert c.year <= 9999 ==> Spells(c, value);
    }
    forall c | Spells(c, value)
      ensures ResolveValidity(from, value, "END_DATE") == Ok(Timestamp(c) * NANOS)
    {
      ParseOfEncoding(c, value);
      CivilCeiling(c);
    }
  }

  lemma TwoDigitsOrder(a: int, x: int, b: int, y: int)
    requires 0 <= x < 100 && 0 <= y < 100
    ensures a * 100 + x < b * 100 + y <==> a < b || (a == b && x < y)
    ensures a * 100 + x == b * 100 + y <==> a == b && x == y
  {
  }

  // Integers compare as their civil times do.
  lemma EncodingIncreases(a: Civil, b: Civil)
    requires ValidCivil(a) && ValidCivil(b)
    ensures EncodeEndDate(a) < EncodeEndDate(b) <==> CivilLess(a, b)
  {
    var m, n := a.year * 100 + a.month, b.year * 100 + b.month;
    TwoDigitsOrder(a.year, a.month, b.year, b.month);
    TwoDigitsOrder(m, a.day, n, b.day);
    m, n := m * 100 + a.day, n * 100 + b.day;
    TwoDigitsOrder(m, a.hour, n, b.hour);
    m, n := m * 100 + a.hour, n * 100 + b.hour;
    TwoDigitsOrder(m, a.minute, n, b.minute);
    m, n := m * 100 + a.minute, n * 100 + b.minute;
    TwoDigitsOrder(m, a.second, n, b.second);
  }

  // Among accepted END_DATE integers, integer order is time order.
  lemma EndDateOrder(from: Time, v: i64, w: i64)
    requires ResolveValidity(from, v, "END_DATE").Ok? && ResolveValidity(from, w, "END_DATE").Ok?
    ensures v < w <==> ResolveValidity(from, v, "END_DATE").value < ResolveValidity(from, w, "END_DATE").value
  {
    EndDateExact(from, v);
    EndDateExact(from, w);
    var a :| Spells(a, v);
    var b :| Spells(b, w);
    EncodingIncreases(a, b);
    EncodingIncreases(b, a);
    if CivilLess(a, b) { TimestampIncreases(a, b); }
    if CivilLess(b, a) { TimestampIncreases(b, a); }
  }
}
