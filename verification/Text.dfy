// The string operations of Rust's standard library that the handlers lean on:
// substring search, trimming, and the decimal codec behind `to_string` and
// `parse::<usize>`. Positions are character positions; the source's byte
// offsets are only ever produced by a search and fall on the same boundaries.

module Text {
  import opened Common

  // `char::is_whitespace`: the Unicode White_Space property.
  predicate IsWhitespace(c: char) {
    || '\U{0009}' <= c <= '\U{000D}' || c == ' '
    || c == '\U{0085}' || c == '\U{00A0}' || c == '\U{1680}'
    || '\U{2000}' <= c <= '\U{200A}'
    || c == '\U{2028}' || c == '\U{2029}' || c == '\U{202F}' || c == '\U{205F}' || c == '\U{3000}'
  }

  predicate StartsWith(s: string, prefix: string) { prefix <= s }

  predicate EndsWith(s: string, suffix: string) {
    |suffix| <= |s| && s[|s| - |suffix|..] == suffix
  }

  predicate OccursAt(hay: string, needle: string, i: nat) {
    i + |needle| <= |hay| && hay[i..i + |needle|] == needle
  }

  // `str::find`: the first occurrence.
  function Find(hay: string, needle: string): Option<nat> { FindFrom(hay, needle, 0) }

  function FindFrom(hay: string, needle: string, from: nat): Option<nat>
    decreases |hay| - from
  {
    if from + |needle| > |hay| then None
    else if OccursAt(hay, needle, from) then Some(from)
    else FindFrom(hay, needle, from + 1)
  }

  lemma {:induction false} FindFromIsFirst(hay: string, needle: string, from: nat, at: nat)
    requires from <= at && OccursAt(hay, needle, at)
    requires forall i: nat :: from <= i < at ==> !OccursAt(hay, needle, i)
    ensures FindFrom(hay, needle, from) == Some(at)
    decreases |hay| - from
  {
    if from < at { FindFromIsFirst(hay, needle, from + 1, at); }
  }

  // An occurrence with none before it is what `find` returns, and it returns
  // nothing else.
  lemma FindIsFirst(hay: string, needle: string, at: nat)
    requires OccursAt(hay, needle, at)
    requires forall i: nat :: i < at ==> !OccursAt(hay, needle, i)
    ensures Find(hay, needle) == Some(at)
  {
    FindFromIsFirst(hay, needle, 0, at);
  }

  lemma {:induction false} FoundFrom(hay: string, needle: string, from: nat)
    requires FindFrom(hay, needle, from).Some?
    ensures var at := FindFrom(hay, needle, from).value;
            from <= at && OccursAt(hay, needle, at) && forall i: nat :: from <= i < at ==> !OccursAt(hay, needle, i)
    decreases |hay| - from
  {
    if !OccursAt(hay, needle, from) { FoundFrom(hay, needle, from + 1); }
  }

  lemma Found(hay: string, needle: string)
    requires Find(hay, needle).Some?
    ensures var at := Find(hay, needle).value;
            OccursAt(hay, needle, at) && forall i: nat :: i < at ==> !OccursAt(hay, needle, i)
  {
    FoundFrom(hay, needle, 0);
  }

  lemma {:induction false} OccursIsFoundFrom(hay: string, needle: string, from: nat, i: nat)
    requires from <= i && OccursAt(hay, needle, i)
    ensures FindFrom(hay, needle, from).Some?
    decreases |hay| - from
  {
    if !OccursAt(hay, needle, from) { OccursIsFoundFrom(hay, needle, from + 1, i); }
  }

  // Whatever occurs is found.
  lemma OccursIsFound(hay: string, needle: string, i: nat)
    requires OccursAt(hay, needle, i)
    ensures Find(hay, needle).Some?
  {
    OccursIsFoundFrom(hay, needle, 0, i);
  }

  // `str::trim_start` and `str::trim`.
  function TrimStart(s: string): (r: string)
    ensures r == [] || !IsWhitespace(r[0])
  {
    if s != [] && IsWhitespace(s[0]) then TrimStart(s[1..]) else s
  }

  function TrimEnd(s: string): (r: string)
    ensures r == [] || !IsWhitespace(r[|r| - 1])
    ensures r <= s
  {
    if s != [] && IsWhitespace(s[|s| - 1]) then TrimEnd(s[..|s| - 1]) else s
  }

  function Trim(s: string): string { TrimEnd(TrimStart(s)) }

  // `.chars().filter(|c| !c.is_whitespace())`
  function WithoutWhitespace(s: string): string { Filter(s, c => !IsWhitespace(c)) }

  // ---- decimal numbers ----

  const USIZE_LIMIT: nat := 0x1_0000_0000_0000_0000

  predicate IsDigit(c: char) { '0' <= c <= '9' }

  function DigitChar(d: nat): (c: char)
    requires d < 10
    ensures IsDigit(c) && c as int - '0' as int == d
  {
    (d + '0' as int) as char
  }

  // `n.to_string()`
  function Decimal(n: nat): (s: string)
    ensures s != [] && forall c :: c in s ==> IsDigit(c)
  {
    if n < 10 then [DigitChar(n)] else Decimal(n / 10) + [DigitChar(n % 10)]
  }

  function DigitsValue(s: string): (n: nat)
    requires forall c :: c in s ==> IsDigit(c)
  {
    if s == [] then 0
    else
      assert IsDigit(s[|s| - 1]);
      10 * DigitsValue(s[..|s| - 1]) + (s[|s| - 1] as int - '0' as int)
  }

  // `s.parse::<usize>().ok()`: an optional plus sign, then at least one digit,
  // the value below 2^64.
  function ParseUsize(s: string): (r: Option<nat>)
    ensures r.Some? ==> r.value < USIZE_LIMIT
  {
    var digits := if s != [] && s[0] == '+' then s[1..] else s;
    if digits == [] || exists c :: c in digits && !IsDigit(c) then None
    else if DigitsValue(digits) >= USIZE_LIMIT then None
    else Some(DigitsValue(digits))
  }

  lemma {:induction false} DecimalValue(n: nat)
    ensures DigitsValue(Decimal(n)) == n
  {
    if n >= 10 {
      DecimalValue(n / 10);
      assert Decimal(n)[..|Decimal(n)| - 1] == Decimal(n / 10);
    } else {
      assert Decimal(n)[..0] == [];
    }
  }

  // Printing a number and parsing it back gives the number.
  lemma ParseOfDecimal(n: nat)
    requires n < USIZE_LIMIT
    ensures ParseUsize(Decimal(n)) == Some(n)
  {
    DecimalValue(n);
    assert Decimal(n)[0] in Decimal(n);
  }

  // Different numbers print differently.
  lemma DecimalInjective(m: nat, n: nat)
    requires Decimal(m) == Decimal(n)
    ensures m == n
  {
    DecimalValue(m);
    DecimalValue(n);
  }
}
