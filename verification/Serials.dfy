// Certificate serial numbers: the stored lowercase-hex form and the
// presentations `RevokeCertificate` accepts for it.

module Serials {
  import opened Common
  import opened Text

  predicate IsLowerHex(c: char) { '0' <= c <= '9' || 'a' <= c <= 'f' }

  function ToLower(c: char): char {
    if 'A' <= c <= 'Z' then (c as int + 32) as char else c
  }

  function Lowered(s: string): (r: string)
    ensures |r| == |s|
    ensures forall i :: 0 <= i < |s| ==> r[i] == ToLower(s[i])
  {
    seq(|s|, i requires 0 <= i < |s| => ToLower(s[i]))
  }

  predicate IsSeparator(c: char) { IsWhitespace(c) || c == ':' }

  function WithoutSeparators(s: string): string { Filter(s, c => !IsSeparator(c)) }

  function StripHexPrefix(s: string): string {
    if StartsWith(s, "0x") || StartsWith(s, "0X") then s[2..] else s
  }

  // service.rs `normalize_serial`
  function Normalize(s: string): string {
    Lowered(WithoutSeparators(StripHexPrefix(Trim(s))))
  }

  // ---- stored serials ----

  const HEX_DIGITS := "0123456789abcdef"

  // `hex::encode`
  function HexEncode(bytes: seq<bv8>): (s: string)
    ensures |s| == 2 * |bytes|
    ensures forall c :: c in s ==> IsLowerHex(c)
  {
    if bytes == [] then []
    else
      var b := bytes[0] as int;
      assert forall i :: 0 <= i < 16 ==> IsLowerHex(HEX_DIGITS[i]);
      [HEX_DIGITS[b / 16], HEX_DIGITS[b % 16]] + HexEncode(bytes[1..])
  }

  // The form issued certificates are stored under: 19 bytes in lowercase hex.
  predicate IsStoredSerial(s: string) {
    |s| == 38 && forall c :: c in s ==> IsLowerHex(c)
  }

  // validate.rs `random_serial`, the random bytes given: the top bit is cleared
  // and a zero first byte replaced, so the DER integer is positive and takes
  // all 19 bytes.
  method RandomSerial(random: seq<bv8>) returns (serial: seq<bv8>)
    requires |random| == 19
    ensures |serial| == 19 && 0 < serial[0] < 0x80
    ensures forall i :: 1 <= i < 19 ==> serial[i] == random[i]
    ensures IsStoredSerial(HexEncode(serial))
  {
    var bytes := new bv8[19](i requires 0 <= i < 19 => random[i]);
    bytes[0] := bytes[0] & 0x7f;
    if bytes[0] == 0 {
      bytes[0] := 0x01;
    }
    serial := bytes[..];
  }

  // ---- presentations ----

  // `p` shows the stored serial `s`: outer whitespace, one optional 0x, then the
  // digits of `s` in any case with whitespace and colons anywhere between them.
  ghost predicate Presents(p: string, s: string) {
    exists lead, prefix, body :: PresentsWith(p, s, lead, prefix, body)
  }

  ghost predicate PresentsWith(p: string, s: string, lead: string, prefix: string, body: string) {
    && p == lead + prefix + body
    && (forall c :: c in lead ==> IsWhitespace(c))
    && prefix in {"", "0x", "0X"}
    && Lowered(WithoutSeparators(body)) == s
  }

  lemma {:induction false} TrimStartSkips(lead: string, rest: string)
    requires forall c :: c in lead ==> IsWhitespace(c)
    ensures TrimStart(lead + rest) == TrimStart(rest)
  {
    if lead == [] {
      assert lead + rest == rest;
    } else {
      assert (lead + rest)[0] == lead[0] && (lead + rest)[1..] == lead[1..] + rest;
      assert IsWhitespace(lead[0]);
      TrimStartSkips(lead[1..], rest);
    }
  }

  lemma {:induction false} TrimStartSplits(s: string) returns (lead: string)
    ensures s == lead + TrimStart(s)
    ensures forall c :: c in lead ==> IsWhitespace(c)
  {
    if s != [] && IsWhitespace(s[0]) {
      var inner := TrimStartSplits(s[1..]);
      lead := [s[0]] + inner;
    } else {
      lead := [];
    }
  }

  lemma {:induction false} TrimEndSplits(s: string) returns (tail: string)
    ensures s == TrimEnd(s) + tail
    ensures forall c :: c in tail ==> IsWhitespace(c)
  {
    if s != [] && IsWhitespace(s[|s| - 1]) {
      var inner := TrimEndSplits(s[..|s| - 1]);
      tail := inner + [s[|s| - 1]];
      assert s == s[..|s| - 1] + [s[|s| - 1]];
    } else {
      tail := [];
    }
  }

  lemma {:induction false} SeparatorsVanish(ws: string)
    requires forall c :: c in ws ==> IsSeparator(c)
    ensures WithoutSeparators(ws) == []
  {
    if ws != [] {
      SeparatorsVanish(ws[1..]);
      assert IsSeparator(ws[0]);
    }
  }

  // Trimming the end before removing separators removes nothing more.
  lemma TrimEndIsInvisible(s: string)
    ensures WithoutSeparators(TrimEnd(s)) == WithoutSeparators(s)
  {
    var tail := TrimEndSplits(s);
    TailIsInvisible(TrimEnd(s), tail);
  }

  // Leading whitespace of the body is removed along with its separators.
  lemma TrimStartIsInvisible(s: string)
    ensures WithoutSeparators(TrimStart(s)) == WithoutSeparators(s)
  {
    var lead := TrimStartSplits(s);
    FilterConcat(lead, TrimStart(s), c => !IsSeparator(c));
    SeparatorsVanish(lead);
  }

  // A string with no 'x' once normalised never starts with 0x.
  lemma NoStrayPrefix(s: string, r: string)
    requires Lowered(WithoutSeparators(s)) == r && forall c :: c in r ==> IsLowerHex(c)
    ensures StripHexPrefix(s) == s
  {
    forall c | c in WithoutSeparators(s) ensures c != 'x' && c != 'X' {
      var i :| 0 <= i < |WithoutSeparators(s)| && WithoutSeparators(s)[i] == c;
      assert r[i] in r;
    }
    if |s| >= 2 {
      assert s[1] in s;
    }
  }

  lemma StripSplits(s: string) returns (prefix: string)
    ensures s == prefix + StripHexPrefix(s) && prefix in {"", "0x", "0X"}
  {
    prefix := if StartsWith(s, "0x") then "0x" else if StartsWith(s, "0X") then "0X" else "";
  }

  // Whatever normalises is a presentation of the result.
  lemma NormalizedPresents(p: string)
    ensures Presents(p, Normalize(p))
  {
    var lead := TrimStartSplits(p);
    var core := Trim(p);
    var tail := TrimEndSplits(TrimStart(p));
    var digits := StripHexPrefix(core);
    var prefix := StripSplits(core);
    TailIsInvisible(digits, tail);
    Reassociate(lead, prefix, digits, tail);
    assert PresentsWith(p, Normalize(p), lead, prefix, digits + tail);
  }

  lemma Reassociate(lead: string, prefix: string, digits: string, tail: string)
    ensures lead + ((prefix + digits) + tail) == lead + prefix + (digits + tail)
  {
  }

  lemma TailIsInvisible(s: string, tail: string)
    requires forall c :: c in tail ==> IsWhitespace(c)
    ensures WithoutSeparators(s + tail) == WithoutSeparators(s)
  {
    FilterConcat(s, tail, c => !IsSeparator(c));
    SeparatorsVanish(tail);
  }

  // Every presentation of a stored serial normalises to it, and nothing else does.
  lemma NormalizeExact(p: string, s: string)
    requires forall c :: c in s ==> IsLowerHex(c)
    ensures Normalize(p) == s <==> Presents(p, s)
  {
    if Normalize(p) == s { NormalizedPresents(p); }
    if Presents(p, s) {
      var lead, prefix, body :| PresentsWith(p, s, lead, prefix, body);
      PresentationNormalizes(p, s, lead, prefix, body);
    }
  }

  lemma PresentationNormalizes(p: string, s: string, lead: string, prefix: string, body: string)
    requires PresentsWith(p, s, lead, prefix, body)
    requires forall c :: c in s ==> IsLowerHex(c)
    ensures Normalize(p) == s
  {
    assert p == lead + (prefix + body);
    TrimStartSkips(lead, prefix + body);
    if prefix == "" {
      assert prefix + body == body;
      TrimStartIsInvisible(body);
      TrimEndIsInvisible(TrimStart(body));
      NoStrayPrefix(Trim(p), s);
    } else {
      assert TrimStart(prefix + body) == prefix + body;
      var tail := TrimEndSplits(prefix + body);
      PrefixSurvivesTrim(prefix, body);
      TrimEndIsInvisible(body);
    }
  }

  lemma {:induction false} PrefixSurvivesTrim(prefix: string, body: string)
    requires prefix in {"0x", "0X"}
    ensures TrimEnd(prefix + body) == prefix + TrimEnd(body)
    decreases |body|
  {
    if body == [] {
      assert prefix + body == prefix;
    } else if IsWhitespace(body[|body| - 1]) {
      assert (prefix + body)[..|prefix + body| - 1] == prefix + body[..|body| - 1];
      PrefixSurvivesTrim(prefix, body[..|body| - 1]);
    }
  }

  // Hence a stored serial normalises to itself.
  lemma NormalizeStored(s: string)
    requires forall c :: c in s ==> IsLowerHex(c)
    ensures Normalize(s) == s
  {
    AllKept(s);
    assert s == "" + "" + s;
    assert Lowered(s) == s by {
      forall i | 0 <= i < |s| ensures ToLower(s[i]) == s[i] {
        assert s[i] in s;
      }
    }
    assert PresentsWith(s, s, "", "", s);
    NormalizeExact(s, s);
  }

  lemma {:induction false} AllKept(s: string)
    requires forall c :: c in s ==> IsLowerHex(c)
    ensures WithoutSeparators(s) == s
  {
    if s != [] {
      assert IsLowerHex(s[0]);
      AllKept(s[1..]);
      assert s == [s[0]] + s[1..];
    }
  }
}
