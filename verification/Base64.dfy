// The STANDARD engine of the base64 crate: padded, and strict when decoding (no
// missing padding, no non-zero trailing bits, no foreign characters).

module Base64 {
  import opened Common

  type Byte = b: int | 0 <= b < 256
  type Sextet = v: int | 0 <= v < 64

  function Symbol(v: Sextet): char {
    if v < 26 then ('A' as int + v) as char
    else if v < 52 then ('a' as int + v - 26) as char
    else if v < 62 then ('0' as int + v - 52) as char
    else if v == 62 then '+'
    else '/'
  }

  function SextetOf(c: char): Option<Sextet> {
    if 'A' <= c <= 'Z' then Some(c as int - 'A' as int)
    else if 'a' <= c <= 'z' then Some(c as int - 'a' as int + 26)
    else if '0' <= c <= '9' then Some(c as int - '0' as int + 52)
    else if c == '+' then Some(62)
    else if c == '/' then Some(63)
    else None
  }

  lemma SymbolRoundTrip(v: Sextet)
    ensures SextetOf(Symbol(v)) == Some(v) && Symbol(v) != '='
  {
  }

  lemma SpelledBack(c: char, v: Sextet)
    requires SextetOf(c) == Some(v)
    ensures Symbol(v) == c
  {
  }

  // ---- sextets and symbols ----

  function Spell(vs: seq<Sextet>): (s: string)
    ensures |s| == |vs|
  {
    if vs == [] then [] else [Symbol(vs[0])] + Spell(vs[1..])
  }

  function Read(s: string): (r: Option<seq<Sextet>>)
    ensures r.Some? ==> |r.value| == |s|
  {
    if s == [] then Some([])
    else
      var v, rest := SextetOf(s[0]), Read(s[1..]);
      if v.None? || rest.None? then None else Some([v.value] + rest.value)
  }

  lemma {:induction false} ReadSpell(vs: seq<Sextet>)
    ensures Read(Spell(vs)) == Some(vs) && '=' !in Spell(vs)
  {
    if vs != [] {
      ReadSpell(vs[1..]);
      SymbolRoundTrip(vs[0]);
      assert Spell(vs)[1..] == Spell(vs[1..]);
      assert vs == [vs[0]] + vs[1..];
    }
  }

  lemma {:induction false} SpellRead(s: string)
    requires Read(s).Some?
    ensures Spell(Read(s).value) == s
  {
    if s != [] {
      SpellRead(s[1..]);
      SpelledBack(s[0], SextetOf(s[0]).value);
      assert Read(s).value[1..] == Read(s[1..]).value;
      assert s == [s[0]] + s[1..];
    }
  }

  // ---- bytes and sextets ----

  function Cut3(a: Byte, b: Byte, c: Byte): seq<Sextet> { [a / 4, a % 4 * 16 + b / 16, b % 16 * 4 + c / 64, c % 64] }

  function Cut2(a: Byte, b: Byte): seq<Sextet> { [a / 4, a % 4 * 16 + b / 16, b % 16 * 4] }

  function Cut1(a: Byte): seq<Sextet> { [a / 4, a % 4 * 16] }

  function Join3(p: Sextet, q: Sextet, r: Sextet, t: Sextet): seq<Byte> {
    [p * 4 + q / 16, q % 16 * 16 + r / 4, r % 4 * 64 + t]
  }

  lemma Pack4(h: int, l: int)
    requires 0 <= l < 4
    ensures (h * 4 + l) / 4 == h && (h * 4 + l) % 4 == l
  {
  }

  lemma Pack16(h: int, l: int)
    requires 0 <= l < 16
    ensures (h * 16 + l) / 16 == h && (h * 16 + l) % 16 == l
  {
  }

  lemma Pack64(h: int, l: int)
    requires 0 <= l < 64
    ensures (h * 64 + l) / 64 == h && (h * 64 + l) % 64 == l
  {
  }

  lemma Unpack4(v: int)
    ensures v / 4 * 4 + v % 4 == v
  {
  }

  lemma Unpack16(v: int)
    ensures v / 16 * 16 + v % 16 == v
  {
  }

  // Cutting bytes into sextets and joining them again gives the bytes, and the
  // other way round, with no bits set that padding drops.
  lemma JoinCut3(a: Byte, b: Byte, c: Byte)
    ensures var v := Cut3(a, b, c); Join3(v[0], v[1], v[2], v[3]) == [a, b, c]
  {
    Pack16(a % 4, b / 16);
    Pack4(b % 16, c / 64);
  }

  lemma JoinCut2(a: Byte, b: Byte)
    ensures var v := Cut2(a, b); Join3(v[0], v[1], v[2], 0)[..2] == [a, b] && v[2] % 4 == 0
  {
    Pack16(a % 4, b / 16);
    Pack4(b % 16, 0);
  }

  lemma JoinCut1(a: Byte)
    ensures var v := Cut1(a); Join3(v[0], v[1], 0, 0)[..1] == [a] && v[1] % 16 == 0
  {
    Pack16(a % 4, 0);
  }

  lemma CutJoin3(p: Sextet, q: Sextet, r: Sextet, t: Sextet)
    ensures var d := Join3(p, q, r, t); Cut3(d[0], d[1], d[2]) == [p, q, r, t]
  {
    var a, b, c := p * 4 + q / 16, q % 16 * 16 + r / 4, r % 4 * 64 + t;
    Pack4(p, q / 16);
    Pack16(q % 16, r / 4);
    Pack64(r % 4, t);
    Unpack16(q);
    Unpack4(r);
    assert a % 4 * 16 + b / 16 == q && b % 16 * 4 + c / 64 == r;
  }

  lemma CutJoin2(p: Sextet, q: Sextet, r: Sextet)
    requires r % 4 == 0
    ensures var d := Join3(p, q, r, 0); Cut2(d[0], d[1]) == [p, q, r]
  {
    var a, b := p * 4 + q / 16, q % 16 * 16 + r / 4;
    Pack4(p, q / 16);
    Pack16(q % 16, r / 4);
    Unpack16(q);
    Unpack4(r);
    assert a % 4 * 16 + b / 16 == q && b % 16 * 4 == r;
  }

  lemma CutJoin1(p: Sextet, q: Sextet)
    requires q % 16 == 0
    ensures var d := Join3(p, q, 0, 0); Cut1(d[0]) == [p, q]
  {
    Pack4(p, q / 16);
    Unpack16(q);
  }

  // ---- one group ----

  function Encode1(a: Byte): string { Spell(Cut1(a)) + "==" }

  function Encode2(a: Byte, b: Byte): string { Spell(Cut2(a, b)) + "=" }

  function Encode3(a: Byte, b: Byte, c: Byte): string { Spell(Cut3(a, b, c)) }

  function Decode1(s: string): Option<seq<Byte>>
    requires |s| == 4
  {
    var v := Read(s[..2]);
    if v.None? || v.value[1] % 16 != 0 then None else Some(Join3(v.value[0], v.value[1], 0, 0)[..1])
  }

  function Decode2(s: string): Option<seq<Byte>>
    requires |s| == 4
  {
    var v := Read(s[..3]);
    if v.None? || v.value[2] % 4 != 0 then None else Some(Join3(v.value[0], v.value[1], v.value[2], 0)[..2])
  }

  function Decode3(s: string): Option<seq<Byte>>
    requires |s| == 4
  {
    var v := Read(s);
    if v.None? then None else Some(Join3(v.value[0], v.value[1], v.value[2], v.value[3]))
  }

  // The last group; padding decides how many bytes it holds.
  function DecodeLast(s: string): Option<seq<Byte>>
    requires |s| == 4
  {
    if s[3] != '=' then Decode3(s) else if s[2] != '=' then Decode2(s) else Decode1(s)
  }

  // ---- whole texts ----

  function Encode(bs: seq<Byte>): string {
    if |bs| == 0 then []
    else if |bs| == 1 then Encode1(bs[0])
    else if |bs| == 2 then Encode2(bs[0], bs[1])
    else Encode3(bs[0], bs[1], bs[2]) + Encode(bs[3..])
  }

  function Decode(s: string): Option<seq<Byte>> {
    if s == [] then Some([])
    else if |s| < 4 then None
    else if |s| == 4 then DecodeLast(s)
    else
      var head, rest := Decode3(s[..4]), Decode(s[4..]);
      if head.None? || rest.None? then None else Some(head.value + rest.value)
  }

  lemma Group3RoundTrip(a: Byte, b: Byte, c: Byte)
    ensures Decode3(Encode3(a, b, c)) == Some([a, b, c])
    ensures DecodeLast(Encode3(a, b, c)) == Some([a, b, c])
  {
    ReadSpell(Cut3(a, b, c));
    JoinCut3(a, b, c);
    assert Encode3(a, b, c)[3] in Spell(Cut3(a, b, c));
  }

  lemma Group2RoundTrip(a: Byte, b: Byte)
    ensures DecodeLast(Encode2(a, b)) == Some([a, b])
  {
    var s := Encode2(a, b);
    ReadSpell(Cut2(a, b));
    JoinCut2(a, b);
    assert s[..3] == Spell(Cut2(a, b));
    assert s[2] in Spell(Cut2(a, b));
  }

  lemma Group1RoundTrip(a: Byte)
    ensures DecodeLast(Encode1(a)) == Some([a])
  {
    var s := Encode1(a);
    ReadSpell(Cut1(a));
    JoinCut1(a);
    assert s[..2] == Spell(Cut1(a));
  }

  lemma {:induction false} EncodeLength(bs: seq<Byte>)
    ensures bs == [] <==> Encode(bs) == []
    ensures bs != [] ==> |Encode(bs)| >= 4
  {
    if |bs| > 2 { EncodeLength(bs[3..]); }
  }

  lemma DecodeStep(head: string, rest: string, d: seq<Byte>, ds: seq<Byte>)
    requires |head| == 4 && rest != [] && Decode3(head) == Some(d) && Decode(rest) == Some(ds)
    ensures Decode(head + rest) == Some(d + ds)
  {
    assert (head + rest)[..4] == head && (head + rest)[4..] == rest;
  }

  lemma LastGroup(bs: seq<Byte>) returns (s: string)
    requires 1 <= |bs| <= 3
    ensures s == Encode(bs) && |s| == 4 && DecodeLast(s) == Some(bs)
  {
    if |bs| == 1 {
      s := Encode1(bs[0]);
      Group1RoundTrip(bs[0]);
      assert bs == [bs[0]];
    } else if |bs| == 2 {
      s := Encode2(bs[0], bs[1]);
      Group2RoundTrip(bs[0], bs[1]);
      assert bs == [bs[0], bs[1]];
    } else {
      s := Encode3(bs[0], bs[1], bs[2]);
      Group3RoundTrip(bs[0], bs[1], bs[2]);
      assert bs == [bs[0], bs[1], bs[2]];
      assert bs[3..] == [];
      assert Encode(bs) == s + [];
    }
  }

  lemma EncodeStep(bs: seq<Byte>) returns (head: string)
    requires |bs| > 3
    ensures |head| == 4 && Encode(bs) == head + Encode(bs[3..]) && Decode3(head) == Some(bs[..3])
  {
    head := Encode3(bs[0], bs[1], bs[2]);
    Group3RoundTrip(bs[0], bs[1], bs[2]);
    assert bs[..3] == [bs[0], bs[1], bs[2]];
  }

  lemma {:induction false} DecodeEncode(bs: seq<Byte>)
    ensures Decode(Encode(bs)) == Some(bs)
  {
    if 1 <= |bs| <= 3 {
      var s := LastGroup(bs);
    } else if |bs| > 3 {
      var head := EncodeStep(bs);
      DecodeEncode(bs[3..]);
      EncodeLength(bs[3..]);
      DecodeStep(head, Encode(bs[3..]), bs[..3], bs[3..]);
      assert bs == bs[..3] + bs[3..];
    }
  }

  lemma Group3Exact(s: string)
    requires |s| == 4 && Decode3(s).Some?
    ensures var d := Decode3(s).value; |d| == 3 && Encode3(d[0], d[1], d[2]) == s
  {
    var v := Read(s).value;
    SpellRead(s);
    CutJoin3(v[0], v[1], v[2], v[3]);
    assert v == [v[0], v[1], v[2], v[3]];
  }

  lemma Group2Exact(s: string)
    requires |s| == 4 && s[3] == '=' && Decode2(s).Some?
    ensures var d := Decode2(s).value; |d| == 2 && Encode2(d[0], d[1]) == s
  {
    var v := Read(s[..3]).value;
    SpellRead(s[..3]);
    CutJoin2(v[0], v[1], v[2]);
    assert v == [v[0], v[1], v[2]];
    assert s == s[..3] + "=";
  }

  lemma Group1Exact(s: string)
    requires |s| == 4 && s[2] == '=' && s[3] == '=' && Decode1(s).Some?
    ensures var d := Decode1(s).value; |d| == 1 && Encode1(d[0]) == s
  {
    var v := Read(s[..2]).value;
    SpellRead(s[..2]);
    CutJoin1(v[0], v[1]);
    assert v == [v[0], v[1]];
    assert s == s[..2] + "==";
  }

  lemma LastGroupExact(s: string)
    requires |s| == 4 && DecodeLast(s).Some?
    ensures DecodeLast(s).value != [] && Encode(DecodeLast(s).value) == s
  {
    if s[3] != '=' {
      Group3Exact(s);
    } else if s[2] != '=' {
      Group2Exact(s);
    } else {
      Group1Exact(s);
    }
  }

  lemma {:induction false} EncodeDecode(s: string)
    requires Decode(s).Some?
    ensures Encode(Decode(s).value) == s
  {
    if |s| == 4 {
      LastGroupExact(s);
    } else if |s| > 4 {
      Group3Exact(s[..4]);
      EncodeDecode(s[4..]);
      var head, rest := Decode3(s[..4]).value, Decode(s[4..]).value;
      assert (head + rest)[3..] == rest;
      assert s == s[..4] + s[4..];
    }
  }

  // A text decodes to given bytes exactly when it is their encoding.
  lemma DecodeExact(s: string, bs: seq<Byte>)
    ensures Decode(s) == Some(bs) <==> s == Encode(bs)
  {
    DecodeEncode(bs);
    if Decode(s) == Some(bs) { EncodeDecode(s); }
  }

  predicate InAlphabet(c: char) { SextetOf(c).Some? || c == '=' }

  lemma {:induction false} SpelledInAlphabet(vs: seq<Sextet>)
    ensures forall c :: c in Spell(vs) ==> InAlphabet(c)
  {
    if vs != [] {
      SpelledInAlphabet(vs[1..]);
      SymbolRoundTrip(vs[0]);
    }
  }

  lemma {:induction false} EncodingInAlphabet(bs: seq<Byte>)
    ensures forall c :: c in Encode(bs) ==> InAlphabet(c)
  {
    if |bs| == 1 {
      SpelledInAlphabet(Cut1(bs[0]));
    } else if |bs| == 2 {
      SpelledInAlphabet(Cut2(bs[0], bs[1]));
    } else if |bs| > 2 {
      SpelledInAlphabet(Cut3(bs[0], bs[1], bs[2]));
      EncodingInAlphabet(bs[3..]);
    }
  }
}
