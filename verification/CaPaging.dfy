// Paging in ACM Private CA (crates/fakecloud-acmpca/src/service.rs): the token is
// the base64 of the decimal offset.

module CaPaging {
  import opened Common
  import opened Text
  import opened Paging
  import Base64

  function AsciiByte(c: char): Base64.Byte { if IsDigit(c) then c as int else 0 }

  function AsciiChar(b: Base64.Byte): char { b as char }

  function Bytes(digits: string): seq<Base64.Byte> {
    seq(|digits|, i requires 0 <= i < |digits| => AsciiByte(digits[i]))
  }

  function Chars(bytes: seq<Base64.Byte>): string {
    seq(|bytes|, i requires 0 <= i < |bytes| => AsciiChar(bytes[i]))
  }

  function EncodeToken(offset: nat): string { Base64.Encode(Bytes(Decimal(offset))) }

  // Bytes that are not ASCII either are not UTF-8 or hold a character that is
  // no digit; both are the invalid-token error.
  function OffsetOf(bytes: seq<Base64.Byte>): Option<nat> {
    if exists b :: b in bytes && b >= 128 then None else ParseUsize(Chars(bytes))
  }

  function DecodeToken(token: string): Option<nat> {
    var bytes := Base64.Decode(token);
    if bytes.None? then None else OffsetOf(bytes.value)
  }

  lemma OffsetOfDecimal(offset: nat)
    requires offset < USIZE_LIMIT
    ensures OffsetOf(Bytes(Decimal(offset))) == Some(offset)
  {
    var digits := Decimal(offset);
    var bytes := Bytes(digits);
    forall i | 0 <= i < |bytes| ensures AsciiChar(bytes[i]) == digits[i] && bytes[i] < 128 {
      assert digits[i] in digits;
    }
    assert Chars(bytes) == digits;
    ParseOfDecimal(offset);
  }

  // An opaque token names the offset it was made from.
  lemma TokenRoundTrip(offset: nat)
    requires offset < USIZE_LIMIT
    ensures DecodeToken(EncodeToken(offset)) == Some(offset)
  {
    OffsetOfDecimal(offset);
    Base64.DecodeEncode(Bytes(Decimal(offset)));
  }

  // ---- pages, for any token codec ----

  function StartAt(c: Codec, token: Option<string>): Option<nat> {
    if token.None? then Some(0) else c.decode(token.value)
  }

  // `paginate`: no maximum means the rest of the list, and the addition
  // saturates. A token that does not decode is refused.
  function CaPageAt<T>(c: Codec, all: seq<T>, max: Option<nat>, token: Option<string>): Reply<(seq<T>, Option<string>)>
    requires |all| <= VEC_LIMIT
  {
    var decoded := StartAt(c, token);
    if decoded.None? then Err(InvalidArgs)
    else
      var start := Min(decoded.value, |all|);
      var take := if max.Some? then max.value else USIZE_LIMIT - 1;
      var end := Min(Min(start + take, USIZE_LIMIT - 1), |all|);
      Ok((all[start..end], if end < |all| then Some(c.encode(end)) else None))
  }

  // What a client sees that asks for a page and then for the next one until no
  // token comes back.
  ghost function CaWalk<T>(c: Codec, all: seq<T>, max: nat, token: Option<string>): seq<T>
    requires RoundTrips(c) && max >= 1 && |all| <= VEC_LIMIT && StartAt(c, token).Some?
    decreases |all| - StartAt(c, token).value
  {
    var page := CaPageAt(c, all, Some(max), token).value;
    page.0 + if page.1.Some? then CaWalk(c, all, max, page.1) else []
  }

  lemma PageFrom<T>(c: Codec, all: seq<T>, max: nat, token: Option<string>, start: nat)
    requires |all| <= VEC_LIMIT && StartAt(c, token) == Some(start) && start <= |all|
    ensures CaPageAt(c, all, Some(max), token)
            == if start + max < |all| then Ok((all[start..start + max], Some(c.encode(start + max))))
               else Ok((all[start..], None))
  {
    assert all[start..|all|] == all[start..];
  }

  lemma {:induction false} CaWalkIsRest<T>(c: Codec, all: seq<T>, max: nat, token: Option<string>)
    requires RoundTrips(c) && max >= 1 && |all| <= VEC_LIMIT
    requires StartAt(c, token).Some? && StartAt(c, token).value <= |all|
    ensures CaWalk(c, all, max, token) == all[StartAt(c, token).value..]
    decreases |all| - StartAt(c, token).value
  {
    var start := StartAt(c, token).value;
    PageFrom(c, all, max, token, start);
    if start + max < |all| {
      var next := Some(c.encode(start + max));
      assert StartAt(c, next) == Some(start + max);
      CaWalkIsRest(c, all, max, next);
      assert CaWalk(c, all, max, token) == all[start..start + max] + CaWalk(c, all, max, next);
      assert all[start..] == all[start..start + max] + all[start + max..];
    }
  }

  // Following NextToken from the first page shows the whole list, each item
  // once, in order.
  lemma CaWalkIsComplete<T>(all: seq<T>, max: nat)
    requires 1 <= max <= 1000 && |all| <= VEC_LIMIT
    ensures var c := Codec(EncodeToken, DecodeToken);
            RoundTrips(c) && CaWalk(c, all, max, None) == all
  {
    var c := Codec(EncodeToken, DecodeToken);
    forall n: nat | n < USIZE_LIMIT ensures c.decode(c.encode(n)) == Some(n) {
      TokenRoundTrip(n);
    }
    CaWalkIsRest(c, all, max, None);
  }
}
