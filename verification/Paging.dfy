// Offset paging: the slice a page holds, the offset its NextToken carries, and
// the tokens that spell it.

module Paging {
  import opened Common
  import opened Text

  // A Rust `Vec` holds at most isize::MAX elements.
  const VEC_LIMIT: nat := 0x7FFF_FFFF_FFFF_FFFF

  function Min(a: nat, b: nat): nat { if a < b then a else b }

  function Slice<T>(all: seq<T>, start: nat, max: nat): seq<T> {
    var from := Min(start, |all|);
    all[from..Min(from + max, |all|)]
  }

  function NextOffset<T>(all: seq<T>, start: nat, max: nat): Option<nat> {
    if start + max < |all| then Some(start + max) else None
  }

  // What a client sees that keeps asking for the next page.
  function Follow<T>(all: seq<T>, start: nat, max: nat): seq<T>
    requires max >= 1
    decreases |all| - start
  {
    var next := NextOffset(all, start, max);
    Slice(all, start, max) + if next.Some? then Follow(all, next.value, max) else []
  }

  lemma SliceIs<T>(all: seq<T>, start: nat, max: nat)
    requires start <= |all|
    ensures Slice(all, start, max) == if start + max < |all| then all[start..start + max] else all[start..]
  {
    assert all[start..|all|] == all[start..];
  }

  lemma RestSplits<T>(all: seq<T>, start: nat, mid: nat)
    requires start <= mid <= |all|
    ensures all[start..] == all[start..mid] + all[mid..]
  {
  }

  lemma LastPage<T>(all: seq<T>, start: nat, max: nat)
    requires max >= 1 && start <= |all| <= start + max
    ensures Follow(all, start, max) == all[start..]
  {
    SliceIs(all, start, max);
    assert Follow(all, start, max) == Slice(all, start, max) + [];
  }

  lemma PageThenRest<T>(all: seq<T>, start: nat, max: nat)
    requires max >= 1 && start + max < |all| && Follow(all, start + max, max) == all[start + max..]
    ensures Follow(all, start, max) == all[start..]
  {
    SliceIs(all, start, max);
    RestSplits(all, start, start + max);
    assert NextOffset(all, start, max) == Some(start + max);
  }

  // The pages from an offset are the rest of the list, each item once, in order.
  lemma {:induction false} FollowIsRest<T>(all: seq<T>, start: nat, max: nat)
    requires max >= 1 && start <= |all|
    ensures Follow(all, start, max) == all[start..]
    decreases |all| - start
  {
    if start + max >= |all| {
      LastPage(all, start, max);
    } else {
      FollowIsRest(all, start + max, max);
      PageThenRest(all, start, max);
    }
  }

  // ---- tokens ----

  // How a service spells an offset in a token and reads it back.
  datatype Codec = Codec(encode: nat -> string, decode: string -> Option<nat>)

  ghost predicate RoundTrips(c: Codec) {
    forall n: nat :: n < USIZE_LIMIT ==> c.decode(c.encode(n)) == Some(n)
  }

  // Plain decimal, as ListCertificates and SearchCertificates use.
  const DECIMAL: Codec := Codec(Decimal, ParseUsize)

  lemma DecimalRoundTrips()
    ensures RoundTrips(DECIMAL)
  {
    forall n: nat | n < USIZE_LIMIT ensures DECIMAL.decode(DECIMAL.encode(n)) == Some(n) {
      ParseOfDecimal(n);
    }
  }

  datatype Page<T> = Page(items: seq<T>, next: Option<string>) | Overflow

  // A token that does not parse counts as zero, and the offset arithmetic is
  // unchecked.
  function StartOf(c: Codec, token: Option<string>): nat {
    if token.None? then 0
    else
      var parsed := c.decode(token.value);
      if parsed.Some? then parsed.value else 0
  }

  function PageAt<T>(c: Codec, all: seq<T>, token: Option<string>, max: nat): Page<T> {
    var start := StartOf(c, token);
    if start + max >= USIZE_LIMIT then Overflow
    else
      var next := NextOffset(all, start, max);
      Page(Slice(all, start, max), if next.Some? then Some(c.encode(next.value)) else None)
  }

  // Every token the service hands out leads back to the offset it was made from,
  // and never overflows; only a token made up by the client can.
  lemma IssuedTokensResume<T>(c: Codec, all: seq<T>, token: Option<string>, max: nat)
    requires RoundTrips(c) && 1 <= max <= 1000 && |all| <= VEC_LIMIT
    requires PageAt(c, all, token, max).Page? && PageAt(c, all, token, max).next.Some?
    ensures var next := PageAt(c, all, token, max).next;
            && StartOf(c, next) == StartOf(c, token) + max
            && StartOf(c, token) < StartOf(c, next) < |all|
            && PageAt(c, all, next, max).Page?
  {
    var end := StartOf(c, token) + max;
    assert c.decode(c.encode(end)) == Some(end);
  }

  // The walk a client makes over the wire: request, read NextToken, repeat.
  ghost function Walk<T>(c: Codec, all: seq<T>, token: Option<string>, max: nat): seq<T>
    requires RoundTrips(c) && 1 <= max <= 1000 && |all| <= VEC_LIMIT
    requires PageAt(c, all, token, max).Page?
    decreases |all| - StartOf(c, token)
  {
    var page := PageAt(c, all, token, max);
    if page.next.None? then page.items
    else
      IssuedTokensResume(c, all, token, max);
      page.items + Walk(c, all, page.next, max)
  }

  lemma {:induction false} WalkIsFollow<T>(c: Codec, all: seq<T>, token: Option<string>, max: nat)
    requires RoundTrips(c) && 1 <= max <= 1000 && |all| <= VEC_LIMIT && PageAt(c, all, token, max).Page?
    ensures Walk(c, all, token, max) == Follow(all, StartOf(c, token), max)
    decreases |all| - StartOf(c, token)
  {
    var page := PageAt(c, all, token, max);
    if page.next.Some? {
      IssuedTokensResume(c, all, token, max);
      WalkIsFollow(c, all, page.next, max);
    }
  }

  // Walking from the start gives the whole list.
  lemma WalkIsComplete<T>(c: Codec, all: seq<T>, max: nat)
    requires RoundTrips(c) && 1 <= max <= 1000 && |all| <= VEC_LIMIT
    ensures PageAt(c, all, None, max).Page? && Walk(c, all, None, max) == all
  {
    WalkIsFollow(c, all, None, max);
    FollowIsRest(all, 0, max);
  }
}
