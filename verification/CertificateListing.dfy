// ListCertificates and SearchCertificates (crates/fakecloud-acm/src/service.rs):
// the orders they sort by, and that sorting, filtering and reversing compose. Module
// RegionListing applies this to the certificates of a region.

module CertificateListing {
  import opened Common

  // The fields of a certificate the listings read.
  datatype Entry = Entry(
    arn: string, createdAt: int, notBefore: int, notAfter: int, issuedAt: Option<int>,
    status: string, keyAlgorithm: string, certType: string)

  datatype SearchKey = CreatedAt | NotAfter | NotBefore | IssuedAt | Status | KeyAlgorithm | Type | CertificateArn

  // The orders the two operations sort by.
  datatype Order =
    | ByArn
    | OldestFirst
    | NewestFirst
    | SearchAscending(key: SearchKey)
    | SearchDescending(key: SearchKey)

  // The compared field, as a sequence that orders lexicographically the way
  // Rust's `Ord` orders the field: None before Some, strings by code point.
  function FieldOf(key: SearchKey, e: Entry): seq<int> {
    match key
    case CreatedAt => [e.createdAt]
    case NotAfter => [e.notAfter]
    case NotBefore => [e.notBefore]
    case IssuedAt => if e.issuedAt.None? then [] else [e.issuedAt.value]
    case Status => Codes(e.status)
    case KeyAlgorithm => Codes(e.keyAlgorithm)
    case Type => Codes(e.certType)
    case CertificateArn => Codes(e.arn)
  }

  function SortField(o: Order, e: Entry): seq<int> {
    match o
    case ByArn => []
    case OldestFirst => [e.createdAt]
    case NewestFirst => [-e.createdAt]
    case SearchAscending(key) => FieldOf(key, e)
    case SearchDescending(key) => FieldOf(key, e)
  }

  // First the field, then the ARN.
  predicate TieBroken(x: seq<int>, arnX: string, y: seq<int>, arnY: string) {
    if x == y then StringLeq(arnX, arnY) else LexLeq(x, y)
  }

  predicate Leq(o: Order, a: Entry, b: Entry) {
    var x, y := SortField(o, a), SortField(o, b);
    if o.SearchDescending? then TieBroken(y, b.arn, x, a.arn) else TieBroken(x, a.arn, y, b.arn)
  }

  // ---- Leq is a total order on entries told apart by ARN ----

  lemma LeqTotal(o: Order, a: Entry, b: Entry)
    ensures Leq(o, a, b) || Leq(o, b, a)
  {
    LexTotal(SortField(o, a), SortField(o, b));
    LexTotal(Codes(a.arn), Codes(b.arn));
  }

  lemma LeqAntisymmetric(o: Order, a: Entry, b: Entry)
    requires Leq(o, a, b) && Leq(o, b, a)
    ensures a.arn == b.arn
  {
    if SortField(o, a) != SortField(o, b) {
      LexAntisymmetric(SortField(o, a), SortField(o, b));
      assert false;
    }
    LexAntisymmetric(Codes(a.arn), Codes(b.arn));
    CodesInjective(a.arn, b.arn);
  }

  lemma TieBrokenTransitive(x: seq<int>, a: string, y: seq<int>, b: string, z: seq<int>, c: string)
    requires TieBroken(x, a, y, b) && TieBroken(y, b, z, c)
    ensures TieBroken(x, a, z, c)
  {
    if x == y && y == z {
      LexTransitive(Codes(a), Codes(b), Codes(c));
    } else if x != y && y != z {
      LexTransitive(x, y, z);
      if x == z { LexAntisymmetric(x, y); }
    }
  }

  lemma LeqTransitive(o: Order, a: Entry, b: Entry, c: Entry)
    requires Leq(o, a, b) && Leq(o, b, c)
    ensures Leq(o, a, c)
  {
    var x, y, z := SortField(o, a), SortField(o, b), SortField(o, c);
    if o.SearchDescending? {
      TieBrokenTransitive(z, c.arn, y, b.arn, x, a.arn);
    } else {
      TieBrokenTransitive(x, a.arn, y, b.arn, z, c.arn);
    }
  }

  // ---- sorting ----

  predicate Sorted(o: Order, s: seq<Entry>) {
    forall i, j :: 0 <= i < j < |s| ==> Leq(o, s[i], s[j])
  }

  ghost predicate UniqueArns(s: seq<Entry>) {
    forall i, j :: 0 <= i < j < |s| ==> s[i].arn != s[j].arn
  }

  function InsertEntry(o: Order, e: Entry, s: seq<Entry>): seq<Entry> {
    if s == [] || Leq(o, e, s[0]) then [e] + s else [s[0]] + InsertEntry(o, e, s[1..])
  }

  // The result of `sort_by`.
  function SortBy(o: Order, s: seq<Entry>): seq<Entry> {
    if s == [] then [] else InsertEntry(o, s[0], SortBy(o, s[1..]))
  }

  lemma {:induction false} InsertKeepsEntries(o: Order, e: Entry, s: seq<Entry>)
    ensures multiset(InsertEntry(o, e, s)) == multiset(s) + multiset{e}
  {
    if s != [] && !Leq(o, e, s[0]) {
      InsertKeepsEntries(o, e, s[1..]);
      assert s == [s[0]] + s[1..];
    }
  }

  lemma {:induction false} InsertSorted(o: Order, e: Entry, s: seq<Entry>)
    requires Sorted(o, s)
    ensures Sorted(o, InsertEntry(o, e, s))
  {
    var r := InsertEntry(o, e, s);
    if s != [] {
      if Leq(o, e, s[0]) {
        forall j | 0 < j < |r| ensures Leq(o, e, r[j]) {
          if j > 1 { LeqTransitive(o, e, s[0], s[j - 1]); }
        }
      } else {
        InsertSorted(o, e, s[1..]);
        InsertKeepsEntries(o, e, s[1..]);
        LeqTotal(o, e, s[0]);
        forall j | 0 < j < |r| ensures Leq(o, s[0], r[j]) {
          assert r[j] in multiset(InsertEntry(o, e, s[1..]));
        }
      }
    }
  }

  lemma {:induction false} SortKeepsEntries(o: Order, s: seq<Entry>)
    ensures multiset(SortBy(o, s)) == multiset(s)
  {
    if s != [] {
      SortKeepsEntries(o, s[1..]);
      InsertKeepsEntries(o, s[0], SortBy(o, s[1..]));
      assert s == [s[0]] + s[1..];
    }
  }

  lemma {:induction false} SortIsSorted(o: Order, s: seq<Entry>)
    ensures Sorted(o, SortBy(o, s))
    ensures multiset(SortBy(o, s)) == multiset(s)
  {
    SortKeepsEntries(o, s);
    if s != [] {
      SortIsSorted(o, s[1..]);
      InsertSorted(o, s[0], SortBy(o, s[1..]));
    }
  }

  // ---- one order, whatever the input order ----

  ghost predicate ArnsTellApart(s: seq<Entry>) {
    forall a, b :: a in s && b in s && a.arn == b.arn ==> a == b
  }

  lemma HeadsAgree(o: Order, s: seq<Entry>, t: seq<Entry>)
    requires s != [] && t != [] && Sorted(o, s) && Sorted(o, t) && s[0] in t && t[0] in s && ArnsTellApart(s)
    ensures s[0] == t[0]
  {
    var i :| 0 <= i < |t| && t[i] == s[0];
    var j :| 0 <= j < |s| && s[j] == t[0];
    if i > 0 && j > 0 {
      LeqAntisymmetric(o, s[0], t[0]);
    }
  }

  lemma SameEntries(s: seq<Entry>, t: seq<Entry>)
    requires multiset(s) == multiset(t)
    ensures |s| == |t|
    ensures forall e :: e in s <==> e in t
  {
    assert |multiset(s)| == |multiset(t)|;
    forall e ensures e in s <==> e in t {
      assert e in multiset(s) <==> e in multiset(t);
    }
  }

  lemma TailsAgree(s: seq<Entry>, t: seq<Entry>)
    requires s != [] && t != [] && multiset(s) == multiset(t) && s[0] == t[0]
    ensures multiset(s[1..]) == multiset(t[1..])
  {
    assert s == [s[0]] + s[1..] && t == [t[0]] + t[1..];
    assert multiset(s[1..]) == multiset(s) - multiset{s[0]};
    assert multiset(t[1..]) == multiset(t) - multiset{t[0]};
  }

  lemma SortedTail(o: Order, s: seq<Entry>)
    requires s != [] && Sorted(o, s)
    ensures Sorted(o, s[1..])
  {
    var r := s[1..];
    forall i, j | 0 <= i < j < |r| ensures Leq(o, r[i], r[j]) {
      assert r[i] == s[i + 1] && r[j] == s[j + 1];
    }
  }

  lemma ApartTail(s: seq<Entry>)
    requires s != [] && ArnsTellApart(s)
    ensures ArnsTellApart(s[1..])
  {
    assert forall e :: e in s[1..] ==> e in s;
  }

  // A sorted arrangement of given entries is unique.
  lemma {:induction false} SortedIsUnique(o: Order, s: seq<Entry>, t: seq<Entry>)
    requires Sorted(o, s) && Sorted(o, t) && multiset(s) == multiset(t) && ArnsTellApart(s)
    ensures s == t
    decreases |s|
  {
    SameEntries(s, t);
    if s != [] {
      HeadsAgree(o, s, t);
      TailsAgree(s, t);
      SortedTail(o, s);
      SortedTail(o, t);
      ApartTail(s);
      SortedIsUnique(o, s[1..], t[1..]);
      assert s == [s[0]] + s[1..];
      assert t == [t[0]] + t[1..];
    }
  }

  lemma UniqueArnsTellApart(s: seq<Entry>, t: seq<Entry>)
    requires UniqueArns(s) && multiset(t) == multiset(s)
    ensures ArnsTellApart(t)
  {
    forall a, b | a in t && b in t && a.arn == b.arn ensures a == b {
      assert a in multiset(s) && b in multiset(s);
      var i :| 0 <= i < |s| && s[i] == a;
      var j :| 0 <= j < |s| && s[j] == b;
    }
  }

  // The listing does not depend on the order the certificates were collected in.
  lemma SortIgnoresInputOrder(o: Order, s: seq<Entry>, t: seq<Entry>)
    requires UniqueArns(s) && multiset(s) == multiset(t)
    ensures SortBy(o, s) == SortBy(o, t)
  {
    SortIsSorted(o, s);
    SortIsSorted(o, t);
    UniqueArnsTellApart(s, SortBy(o, s));
    SortedIsUnique(o, SortBy(o, s), SortBy(o, t));
  }

  // ---- filtering ----

  lemma {:induction false} FilterCounts(s: seq<Entry>, keep: Entry -> bool, e: Entry)
    ensures multiset(Filter(s, keep))[e] == if keep(e) then multiset(s)[e] else 0
  {
    if s != [] {
      FilterCounts(s[1..], keep, e);
      assert s == [s[0]] + s[1..];
    }
  }

  lemma FilterSameEntries(s: seq<Entry>, t: seq<Entry>, keep: Entry -> bool)
    requires multiset(s) == multiset(t)
    ensures multiset(Filter(s, keep)) == multiset(Filter(t, keep))
  {
    forall e ensures multiset(Filter(s, keep))[e] == multiset(Filter(t, keep))[e] {
      FilterCounts(s, keep, e);
      FilterCounts(t, keep, e);
    }
  }

  lemma {:induction false} FilterKeepsSorted(o: Order, s: seq<Entry>, keep: Entry -> bool)
    requires Sorted(o, s)
    ensures Sorted(o, Filter(s, keep))
  {
    if s != [] {
      FilterKeepsSorted(o, s[1..], keep);
      var rest := Filter(s[1..], keep);
      forall j | 0 <= j < |rest| ensures Leq(o, s[0], rest[j]) {
        assert rest[j] in rest;
        assert rest[j] in s[1..];
      }
    }
  }

  // ListCertificates sorts and then filters; filtering and then sorting gives
  // the same list.
  lemma SortThenRetain(o: Order, s: seq<Entry>, keep: Entry -> bool)
    requires UniqueArns(s)
    ensures Filter(SortBy(o, s), keep) == SortBy(o, Filter(s, keep))
  {
    SortIsSorted(o, s);
    FilterSameEntries(SortBy(o, s), s, keep);
    FilterKeepsSorted(o, SortBy(o, s), keep);
    SortIsSorted(o, Filter(s, keep));
    UniqueArnsTellApart(s, s);
    var left, right := Filter(SortBy(o, s), keep), SortBy(o, Filter(s, keep));
    forall a, b | a in left && b in left && a.arn == b.arn ensures a == b {
      assert a in multiset(Filter(s, keep)) && b in multiset(Filter(s, keep));
    }
    SortedIsUnique(o, left, right);
  }

  lemma {:induction false} FilterTwice(s: seq<Entry>, p: Entry -> bool, q: Entry -> bool)
    ensures Filter(Filter(s, p), q) == Filter(s, e => p(e) && q(e))
  {
    if s != [] {
      FilterTwice(s[1..], p, q);
      if p(s[0]) {
        assert Filter(s, p)[1..] == Filter(s[1..], p);
      }
    }
  }

  // ---- descending ----

  function Reverse(s: seq<Entry>): (r: seq<Entry>)
    ensures |r| == |s|
    ensures forall i :: 0 <= i < |s| ==> r[i] == s[|s| - 1 - i]
  {
    if s == [] then [] else Reverse(s[1..]) + [s[0]]
  }

  lemma {:induction false} ReverseKeepsEntries(s: seq<Entry>)
    ensures multiset(Reverse(s)) == multiset(s)
  {
    if s != [] {
      ReverseKeepsEntries(s[1..]);
      assert s == [s[0]] + s[1..];
    }
  }

  lemma DescendingFlips(key: SearchKey, a: Entry, b: Entry)
    ensures Leq(SearchDescending(key), a, b) <==> Leq(SearchAscending(key), b, a)
  {
    assert SortField(SearchDescending(key), a) == SortField(SearchAscending(key), a);
    assert SortField(SearchDescending(key), b) == SortField(SearchAscending(key), b);
  }

  lemma ReverseDescends(key: SearchKey, up: seq<Entry>)
    requires Sorted(SearchAscending(key), up)
    ensures Sorted(SearchDescending(key), Reverse(up))
  {
    var down := Reverse(up);
    forall i, j | 0 <= i < j < |down| ensures Leq(SearchDescending(key), down[i], down[j]) {
      DescendingFlips(key, down[i], down[j]);
    }
  }

  // SearchCertificates DESCENDING is the exact reverse of ASCENDING, ties
  // included, for every sort key.
  lemma SearchDescendingIsReverse(key: SearchKey, s: seq<Entry>)
    requires UniqueArns(s)
    ensures SortBy(SearchDescending(key), s) == Reverse(SortBy(SearchAscending(key), s))
  {
    var up, down := SortBy(SearchAscending(key), s), SortBy(SearchDescending(key), s);
    SortIsSorted(SearchAscending(key), s);
    SortIsSorted(SearchDescending(key), s);
    ReverseKeepsEntries(up);
    ReverseDescends(key, up);
    UniqueArnsTellApart(s, down);
    SortedIsUnique(SearchDescending(key), down, Reverse(up));
  }

  // ListCertificates DESCENDING by CREATED_AT puts newer certificates first but
  // keeps ARN order inside equal timestamps, so it is not the reverse.
  lemma NewestFirstKeepsArnOrderInTies(s: seq<Entry>, i: int, j: int)
    requires 0 <= i < j < |SortBy(NewestFirst, s)|
    ensures var r := SortBy(NewestFirst, s);
            r[i].createdAt > r[j].createdAt || (r[i].createdAt == r[j].createdAt && StringLeq(r[i].arn, r[j].arn))
  {
    var r := SortBy(NewestFirst, s);
    SortIsSorted(NewestFirst, s);
    assert Leq(NewestFirst, r[i], r[j]);
    if r[i].createdAt != r[j].createdAt {
      assert LexLeq([-r[i].createdAt], [-r[j].createdAt]);
    }
  }
}
