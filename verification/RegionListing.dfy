// ListCertificates and SearchCertificates on the certificates a region holds
// (crates/fakecloud-acm/src/service.rs): what every reachable region shows.

module RegionListing {
  import opened Common
  import opened Paging
  import opened CertificateListing
  import opened FilterStatements
  import Acm = AcmCertificates

  function StatusName(s: Acm.CertStatus): string {
    match s
    case PendingValidation => "PENDING_VALIDATION"
    case Issued => "ISSUED"
    case Failed => "FAILED"
    case ValidationTimedOut => "VALIDATION_TIMED_OUT"
    case Revoked => "REVOKED"
    case OtherStatus(name) => name
  }

  function TypeName(t: Acm.CertType): string { if t.AmazonIssued? then "AMAZON_ISSUED" else "IMPORTED" }

  function EntryOf(c: Acm.Certificate): Entry {
    Entry(c.arn, c.createdAt, c.notBefore, c.notAfter, c.issuedAt, StatusName(c.status), c.keyAlgorithm, TypeName(c.certType))
  }

  // ---- collecting a map's values ----

  // An order in which a map may yield its keys.
  ghost predicate Enumerates(keys: seq<string>, state: Acm.State) {
    && (forall k :: k in keys <==> k in state)
    && (forall i, j :: 0 <= i < j < |keys| ==> keys[i] != keys[j])
  }

  function Collected(state: Acm.State, keys: seq<string>): (r: seq<Entry>)
    requires forall k :: k in keys ==> k in state
    ensures |r| == |keys|
    ensures forall i :: 0 <= i < |keys| ==> r[i] == EntryOf(state[keys[i]])
  {
    if keys == [] then []
    else Collected(state, keys[..|keys| - 1]) + [EntryOf(state[keys[|keys| - 1]])]
  }

  method Collect(state: Acm.State) returns (all: seq<Entry>, ghost keys: seq<string>)
    ensures Enumerates(keys, state) && all == Collected(state, keys)
  {
    all, keys := [], [];
    var left := state.Keys;
    while left != {}
      invariant left <= state.Keys
      invariant forall k :: k in keys <==> k in state && k !in left
      invariant forall i, j :: 0 <= i < j < |keys| ==> keys[i] != keys[j]
      invariant all == Collected(state, keys)
      decreases |left|
    {
      var k :| k in left;
      all := all + [EntryOf(state[k])];
      ghost var longer := keys + [k];
      assert longer[..|longer| - 1] == keys;
      keys := longer;
      left := left - {k};
    }
  }

  // The certificates of a sound region have distinct ARNs.
  lemma CollectedIsUnique(state: Acm.State, keys: seq<string>)
    requires Acm.Inv(state) && Enumerates(keys, state)
    ensures UniqueArns(Collected(state, keys))
  {
    forall k | k in keys ensures EntryOf(state[k]).arn == k {}
  }

  lemma {:induction false} UniqueCounts(s: seq<Entry>, e: Entry)
    requires UniqueArns(s)
    ensures multiset(s)[e] == if e in s then 1 else 0
  {
    if s != [] {
      UniqueCounts(s[1..], e);
      assert s == [s[0]] + s[1..];
    }
  }

  lemma SameUniqueEntries(s: seq<Entry>, t: seq<Entry>)
    requires UniqueArns(s) && UniqueArns(t) && forall e :: e in s <==> e in t
    ensures multiset(s) == multiset(t)
  {
    forall e ensures multiset(s)[e] == multiset(t)[e] {
      UniqueCounts(s, e);
      UniqueCounts(t, e);
    }
  }

  lemma CollectedHolds(state: Acm.State, keys: seq<string>, e: Entry)
    requires Acm.Inv(state) && Enumerates(keys, state)
    ensures e in Collected(state, keys) <==> e.arn in state && e == EntryOf(state[e.arn])
  {
    if e.arn in state && e == EntryOf(state[e.arn]) {
      var i :| 0 <= i < |keys| && keys[i] == e.arn;
      assert Collected(state, keys)[i] == e;
    }
    if e in Collected(state, keys) {
      var i :| 0 <= i < |keys| && Collected(state, keys)[i] == e;
      assert keys[i] in keys;
    }
  }

  // However a map yields its certificates, the same ones are collected.
  lemma CollectedIsOne(state: Acm.State, keys: seq<string>, other: seq<string>)
    requires Acm.Inv(state) && Enumerates(keys, state) && Enumerates(other, state)
    ensures multiset(Collected(state, keys)) == multiset(Collected(state, other))
  {
    CollectedIsUnique(state, keys);
    CollectedIsUnique(state, other);
    forall e ensures e in Collected(state, keys) <==> e in Collected(state, other) {
      CollectedHolds(state, keys, e);
      CollectedHolds(state, other, e);
    }
    SameUniqueEntries(Collected(state, keys), Collected(state, other));
  }

  // ---- the listing of a region ----

  // The matching certificates in order.
  function Listing(state: Acm.State, o: Order, keep: Entry -> bool): seq<Entry> {
    SortBy(o, Filter(Collected(state, SortedKeys(state.Keys)), keep))
  }

  lemma ListingIsOne(state: Acm.State, keys: seq<string>, o: Order, keep: Entry -> bool)
    requires Acm.Inv(state) && Enumerates(keys, state)
    ensures Filter(SortBy(o, Collected(state, keys)), keep) == Listing(state, o, keep)
    ensures SortBy(o, Filter(Collected(state, keys), keep)) == Listing(state, o, keep)
  {
    var sorted := SortedKeys(state.Keys);
    CollectedIsUnique(state, keys);
    CollectedIsUnique(state, sorted);
    CollectedIsOne(state, keys, sorted);
    SortIgnoresInputOrder(o, Collected(state, keys), Collected(state, sorted));
    SortThenRetain(o, Collected(state, keys), keep);
    SortThenRetain(o, Collected(state, sorted), keep);
  }

  // Collect in map order, sort in place, retain, page.
  method ListCertificates(state: Acm.State, o: Order, keep: Entry -> bool, token: Option<string>, max: nat)
    returns (page: Page<Entry>)
    requires Acm.Inv(state)
    ensures page == PageAt(DECIMAL, Listing(state, o, keep), token, max)
  {
    var all, keys := Collect(state);
    ListingIsOne(state, keys, o, keep);
    all := SortBy(o, all);
    all := Filter(all, keep);
    page := PageAt(DECIMAL, all, token, max);
  }

  // The filter of a search: the status, and the statement if there is one.
  function Wanted<L>(statusOk: Entry -> bool, statement: Option<Statement<L>>, leafOf: (Entry, L) -> bool): Entry -> bool {
    e => statusOk(e) && (statement.Some? ==> Meaning(statement.value, l => leafOf(e, l)))
  }

  // `retain` with the statement evaluator.
  method RetainMatching<L>(all: seq<Entry>, statement: Statement<L>, leafOf: (Entry, L) -> bool) returns (kept: seq<Entry>)
    ensures kept == Filter(all, e => Meaning(statement, l => leafOf(e, l)))
  {
    kept := [];
    var keep := e => Meaning(statement, l => leafOf(e, l));
    for i := 0 to |all|
      invariant kept == Filter(all[..i], keep)
    {
      var e := all[i];
      var m := MatchesStatement(statement, l => leafOf(e, l));
      FilterConcat(all[..i], [e], keep);
      assert all[..i + 1] == all[..i] + [e];
      if m { kept := kept + [e]; }
    }
    assert all[..|all|] == all;
  }

  // Collect in map order, retain by status and by statement, sort, page: the
  // listing of the combined filter.
  method SearchCertificates<L>(state: Acm.State, o: Order, statusOk: Entry -> bool, statement: Option<Statement<L>>,
                               leafOf: (Entry, L) -> bool, token: Option<string>, max: nat)
    returns (page: Page<Entry>)
    requires Acm.Inv(state)
    ensures page == PageAt(DECIMAL, Listing(state, o, Wanted(statusOk, statement, leafOf)), token, max)
  {
    var all, keys := Collect(state);
    ListingIsOne(state, keys, o, Wanted(statusOk, statement, leafOf));
    ghost var collected := all;
    all := Filter(all, statusOk);
    if statement.Some? {
      all := RetainMatching(all, statement.value, leafOf);
    }
    RetainedIsWanted(collected, all, statusOk, statement, leafOf);
    all := SortBy(o, all);
    page := PageAt(DECIMAL, all, token, max);
  }

  lemma RetainedIsWanted<L>(collected: seq<Entry>, all: seq<Entry>, statusOk: Entry -> bool, statement: Option<Statement<L>>,
                            leafOf: (Entry, L) -> bool)
    requires statement.None? ==> all == Filter(collected, statusOk)
    requires statement.Some? ==> all == Filter(Filter(collected, statusOk), e => Meaning(statement.value, l => leafOf(e, l)))
    ensures all == Filter(collected, Wanted(statusOk, statement, leafOf))
  {
    if statement.Some? {
      var matches: Entry -> bool := e => Meaning(statement.value, l => leafOf(e, l));
      FilterTwice(collected, statusOk, matches);
      FilterAgrees(collected, e => statusOk(e) && matches(e), Wanted(statusOk, statement, leafOf));
    } else {
      FilterAgrees(collected, statusOk, Wanted(statusOk, statement, leafOf));
    }
  }

  // ---- every reachable region ----

  lemma {:induction false} FilterKeepsUnique(s: seq<Entry>, keep: Entry -> bool)
    requires UniqueArns(s)
    ensures UniqueArns(Filter(s, keep))
  {
    if s != [] {
      FilterKeepsUnique(s[1..], keep);
      var rest := Filter(s[1..], keep);
      forall j | 0 <= j < |rest| ensures rest[j].arn != s[0].arn {
        assert rest[j] in rest;
        assert rest[j] in s[1..];
      }
    }
  }

  lemma ArrangementIsUnique(s: seq<Entry>, t: seq<Entry>)
    requires UniqueArns(s) && multiset(s) == multiset(t)
    ensures UniqueArns(t)
  {
    forall i, j | 0 <= i < j < |t| ensures t[i].arn != t[j].arn {
      if t[i].arn == t[j].arn {
        UniqueArnsTellApart(s, t);
        assert t[i] == t[j];
        UniqueCounts(s, t[i]);
        TwiceCounts(t, i, j);
      }
    }
  }

  lemma TwiceCounts(t: seq<Entry>, i: nat, j: nat)
    requires i < j < |t| && t[i] == t[j]
    ensures multiset(t)[t[i]] >= 2
  {
    assert t == t[..i] + ([t[i]] + (t[i + 1..j] + ([t[j]] + t[j + 1..])));
  }

  // The listing of a sound region holds each matching certificate exactly once,
  // in order, and nothing else.
  lemma ListingIsExact(state: Acm.State, o: Order, keep: Entry -> bool, e: Entry)
    requires Acm.Inv(state)
    ensures var listed := Listing(state, o, keep);
            && Sorted(o, listed) && UniqueArns(listed) && |listed| <= |state|
            && (e in listed <==> e.arn in state && e == EntryOf(state[e.arn]) && keep(e))
  {
    var keys := SortedKeys(state.Keys);
    var matching := Filter(Collected(state, keys), keep);
    CollectedIsUnique(state, keys);
    FilterKeepsUnique(Collected(state, keys), keep);
    SortIsSorted(o, matching);
    ArrangementIsUnique(matching, SortBy(o, matching));
    SameEntries(matching, SortBy(o, matching));
    CollectedHolds(state, keys, e);
  }

  // After any calls, ticks and admin switches, following NextToken over the
  // region as it stands shows each matching certificate exactly once, in order.
  lemma WalkShowsEveryMatchOnce(events: seq<Acm.Event>, o: Order, keep: Entry -> bool, max: nat, e: Entry)
    requires Acm.ValidRun(map[], events) && |Acm.Run(map[], events)| <= VEC_LIMIT && 1 <= max <= 1000
    ensures var state := Acm.Run(map[], events);
            var listed := Listing(state, o, keep);
            && RoundTrips(DECIMAL) && |listed| <= VEC_LIMIT && PageAt(DECIMAL, listed, None, max).Page?
            && var seen := Walk(DECIMAL, listed, None, max);
               && Sorted(o, seen) && UniqueArns(seen)
               && (e in seen <==> e.arn in state && e == EntryOf(state[e.arn]) && keep(e))
  {
    Acm.RunKeepsInv(events);
    ListingIsExact(Acm.Run(map[], events), o, keep, e);
    DecimalRoundTrips();
    WalkIsComplete(DECIMAL, Listing(Acm.Run(map[], events), o, keep), max);
  }

  // SearchCertificates DESCENDING shows the exact reverse of ASCENDING, for every
  // sort key and in every reachable region.
  lemma SearchesReverse(events: seq<Acm.Event>, key: SearchKey, keep: Entry -> bool)
    requires Acm.ValidRun(map[], events)
    ensures var state := Acm.Run(map[], events);
            Listing(state, SearchDescending(key), keep) == Reverse(Listing(state, SearchAscending(key), keep))
  {
    var state := Acm.Run(map[], events);
    var collected := Collected(state, SortedKeys(state.Keys));
    Acm.RunKeepsInv(events);
    CollectedIsUnique(state, SortedKeys(state.Keys));
    FilterKeepsUnique(collected, keep);
    SearchDescendingIsReverse(key, Filter(collected, keep));
  }

  // ---- what a search lists ----

  function Found<L>(state: Acm.State, o: Order, statusOk: Entry -> bool, statement: Statement<L>, leafOf: (Entry, L) -> bool)
    : seq<Entry>
  {
    Listing(state, o, Wanted(statusOk, Some(statement), leafOf))
  }

  // A search lists the region's certificates of the wanted status that the
  // statement means.
  lemma FoundIsExact<L>(state: Acm.State, o: Order, statusOk: Entry -> bool, statement: Statement<L>,
                        leafOf: (Entry, L) -> bool, e: Entry)
    requires Acm.Inv(state)
    ensures e in Found(state, o, statusOk, statement, leafOf)
            <==> e.arn in state && e == EntryOf(state[e.arn]) && statusOk(e) && Meaning(statement, l => leafOf(e, l))
  {
    ListingIsExact(state, o, Wanted(statusOk, Some(statement), leafOf), e);
  }

  // A search for And lists what the searches for all its operands list.
  lemma SearchAnd<L(!new)>(state: Acm.State, o: Order, statusOk: Entry -> bool, xs: seq<Statement<L>>,
                           leafOf: (Entry, L) -> bool, e: Entry)
    requires Acm.Inv(state) && xs != []
    ensures e in Found(state, o, statusOk, And(xs), leafOf)
            <==> forall i :: 0 <= i < |xs| ==> e in Found(state, o, statusOk, xs[i], leafOf)
  {
    FoundIsExact(state, o, statusOk, And(xs), leafOf, e);
    AndKeepsIntersection(xs, [e], leafOf, e);
    forall i | 0 <= i < |xs|
      ensures e in Found(state, o, statusOk, xs[i], leafOf)
              <==> e.arn in state && e == EntryOf(state[e.arn]) && statusOk(e) && e in Kept(xs[i], [e], leafOf)
    {
      FoundIsExact(state, o, statusOk, xs[i], leafOf, e);
    }
    if forall i :: 0 <= i < |xs| ==> e in Found(state, o, statusOk, xs[i], leafOf) {
      assert e in Found(state, o, statusOk, xs[0], leafOf);
    }
  }

  // A search for a non-empty Or lists what the search for some operand lists.
  lemma SearchOr<L(!new)>(state: Acm.State, o: Order, statusOk: Entry -> bool, xs: seq<Statement<L>>,
                          leafOf: (Entry, L) -> bool, e: Entry)
    requires Acm.Inv(state) && xs != []
    ensures e in Found(state, o, statusOk, Or(xs), leafOf)
            <==> exists i :: 0 <= i < |xs| && e in Found(state, o, statusOk, xs[i], leafOf)
  {
    FoundIsExact(state, o, statusOk, Or(xs), leafOf, e);
    OrKeepsUnion(xs, [e], leafOf, e);
    forall i | 0 <= i < |xs|
      ensures e in Found(state, o, statusOk, xs[i], leafOf)
              <==> e.arn in state && e == EntryOf(state[e.arn]) && statusOk(e) && e in Kept(xs[i], [e], leafOf)
    {
      FoundIsExact(state, o, statusOk, xs[i], leafOf, e);
    }
  }

  // ---- what a listing is ordered by ----

  // For each sort key, the field of the certificate that orders the ascending
  // search; certificates that agree in it come in ARN order.
  ghost predicate FieldLeq(key: SearchKey, c: Acm.Certificate, d: Acm.Certificate) {
    match key
    case CreatedAt => c.createdAt <= d.createdAt
    case NotBefore => c.notBefore <= d.notBefore
    case NotAfter => c.notAfter <= d.notAfter
    case IssuedAt => c.issuedAt.None? || (d.issuedAt.Some? && c.issuedAt.value <= d.issuedAt.value)
    case Status => StringLeq(StatusName(c.status), StatusName(d.status))
    case KeyAlgorithm => StringLeq(c.keyAlgorithm, d.keyAlgorithm)
    case Type => StringLeq(TypeName(c.certType), TypeName(d.certType))
    case CertificateArn => StringLeq(c.arn, d.arn)
  }

  ghost predicate FieldEqual(key: SearchKey, c: Acm.Certificate, d: Acm.Certificate) {
    match key
    case CreatedAt => c.createdAt == d.createdAt
    case NotBefore => c.notBefore == d.notBefore
    case NotAfter => c.notAfter == d.notAfter
    case IssuedAt => c.issuedAt == d.issuedAt
    case Status => StatusName(c.status) == StatusName(d.status)
    case KeyAlgorithm => c.keyAlgorithm == d.keyAlgorithm
    case Type => TypeName(c.certType) == TypeName(d.certType)
    case CertificateArn => c.arn == d.arn
  }

  lemma AscendingMeans(key: SearchKey, c: Acm.Certificate, d: Acm.Certificate)
    requires Leq(SearchAscending(key), EntryOf(c), EntryOf(d))
    ensures FieldLeq(key, c, d) && (FieldEqual(key, c, d) ==> StringLeq(c.arn, d.arn))
  {
    var x, y := FieldOf(key, EntryOf(c)), FieldOf(key, EntryOf(d));
    LexTotal(x, x);
    match key
    case CreatedAt =>
    case NotBefore =>
    case NotAfter =>
    case IssuedAt =>
    case Status => if x == y { CodesInjective(StatusName(c.status), StatusName(d.status)); }
    case KeyAlgorithm => if x == y { CodesInjective(c.keyAlgorithm, d.keyAlgorithm); }
    case Type => if x == y { CodesInjective(TypeName(c.certType), TypeName(d.certType)); }
    case CertificateArn => if x == y { CodesInjective(c.arn, d.arn); }
  }

  // An ascending search lists the region's certificates by the field its key
  // names.
  lemma AscendingOrder(state: Acm.State, key: SearchKey, keep: Entry -> bool, i: nat, j: nat)
    requires Acm.Inv(state) && i < j < |Listing(state, SearchAscending(key), keep)|
    ensures var listed := Listing(state, SearchAscending(key), keep);
            && listed[i].arn in state && listed[j].arn in state
            && FieldLeq(key, state[listed[i].arn], state[listed[j].arn])
            && (FieldEqual(key, state[listed[i].arn], state[listed[j].arn]) ==> StringLeq(listed[i].arn, listed[j].arn))
  {
    var listed := Listing(state, SearchAscending(key), keep);
    ListingIsExact(state, SearchAscending(key), keep, listed[i]);
    ListingIsExact(state, SearchAscending(key), keep, listed[j]);
    AscendingMeans(key, state[listed[i].arn], state[listed[j].arn]);
  }

  ghost predicate ListedBefore(o: Order, c: Acm.Certificate, d: Acm.Certificate) {
    match o
    case ByArn => StringLeq(c.arn, d.arn)
    case OldestFirst => c.createdAt < d.createdAt || (c.createdAt == d.createdAt && StringLeq(c.arn, d.arn))
    case NewestFirst => c.createdAt > d.createdAt || (c.createdAt == d.createdAt && StringLeq(c.arn, d.arn))
    case _ => true
  }

  lemma LeqLists(o: Order, c: Acm.Certificate, d: Acm.Certificate)
    requires Leq(o, EntryOf(c), EntryOf(d))
    ensures ListedBefore(o, c, d)
  {
    match o
    case OldestFirst => assert LexLeq([c.createdAt], [d.createdAt]) ==> c.createdAt <= d.createdAt;
    case NewestFirst => assert LexLeq([-c.createdAt], [-d.createdAt]) ==> -c.createdAt <= -d.createdAt;
    case _ =>
  }

  // ListCertificates lists by ARN, or by creation time in the asked direction
  // with ties in ARN order.
  lemma ListOrder(state: Acm.State, o: Order, keep: Entry -> bool, i: nat, j: nat)
    requires Acm.Inv(state) && i < j < |Listing(state, o, keep)|
    ensures var listed := Listing(state, o, keep);
            && listed[i].arn in state && listed[j].arn in state
            && ListedBefore(o, state[listed[i].arn], state[listed[j].arn])
  {
    var listed := Listing(state, o, keep);
    ListingIsExact(state, o, keep, listed[i]);
    ListingIsExact(state, o, keep, listed[j]);
    LeqLists(o, state[listed[i].arn], state[listed[j].arn]);
  }
}
