// Enabling and disabling regions (crates/fakecloud-account/src/service.rs and
// state.rs). A change is stored as in flight and settles when it is next read.

module RegionOptIn {
  import opened Common
  import opened Text
  import opened Paging

  datatype OptStatus = Enabled | Disabled | Enabling | Disabling | EnabledByDefault

  // The table of regions: name, and whether it is opt-in.
  type Table = seq<(string, bool)>

  function Settle(s: OptStatus): OptStatus {
    if s == Enabling then Enabled else if s == Disabling then Disabled else s
  }

  predicate InFlight(s: OptStatus) { s == Enabling || s == Disabling }

  // The first row of that name.
  function OptInOf(table: Table, region: string): Option<bool> {
    if table == [] then None
    else if table[0].0 == region then Some(table[0].1)
    else OptInOf(table[1..], region)
  }

  function DefaultStatus(table: Table, region: string): Option<OptStatus> {
    var optIn := OptInOf(table, region);
    if optIn.None? then None else Some(if optIn.value then Disabled else EnabledByDefault)
  }

  type Overrides = map<string, OptStatus>

  function Reported(table: Table, overrides: Overrides, region: string): OptStatus {
    if region in overrides then overrides[region]
    else
      var d := DefaultStatus(table, region);
      if d.Some? then d.value else Disabled
  }

  function SettleOne(overrides: Overrides, region: string): Overrides {
    if region in overrides then overrides[region := Settle(overrides[region])] else overrides
  }

  // The names a listing settles.
  function Names(table: Table): set<string> { set i | 0 <= i < |table| :: table[i].0 }

  function SettleNamed(overrides: Overrides, names: set<string>): Overrides {
    map r | r in overrides :: if r in names then Settle(overrides[r]) else overrides[r]
  }

  // ---- calls ----

  datatype Call =
    | SetRegion(region: string, enable: bool)
    | GetStatus(region: string)
    | ListRegions(filter: set<OptStatus>, max: Option<int>, token: Option<string>)

  datatype Answer =
    | Accepted
    | Status(status: OptStatus)
    | Regions(items: seq<(string, OptStatus)>, next: Option<string>)

  function Rows(table: Table, overrides: Overrides): seq<(string, OptStatus)> {
    seq(|table|, i requires 0 <= i < |table| => (table[i].0, Reported(table, overrides, table[i].0)))
  }

  function Listed(table: Table, overrides: Overrides, filter: set<OptStatus>): seq<(string, OptStatus)> {
    Filter(Rows(table, overrides), (row: (string, OptStatus)) => filter == {} || row.1 in filter)
  }

  function PageSize(max: Option<int>): Option<nat> {
    if max.None? then Some(50) else if 1 <= max.value <= 50 then Some(max.value) else None
  }

  function StartFrom(token: Option<string>): Option<nat> {
    if token.None? || token.value == [] then Some(0) else ParseUsize(token.value)
  }

  // The page cut from a settled listing.
  function PageOf(all: seq<(string, OptStatus)>, start: nat, max: nat): Answer {
    var end := Min(Min(start + max, USIZE_LIMIT - 1), |all|);
    Regions(if start >= |all| || end < start then [] else all[start..end],
            if end < |all| then Some(Decimal(end)) else None)
  }

  function Lazy(table: Table, overrides: Overrides, call: Call): (Overrides, Reply<Answer>) {
    match call
    case SetRegion(region, enable) =>
      if OptInOf(table, region) != Some(true) then (overrides, Err(Invalid))
      else (overrides[region := if enable then Enabling else Disabling], Ok(Accepted))
    case GetStatus(region) =>
      if DefaultStatus(table, region).None? then (overrides, Err(Invalid))
      else
        var settled := SettleOne(overrides, region);
        (settled, Ok(Status(Reported(table, settled, region))))
    case ListRegions(filter, max, token) =>
      if PageSize(max).None? || StartFrom(token).None? then (overrides, Err(Invalid))
      else
        var settled := SettleNamed(overrides, Names(table));
        (settled, Ok(PageOf(Listed(table, settled, filter), StartFrom(token).value, PageSize(max).value)))
  }

  // The reference: changes take effect at once and reads change nothing.
  function Eager(table: Table, overrides: Overrides, call: Call): (Overrides, Reply<Answer>) {
    match call
    case SetRegion(region, enable) =>
      if OptInOf(table, region) != Some(true) then (overrides, Err(Invalid))
      else (overrides[region := if enable then Enabled else Disabled], Ok(Accepted))
    case GetStatus(region) =>
      if DefaultStatus(table, region).None? then (overrides, Err(Invalid))
      else (overrides, Ok(Status(Reported(table, overrides, region))))
    case ListRegions(filter, max, token) =>
      if PageSize(max).None? || StartFrom(token).None? then (overrides, Err(Invalid))
      else (overrides, Ok(PageOf(Listed(table, overrides, filter), StartFrom(token).value, PageSize(max).value)))
  }

  // ---- the lazy store refines the eager one ----

  // The eager store is the lazy one with everything settled; only opt-in regions
  // of the table are ever overridden.
  ghost predicate Refines(table: Table, lazyStore: Overrides, eagerStore: Overrides) {
    && eagerStore.Keys == lazyStore.Keys <= Names(table)
    && (forall r :: r in lazyStore ==> eagerStore[r] == Settle(lazyStore[r]))
  }

  lemma {:induction false} FoundIsNamed(table: Table, region: string)
    requires OptInOf(table, region).Some?
    ensures region in Names(table)
  {
    if table[0].0 != region {
      FoundIsNamed(table[1..], region);
      var i :| 0 <= i < |table[1..]| && table[1..][i].0 == region;
      assert table[i + 1].0 == region;
    } else {
      assert table[0].0 in Names(table);
    }
  }

  lemma SettledReports(table: Table, lazyStore: Overrides, eagerStore: Overrides, region: string)
    requires Refines(table, lazyStore, eagerStore)
    ensures Reported(table, SettleOne(lazyStore, region), region) == Reported(table, eagerStore, region)
    ensures SettleNamed(lazyStore, Names(table)) == eagerStore
  {
  }

  lemma StepRefines(table: Table, lazyStore: Overrides, eagerStore: Overrides, call: Call)
    requires Refines(table, lazyStore, eagerStore)
    ensures var l, e := Lazy(table, lazyStore, call), Eager(table, eagerStore, call);
            l.1 == e.1 && Refines(table, l.0, e.0)
  {
    match call
    case SetRegion(region, enable) =>
      if OptInOf(table, region) == Some(true) { FoundIsNamed(table, region); }
    case GetStatus(region) =>
      SettledReports(table, lazyStore, eagerStore, region);
    case ListRegions(filter, max, token) =>
      SettledReports(table, lazyStore, eagerStore, "");
  }

  function LazyRun(table: Table, calls: seq<Call>): Overrides {
    if calls == [] then map[] else Lazy(table, LazyRun(table, calls[..|calls| - 1]), calls[|calls| - 1]).0
  }

  function EagerRun(table: Table, calls: seq<Call>): Overrides {
    if calls == [] then map[] else Eager(table, EagerRun(table, calls[..|calls| - 1]), calls[|calls| - 1]).0
  }

  lemma {:induction false} RunRefines(table: Table, calls: seq<Call>)
    ensures Refines(table, LazyRun(table, calls), EagerRun(table, calls))
  {
    if calls != [] {
      var before := calls[..|calls| - 1];
      RunRefines(table, before);
      StepRefines(table, LazyRun(table, before), EagerRun(table, before), calls[|calls| - 1]);
    }
  }

  // After any calls, every further call answers as if changes took effect at
  // once.
  lemma AnswersAsIfEager(table: Table, calls: seq<Call>, next: Call)
    ensures Lazy(table, LazyRun(table, calls), next).1 == Eager(table, EagerRun(table, calls), next).1
  {
    RunRefines(table, calls);
    StepRefines(table, LazyRun(table, calls), EagerRun(table, calls), next);
  }

  // The last accepted toggle of a region.
  function LastToggle(table: Table, calls: seq<Call>, region: string): Option<bool> {
    if calls == [] then None
    else
      var last := calls[|calls| - 1];
      if last.SetRegion? && last.region == region && OptInOf(table, region) == Some(true) then Some(last.enable)
      else LastToggle(table, calls[..|calls| - 1], region)
  }

  // What the toggles amount to: the outcome of the last one, or else the
  // region's default.
  function Outcome(table: Table, calls: seq<Call>, region: string): OptStatus
    requires OptInOf(table, region).Some?
  {
    var toggle := LastToggle(table, calls, region);
    if toggle == Some(true) then Enabled
    else if toggle == Some(false) then Disabled
    else DefaultStatus(table, region).value
  }

  lemma {:induction false} EagerHoldsOutcome(table: Table, calls: seq<Call>, region: string)
    requires OptInOf(table, region).Some?
    ensures Reported(table, EagerRun(table, calls), region) == Outcome(table, calls, region)
  {
    if calls != [] {
      EagerHoldsOutcome(table, calls[..|calls| - 1], region);
    }
  }

  // After any calls, asking for a region's status answers with the outcome of the
  // last accepted toggle, or else the default.
  lemma ReadsReportLastToggle(table: Table, calls: seq<Call>, region: string)
    requires OptInOf(table, region).Some?
    ensures Lazy(table, LazyRun(table, calls), GetStatus(region)).1 == Ok(Status(Outcome(table, calls, region)))
  {
    AnswersAsIfEager(table, calls, GetStatus(region));
    EagerHoldsOutcome(table, calls, region);
  }

  predicate ShowsInFlight(a: Answer) {
    match a
    case Accepted => false
    case Status(s) => InFlight(s)
    case Regions(items, _) => exists i :: 0 <= i < |items| && InFlight(items[i].1)
  }

  lemma EagerIsSettled(table: Table, calls: seq<Call>, region: string)
    ensures !InFlight(Reported(table, EagerRun(table, calls), region))
  {
    RunRefines(table, calls);
  }

  // No answer, to a single read or to a listing, ever shows a change in flight.
  lemma AnswersAreSettled(table: Table, calls: seq<Call>, next: Call)
    ensures var reply := Lazy(table, LazyRun(table, calls), next).1; reply.Ok? ==> !ShowsInFlight(reply.value)
  {
    AnswersAsIfEager(table, calls, next);
    var store := EagerRun(table, calls);
    match next
    case SetRegion(_, _) =>
    case GetStatus(region) => EagerIsSettled(table, calls, region);
    case ListRegions(filter, max, token) =>
      var all := Listed(table, store, filter);
      forall i | 0 <= i < |all| ensures !InFlight(all[i].1) {
        assert all[i] in Rows(table, store);
        EagerIsSettled(table, calls, all[i].0);
      }
  }

  // ---- paging ----

  // A page is the slice at its offset, and its token resumes at the next one.
  lemma PageIsSlice(all: seq<(string, OptStatus)>, start: nat, max: nat)
    requires |all| <= VEC_LIMIT && 1 <= max <= 50
    ensures var page := PageOf(all, start, max);
            && page.items == Slice(all, start, max)
            && (page.next.Some? <==> NextOffset(all, start, max).Some?)
            && (page.next.Some? ==> StartFrom(page.next) == NextOffset(all, start, max))
  {
    if start + max < |all| { ParseOfDecimal(start + max); }
  }

  // What a client sees that follows NextToken over unchanged settings.
  function WalkRegions(all: seq<(string, OptStatus)>, max: nat, token: Option<string>): seq<(string, OptStatus)>
    requires |all| <= VEC_LIMIT && 1 <= max <= 50 && StartFrom(token).Some?
    decreases |all| - StartFrom(token).value
  {
    var page := PageOf(all, StartFrom(token).value, max);
    PageIsSlice(all, StartFrom(token).value, max);
    page.items + if page.next.Some? then WalkRegions(all, max, page.next) else []
  }

  lemma {:induction false} WalkIsFollow(all: seq<(string, OptStatus)>, max: nat, token: Option<string>)
    requires |all| <= VEC_LIMIT && 1 <= max <= 50 && StartFrom(token).Some?
    ensures WalkRegions(all, max, token) == Follow(all, StartFrom(token).value, max)
    decreases |all| - StartFrom(token).value
  {
    var page := PageOf(all, StartFrom(token).value, max);
    PageIsSlice(all, StartFrom(token).value, max);
    if page.next.Some? { WalkIsFollow(all, max, page.next); }
  }

  lemma SettledStays(table: Table, overrides: Overrides)
    ensures var settled := SettleNamed(overrides, Names(table)); SettleNamed(settled, Names(table)) == settled
  {
  }

  // What a client sees that calls list_regions and follows NextToken, each call
  // settling the store before the next one reads it.
  function LazyWalk(table: Table, overrides: Overrides, filter: set<OptStatus>, max: nat, token: Option<string>)
    : seq<(string, OptStatus)>
    requires |table| <= VEC_LIMIT && 1 <= max <= 50 && StartFrom(token).Some?
    decreases |table| - StartFrom(token).value
  {
    var r := Lazy(table, overrides, ListRegions(filter, Some(max), token));
    PageIsSlice(Listed(table, r.0, filter), StartFrom(token).value, max);
    r.1.value.items + if r.1.value.next.Some? then LazyWalk(table, r.0, filter, max, r.1.value.next) else []
  }

  lemma {:induction false} LazyWalkIsWalk(
    table: Table, overrides: Overrides, filter: set<OptStatus>, max: nat, token: Option<string>)
    requires |table| <= VEC_LIMIT && 1 <= max <= 50 && StartFrom(token).Some?
    ensures var all := Listed(table, SettleNamed(overrides, Names(table)), filter);
            LazyWalk(table, overrides, filter, max, token) == WalkRegions(all, max, token)
    decreases |table| - StartFrom(token).value
  {
    var settled := SettleNamed(overrides, Names(table));
    var all := Listed(table, settled, filter);
    var page := PageOf(all, StartFrom(token).value, max);
    PageIsSlice(all, StartFrom(token).value, max);
    if page.next.Some? {
      SettledStays(table, overrides);
      LazyWalkIsWalk(table, settled, filter, max, page.next);
    }
  }

  // After any calls, paging through list_regions returns exactly the filtered
  // list of the regions' outcomes.
  lemma PagesAreTheListing(table: Table, calls: seq<Call>, filter: set<OptStatus>, max: nat)
    requires |table| <= VEC_LIMIT && 1 <= max <= 50
    ensures LazyWalk(table, LazyRun(table, calls), filter, max, None) == Listed(table, EagerRun(table, calls), filter)
  {
    var all := Listed(table, EagerRun(table, calls), filter);
    RunRefines(table, calls);
    SettledReports(table, LazyRun(table, calls), EagerRun(table, calls), "");
    LazyWalkIsWalk(table, LazyRun(table, calls), filter, max, None);
    WalkIsFollow(all, max, None);
    FollowIsRest(all, 0, max);
  }

  // ---- what a listing holds ----

  ghost predicate DistinctNames(table: Table) {
    forall i, j :: 0 <= i < j < |table| ==> table[i].0 != table[j].0
  }

  lemma {:induction false} OptInOfRow(table: Table, i: nat)
    requires DistinctNames(table) && i < |table|
    ensures OptInOf(table, table[i].0) == Some(table[i].1)
  {
    if i > 0 {
      assert table[1..][i - 1] == table[i];
      OptInOfRow(table[1..], i - 1);
    }
  }

  // A region nobody toggled is ENABLED_BY_DEFAULT, or DISABLED if it is opt-in.
  lemma DefaultsAre(table: Table, calls: seq<Call>, i: nat)
    requires DistinctNames(table) && i < |table| && LastToggle(table, calls, table[i].0).None?
    ensures OptInOf(table, table[i].0).Some?
    ensures Outcome(table, calls, table[i].0) == if table[i].1 then Disabled else EnabledByDefault
  {
    OptInOfRow(table, i);
  }

  predicate Shown(filter: set<OptStatus>, status: OptStatus) { filter == {} || status in filter }

  // The rows a listing of the table's first n regions holds.
  ghost function ShownRows(table: Table, calls: seq<Call>, filter: set<OptStatus>, n: nat): seq<(string, OptStatus)>
    requires DistinctNames(table) && n <= |table|
  {
    if n == 0 then []
    else
      OptInOfRow(table, n - 1);
      var row := (table[n - 1].0, Outcome(table, calls, table[n - 1].0));
      ShownRows(table, calls, filter, n - 1) + if Shown(filter, row.1) then [row] else []
  }

  // A listing goes through the table in order and holds each region whose outcome
  // the filter shows, once, with that outcome.
  lemma ListingHolds(table: Table, calls: seq<Call>, filter: set<OptStatus>)
    requires DistinctNames(table)
    ensures Listed(table, EagerRun(table, calls), filter) == ShownRows(table, calls, filter, |table|)
  {
    ListingHoldsPrefix(table, calls, filter, |table|);
    var rows := Rows(table, EagerRun(table, calls));
    assert rows[..|table|] == rows;
  }

  // One row, of the table's region i.
  lemma RowHolds(table: Table, calls: seq<Call>, i: nat)
    requires DistinctNames(table) && i < |table|
    ensures OptInOf(table, table[i].0).Some?
    ensures Rows(table, EagerRun(table, calls))[i] == (table[i].0, Outcome(table, calls, table[i].0))
  {
    OptInOfRow(table, i);
    EagerHoldsOutcome(table, calls, table[i].0);
  }

  lemma FilterGrows<T(!new)>(xs: seq<T>, n: nat, keep: T -> bool)
    requires n < |xs|
    ensures Filter(xs[..n + 1], keep) == Filter(xs[..n], keep) + if keep(xs[n]) then [xs[n]] else []
  {
    assert xs[..n + 1] == xs[..n] + [xs[n]];
    FilterConcat(xs[..n], [xs[n]], keep);
  }

  lemma {:induction false} ListingHoldsPrefix(table: Table, calls: seq<Call>, filter: set<OptStatus>, n: nat)
    requires DistinctNames(table) && n <= |table|
    ensures Filter(Rows(table, EagerRun(table, calls))[..n], (row: (string, OptStatus)) => filter == {} || row.1 in filter)
            == ShownRows(table, calls, filter, n)
  {
    if n > 0 {
      ListingHoldsPrefix(table, calls, filter, n - 1);
      RowHolds(table, calls, n - 1);
      FilterGrows(Rows(table, EagerRun(table, calls)), n - 1, (row: (string, OptStatus)) => filter == {} || row.1 in filter);
    }
  }

  // A listing is refused exactly when its page size is not 1 to 50 or its token
  // is not a number; without either it is the first fifty regions.
  lemma ListingAnswers(table: Table, overrides: Overrides, filter: set<OptStatus>, max: Option<int>, token: Option<string>)
    ensures Eager(table, overrides, ListRegions(filter, max, token)).1.Err? <==>
              || (max.Some? && (max.value < 1 || max.value > 50))
              || (token.Some? && token.value != [] && ParseUsize(token.value).None?)
    ensures var all := Listed(table, overrides, filter);
            Eager(table, overrides, ListRegions(filter, None, None)).1
            == Ok(if |all| <= 50 then Regions(all, None) else Regions(all[..50], Some("50")))
  {
    assert Decimal(5) == "5";
    assert Decimal(50) == "50";
    var all := Listed(table, overrides, filter);
    assert all[0..|all|] == all;
  }

  // ---- settling in place ----

  // The pass of list_regions over the table of regions.
  method SettleAll(table: Table, overrides: Overrides) returns (r: Overrides)
    ensures r == SettleNamed(overrides, Names(table))
  {
    r := overrides;
    for i := 0 to |table|
      invariant r == SettleNamed(overrides, Names(table[..i]))
    {
      var name := table[i].0;
      NamesGrow(table, i);
      if name in r {
        if r[name] == Enabling {
          r := r[name := Enabled];
        } else if r[name] == Disabling {
          r := r[name := Disabled];
        }
      }
    }
    assert table[..|table|] == table;
  }

  lemma NamesGrow(table: Table, i: nat)
    requires i < |table|
    ensures Names(table[..i + 1]) == Names(table[..i]) + {table[i].0}
  {
    assert table[..i + 1][i].0 == table[i].0;
    forall k | 0 <= k < i ensures table[..i][k].0 in Names(table[..i + 1]) {
      assert table[..i + 1][k] == table[..i][k];
    }
  }
}
