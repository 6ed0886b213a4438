// Loading an ACM snapshot (crates/fakecloud-acm/src/state.rs). Versions 1 and 2
// kept one state per account; loading splits it by region.

module SnapshotMigration {
  import opened Common
  import opened Text
  import Acme

  // `AccountState`. `C` is a stored certificate, `F` the account configuration.
  datatype AccountState<C, F> = AccountState(certificates: map<string, C>, config: F, acme: Acme.State)

  type Regions<C, F> = map<string, AccountState<C, F>>

  const NO_ACME: Acme.State := Acme.State(map[], map[], map[], map[])

  function Untouched<C, F>(defaultConfig: F): AccountState<C, F> { AccountState(map[], defaultConfig, NO_ACME) }

  // ---- which region an ARN names ----

  function BeforeColon(s: string): string {
    if s == [] || s[0] == ':' then [] else [s[0]] + BeforeColon(s[1..])
  }

  // What follows the first colon, if there is one.
  function AfterColon(s: string): Option<string> {
    if s == [] then None else if s[0] == ':' then Some(s[1..]) else AfterColon(s[1..])
  }

  function Field(s: string, n: nat): Option<string>
    decreases n
  {
    if n == 0 then Some(BeforeColon(s))
    else
      var rest := AfterColon(s);
      if rest.None? then None else Field(rest.value, n - 1)
  }

  function RegionOf(arn: string): Option<string> {
    if !StartsWith(arn, "arn:") then None
    else
      var r := Field(arn[4..], 2);
      if r.Some? && r.value != [] then r else None
  }

  lemma {:induction false} ColonSplits(head: string, tail: string)
    requires ':' !in head
    ensures BeforeColon(head + ([':'] + tail)) == head && AfterColon(head + ([':'] + tail)) == Some(tail)
  {
    var s := head + ([':'] + tail);
    if head != [] {
      assert s[1..] == head[1..] + ([':'] + tail);
      ColonSplits(head[1..], tail);
    } else {
      assert s[0] == ':' && s[1..] == tail;
    }
  }

  // The ARNs the handlers mint name the region they were minted in.
  lemma MintedArnNamesRegion(partition: string, service: string, region: string, rest: string)
    requires ':' !in partition && ':' !in service && ':' !in region && region != []
    ensures RegionOf("arn:" + (partition + ([':'] + (service + ([':'] + (region + ([':'] + rest))))))) == Some(region)
  {
    var afterRegion := region + ([':'] + rest);
    var afterService := service + ([':'] + afterRegion);
    var body := partition + ([':'] + afterService);
    ColonSplits(region, rest);
    ColonSplits(service, afterRegion);
    ColonSplits(partition, afterService);
    assert ("arn:" + body)[4..] == body;
    assert Field(afterRegion, 0) == Some(region);
    assert Field(afterService, 1) == Some(region);
  }

  // ---- sorting records by region ----

  function PlacesOf<K, V>(m: map<K, V>, place: K -> string): set<string> { set k | k in m :: place(k) }

  function Placed<K, V>(m: map<K, V>, place: K -> string, r: string): map<K, V> {
    map k | k in m && place(k) == r :: m[k]
  }

  lemma PlacesAdd<K, V>(m: map<K, V>, place: K -> string, k: K, v: V)
    ensures PlacesOf(m[k := v], place) == PlacesOf(m, place) + {place(k)}
  {
    assert k in m[k := v];
    forall l | l in m ensures place(l) in PlacesOf(m[k := v], place) { assert l in m[k := v]; }
  }

  lemma PlacedAdd<K, V>(m: map<K, V>, place: K -> string, k: K, v: V, r: string)
    ensures Placed(m[k := v], place, r) == if place(k) == r then Placed(m, place, r)[k := v] else Placed(m, place, r)
  {
  }

  lemma PlacedNowhere<K, V>(m: map<K, V>, place: K -> string, r: string)
    requires r !in PlacesOf(m, place)
    ensures Placed(m, place, r) == map[]
  {
  }

  // ---- the split ----

  // An ACME account goes where its endpoint's ARN goes.
  function ByEndpoint(place: string -> string): ((string, string)) -> string { (k: (string, string)) => place(k.0) }

  // The regions that end up with some state; `place` is the region an ARN goes
  // to, `home` the default region.
  function Touched<C, F>(s: AccountState<C, F>, place: string -> string, home: string): set<string> {
    {home} + PlacesOf(s.certificates, place) + PlacesOf(s.acme.endpoints, place) + PlacesOf(s.acme.bindings, place)
    + PlacesOf(s.acme.validations, place) + PlacesOf(s.acme.accounts, ByEndpoint(place))
  }

  function AcmeShare(s: Acme.State, place: string -> string, r: string): Acme.State {
    Acme.State(Placed(s.endpoints, place, r), Placed(s.bindings, place, r), Placed(s.validations, place, r),
               Placed(s.accounts, ByEndpoint(place), r))
  }

  // One region's share; only the default region inherits the configuration.
  function Share<C, F>(s: AccountState<C, F>, place: string -> string, home: string, fallback: F, r: string)
    : AccountState<C, F>
  {
    AccountState(Placed(s.certificates, place, r), if r == home then s.config else fallback, AcmeShare(s.acme, place, r))
  }

  function Split<C, F>(s: AccountState<C, F>, place: string -> string, home: string, fallback: F): Regions<C, F> {
    map r | r in Touched(s, place, home) :: Share(s, place, home, fallback, r)
  }

  // `region_mut`: the region's state, created empty on first use.
  function At<C, F>(out: Regions<C, F>, r: string, fallback: F): AccountState<C, F> {
    if r in out then out[r] else Untouched(fallback)
  }

  // `region_mut` hands out the region's share, whether or not it exists yet.
  lemma AtIsShare<C, F>(s: AccountState<C, F>, place: string -> string, home: string, fallback: F, r: string)
    ensures At(Split(s, place, home, fallback), r, fallback) == Share(s, place, home, fallback, r)
  {
    if r !in Touched(s, place, home) {
      PlacedNowhere(s.certificates, place, r);
      PlacedNowhere(s.acme.endpoints, place, r);
      PlacedNowhere(s.acme.bindings, place, r);
      PlacedNowhere(s.acme.validations, place, r);
      PlacedNowhere(s.acme.accounts, ByEndpoint(place), r);
    }
  }

  // A record that changes one region's share, and no other, changes the split
  // at that region only.
  lemma OneRegionChanges<C, F>(
    s: AccountState<C, F>, t: AccountState<C, F>, place: string -> string, home: string, fallback: F, at: string)
    requires Touched(t, place, home) == Touched(s, place, home) + {at}
    requires forall r :: r != at ==> Share(t, place, home, fallback, r) == Share(s, place, home, fallback, r)
    ensures Split(t, place, home, fallback)
            == Split(s, place, home, fallback)[at := Share(t, place, home, fallback, at)]
  {
  }

  lemma AddCertificate<C, F>(
    s: AccountState<C, F>, place: string -> string, home: string, fallback: F, k: string, v: C)
    ensures var out := Split(s, place, home, fallback);
            var st := At(out, place(k), fallback);
            Split(s.(certificates := s.certificates[k := v]), place, home, fallback)
            == out[place(k) := st.(certificates := st.certificates[k := v])]
  {
    var t := s.(certificates := s.certificates[k := v]);
    PlacesAdd(s.certificates, place, k, v);
    forall r { PlacedAdd(s.certificates, place, k, v, r); }
    AtIsShare(s, place, home, fallback, place(k));
    OneRegionChanges(s, t, place, home, fallback, place(k));
  }

  lemma AddEndpoint<C, F>(
    s: AccountState<C, F>, place: string -> string, home: string, fallback: F, k: string, v: Acme.Endpoint)
    ensures var out := Split(s, place, home, fallback);
            var st := At(out, place(k), fallback);
            Split(s.(acme := s.acme.(endpoints := s.acme.endpoints[k := v])), place, home, fallback)
            == out[place(k) := st.(acme := st.acme.(endpoints := st.acme.endpoints[k := v]))]
  {
    var t := s.(acme := s.acme.(endpoints := s.acme.endpoints[k := v]));
    PlacesAdd(s.acme.endpoints, place, k, v);
    forall r { PlacedAdd(s.acme.endpoints, place, k, v, r); }
    AtIsShare(s, place, home, fallback, place(k));
    OneRegionChanges(s, t, place, home, fallback, place(k));
  }

  lemma AddBinding<C, F>(
    s: AccountState<C, F>, place: string -> string, home: string, fallback: F, k: string, v: Acme.Binding)
    ensures var out := Split(s, place, home, fallback);
            var st := At(out, place(k), fallback);
            Split(s.(acme := s.acme.(bindings := s.acme.bindings[k := v])), place, home, fallback)
            == out[place(k) := st.(acme := st.acme.(bindings := st.acme.bindings[k := v]))]
  {
    var t := s.(acme := s.acme.(bindings := s.acme.bindings[k := v]));
    PlacesAdd(s.acme.bindings, place, k, v);
    forall r { PlacedAdd(s.acme.bindings, place, k, v, r); }
    AtIsShare(s, place, home, fallback, place(k));
    OneRegionChanges(s, t, place, home, fallback, place(k));
  }

  lemma AddValidation<C, F>(
    s: AccountState<C, F>, place: string -> string, home: string, fallback: F, k: string, v: Acme.Validation)
    ensures var out := Split(s, place, home, fallback);
            var st := At(out, place(k), fallback);
            Split(s.(acme := s.acme.(validations := s.acme.validations[k := v])), place, home, fallback)
            == out[place(k) := st.(acme := st.acme.(validations := st.acme.validations[k := v]))]
  {
    var t := s.(acme := s.acme.(validations := s.acme.validations[k := v]));
    PlacesAdd(s.acme.validations, place, k, v);
    forall r { PlacedAdd(s.acme.validations, place, k, v, r); }
    AtIsShare(s, place, home, fallback, place(k));
    OneRegionChanges(s, t, place, home, fallback, place(k));
  }

  lemma AddAccount<C, F>(
    s: AccountState<C, F>, place: string -> string, home: string, fallback: F, k: (string, string), v: Acme.Account)
    ensures var out := Split(s, place, home, fallback);
            var st := At(out, place(k.0), fallback);
            Split(s.(acme := s.acme.(accounts := s.acme.accounts[k := v])), place, home, fallback)
            == out[place(k.0) := st.(acme := st.acme.(accounts := st.acme.accounts[k := v]))]
  {
    var t := s.(acme := s.acme.(accounts := s.acme.accounts[k := v]));
    PlacesAdd(s.acme.accounts, ByEndpoint(place), k, v);
    forall r { PlacedAdd(s.acme.accounts, ByEndpoint(place), k, v, r); }
    AtIsShare(s, place, home, fallback, place(k.0));
    OneRegionChanges(s, t, place, home, fallback, place(k.0));
  }

  // ---- the loops of the migration ----

  // The records already moved out of `m`: those no longer in `left`.
  ghost predicate Moved<K(!new), V>(m: map<K, V>, moved: map<K, V>, left: set<K>) {
    moved.Keys == m.Keys - left && left <= m.Keys && forall k :: k in moved ==> moved[k] == m[k]
  }

  method PlaceCertificates<C, F>(
    out: Regions<C, F>, m: map<string, C>, place: string -> string, home: string, fallback: F,
    ghost s: AccountState<C, F>)
    returns (r: Regions<C, F>)
    requires s.certificates == map[] && out == Split(s, place, home, fallback)
    ensures r == Split(s.(certificates := m), place, home, fallback)
  {
    r := out;
    var left := m.Keys;
    ghost var moved: map<string, C> := map[];
    while left != {}
      invariant Moved(m, moved, left) && r == Split(s.(certificates := moved), place, home, fallback)
      decreases |left|
    {
      var k :| k in left;
      AddCertificate(s.(certificates := moved), place, home, fallback, k, m[k]);
      var st := At(r, place(k), fallback);
      r := r[place(k) := st.(certificates := st.certificates[k := m[k]])];
      moved := moved[k := m[k]];
      left := left - {k};
    }
    assert moved == m;
  }

  method PlaceEndpoints<C, F>(
    out: Regions<C, F>, m: map<string, Acme.Endpoint>, place: string -> string, home: string, fallback: F,
    ghost s: AccountState<C, F>)
    returns (r: Regions<C, F>)
    requires s.acme.endpoints == map[] && out == Split(s, place, home, fallback)
    ensures r == Split(s.(acme := s.acme.(endpoints := m)), place, home, fallback)
  {
    r := out;
    var left := m.Keys;
    ghost var moved: map<string, Acme.Endpoint> := map[];
    while left != {}
      invariant Moved(m, moved, left)
      invariant r == Split(s.(acme := s.acme.(endpoints := moved)), place, home, fallback)
      decreases |left|
    {
      var k :| k in left;
      AddEndpoint(s.(acme := s.acme.(endpoints := moved)), place, home, fallback, k, m[k]);
      var st := At(r, place(k), fallback);
      r := r[place(k) := st.(acme := st.acme.(endpoints := st.acme.endpoints[k := m[k]]))];
      moved := moved[k := m[k]];
      left := left - {k};
    }
    assert moved == m;
  }

  method PlaceBindings<C, F>(
    out: Regions<C, F>, m: map<string, Acme.Binding>, place: string -> string, home: string, fallback: F,
    ghost s: AccountState<C, F>)
    returns (r: Regions<C, F>)
    requires s.acme.bindings == map[] && out == Split(s, place, home, fallback)
    ensures r == Split(s.(acme := s.acme.(bindings := m)), place, home, fallback)
  {
    r := out;
    var left := m.Keys;
    ghost var moved: map<string, Acme.Binding> := map[];
    while left != {}
      invariant Moved(m, moved, left)
      invariant r == Split(s.(acme := s.acme.(bindings := moved)), place, home, fallback)
      decreases |left|
    {
      var k :| k in left;
      AddBinding(s.(acme := s.acme.(bindings := moved)), place, home, fallback, k, m[k]);
      var st := At(r, place(k), fallback);
      r := r[place(k) := st.(acme := st.acme.(bindings := st.acme.bindings[k := m[k]]))];
      moved := moved[k := m[k]];
      left := left - {k};
    }
    assert moved == m;
  }

  method PlaceValidations<C, F>(
    out: Regions<C, F>, m: map<string, Acme.Validation>, place: string -> string, home: string, fallback: F,
    ghost s: AccountState<C, F>)
    returns (r: Regions<C, F>)
    requires s.acme.validations == map[] && out == Split(s, place, home, fallback)
    ensures r == Split(s.(acme := s.acme.(validations := m)), place, home, fallback)
  {
    r := out;
    var left := m.Keys;
    ghost var moved: map<string, Acme.Validation> := map[];
    while left != {}
      invariant Moved(m, moved, left)
      invariant r == Split(s.(acme := s.acme.(validations := moved)), place, home, fallback)
      decreases |left|
    {
      var k :| k in left;
      AddValidation(s.(acme := s.acme.(validations := moved)), place, home, fallback, k, m[k]);
      var st := At(r, place(k), fallback);
      r := r[place(k) := st.(acme := st.acme.(validations := st.acme.validations[k := m[k]]))];
      moved := moved[k := m[k]];
      left := left - {k};
    }
    assert moved == m;
  }

  method PlaceAccounts<C, F>(
    out: Regions<C, F>, m: map<(string, string), Acme.Account>, place: string -> string, home: string, fallback: F,
    ghost s: AccountState<C, F>)
    returns (r: Regions<C, F>)
    requires s.acme.accounts == map[] && out == Split(s, place, home, fallback)
    ensures r == Split(s.(acme := s.acme.(accounts := m)), place, home, fallback)
  {
    r := out;
    var left := m.Keys;
    ghost var moved: map<(string, string), Acme.Account> := map[];
    while left != {}
      invariant Moved(m, moved, left)
      invariant r == Split(s.(acme := s.acme.(accounts := moved)), place, home, fallback)
      decreases |left|
    {
      var k :| k in left;
      AddAccount(s.(acme := s.acme.(accounts := moved)), place, home, fallback, k, m[k]);
      var st := At(r, place(k.0), fallback);
      r := r[place(k.0) := st.(acme := st.acme.(accounts := st.acme.accounts[k := m[k]]))];
      moved := moved[k := m[k]];
      left := left - {k};
    }
    assert moved == m;
  }

  // `split_legacy_account`: the configuration first, then each kind of record.
  method SplitLegacyAccount<C, F>(legacy: AccountState<C, F>, place: string -> string, home: string, fallback: F)
    returns (out: Regions<C, F>)
    ensures out == Split(legacy, place, home, fallback)
  {
    out := map[home := Untouched<C, F>(fallback).(config := legacy.config)];
    ghost var done: AccountState<C, F> := AccountState(map[], legacy.config, NO_ACME);
    assert Touched(done, place, home) == {home};
    assert Share(done, place, home, fallback, home) == out[home];
    assert out == Split(done, place, home, fallback);
    out := PlaceCertificates(out, legacy.certificates, place, home, fallback, done);
    done := done.(certificates := legacy.certificates);
    out := PlaceEndpoints(out, legacy.acme.endpoints, place, home, fallback, done);
    done := done.(acme := done.acme.(endpoints := legacy.acme.endpoints));
    out := PlaceBindings(out, legacy.acme.bindings, place, home, fallback, done);
    done := done.(acme := done.acme.(bindings := legacy.acme.bindings));
    out := PlaceValidations(out, legacy.acme.validations, place, home, fallback, done);
    done := done.(acme := done.acme.(validations := legacy.acme.validations));
    out := PlaceAccounts(out, legacy.acme.accounts, place, home, fallback, done);
    assert done.(acme := done.acme.(accounts := legacy.acme.accounts)) == legacy;
  }
}
