// What loading an old ACM snapshot preserves
// (crates/fakecloud-acm/src/state.rs).

module MigrationSafety {
  import opened Common
  import opened SnapshotMigration
  import Acme

  // ---- nothing is lost, doubled or changed ----

  // Each record of the account is in exactly one region, the one its ARN names
  // (an ACME account in its endpoint's), with its value unchanged; each record
  // of a region comes from the account; and the configuration is kept at home.
  lemma SplitConserves<C, F>(s: AccountState<C, F>, place: string -> string, home: string, fallback: F, r: string)
    ensures var out := Split(s, place, home, fallback);
            && home in out && out[home].config == s.config
            && (r in out && r != home ==> out[r].config == fallback)
            && (forall k :: k in s.certificates && place(k) == r <==> r in out && k in out[r].certificates)
            && (forall k :: k in s.acme.endpoints && place(k) == r <==> r in out && k in out[r].acme.endpoints)
            && (forall k :: k in s.acme.bindings && place(k) == r <==> r in out && k in out[r].acme.bindings)
            && (forall k :: k in s.acme.validations && place(k) == r <==> r in out && k in out[r].acme.validations)
            && (forall k :: k in s.acme.accounts && place(k.0) == r <==> r in out && k in out[r].acme.accounts)
            && (r in out ==> Within(out[r], s))
  {
    var out := Split(s, place, home, fallback);
    forall k | k in s.certificates && place(k) == r ensures r in out { assert r in PlacesOf(s.certificates, place); }
    forall k | k in s.acme.endpoints && place(k) == r ensures r in out { assert r in PlacesOf(s.acme.endpoints, place); }
    forall k | k in s.acme.bindings && place(k) == r ensures r in out { assert r in PlacesOf(s.acme.bindings, place); }
    forall k | k in s.acme.validations && place(k) == r ensures r in out {
      assert r in PlacesOf(s.acme.validations, place);
    }
    forall k | k in s.acme.accounts && place(k.0) == r ensures r in out {
      assert ByEndpoint(place)(k) == r;
      assert r in PlacesOf(s.acme.accounts, ByEndpoint(place));
    }
  }

  ghost predicate SubMap<K(!new), V>(m: map<K, V>, n: map<K, V>) {
    forall k :: k in m ==> k in n && m[k] == n[k]
  }

  // Every record of one state is a record of the other.
  ghost predicate Within<C, F>(part: AccountState<C, F>, whole: AccountState<C, F>) {
    && SubMap(part.certificates, whole.certificates)
    && SubMap(part.acme.endpoints, whole.acme.endpoints)
    && SubMap(part.acme.bindings, whole.acme.bindings)
    && SubMap(part.acme.validations, whole.acme.validations)
    && SubMap(part.acme.accounts, whole.acme.accounts)
  }

  // ---- ACME integrity ----

  // Bindings and domain validations live in their endpoint's region. A legacy
  // state need not meet this: it was account-wide, so a child could be made by a
  // request to another region.
  ghost predicate CoLocated(s: Acme.State, place: string -> string) {
    && (forall k :: k in s.bindings ==> place(k) == place(s.bindings[k].endpoint))
    && (forall k :: k in s.validations ==> place(k) == place(s.validations[k].endpoint))
  }

  lemma ShareKeepsInv(s: Acme.State, place: string -> string, r: string)
    requires Acme.Inv(s) && CoLocated(s, place)
    ensures Acme.Inv(AcmeShare(s, place, r))
  {
    var t := AcmeShare(s, place, r);
    assert forall k, x :: Acme.EndpointHas(t, k, x) ==> Acme.EndpointHas(s, k, x);
    assert forall k, e, x :: Acme.BindingHas(t, k, e, x) ==> Acme.BindingHas(s, k, e, x);
    assert forall k, e, x :: Acme.ValidationHas(t, k, e, x) ==> Acme.ValidationHas(s, k, e, x);
    assert forall k, e, d :: Acme.Validates(t, k, e, d) ==> Acme.Validates(s, k, e, d);
    forall k | k in t.accounts ensures k.0 in t.endpoints && Acme.LinkOk(t, k.0, t.accounts[k]) {
      assert ByEndpoint(place)(k) == place(k.0);
      assert Acme.LinkOk(s, k.0, s.accounts[k]);
    }
  }

  lemma StrandedBinding(s: Acme.State, place: string -> string, k: string)
    requires k in s.bindings && place(k) != place(s.bindings[k].endpoint)
    ensures !Acme.Inv(AcmeShare(s, place, place(k)))
  {
    var t := AcmeShare(s, place, place(k));
    assert k in t.bindings && t.bindings[k].endpoint !in t.endpoints;
  }

  lemma StrandedValidation(s: Acme.State, place: string -> string, k: string)
    requires k in s.validations && place(k) != place(s.validations[k].endpoint)
    ensures !Acme.Inv(AcmeShare(s, place, place(k)))
  {
    var t := AcmeShare(s, place, place(k));
    assert k in t.validations && t.validations[k].endpoint !in t.endpoints;
  }

  // The split keeps the ACME invariant in every region exactly when every child
  // sits in its endpoint's region.
  lemma SplitKeepsAcmeExactly<C, F>(s: AccountState<C, F>, place: string -> string, home: string, fallback: F)
    requires Acme.Inv(s.acme)
    ensures var out := Split(s, place, home, fallback);
            (forall r :: r in out ==> Acme.Inv(out[r].acme)) <==> CoLocated(s.acme, place)
  {
    var out := Split(s, place, home, fallback);
    if CoLocated(s.acme, place) {
      forall r | r in out ensures Acme.Inv(out[r].acme) { ShareKeepsInv(s.acme, place, r); }
    } else if k :| k in s.acme.bindings && place(k) != place(s.acme.bindings[k].endpoint) {
      StrandedRegion(s, place, home, fallback, k);
    } else {
      var k :| k in s.acme.validations && place(k) != place(s.acme.validations[k].endpoint);
      StrandedValidation(s.acme, place, k);
      assert place(k) in PlacesOf(s.acme.validations, place);
      assert place(k) in out;
    }
  }

  // An endpoint minted in one region with a binding minted for it in another.
  function CrossRegion(east: string, west: string, rest: string): Acme.State {
    var e, b := Minted(east, rest), Minted(west, rest);
    Acme.State(map[e := Acme.Endpoint(e, Acme.Required, "", 0, 0, None)],
               map[b := Acme.Binding(b, e, "", "", "", None, None, None, 0, 0, None)], map[], map[])
  }

  lemma CrossRegionIsConsistent(east: string, west: string, rest: string)
    ensures Acme.Inv(CrossRegion(east, west, rest))
  {
    var s := CrossRegion(east, west, rest);
    assert forall k, t :: !Acme.EndpointHas(s, k, t);
    assert forall k, e, t :: !Acme.BindingHas(s, k, e, t);
  }

  lemma StrandedRegion<C, F>(s: AccountState<C, F>, place: string -> string, home: string, fallback: F, k: string)
    requires k in s.acme.bindings && place(k) != place(s.acme.bindings[k].endpoint)
    ensures var out := Split(s, place, home, fallback); place(k) in out && !Acme.Inv(out[place(k)].acme)
  {
    StrandedBinding(s.acme, place, k);
    assert place(k) in PlacesOf(s.acme.bindings, place);
  }

  // It is consistent before the split, and whatever else the account holds, its
  // split has an inconsistent region.
  lemma CrossRegionChildIsStranded<C, F>(
    east: string, west: string, rest: string, certificates: map<string, C>, config: F, home: string, fallback: F)
    requires ':' !in east && ':' !in west && east != [] && west != [] && east != west
    ensures var s := AccountState(certificates, config, CrossRegion(east, west, rest));
            var out := Split(s, arn => PlaceOf(arn, home), home, fallback);
            Acme.Inv(s.acme) && west in out && !Acme.Inv(out[west].acme)
  {
    CrossRegionIsConsistent(east, west, rest);
    MintedNamesRegion(east, rest);
    MintedNamesRegion(west, rest);
    var s := AccountState(certificates, config, CrossRegion(east, west, rest));
    StrandedRegion(s, arn => PlaceOf(arn, home), home, fallback, Minted(west, rest));
  }

  function PlaceOf(arn: string, home: string): string {
    var r := RegionOf(arn);
    if r.Some? then r.value else home
  }

  function Minted(region: string, rest: string): string {
    "arn:" + ("aws" + ([':'] + ("acm" + ([':'] + (region + ([':'] + rest))))))
  }

  lemma MintedNamesRegion(region: string, rest: string)
    requires ':' !in region && region != []
    ensures RegionOf(Minted(region, rest)) == Some(region)
  {
    MintedArnNamesRegion("aws", "acm", region, rest);
  }

  // ---- whole snapshots ----

  const SCHEMA_VERSION: nat := 3

  type Accounts<C, F> = map<string, Regions<C, F>>

  // A snapshot file: what it holds depends on its version. JSON parsing is
  // outside the model.
  datatype OnDisk<C, F> =
    | Legacy(version: nat, legacy: Option<map<string, AccountState<C, F>>>)
    | Current(version: nat, accounts: Option<Accounts<C, F>>)

  datatype Snapshot<C, F> = Snapshot(version: nat, accounts: Option<Accounts<C, F>>)

  ghost predicate WellVersioned<C, F>(file: OnDisk<C, F>) {
    if file.Legacy? then file.version < SCHEMA_VERSION else file.version >= SCHEMA_VERSION
  }

  // `parse_acm_snapshot`. A newer file comes back without state, for the caller
  // to refuse; a current one as it is; an older one split account by account,
  // each account from its own records alone.
  method ParseSnapshot<C, F>(file: OnDisk<C, F>, home: string, fallback: F) returns (r: Snapshot<C, F>)
    requires WellVersioned(file)
    ensures file.version > SCHEMA_VERSION ==> r == Snapshot(file.version, None)
    ensures file.version == SCHEMA_VERSION ==> r == Snapshot(file.version, file.accounts)
    ensures file.version < SCHEMA_VERSION && file.legacy.None? ==> r == Snapshot(SCHEMA_VERSION, None)
    ensures file.version < SCHEMA_VERSION && file.legacy.Some? ==>
              && r.version == SCHEMA_VERSION && r.accounts.Some?
              && r.accounts.value.Keys == file.legacy.value.Keys
              && forall a :: a in file.legacy.value ==>
                   r.accounts.value[a] == Split(file.legacy.value[a], arn => PlaceOf(arn, home), home, fallback)
  {
    if file.version >= SCHEMA_VERSION {
      if file.version > SCHEMA_VERSION { return Snapshot(file.version, None); }
      return Snapshot(file.version, file.accounts);
    }
    if file.legacy.None? { return Snapshot(SCHEMA_VERSION, None); }
    var place := arn => PlaceOf(arn, home);
    var out: Accounts<C, F> := map[];
    var left := file.legacy.value.Keys;
    while left != {}
      invariant left <= file.legacy.value.Keys && out.Keys == file.legacy.value.Keys - left
      invariant forall a :: a in out ==> out[a] == Split(file.legacy.value[a], place, home, fallback)
      decreases |left|
    {
      var a :| a in left;
      var regions := SplitLegacyAccount(file.legacy.value[a], place, home, fallback);
      out := out[a := regions];
      left := left - {a};
    }
    return Snapshot(SCHEMA_VERSION, Some(out));
  }
}
