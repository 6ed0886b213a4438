// The ACME resources of one account and region
// (crates/fakecloud-acm/src/acme.rs): endpoints, the external account bindings
// and domain validations that hang off them, and registered accounts. Every
// handler is a transition; module AcmeRegion runs them in place.

module Acme {
  import opened Common

  type Arn = string

  datatype Contact = Required | NotRequired
  datatype Scope = Scope(exact: bool, wildcard: bool)
  datatype ValidationStatus = Validating | Valid

  datatype Endpoint = Endpoint(
    arn: Arn, contact: Contact, authority: string, createdAt: int, updatedAt: int, token: Option<string>)

  datatype Binding = Binding(
    arn: Arn, endpoint: Arn, role: string, keyId: string, macKey: string, expiresAt: Option<int>,
    revokedAt: Option<int>, lastUsedAt: Option<int>, createdAt: int, updatedAt: int, token: Option<string>)

  datatype Validation = Validation(
    arn: Arn, endpoint: Arn, domain: string, scope: Option<Scope>, zone: Option<string>,
    status: ValidationStatus, createdAt: int, updatedAt: int, token: Option<string>)

  // Keyed by endpoint and account URL. No handler registers an account; they
  // arrive with loaded state.
  datatype Account = Account(binding: Option<Arn>, revoked: bool)

  datatype State = State(
    endpoints: map<Arn, Endpoint>,
    bindings: map<Arn, Binding>,
    validations: map<Arn, Validation>,
    accounts: map<(Arn, string), Account>)

  datatype Answer = Named(arn: Arn) | Credentials(keyId: string, macKey: string) | Described(v: Validation) | Done

  datatype Outcome = Outcome(state: State, reply: Reply<Answer>)

  function Refuse(s: State, f: Fault): Outcome { Outcome(s, Err(f)) }

  // An optional enumerated argument of a request.
  datatype Arg<T> = Absent | Given(value: T) | Unknown

  // ---- endpoints ----

  predicate EndpointHas(s: State, k: Arn, token: string) {
    k in s.endpoints && s.endpoints[k].token == Some(token)
  }

  ghost function CreateEndpoint(
    s: State, behaviorOk: bool, authority: Option<string>, contact: Arg<Contact>, token: Option<string>,
    newArn: Arn, now: int): Outcome
  {
    if !behaviorOk || authority.None? || contact.Unknown? then Refuse(s, Invalid)
    else if token.Some? && exists k :: EndpointHas(s, k, token.value) then
      var k :| EndpointHas(s, k, token.value);
      Outcome(s, Ok(Named(s.endpoints[k].arn)))
    else
      var e := Endpoint(newArn, if contact.Given? then contact.value else Required, authority.value, now, now, token);
      Outcome(s.(endpoints := s.endpoints[newArn := e]), Ok(Named(newArn)))
  }

  // Every argument is checked before any is applied.
  function UpdateEndpoint(
    s: State, arn: Arn, behavior: Arg<()>, contact: Arg<Contact>, authority: Arg<string>, now: int): Outcome
  {
    if arn !in s.endpoints then Refuse(s, NotFound)
    else if behavior.Unknown? || contact.Unknown? || authority.Unknown? then Refuse(s, Invalid)
    else
      var e := s.endpoints[arn].(
        contact := if contact.Given? then contact.value else s.endpoints[arn].contact,
        authority := if authority.Given? then authority.value else s.endpoints[arn].authority,
        updatedAt := now);
      Outcome(s.(endpoints := s.endpoints[arn := e]), Ok(Done))
  }

  function DeleteEndpoint(s: State, arn: Arn): Outcome {
    Outcome(
      State(
        s.endpoints - {arn},
        map k | k in s.bindings && s.bindings[k].endpoint != arn :: s.bindings[k],
        map k | k in s.validations && s.validations[k].endpoint != arn :: s.validations[k],
        map k | k in s.accounts && k.0 != arn :: s.accounts[k]),
      Ok(Done))
  }

  // ---- external account bindings ----

  predicate BindingHas(s: State, k: Arn, endpoint: Arn, token: string) {
    k in s.bindings && s.bindings[k].endpoint == endpoint && s.bindings[k].token == Some(token)
  }

  ghost function CreateBinding(
    s: State, endpoint: Arn, role: string, expiresAt: Option<int>, token: Option<string>,
    newArn: Arn, keyId: string, macKey: string, now: int): Outcome
  {
    if endpoint !in s.endpoints then Refuse(s, NotFound)
    else if token.Some? && exists k :: BindingHas(s, k, endpoint, token.value) then
      var k :| BindingHas(s, k, endpoint, token.value);
      Outcome(s, Ok(Named(s.bindings[k].arn)))
    else
      var b := Binding(newArn, endpoint, role, keyId, macKey, expiresAt, None, None, now, now, token);
      Outcome(s.(bindings := s.bindings[newArn := b]), Ok(Named(newArn)))
  }

  function RevokeBinding(s: State, arn: Arn, now: int): Outcome {
    if arn !in s.bindings then Refuse(s, NotFound)
    else if s.bindings[arn].revokedAt.Some? then Refuse(s, Conflict)
    else Outcome(s.(bindings := s.bindings[arn := s.bindings[arn].(revokedAt := Some(now), updatedAt := now)]), Ok(Done))
  }

  // An account as it is once the binding is gone.
  function Unlinked(a: Account, arn: Arn): Account {
    if a.binding == Some(arn) then a.(binding := None) else a
  }

  function DeleteBinding(s: State, arn: Arn): Outcome {
    Outcome(
      s.(bindings := s.bindings - {arn}, accounts := map k | k in s.accounts :: Unlinked(s.accounts[k], arn)),
      Ok(Done))
  }

  predicate Usable(b: Binding, now: int) {
    b.revokedAt.None? && !(b.expiresAt.Some? && b.expiresAt.value <= now)
  }

  function GetCredentials(s: State, arn: Arn, now: int): Outcome {
    if arn !in s.bindings then Refuse(s, NotFound)
    else
      var b := s.bindings[arn];
      if !Usable(b, now) then Refuse(s, Conflict)
      else Outcome(s.(bindings := s.bindings[arn := b.(lastUsedAt := Some(now))]), Ok(Credentials(b.keyId, b.macKey)))
  }

  // ---- domain validations ----

  predicate ValidationHas(s: State, k: Arn, endpoint: Arn, token: string) {
    k in s.validations && s.validations[k].endpoint == endpoint && s.validations[k].token == Some(token)
  }

  predicate Validates(s: State, k: Arn, endpoint: Arn, domain: string) {
    k in s.validations && s.validations[k].endpoint == endpoint && s.validations[k].domain == domain
  }

  ghost function CreateValidation(
    s: State, endpoint: Arn, domain: string, scope: Arg<Scope>, zone: Option<string>, token: Option<string>,
    newArn: Arn, now: int): Outcome
  {
    if scope.Unknown? then Refuse(s, Invalid)
    else if endpoint !in s.endpoints then Refuse(s, NotFound)
    else if token.Some? && exists k :: ValidationHas(s, k, endpoint, token.value) then
      var k :| ValidationHas(s, k, endpoint, token.value);
      Outcome(s, Ok(Named(s.validations[k].arn)))
    else if exists k :: Validates(s, k, endpoint, domain) then Refuse(s, Conflict)
    else
      var v := Validation(newArn, endpoint, domain, if scope.Given? then Some(scope.value) else None, zone,
                          Validating, now, now, token);
      Outcome(s.(validations := s.validations[newArn := v]), Ok(Named(newArn)))
  }

  // The first describe settles a validation.
  function DescribeValidation(s: State, arn: Arn, now: int): Outcome {
    if arn !in s.validations then Refuse(s, NotFound)
    else
      var v := s.validations[arn];
      var settled := if v.status == Validating then v.(status := Valid, updatedAt := now) else v;
      Outcome(s.(validations := s.validations[arn := settled]), Ok(Described(settled)))
  }

  function UpdateValidation(s: State, arn: Arn, scope: Arg<Scope>, zone: Option<string>, now: int): Outcome {
    if arn !in s.validations then Refuse(s, NotFound)
    else if scope.Unknown? then Refuse(s, Invalid)
    else
      var v := s.validations[arn];
      var updated := v.(
        scope := if scope.Given? then Some(scope.value) else v.scope,
        zone := if zone.Some? then zone else v.zone,
        updatedAt := now);
      Outcome(s.(validations := s.validations[arn := updated]), Ok(Done))
  }

  function DeleteValidation(s: State, arn: Arn): Outcome {
    Outcome(s.(validations := s.validations - {arn}), Ok(Done))
  }

  // ---- accounts ----

  function RevokeAccount(s: State, endpoint: Arn, url: string): Outcome {
    if endpoint !in s.endpoints then Refuse(s, NotFound)
    else if (endpoint, url) !in s.accounts then Refuse(s, NotFound)
    else if s.accounts[(endpoint, url)].revoked then Refuse(s, Conflict)
    else
      var a := s.accounts[(endpoint, url)].(revoked := true);
      Outcome(s.(accounts := s.accounts[(endpoint, url) := a]), Ok(Done))
  }

  // ---- the invariant ----

  ghost predicate EndpointsOk(s: State) {
    && (forall k :: k in s.endpoints ==> s.endpoints[k].arn == k)
    && (forall k, l, t :: EndpointHas(s, k, t) && EndpointHas(s, l, t) ==> k == l)
  }

  ghost predicate BindingsOk(s: State) {
    && (forall k :: k in s.bindings ==> s.bindings[k].arn == k && s.bindings[k].endpoint in s.endpoints)
    && (forall k, l, e, t :: BindingHas(s, k, e, t) && BindingHas(s, l, e, t) ==> k == l)
  }

  ghost predicate ValidationsOk(s: State) {
    && (forall k :: k in s.validations ==> s.validations[k].arn == k && s.validations[k].endpoint in s.endpoints)
    && (forall k, l, e, t :: ValidationHas(s, k, e, t) && ValidationHas(s, l, e, t) ==> k == l)
    && (forall k, l, e, d :: Validates(s, k, e, d) && Validates(s, l, e, d) ==> k == l)
  }

  predicate LinkOk(s: State, endpoint: Arn, a: Account) {
    a.binding.Some? ==> a.binding.value in s.bindings && s.bindings[a.binding.value].endpoint == endpoint
  }

  ghost predicate AccountsOk(s: State) {
    forall k :: k in s.accounts ==> k.0 in s.endpoints && LinkOk(s, k.0, s.accounts[k])
  }

  // Every child names a live endpoint, an account's binding is a live one of the
  // same endpoint, a domain is validated once per endpoint, and an idempotency
  // token names one resource.
  ghost predicate Inv(s: State) {
    EndpointsOk(s) && BindingsOk(s) && ValidationsOk(s) && AccountsOk(s)
  }
}
