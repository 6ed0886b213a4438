// Every run of the ACME handlers of one account and region.

module AcmeRuns {
  import opened Common
  import opened Acme

  datatype Op =
    | CreateEndpointOp(behaviorOk: bool, ca: Option<string>, contact: Arg<Contact>, token: Option<string>, newArn: Arn)
    | UpdateEndpointOp(arn: Arn, behavior: Arg<()>, contact: Arg<Contact>, authority: Arg<string>)
    | DeleteEndpointOp(arn: Arn)
    | CreateBindingOp(endpoint: Arn, role: string, expiresAt: Option<int>, token: Option<string>,
                      newArn: Arn, keyId: string, macKey: string)
    | RevokeBindingOp(arn: Arn)
    | DeleteBindingOp(arn: Arn)
    | GetCredentialsOp(arn: Arn)
    | CreateValidationOp(endpoint: Arn, domain: string, scope: Arg<Scope>, zone: Option<string>,
                         token: Option<string>, newArn: Arn)
    | DescribeValidationOp(arn: Arn)
    | UpdateValidationOp(arn: Arn, scope: Arg<Scope>, zone: Option<string>)
    | DeleteValidationOp(arn: Arn)
    | RevokeAccountOp(endpoint: Arn, url: string)

  datatype Event = Event(op: Op, now: int)

  ghost function Step(s: State, e: Event): Outcome {
    match e.op
    case CreateEndpointOp(behaviorOk, ca, contact, token, newArn) =>
      CreateEndpoint(s, behaviorOk, ca, contact, token, newArn, e.now)
    case UpdateEndpointOp(arn, behavior, contact, authority) => UpdateEndpoint(s, arn, behavior, contact, authority, e.now)
    case DeleteEndpointOp(arn) => DeleteEndpoint(s, arn)
    case CreateBindingOp(endpoint, role, expiresAt, token, newArn, keyId, macKey) =>
      CreateBinding(s, endpoint, role, expiresAt, token, newArn, keyId, macKey, e.now)
    case RevokeBindingOp(arn) => RevokeBinding(s, arn, e.now)
    case DeleteBindingOp(arn) => DeleteBinding(s, arn)
    case GetCredentialsOp(arn) => GetCredentials(s, arn, e.now)
    case CreateValidationOp(endpoint, domain, scope, zone, token, newArn) =>
      CreateValidation(s, endpoint, domain, scope, zone, token, newArn, e.now)
    case DescribeValidationOp(arn) => DescribeValidation(s, arn, e.now)
    case UpdateValidationOp(arn, scope, zone) => UpdateValidation(s, arn, scope, zone, e.now)
    case DeleteValidationOp(arn) => DeleteValidation(s, arn)
    case RevokeAccountOp(endpoint, url) => RevokeAccount(s, endpoint, url)
  }

  ghost function Run(s: State, events: seq<Event>): State {
    if events == [] then s else Step(Run(s, events[..|events| - 1]), events[|events| - 1]).state
  }

  // A create draws a fresh UUID, so its ARN names nothing yet.
  predicate FreshArn(s: State, op: Op) {
    match op
    case CreateEndpointOp(_, _, _, _, newArn) => newArn !in s.endpoints
    case CreateBindingOp(_, _, _, _, newArn, _, _) => newArn !in s.bindings
    case CreateValidationOp(_, _, _, _, _, newArn) => newArn !in s.validations
    case _ => true
  }

  ghost predicate ValidRun(s: State, events: seq<Event>) {
    events == [] ||
    (var before := events[..|events| - 1];
     ValidRun(s, before) && FreshArn(Run(s, before), events[|events| - 1].op))
  }

  // ---- every step keeps the invariant ----

  lemma CreateEndpointKeepsInv(
    s: State, behaviorOk: bool, ca: Option<string>, contact: Arg<Contact>, token: Option<string>, newArn: Arn, now: int)
    requires Inv(s) && newArn !in s.endpoints
    ensures Inv(CreateEndpoint(s, behaviorOk, ca, contact, token, newArn, now).state)
  {
    var r := CreateEndpoint(s, behaviorOk, ca, contact, token, newArn, now).state;
    forall k, t | EndpointHas(r, k, t) ensures EndpointHas(s, k, t) || (k == newArn && r != s && token == Some(t)) {}
    MoreEndpointsKeepChildren(s, r);
  }

  lemma UpdateEndpointKeepsInv(
    s: State, arn: Arn, behavior: Arg<()>, contact: Arg<Contact>, authority: Arg<string>, now: int)
    requires Inv(s)
    ensures Inv(UpdateEndpoint(s, arn, behavior, contact, authority, now).state)
  {
    var r := UpdateEndpoint(s, arn, behavior, contact, authority, now).state;
    assert forall k, t :: EndpointHas(r, k, t) ==> EndpointHas(s, k, t);
    MoreEndpointsKeepChildren(s, r);
  }

  lemma MoreEndpointsKeepChildren(s: State, r: State)
    requires Inv(s) && s.endpoints.Keys <= r.endpoints.Keys
    requires r.bindings == s.bindings && r.validations == s.validations && r.accounts == s.accounts
    ensures BindingsOk(r) && ValidationsOk(r) && AccountsOk(r)
  {
    assert forall k, e, t :: BindingHas(r, k, e, t) == BindingHas(s, k, e, t);
    assert forall k, e, t :: ValidationHas(r, k, e, t) == ValidationHas(s, k, e, t);
    assert forall k, e, d :: Validates(r, k, e, d) == Validates(s, k, e, d);
    forall k | k in r.accounts ensures k.0 in r.endpoints && LinkOk(r, k.0, r.accounts[k]) {
      assert LinkOk(s, k.0, s.accounts[k]);
    }
  }

  lemma DeleteEndpointKeepsInv(s: State, arn: Arn)
    requires Inv(s)
    ensures Inv(DeleteEndpoint(s, arn).state)
  {
    var r := DeleteEndpoint(s, arn).state;
    assert forall k, t :: EndpointHas(r, k, t) ==> EndpointHas(s, k, t);
    assert forall k, e, t :: BindingHas(r, k, e, t) ==> BindingHas(s, k, e, t);
    assert forall k, e, t :: ValidationHas(r, k, e, t) ==> ValidationHas(s, k, e, t);
    assert forall k, e, d :: Validates(r, k, e, d) ==> Validates(s, k, e, d);
    forall k | k in r.accounts ensures LinkOk(r, k.0, r.accounts[k]) {
      assert LinkOk(s, k.0, s.accounts[k]);
    }
  }

  predicate OnBindings(op: Op) {
    op.CreateBindingOp? || op.RevokeBindingOp? || op.DeleteBindingOp? || op.GetCredentialsOp?
  }

  lemma BindingStepKeepsInv(s: State, e: Event)
    requires Inv(s) && FreshArn(s, e.op) && OnBindings(e.op)
    ensures Inv(Step(s, e).state)
  {
    var r := Step(s, e).state;
    assert r.endpoints == s.endpoints && r.validations == s.validations;
    assert forall k, t :: EndpointHas(r, k, t) == EndpointHas(s, k, t);
    assert forall k, e, t :: ValidationHas(r, k, e, t) == ValidationHas(s, k, e, t);
    assert forall k, e, d :: Validates(r, k, e, d) == Validates(s, k, e, d);
    BindingStepKeepsBindings(s, e);
    BindingStepKeepsLinks(s, e);
  }

  lemma BindingStepKeepsBindings(s: State, e: Event)
    requires Inv(s) && FreshArn(s, e.op) && OnBindings(e.op)
    ensures BindingsOk(Step(s, e).state)
  {
    var r := Step(s, e).state;
    forall k, end, t | BindingHas(r, k, end, t) ensures BindingHas(s, k, end, t) || (k !in s.bindings && r != s) {}
  }

  lemma BindingStepKeepsLinks(s: State, e: Event)
    requires Inv(s) && FreshArn(s, e.op) && OnBindings(e.op)
    ensures AccountsOk(Step(s, e).state)
  {
    var r := Step(s, e).state;
    forall k | k in r.accounts ensures k.0 in r.endpoints && LinkOk(r, k.0, r.accounts[k]) {
      assert LinkOk(s, k.0, s.accounts[k]);
    }
  }

  predicate OnValidations(op: Op) {
    op.CreateValidationOp? || op.DescribeValidationOp? || op.UpdateValidationOp? || op.DeleteValidationOp?
  }

  lemma ValidationStepKeepsInv(s: State, e: Event)
    requires Inv(s) && FreshArn(s, e.op) && OnValidations(e.op)
    ensures Inv(Step(s, e).state)
  {
    var r := Step(s, e).state;
    assert r.endpoints == s.endpoints && r.bindings == s.bindings && r.accounts == s.accounts;
    assert forall k, t :: EndpointHas(r, k, t) == EndpointHas(s, k, t);
    assert forall k, e, t :: BindingHas(r, k, e, t) == BindingHas(s, k, e, t);
    ValidationStepKeepsValidations(s, e);
    forall k | k in r.accounts ensures LinkOk(r, k.0, r.accounts[k]) {
      assert LinkOk(s, k.0, s.accounts[k]);
    }
  }

  lemma ValidationStepKeepsValidations(s: State, e: Event)
    requires Inv(s) && FreshArn(s, e.op) && OnValidations(e.op)
    ensures ValidationsOk(Step(s, e).state)
  {
    if e.op.CreateValidationOp? {
      CreateKeepsValidations(s, e);
    } else {
      var r := Step(s, e).state;
      assert forall k, end, t :: ValidationHas(r, k, end, t) ==> ValidationHas(s, k, end, t);
      assert forall k, end, d :: Validates(r, k, end, d) ==> Validates(s, k, end, d);
    }
  }

  lemma CreateKeepsValidations(s: State, e: Event)
    requires Inv(s) && FreshArn(s, e.op) && e.op.CreateValidationOp?
    ensures ValidationsOk(Step(s, e).state)
  {
    var r := Step(s, e).state;
    forall k, end, t | ValidationHas(r, k, end, t) ensures ValidationHas(s, k, end, t) || (k !in s.validations && r != s) {}
    forall k, end, d | Validates(r, k, end, d) ensures Validates(s, k, end, d) || (k !in s.validations && r != s) {}
  }

  lemma RevokeAccountKeepsInv(s: State, endpoint: Arn, url: string)
    requires Inv(s)
    ensures Inv(RevokeAccount(s, endpoint, url).state)
  {
    var r := RevokeAccount(s, endpoint, url).state;
    assert forall k, t :: EndpointHas(r, k, t) == EndpointHas(s, k, t);
    assert forall k, e, t :: BindingHas(r, k, e, t) == BindingHas(s, k, e, t);
    assert forall k, e, t :: ValidationHas(r, k, e, t) == ValidationHas(s, k, e, t);
    assert forall k, e, d :: Validates(r, k, e, d) == Validates(s, k, e, d);
    forall k | k in r.accounts ensures LinkOk(r, k.0, r.accounts[k]) {
      assert LinkOk(s, k.0, s.accounts[k]);
    }
  }

  lemma StepKeepsInv(s: State, e: Event)
    requires Inv(s) && FreshArn(s, e.op)
    ensures Inv(Step(s, e).state)
  {
    if e.op.CreateEndpointOp? {
      CreateEndpointKeepsInv(s, e.op.behaviorOk, e.op.ca, e.op.contact, e.op.token, e.op.newArn, e.now);
    } else if e.op.UpdateEndpointOp? {
      UpdateEndpointKeepsInv(s, e.op.arn, e.op.behavior, e.op.contact, e.op.authority, e.now);
    } else if OnBindings(e.op) {
      BindingStepKeepsInv(s, e);
    } else if OnValidations(e.op) {
      ValidationStepKeepsInv(s, e);
    } else if e.op.DeleteEndpointOp? {
      DeleteEndpointKeepsInv(s, e.op.arn);
    } else {
      RevokeAccountKeepsInv(s, e.op.endpoint, e.op.url);
    }
  }

  // Endpoints, bindings, validations and accounts stay consistent in every run.
  lemma {:induction false} RunKeepsInv(s: State, events: seq<Event>)
    requires Inv(s) && ValidRun(s, events)
    ensures Inv(Run(s, events))
  {
    if events != [] {
      RunKeepsInv(s, events[..|events| - 1]);
      StepKeepsInv(Run(s, events[..|events| - 1]), events[|events| - 1]);
    }
  }
}
