// What the ACME handlers promise across a whole run: refused calls change
// nothing, credentials once withdrawn stay withdrawn, and a repeated create
// answers with the resource the first one made.

module AcmeHistory {
  import opened Common
  import opened Acme
  import opened AcmeRuns

  lemma RefusedChangesNothing(s: State, e: Event)
    ensures Step(s, e).reply.Err? ==> Step(s, e).state == s
  {
  }

  // ---- credentials ----

  predicate CreatesBinding(op: Op, arn: Arn) { op.CreateBindingOp? && op.newArn == arn }

  // A binding that is there later was there before, with the same secret and
  // expiry, and a revocation is never taken back.
  predicate SameBinding(before: State, after: State, arn: Arn) {
    arn in after.bindings ==>
      arn in before.bindings &&
      (var b, a := before.bindings[arn], after.bindings[arn];
       && a.endpoint == b.endpoint && a.role == b.role && a.keyId == b.keyId && a.macKey == b.macKey
       && a.expiresAt == b.expiresAt && a.token == b.token
       && (b.revokedAt.Some? ==> a.revokedAt == b.revokedAt))
  }

  lemma StepKeepsBinding(s: State, e: Event, arn: Arn)
    requires !CreatesBinding(e.op, arn)
    ensures SameBinding(s, Step(s, e).state, arn)
  {
    if OnBindings(e.op) {
      BindingStepKeepsBinding(s, e, arn);
    } else if e.op.DeleteEndpointOp? {
      assert arn in Step(s, e).state.bindings ==> arn in s.bindings && Step(s, e).state.bindings[arn] == s.bindings[arn];
    } else {
      OthersLeaveBindings(s, e);
    }
  }

  lemma BindingStepKeepsBinding(s: State, e: Event, arn: Arn)
    requires OnBindings(e.op) && !CreatesBinding(e.op, arn)
    ensures SameBinding(s, Step(s, e).state, arn)
  {
    match e.op
    case CreateBindingOp(_, _, _, _, newArn, _, _) =>
      var r := Step(s, e).state;
      assert arn in r.bindings ==> arn in s.bindings && r.bindings[arn] == s.bindings[arn];
    case RevokeBindingOp(_) =>
    case DeleteBindingOp(_) =>
    case GetCredentialsOp(_) =>
  }

  lemma OthersLeaveBindings(s: State, e: Event)
    requires !OnBindings(e.op) && !e.op.DeleteEndpointOp?
    ensures Step(s, e).state.bindings == s.bindings
  {
  }

  lemma {:induction false} RunKeepsBinding(s: State, events: seq<Event>, arn: Arn)
    requires forall e :: e in events ==> !CreatesBinding(e.op, arn)
    ensures SameBinding(s, Run(s, events), arn)
  {
    if events != [] {
      RunKeepsBinding(s, events[..|events| - 1], arn);
      StepKeepsBinding(Run(s, events[..|events| - 1]), events[|events| - 1], arn);
    }
  }

  // Once a binding is revoked, expired or gone, no later fetch of its
  // credentials succeeds, whatever happens in between.
  lemma WithdrawnCredentialsStayWithdrawn(s: State, events: seq<Event>, arn: Arn, since: int, now: int)
    requires arn in s.bindings ==> !Usable(s.bindings[arn], since)
    requires since <= now && forall e :: e in events ==> !CreatesBinding(e.op, arn)
    ensures GetCredentials(Run(s, events), arn, now).reply.Err?
    ensures GetCredentials(Run(s, events), arn, now).state == Run(s, events)
  {
    RunKeepsBinding(s, events, arn);
  }

  // ---- repeated creates ----

  lemma {:induction false} EndpointSurvives(s: State, events: seq<Event>, arn: Arn)
    requires arn in s.endpoints && ValidRun(s, events) && forall e :: e in events ==> e.op != DeleteEndpointOp(arn)
    ensures arn in Run(s, events).endpoints && Run(s, events).endpoints[arn].token == s.endpoints[arn].token
  {
    if events != [] {
      EndpointSurvives(s, events[..|events| - 1], arn);
      EndpointSurvivesStep(Run(s, events[..|events| - 1]), events[|events| - 1], arn);
    }
  }

  lemma EndpointSurvivesStep(s: State, e: Event, arn: Arn)
    requires arn in s.endpoints && FreshArn(s, e.op) && e.op != DeleteEndpointOp(arn)
    ensures var r := Step(s, e).state; arn in r.endpoints && r.endpoints[arn].token == s.endpoints[arn].token
  {
  }

  // While an endpoint lives, a create with its token answers with it and makes
  // nothing.
  lemma EndpointCreateRepeats(s: State, events: seq<Event>, arn: Arn, e: Event)
    requires Inv(s) && ValidRun(s, events) && forall d :: d in events ==> d.op != DeleteEndpointOp(arn)
    requires arn in s.endpoints && s.endpoints[arn].token.Some?
    requires e.op.CreateEndpointOp? && e.op.token == s.endpoints[arn].token
    requires e.op.behaviorOk && e.op.ca.Some? && !e.op.contact.Unknown?
    ensures Step(Run(s, events), e) == Outcome(Run(s, events), Ok(Named(arn)))
  {
    RunKeepsInv(s, events);
    EndpointSurvives(s, events, arn);
    assert EndpointHas(Run(s, events), arn, e.op.token.value);
  }

  predicate EndsBinding(op: Op, arn: Arn, endpoint: Arn) {
    op == DeleteBindingOp(arn) || op == DeleteEndpointOp(endpoint)
  }

  lemma BindingSurvivesStep(s: State, e: Event, arn: Arn)
    requires arn in s.bindings && FreshArn(s, e.op) && !EndsBinding(e.op, arn, s.bindings[arn].endpoint)
    ensures arn in Step(s, e).state.bindings
    ensures !CreatesBinding(e.op, arn)
  {
  }

  lemma {:induction false} BindingSurvives(s: State, events: seq<Event>, arn: Arn)
    requires arn in s.bindings && ValidRun(s, events)
    requires forall e :: e in events ==> !EndsBinding(e.op, arn, s.bindings[arn].endpoint)
    ensures arn in Run(s, events).bindings && SameBinding(s, Run(s, events), arn)
  {
    if events != [] {
      var before, last := Run(s, events[..|events| - 1]), events[|events| - 1];
      BindingSurvives(s, events[..|events| - 1], arn);
      BindingSurvivesStep(before, last, arn);
      StepKeepsBinding(before, last, arn);
    }
  }

  // The same for bindings, per endpoint: until the binding or its endpoint is
  // deleted.
  lemma BindingCreateRepeats(s: State, events: seq<Event>, arn: Arn, e: Event)
    requires Inv(s) && ValidRun(s, events) && arn in s.bindings && s.bindings[arn].token.Some?
    requires forall d :: d in events ==> !EndsBinding(d.op, arn, s.bindings[arn].endpoint)
    requires e.op.CreateBindingOp? && e.op.token == s.bindings[arn].token && e.op.endpoint == s.bindings[arn].endpoint
    ensures Step(Run(s, events), e) == Outcome(Run(s, events), Ok(Named(arn)))
  {
    RunKeepsInv(s, events);
    BindingSurvives(s, events, arn);
    assert BindingHas(Run(s, events), arn, e.op.endpoint, e.op.token.value);
  }

  // ---- domain validations ----

  predicate SameValidation(before: State, after: State, arn: Arn) {
    arn in before.validations && arn in after.validations ==>
      var b, a := before.validations[arn], after.validations[arn];
      && a.endpoint == b.endpoint && a.domain == b.domain && a.token == b.token
      && (b.status == Valid ==> a.status == Valid)
  }

  predicate EndsValidation(op: Op, arn: Arn, endpoint: Arn) {
    op == DeleteValidationOp(arn) || op == DeleteEndpointOp(endpoint)
  }

  lemma ValidationSurvivesStep(s: State, e: Event, arn: Arn)
    requires arn in s.validations && FreshArn(s, e.op) && !EndsValidation(e.op, arn, s.validations[arn].endpoint)
    ensures arn in Step(s, e).state.validations && SameValidation(s, Step(s, e).state, arn)
  {
  }

  lemma {:induction false} ValidationSurvives(s: State, events: seq<Event>, arn: Arn)
    requires arn in s.validations && ValidRun(s, events)
    requires forall e :: e in events ==> !EndsValidation(e.op, arn, s.validations[arn].endpoint)
    ensures arn in Run(s, events).validations && SameValidation(s, Run(s, events), arn)
  {
    if events != [] {
      ValidationSurvives(s, events[..|events| - 1], arn);
      ValidationSurvivesStep(Run(s, events[..|events| - 1]), events[|events| - 1], arn);
    }
  }

  // While a domain is under validation on an endpoint, a second create for it
  // either repeats the first (same token) or is refused as a conflict, or
  // repeats another create of that endpoint; it never adds a record.
  lemma OneValidationPerDomain(s: State, events: seq<Event>, arn: Arn, e: Event)
    requires Inv(s) && ValidRun(s, events) && arn in s.validations
    requires forall d :: d in events ==> !EndsValidation(d.op, arn, s.validations[arn].endpoint)
    requires e.op.CreateValidationOp? && e.op.endpoint == s.validations[arn].endpoint
    requires e.op.domain == s.validations[arn].domain && !e.op.scope.Unknown?
    ensures Step(Run(s, events), e).state == Run(s, events)
    ensures e.op.token.Some? && e.op.token == s.validations[arn].token ==> Step(Run(s, events), e).reply == Ok(Named(arn))
    ensures e.op.token.None? ==> Step(Run(s, events), e).reply == Err(Conflict)
  {
    var r := Run(s, events);
    RunKeepsInv(s, events);
    ValidationSurvives(s, events, arn);
    assert Validates(r, arn, e.op.endpoint, e.op.domain);
    if e.op.token.Some? && e.op.token == s.validations[arn].token {
      assert ValidationHas(r, arn, e.op.endpoint, e.op.token.value);
    }
  }
}
