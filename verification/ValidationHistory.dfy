// ACME domain validations told by the events of the run alone
// (crates/fakecloud-acm/src/acme.rs), and what the creates of endpoint children
// answer.

module ValidationHistory {
  import opened Common
  import opened Acme
  import opened AcmeRuns
  import Endpoints = EndpointHistory
  import Bindings = BindingHistory

  // The last event made the validation: a create that was answered with its ARN.
  ghost predicate Born(s: State, events: seq<Event>, arn: Arn) {
    events != [] &&
    var before, e := events[..|events| - 1], events[|events| - 1];
    e.op.CreateValidationOp? && e.op.newArn == arn && Step(Run(s, before), e).reply == Ok(Named(arn))
  }

  // What it was made for.
  datatype Origin = Origin(endpoint: Arn, domain: string, createdAt: int, token: Option<string>)

  function OriginOf(v: Validation): Origin { Origin(v.endpoint, v.domain, v.createdAt, v.token) }

  ghost function OriginBy(s: State, events: seq<Event>, arn: Arn): Option<Origin> {
    if events == [] then (if arn in s.validations then Some(OriginOf(s.validations[arn])) else None)
    else
      var e := events[|events| - 1];
      if Born(s, events, arn) then Some(Origin(e.op.endpoint, e.op.domain, e.now, e.op.token))
      else OriginBy(s, events[..|events| - 1], arn)
  }

  // It was made, and neither it nor its endpoint was deleted since.
  ghost predicate Lives(s: State, events: seq<Event>, arn: Arn) {
    if events == [] then arn in s.validations
    else
      var before, op := events[..|events| - 1], events[|events| - 1].op;
      || Born(s, events, arn)
      || (Lives(s, before, arn) && op != DeleteValidationOp(arn)
          && !(op.DeleteEndpointOp? && OriginBy(s, before, arn).Some? && op.arn == OriginBy(s, before, arn).value.endpoint))
  }

  ghost predicate UpdateTakes(s: State, before: seq<Event>, op: Op, arn: Arn) {
    op.UpdateValidationOp? && op.arn == arn && Lives(s, before, arn) && !op.scope.Unknown?
  }

  // The first describe of a living validation settles it.
  ghost predicate Seen(s: State, events: seq<Event>, arn: Arn) {
    if events == [] then arn in s.validations && s.validations[arn].status == Valid
    else
      var before, op := events[..|events| - 1], events[|events| - 1].op;
      !Born(s, events, arn) && (Seen(s, before, arn) || (op == DescribeValidationOp(arn) && Lives(s, before, arn)))
  }

  // The scope last given.
  ghost function ScopeBy(s: State, events: seq<Event>, arn: Arn): Option<Scope> {
    if events == [] then (if arn in s.validations then s.validations[arn].scope else None)
    else
      var before, op := events[..|events| - 1], events[|events| - 1].op;
      if Born(s, events, arn) then (if op.scope.Given? then Some(op.scope.value) else None)
      else if UpdateTakes(s, before, op, arn) && op.scope.Given? then Some(op.scope.value)
      else ScopeBy(s, before, arn)
  }

  // The hosted zone last given.
  ghost function ZoneBy(s: State, events: seq<Event>, arn: Arn): Option<string> {
    if events == [] then (if arn in s.validations then s.validations[arn].zone else None)
    else
      var before, op := events[..|events| - 1], events[|events| - 1].op;
      if Born(s, events, arn) then op.zone
      else if UpdateTakes(s, before, op, arn) && op.zone.Some? then op.zone
      else ZoneBy(s, before, arn)
  }

  ghost function UpdatedBy(s: State, events: seq<Event>, arn: Arn): int {
    if events == [] then (if arn in s.validations then s.validations[arn].updatedAt else 0)
    else
      var before, e := events[..|events| - 1], events[|events| - 1];
      if || Born(s, events, arn) || UpdateTakes(s, before, e.op, arn)
         || (e.op == DescribeValidationOp(arn) && Lives(s, before, arn) && !Seen(s, before, arn))
      then e.now
      else UpdatedBy(s, before, arn)
  }

  ghost predicate Told(v: Validation, s: State, events: seq<Event>, arn: Arn) {
    && v.arn == arn && OriginBy(s, events, arn) == Some(OriginOf(v))
    && v.status == (if Seen(s, events, arn) then Valid else Validating)
    && v.scope == ScopeBy(s, events, arn) && v.zone == ZoneBy(s, events, arn)
    && v.updatedAt == UpdatedBy(s, events, arn)
  }

  ghost predicate Tells(s: State, events: seq<Event>, arn: Arn) {
    var now := Run(s, events);
    (arn in now.validations <==> Lives(s, events, arn)) && (arn in now.validations ==> Told(now.validations[arn], s, events, arn))
  }

  ghost predicate Ready(s: State, events: seq<Event>, arn: Arn) {
    && events != [] && FreshArn(Run(s, events[..|events| - 1]), events[|events| - 1].op)
    && Inv(Run(s, events[..|events| - 1])) && Tells(s, events[..|events| - 1], arn)
  }

  predicate Elsewhere(op: Op) { !OnValidations(op) && !op.DeleteEndpointOp? }

  lemma ElsewhereState(s: State, e: Event)
    requires Elsewhere(e.op)
    ensures Step(s, e).state.validations == s.validations
  {
  }

  lemma ElsewhereTells(s: State, events: seq<Event>, arn: Arn)
    requires Ready(s, events, arn) && Elsewhere(events[|events| - 1].op)
    ensures Tells(s, events, arn)
  {
    ElsewhereState(Run(s, events[..|events| - 1]), events[|events| - 1]);
  }

  lemma CreateTells(s: State, events: seq<Event>, arn: Arn)
    requires Ready(s, events, arn) && events[|events| - 1].op.CreateValidationOp?
    ensures Tells(s, events, arn)
  {
  }

  lemma DescribeTells(s: State, events: seq<Event>, arn: Arn)
    requires Ready(s, events, arn) && events[|events| - 1].op.DescribeValidationOp?
    ensures Tells(s, events, arn)
  {
  }

  lemma UpdateTells(s: State, events: seq<Event>, arn: Arn)
    requires Ready(s, events, arn) && events[|events| - 1].op.UpdateValidationOp?
    ensures Tells(s, events, arn)
  {
  }

  lemma DeleteTells(s: State, events: seq<Event>, arn: Arn)
    requires Ready(s, events, arn) && (events[|events| - 1].op.DeleteValidationOp? || events[|events| - 1].op.DeleteEndpointOp?)
    ensures Tells(s, events, arn)
  {
  }

  // In every run a validation is there exactly when it was made and neither it
  // nor its endpoint deleted; it is VALID exactly when it was described since it
  // was made; and its other fields are what the last event that writes them wrote.
  lemma {:induction false} RunTells(s: State, events: seq<Event>, arn: Arn)
    requires Inv(s) && ValidRun(s, events)
    ensures Tells(s, events, arn)
  {
    if events != [] {
      RunTells(s, events[..|events| - 1], arn);
      RunKeepsInv(s, events[..|events| - 1]);
      var op := events[|events| - 1].op;
      if Elsewhere(op) {
        ElsewhereTells(s, events, arn);
      } else if op.CreateValidationOp? {
        CreateTells(s, events, arn);
      } else if op.DescribeValidationOp? {
        DescribeTells(s, events, arn);
      } else if op.UpdateValidationOp? {
        UpdateTells(s, events, arn);
      } else {
        DeleteTells(s, events, arn);
      }
    }
  }

  // ---- the answers ----

  // A describe shows a living validation as VALID.
  lemma DescribeAnswers(s: State, events: seq<Event>, arn: Arn, now: int)
    requires Inv(s) && ValidRun(s, events)
    ensures var reply := DescribeValidation(Run(s, events), arn, now).reply;
            if !Lives(s, events, arn) then reply == Err(NotFound)
            else && reply.Ok? && reply.value.Described? && reply.value.v.status == Valid
                 && OriginBy(s, events, arn) == Some(OriginOf(reply.value.v))
                 && reply.value.v.scope == ScopeBy(s, events, arn) && reply.value.v.zone == ZoneBy(s, events, arn)
  {
    RunTells(s, events, arn);
  }

  lemma UpdateAnswers(s: State, events: seq<Event>, e: Event)
    requires Inv(s) && ValidRun(s, events) && e.op.UpdateValidationOp?
    ensures Step(Run(s, events), e).reply ==
            if !Lives(s, events, e.op.arn) then Err(NotFound) else if e.op.scope.Unknown? then Err(Invalid) else Ok(Done)
  {
    RunTells(s, events, e.op.arn);
  }

  ghost predicate MadeWith(s: State, events: seq<Event>, arn: Arn, endpoint: Arn, token: string) {
    && Lives(s, events, arn) && OriginBy(s, events, arn).Some?
    && OriginBy(s, events, arn).value.endpoint == endpoint && OriginBy(s, events, arn).value.token == Some(token)
  }

  ghost predicate MadeFor(s: State, events: seq<Event>, arn: Arn, endpoint: Arn, domain: string) {
    && Lives(s, events, arn) && OriginBy(s, events, arn).Some?
    && OriginBy(s, events, arn).value.endpoint == endpoint && OriginBy(s, events, arn).value.domain == domain
  }

  lemma MadeIsStored(s: State, events: seq<Event>, arn: Arn, endpoint: Arn, token: string, domain: string)
    requires Inv(s) && ValidRun(s, events)
    ensures MadeWith(s, events, arn, endpoint, token) <==> ValidationHas(Run(s, events), arn, endpoint, token)
    ensures MadeFor(s, events, arn, endpoint, domain) <==> Validates(Run(s, events), arn, endpoint, domain)
  {
    RunTells(s, events, arn);
  }

  // A create on a living endpoint is answered with the living validation of its
  // token, if there is one; refused if the domain is under validation; and
  // answered with a new validation otherwise.
  lemma CreateAnswers(s: State, events: seq<Event>, e: Event)
    requires Inv(s) && ValidRun(s, events) && e.op.CreateValidationOp?
    ensures var reply := Step(Run(s, events), e).reply;
            if e.op.scope.Unknown? then reply == Err(Invalid)
            else if !Endpoints.Lives(s, events, e.op.endpoint) then reply == Err(NotFound)
            else if arn :| e.op.token.Some? && MadeWith(s, events, arn, e.op.endpoint, e.op.token.value) then reply == Ok(Named(arn))
            else if arn :| MadeFor(s, events, arn, e.op.endpoint, e.op.domain) then reply == Err(Conflict)
            else reply == Ok(Named(e.op.newArn))
  {
    RunKeepsInv(s, events);
    Endpoints.RunTells(s, events, e.op.endpoint);
    var token := if e.op.token.Some? then e.op.token.value else "";
    forall arn
      ensures MadeWith(s, events, arn, e.op.endpoint, token) <==> ValidationHas(Run(s, events), arn, e.op.endpoint, token)
      ensures MadeFor(s, events, arn, e.op.endpoint, e.op.domain) <==> Validates(Run(s, events), arn, e.op.endpoint, e.op.domain)
    {
      MadeIsStored(s, events, arn, e.op.endpoint, token, e.op.domain);
    }
  }

  ghost predicate BindingMadeWith(s: State, events: seq<Event>, arn: Arn, endpoint: Arn, token: string) {
    && Bindings.Lives(s, events, arn) && Bindings.GivenBy(s, events, arn).Some?
    && Bindings.GivenBy(s, events, arn).value.endpoint == endpoint
    && Bindings.GivenBy(s, events, arn).value.token == Some(token)
  }

  // The same for bindings.
  lemma CreateBindingAnswers(s: State, events: seq<Event>, e: Event)
    requires Inv(s) && ValidRun(s, events) && e.op.CreateBindingOp?
    ensures var reply := Step(Run(s, events), e).reply;
            if !Endpoints.Lives(s, events, e.op.endpoint) then reply == Err(NotFound)
            else if arn :| e.op.token.Some? && BindingMadeWith(s, events, arn, e.op.endpoint, e.op.token.value)
            then reply == Ok(Named(arn))
            else reply == Ok(Named(e.op.newArn))
  {
    RunKeepsInv(s, events);
    Endpoints.RunTells(s, events, e.op.endpoint);
    if e.op.token.Some? {
      forall arn
        ensures BindingMadeWith(s, events, arn, e.op.endpoint, e.op.token.value)
                <==> BindingHas(Run(s, events), arn, e.op.endpoint, e.op.token.value)
      {
        Bindings.RunTells(s, events, arn);
      }
    }
  }
}
