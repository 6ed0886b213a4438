// ACME endpoints and registered accounts told by the events of the run alone
// (crates/fakecloud-acm/src/acme.rs).

module EndpointHistory {
  import opened Common
  import opened Acme
  import opened AcmeRuns

  // ---- endpoints ----

  // The last event made the endpoint: a create that was answered with its ARN.
  ghost predicate Born(s: State, events: seq<Event>, arn: Arn) {
    events != [] &&
    var before, e := events[..|events| - 1], events[|events| - 1];
    e.op.CreateEndpointOp? && e.op.newArn == arn && Step(Run(s, before), e).reply == Ok(Named(arn))
  }

  ghost predicate Lives(s: State, events: seq<Event>, arn: Arn) {
    if events == [] then arn in s.endpoints
    else Born(s, events, arn) || (Lives(s, events[..|events| - 1], arn) && events[|events| - 1].op != DeleteEndpointOp(arn))
  }

  // An update of a living endpoint all of whose arguments are known.
  ghost predicate UpdateTakes(s: State, before: seq<Event>, op: Op, arn: Arn) {
    && op.UpdateEndpointOp? && op.arn == arn && Lives(s, before, arn)
    && !op.behavior.Unknown? && !op.contact.Unknown? && !op.authority.Unknown?
  }

  // Its token and moment of creation.
  ghost function OriginBy(s: State, events: seq<Event>, arn: Arn): Option<(Option<string>, int)> {
    if events == [] then (if arn in s.endpoints then Some((s.endpoints[arn].token, s.endpoints[arn].createdAt)) else None)
    else if Born(s, events, arn) then Some((events[|events| - 1].op.token, events[|events| - 1].now))
    else OriginBy(s, events[..|events| - 1], arn)
  }

  // The contact rule last given; REQUIRED when the create call gave none.
  ghost function ContactBy(s: State, events: seq<Event>, arn: Arn): Option<Contact> {
    if events == [] then (if arn in s.endpoints then Some(s.endpoints[arn].contact) else None)
    else
      var before, op := events[..|events| - 1], events[|events| - 1].op;
      if Born(s, events, arn) then Some(if op.contact.Given? then op.contact.value else Required)
      else if UpdateTakes(s, before, op, arn) && op.contact.Given? then Some(op.contact.value)
      else ContactBy(s, before, arn)
  }

  // The certificate authority last given.
  ghost function AuthorityBy(s: State, events: seq<Event>, arn: Arn): Option<string> {
    if events == [] then (if arn in s.endpoints then Some(s.endpoints[arn].authority) else None)
    else
      var before, op := events[..|events| - 1], events[|events| - 1].op;
      if Born(s, events, arn) then op.ca
      else if UpdateTakes(s, before, op, arn) && op.authority.Given? then Some(op.authority.value)
      else AuthorityBy(s, before, arn)
  }

  ghost function UpdatedBy(s: State, events: seq<Event>, arn: Arn): int {
    if events == [] then (if arn in s.endpoints then s.endpoints[arn].updatedAt else 0)
    else
      var before, e := events[..|events| - 1], events[|events| - 1];
      if Born(s, events, arn) || UpdateTakes(s, before, e.op, arn) then e.now else UpdatedBy(s, before, arn)
  }

  ghost predicate Told(x: Endpoint, s: State, events: seq<Event>, arn: Arn) {
    && x.arn == arn && OriginBy(s, events, arn) == Some((x.token, x.createdAt))
    && ContactBy(s, events, arn) == Some(x.contact) && AuthorityBy(s, events, arn) == Some(x.authority)
    && x.updatedAt == UpdatedBy(s, events, arn)
  }

  ghost predicate Tells(s: State, events: seq<Event>, arn: Arn) {
    var now := Run(s, events);
    (arn in now.endpoints <==> Lives(s, events, arn)) && (arn in now.endpoints ==> Told(now.endpoints[arn], s, events, arn))
  }

  ghost predicate Ready(s: State, events: seq<Event>, arn: Arn) {
    && events != [] && FreshArn(Run(s, events[..|events| - 1]), events[|events| - 1].op)
    && Inv(Run(s, events[..|events| - 1])) && Tells(s, events[..|events| - 1], arn)
  }

  predicate OnEndpoints(op: Op) { op.CreateEndpointOp? || op.UpdateEndpointOp? || op.DeleteEndpointOp? }

  lemma ElsewhereState(s: State, e: Event)
    requires !OnEndpoints(e.op)
    ensures Step(s, e).state.endpoints == s.endpoints
  {
  }

  lemma ElsewhereTells(s: State, events: seq<Event>, arn: Arn)
    requires Ready(s, events, arn) && !OnEndpoints(events[|events| - 1].op)
    ensures Tells(s, events, arn)
  {
    ElsewhereState(Run(s, events[..|events| - 1]), events[|events| - 1]);
  }

  lemma CreateTells(s: State, events: seq<Event>, arn: Arn)
    requires Ready(s, events, arn) && events[|events| - 1].op.CreateEndpointOp?
    ensures Tells(s, events, arn)
  {
  }

  lemma UpdateTells(s: State, events: seq<Event>, arn: Arn)
    requires Ready(s, events, arn) && events[|events| - 1].op.UpdateEndpointOp?
    ensures Tells(s, events, arn)
  {
  }

  lemma DeleteTells(s: State, events: seq<Event>, arn: Arn)
    requires Ready(s, events, arn) && events[|events| - 1].op.DeleteEndpointOp?
    ensures Tells(s, events, arn)
  {
  }

  // In every run an endpoint is there exactly when it was made and not deleted,
  // and each of its fields is what the last event that writes it wrote.
  lemma {:induction false} RunTells(s: State, events: seq<Event>, arn: Arn)
    requires Inv(s) && ValidRun(s, events)
    ensures Tells(s, events, arn)
  {
    if events != [] {
      RunTells(s, events[..|events| - 1], arn);
      RunKeepsInv(s, events[..|events| - 1]);
      var op := events[|events| - 1].op;
      if op.CreateEndpointOp? {
        CreateTells(s, events, arn);
      } else if op.UpdateEndpointOp? {
        UpdateTells(s, events, arn);
      } else if op.DeleteEndpointOp? {
        DeleteTells(s, events, arn);
      } else {
        ElsewhereTells(s, events, arn);
      }
    }
  }

  // A living endpoint was made with this token.
  ghost predicate MadeWith(s: State, events: seq<Event>, arn: Arn, token: string) {
    Lives(s, events, arn) && OriginBy(s, events, arn).Some? && OriginBy(s, events, arn).value.0 == Some(token)
  }

  // A create with known arguments is answered with the living endpoint of its
  // token, if there is one, and otherwise with a new one.
  lemma CreateAnswers(s: State, events: seq<Event>, e: Event)
    requires Inv(s) && ValidRun(s, events) && e.op.CreateEndpointOp?
    ensures var reply := Step(Run(s, events), e).reply;
            if !e.op.behaviorOk || e.op.ca.None? || e.op.contact.Unknown? then reply == Err(Invalid)
            else if arn :| e.op.token.Some? && MadeWith(s, events, arn, e.op.token.value) then reply == Ok(Named(arn))
            else reply == Ok(Named(e.op.newArn))
  {
    var now := Run(s, events);
    RunKeepsInv(s, events);
    if e.op.token.Some? {
      forall arn ensures MadeWith(s, events, arn, e.op.token.value) <==> EndpointHas(now, arn, e.op.token.value) {
        RunTells(s, events, arn);
      }
    }
  }

  // An update is answered by whether the endpoint lives and its arguments are known.
  lemma UpdateAnswers(s: State, events: seq<Event>, e: Event)
    requires Inv(s) && ValidRun(s, events) && e.op.UpdateEndpointOp?
    ensures Step(Run(s, events), e).reply ==
            if !Lives(s, events, e.op.arn) then Err(NotFound)
            else if UpdateTakes(s, events, e.op, e.op.arn) then Ok(Done)
            else Err(Invalid)
  {
    RunTells(s, events, e.op.arn);
  }

  // ---- accounts ----

  // An account that was there at the start stays until its endpoint is deleted.
  ghost predicate AccountLives(s: State, events: seq<Event>, k: (Arn, string)) {
    if events == [] then k in s.accounts
    else AccountLives(s, events[..|events| - 1], k) && events[|events| - 1].op != DeleteEndpointOp(k.0)
  }

  // It was revoked, at the start or by a call.
  ghost predicate AccountRevoked(s: State, events: seq<Event>, k: (Arn, string)) {
    if events == [] then k in s.accounts && s.accounts[k].revoked
    else AccountRevoked(s, events[..|events| - 1], k)
         || (events[|events| - 1].op == RevokeAccountOp(k.0, k.1) && AccountLives(s, events[..|events| - 1], k))
  }

  // Its binding, unless that was deleted.
  ghost function LinkBy(s: State, events: seq<Event>, k: (Arn, string)): Option<Arn> {
    if events == [] then (if k in s.accounts then s.accounts[k].binding else None)
    else
      var before := LinkBy(s, events[..|events| - 1], k);
      if before.Some? && events[|events| - 1].op == DeleteBindingOp(before.value) then None else before
  }

  ghost predicate AccountTells(s: State, events: seq<Event>, k: (Arn, string)) {
    var now := Run(s, events);
    && (k in now.accounts <==> AccountLives(s, events, k))
    && (k in now.accounts ==> now.accounts[k] == Account(LinkBy(s, events, k), AccountRevoked(s, events, k)))
  }

  lemma AccountStepTells(s: State, events: seq<Event>, k: (Arn, string))
    requires events != [] && Inv(Run(s, events[..|events| - 1])) && AccountTells(s, events[..|events| - 1], k)
    ensures AccountTells(s, events, k)
  {
    var was, e := Run(s, events[..|events| - 1]), events[|events| - 1];
    match e.op
    case DeleteEndpointOp(arn) =>
    case DeleteBindingOp(arn) =>
    case RevokeAccountOp(endpoint, url) =>
    case _ => OthersLeaveAccounts(was, e);
  }

  lemma OthersLeaveAccounts(s: State, e: Event)
    requires !e.op.DeleteEndpointOp? && !e.op.DeleteBindingOp? && !e.op.RevokeAccountOp?
    ensures Step(s, e).state.accounts == s.accounts
  {
  }

  // In every run an account is there until its endpoint is deleted, is linked to
  // its binding until that is deleted, and is revoked by exactly the calls that
  // name it.
  lemma {:induction false} AccountsTell(s: State, events: seq<Event>, k: (Arn, string))
    requires Inv(s) && ValidRun(s, events)
    ensures AccountTells(s, events, k)
  {
    if events != [] {
      AccountsTell(s, events[..|events| - 1], k);
      RunKeepsInv(s, events[..|events| - 1]);
      AccountStepTells(s, events, k);
    }
  }

  lemma RevokeAccountAnswers(s: State, events: seq<Event>, endpoint: Arn, url: string)
    requires Inv(s) && ValidRun(s, events)
    ensures RevokeAccount(Run(s, events), endpoint, url).reply ==
            if !AccountLives(s, events, (endpoint, url)) then Err(NotFound)
            else if AccountRevoked(s, events, (endpoint, url)) then Err(Conflict)
            else Ok(Done)
  {
    RunKeepsInv(s, events);
    AccountsTell(s, events, (endpoint, url));
  }
}
