// External account bindings told by the events of the run alone
// (crates/fakecloud-acm/src/acme.rs): when a binding is there, what it holds, and
// when its credentials are handed out (section 7.3.4 of RFC 8555).

module BindingHistory {
  import opened Common
  import opened Acme
  import opened AcmeRuns

  // ---- reading a run from state s ----

  // The last event made the binding: a create that was answered with its ARN.
  ghost predicate Born(s: State, events: seq<Event>, arn: Arn) {
    events != [] &&
    var before, e := events[..|events| - 1], events[|events| - 1];
    e.op.CreateBindingOp? && e.op.newArn == arn && Step(Run(s, before), e).reply == Ok(Named(arn))
  }

  // What the create call gave it (or what it held at the start).
  datatype Grant = Grant(
    endpoint: Arn, role: string, keyId: string, macKey: string, expiresAt: Option<int>, createdAt: int, token: Option<string>)

  function GrantOf(b: Binding): Grant { Grant(b.endpoint, b.role, b.keyId, b.macKey, b.expiresAt, b.createdAt, b.token) }

  ghost function GivenBy(s: State, events: seq<Event>, arn: Arn): Option<Grant> {
    if events == [] then (if arn in s.bindings then Some(GrantOf(s.bindings[arn])) else None)
    else
      var e := events[|events| - 1];
      if Born(s, events, arn)
      then Some(Grant(e.op.endpoint, e.op.role, e.op.keyId, e.op.macKey, e.op.expiresAt, e.now, e.op.token))
      else GivenBy(s, events[..|events| - 1], arn)
  }

  // It was made, and neither it nor its endpoint was deleted since.
  ghost predicate Lives(s: State, events: seq<Event>, arn: Arn) {
    if events == [] then arn in s.bindings
    else
      var before, op := events[..|events| - 1], events[|events| - 1].op;
      || Born(s, events, arn)
      || (Lives(s, before, arn) && op != DeleteBindingOp(arn)
          && !(op.DeleteEndpointOp? && GivenBy(s, before, arn).Some? && op.arn == GivenBy(s, before, arn).value.endpoint))
  }

  // The moment of its first revocation since it was made.
  ghost function RevokedBy(s: State, events: seq<Event>, arn: Arn): Option<int> {
    if events == [] then (if arn in s.bindings then s.bindings[arn].revokedAt else None)
    else
      var before, e := events[..|events| - 1], events[|events| - 1];
      if Born(s, events, arn) then None
      else if e.op == RevokeBindingOp(arn) && Lives(s, before, arn) && RevokedBy(s, before, arn).None? then Some(e.now)
      else RevokedBy(s, before, arn)
  }

  ghost predicate ExpiredBy(s: State, events: seq<Event>, arn: Arn, now: int) {
    var given := GivenBy(s, events, arn);
    given.Some? && given.value.expiresAt.Some? && given.value.expiresAt.value <= now
  }

  // A fetch of its credentials would succeed.
  ghost predicate Open(s: State, events: seq<Event>, arn: Arn, now: int) {
    && Lives(s, events, arn) && GivenBy(s, events, arn).Some?
    && RevokedBy(s, events, arn).None? && !ExpiredBy(s, events, arn, now)
  }

  // The moment of the last fetch of its credentials that succeeded.
  ghost function UsedBy(s: State, events: seq<Event>, arn: Arn): Option<int> {
    if events == [] then (if arn in s.bindings then s.bindings[arn].lastUsedAt else None)
    else
      var before, e := events[..|events| - 1], events[|events| - 1];
      if Born(s, events, arn) then None
      else if e.op == GetCredentialsOp(arn) && Open(s, before, arn, e.now) then Some(e.now)
      else UsedBy(s, before, arn)
  }

  // The moment it was made or revoked.
  ghost function UpdatedBy(s: State, events: seq<Event>, arn: Arn): int {
    if events == [] then (if arn in s.bindings then s.bindings[arn].updatedAt else 0)
    else
      var before, e := events[..|events| - 1], events[|events| - 1];
      if || Born(s, events, arn)
         || (e.op == RevokeBindingOp(arn) && Lives(s, before, arn) && RevokedBy(s, before, arn).None?)
      then e.now
      else UpdatedBy(s, before, arn)
  }

  // ---- the binding tells its history ----

  ghost predicate Told(b: Binding, s: State, events: seq<Event>, arn: Arn) {
    && b.arn == arn && GivenBy(s, events, arn) == Some(GrantOf(b))
    && b.revokedAt == RevokedBy(s, events, arn)
    && b.lastUsedAt == UsedBy(s, events, arn)
    && b.updatedAt == UpdatedBy(s, events, arn)
  }

  ghost predicate Tells(s: State, events: seq<Event>, arn: Arn) {
    var now := Run(s, events);
    (arn in now.bindings <==> Lives(s, events, arn)) && (arn in now.bindings ==> Told(now.bindings[arn], s, events, arn))
  }

  ghost predicate Ready(s: State, events: seq<Event>, arn: Arn) {
    && events != [] && FreshArn(Run(s, events[..|events| - 1]), events[|events| - 1].op)
    && Inv(Run(s, events[..|events| - 1])) && Tells(s, events[..|events| - 1], arn)
  }

  // Calls on endpoints, validations and accounts leave the bindings alone, but
  // for the deletion of an endpoint.
  predicate Elsewhere(op: Op) { !OnBindings(op) && !op.DeleteEndpointOp? }

  lemma ElsewhereTells(s: State, events: seq<Event>, arn: Arn)
    requires Ready(s, events, arn) && Elsewhere(events[|events| - 1].op)
    ensures Tells(s, events, arn)
  {
    ElsewhereState(Run(s, events[..|events| - 1]), events[|events| - 1]);
  }

  lemma ElsewhereState(s: State, e: Event)
    requires Elsewhere(e.op)
    ensures Step(s, e).state.bindings == s.bindings
  {
  }

  lemma CreateTells(s: State, events: seq<Event>, arn: Arn)
    requires Ready(s, events, arn) && events[|events| - 1].op.CreateBindingOp?
    ensures Tells(s, events, arn)
  {
  }

  lemma RevokeTells(s: State, events: seq<Event>, arn: Arn)
    requires Ready(s, events, arn) && events[|events| - 1].op.RevokeBindingOp?
    ensures Tells(s, events, arn)
  {
  }

  lemma DeleteTells(s: State, events: seq<Event>, arn: Arn)
    requires Ready(s, events, arn) && (events[|events| - 1].op.DeleteBindingOp? || events[|events| - 1].op.DeleteEndpointOp?)
    ensures Tells(s, events, arn)
  {
  }

  lemma FetchTells(s: State, events: seq<Event>, arn: Arn)
    requires Ready(s, events, arn) && events[|events| - 1].op.GetCredentialsOp?
    ensures Tells(s, events, arn)
  {
  }

  // In every run a binding is there exactly when it was made and neither it nor
  // its endpoint deleted, and each of its fields is what the events say.
  lemma {:induction false} RunTells(s: State, events: seq<Event>, arn: Arn)
    requires Inv(s) && ValidRun(s, events)
    ensures Tells(s, events, arn)
  {
    if events != [] {
      RunTells(s, events[..|events| - 1], arn);
      RunKeepsInv(s, events[..|events| - 1]);
      var op := events[|events| - 1].op;
      if Elsewhere(op) {
        ElsewhereTells(s, events, arn);
      } else if op.CreateBindingOp? {
        CreateTells(s, events, arn);
      } else if op.RevokeBindingOp? {
        RevokeTells(s, events, arn);
      } else if op.GetCredentialsOp? {
        FetchTells(s, events, arn);
      } else {
        DeleteTells(s, events, arn);
      }
    }
  }

  // ---- the answers ----

  // Credentials are handed out exactly when the binding was made, neither it nor
  // its endpoint was deleted, no revocation of it was made since, and it has not
  // expired; and they are those its create call was given.
  lemma CredentialsExactly(s: State, events: seq<Event>, arn: Arn, now: int)
    requires Inv(s) && ValidRun(s, events)
    ensures GetCredentials(Run(s, events), arn, now).reply ==
            if !Lives(s, events, arn) then Err(NotFound)
            else if !Open(s, events, arn, now) then Err(Conflict)
            else Ok(Credentials(GivenBy(s, events, arn).value.keyId, GivenBy(s, events, arn).value.macKey))
  {
    RunTells(s, events, arn);
  }

  // A revocation succeeds exactly once in a binding's life.
  lemma RevocationAnswers(s: State, events: seq<Event>, arn: Arn, now: int)
    requires Inv(s) && ValidRun(s, events)
    ensures RevokeBinding(Run(s, events), arn, now).reply ==
            if !Lives(s, events, arn) then Err(NotFound)
            else if RevokedBy(s, events, arn).Some? then Err(Conflict)
            else Ok(Done)
  {
    RunTells(s, events, arn);
  }

  ghost predicate RevokedAt(s: State, events: seq<Event>, i: nat, arn: Arn) {
    && i < |events| && events[i].op == RevokeBindingOp(arn)
    && Step(Run(s, events[..i]), events[i]).reply.Ok?
  }

  predicate Creates(op: Op, arn: Arn) { op.CreateBindingOp? && op.newArn == arn }

  lemma {:induction false} StaysRevoked(s: State, events: seq<Event>, i: nat, arn: Arn)
    requires Inv(s) && ValidRun(s, events) && RevokedAt(s, events, i, arn)
    requires forall j :: i < j < |events| ==> !Creates(events[j].op, arn)
    ensures RevokedBy(s, events, arn).Some?
  {
    var n := |events| - 1;
    if i == n {
      RunTells(s, events[..n], arn);
    } else {
      assert events[..n][..i] == events[..i];
      StaysRevoked(s, events[..n], i, arn);
    }
  }

  // After a successful RevokeBinding no later fetch of the credentials succeeds.
  lemma RevocationWithdraws(s: State, events: seq<Event>, i: nat, arn: Arn, now: int)
    requires Inv(s) && ValidRun(s, events) && RevokedAt(s, events, i, arn)
    requires forall j :: i < j < |events| ==> !Creates(events[j].op, arn)
    ensures GetCredentials(Run(s, events), arn, now) == Outcome(Run(s, events), Err(if Lives(s, events, arn) then Conflict else NotFound))
  {
    StaysRevoked(s, events, i, arn);
    RunTells(s, events, arn);
  }
}
