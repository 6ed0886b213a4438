// ACM certificates of one account and region
// (crates/fakecloud-acm/src/service.rs): request, import and re-import, the
// racing auto-issue ticks, the admin status switch, renewal, revocation and
// deletion.

module AcmCertificates {
  import opened Common
  import opened Text
  import opened Validity
  import opened Domains

  datatype CertType = AmazonIssued | Imported

  // The admin endpoint may write any status string; those no branch names are
  // `OtherStatus`.
  datatype CertStatus = PendingValidation | Issued | Failed | ValidationTimedOut | Revoked | OtherStatus(name: string)

  datatype RenewalStatus = PendingAutoRenewal | RenewalSuccess
  datatype RenewalSummary = RenewalSummary(status: RenewalStatus, validations: seq<DomainValidation>, updatedAt: Time)

  datatype Certificate = Certificate(
    arn: string, domain: string, sans: seq<string>, certType: CertType, token: Option<string>,
    createdAt: Time, validationMethod: Option<Method>, inUseBy: seq<string>, keyAlgorithm: string,
    status: CertStatus, issuedAt: Option<Time>, importedAt: Option<Time>,
    revokedAt: Option<Time>, revocationReason: Option<string>, failureReason: Option<string>,
    notBefore: Time, notAfter: Time,
    validations: seq<DomainValidation>, eligible: bool, summary: Option<RenewalSummary>)

  const LIFETIME: int := 395 * DAY

  function Marked(vs: seq<DomainValidation>, status: ValidationStatus): (r: seq<DomainValidation>)
    ensures |r| == |vs|
    ensures forall i :: 0 <= i < |vs| ==> r[i] == vs[i].(status := status)
  {
    seq(|vs|, i requires 0 <= i < |vs| => vs[i].(status := status))
  }

  // ---- transitions of one certificate ----

  // The critical section of the auto-issue tick.
  function Tick(c: Certificate, now: Time): Certificate {
    if c.status.PendingValidation? && c.certType.AmazonIssued? then
      var vs := Marked(c.validations, Success);
      c.(status := Issued, issuedAt := Some(now), eligible := true, validations := vs,
         summary := Some(RenewalSummary(PendingAutoRenewal, vs, now)))
    else c
  }

  // The admin switch `set_certificate_status` on the certificate it found.
  function SetStatus(c: Certificate, status: CertStatus, reason: Option<string>, now: Time): Certificate {
    if status.Issued? then
      var vs := Marked(c.validations, Success);
      var issued := c.(status := Issued, issuedAt := Some(now), validations := vs, failureReason := None);
      if c.certType.AmazonIssued?
      then issued.(eligible := true, summary := Some(RenewalSummary(PendingAutoRenewal, vs, now)))
      else issued
    else
      var vs := if status.Failed? then Marked(c.validations, ValidationFailed)
                else if status.ValidationTimedOut? then Marked(c.validations, TimedOut)
                else c.validations;
      c.(status := status, validations := vs, failureReason := if reason.Some? then reason else c.failureReason)
  }

  function Renewed(c: Certificate, now: Time): Certificate {
    var vs := Marked(c.validations, Success);
    c.(notBefore := now, notAfter := now + LIFETIME, issuedAt := Some(now), status := Issued, eligible := true,
       failureReason := None, validations := vs, summary := Some(RenewalSummary(RenewalSuccess, vs, now)))
  }

  function Renew(c: Certificate, now: Time): Reply<Certificate> {
    if c.certType.Imported? then Err(InvalidParameter) else Ok(Renewed(c, now))
  }

  function Revoke(c: Certificate, reason: string, now: Time): Reply<Certificate> {
    if !c.certType.AmazonIssued? then Err(InvalidParameter)
    else Ok(c.(status := Revoked, revokedAt := Some(now), revocationReason := Some(reason)))
  }

  function Reimport(c: Certificate, commonName: string, now: Time): Reply<Certificate> {
    if !c.certType.Imported? then Err(InvalidParameter)
    else Ok(c.(importedAt := Some(now), notBefore := now, notAfter := now + LIFETIME, domain := commonName, sans := [commonName]))
  }

  // ---- new certificates ----

  // A request whose validation options were accepted.
  datatype Request = Request(
    domain: string, extras: seq<string>, method_: Method, options: seq<ValidationOption>, token: Option<string>,
    keyAlgorithm: string)

  predicate RequestOk(r: Request) {
    1 <= |r.domain| <= 253 && forall o :: o in r.options ==> OptionOk(o, EffectiveSans(r.domain, r.extras))
  }

  function Requested(r: Request, arn: string, now: Time): Certificate {
    var names := EffectiveSans(r.domain, r.extras);
    Certificate(arn, r.domain, names, AmazonIssued, r.token, now, Some(r.method_), [], r.keyAlgorithm,
                PendingValidation, None, None, None, None, None, now, now + LIFETIME,
                StartValidations(names, r.method_, OptionMap(r.options)), false, None)
  }

  function ImportedCertificate(commonName: string, arn: string, now: Time): Certificate {
    Certificate(arn, commonName, [commonName], Imported, None, now, None, [], "RSA_2048",
                Issued, Some(now), Some(now), None, None, None, now, now + LIFETIME, [], false, None)
  }

  function Addresses(vs: seq<DomainValidation>): (r: seq<Option<string>>)
    ensures |r| == |vs|
  {
    seq(|vs|, i requires 0 <= i < |vs| => vs[i].validationDomain)
  }

  // Two requests are repeats of each other: same token, domain, names and
  // validation domains.
  predicate SameRequest(c: Certificate, d: Certificate) {
    c.token.Some? && c.token == d.token && c.domain == d.domain && c.sans == d.sans
    && Addresses(c.validations) == Addresses(d.validations)
  }

  // ---- the region's certificates ----

  type State = map<string, Certificate>

  datatype Outcome = Outcome(state: State, reply: Reply<string>)

  // The certificate a repeated request collapses onto.
  ghost function Existing(state: State, wanted: Certificate): (r: Option<string>)
    ensures r.Some? ==> r.value in state && SameRequest(state[r.value], wanted)
    ensures r.None? ==> forall a :: a in state ==> !SameRequest(state[a], wanted)
  {
    if exists a :: a in state && SameRequest(state[a], wanted)
    then var a :| a in state && SameRequest(state[a], wanted); Some(a)
    else None
  }

  ghost function RequestCertificate(state: State, r: Request, newArn: string, now: Time): Outcome {
    if !RequestOk(r) then Outcome(state, Err(InvalidParameter))
    else
      var wanted := Requested(r, newArn, now);
      var existing := Existing(state, wanted);
      if existing.Some? then Outcome(state, Ok(existing.value)) else Outcome(state[newArn := wanted], Ok(newArn))
  }

  function Replace(state: State, arn: string, c: Reply<Certificate>): Outcome {
    if c.Ok? then Outcome(state[arn := c.value], Ok(arn)) else Outcome(state, Err(c.error))
  }

  // The trailing id of an ARN: what follows its last "certificate/".
  function IdOf(arn: string): string { IdAfter(arn, |arn|) }

  function IdAfter(arn: string, from: nat): string
    requires from <= |arn|
  {
    if OccursAt(arn, "certificate/", from) then arn[from + 12..]
    else if from == 0 then arn
    else IdAfter(arn, from - 1)
  }

  predicate Names(arn: string, arnOrId: string) { arn == arnOrId || IdOf(arn) == arnOrId }

  // The certificate the admin endpoint addresses, by ARN or by its trailing id;
  // which of several matches comes first is left open.
  ghost function Addressed(state: State, arnOrId: string): (r: Option<string>)
    ensures r.Some? ==> r.value in state && Names(r.value, arnOrId)
    ensures r.None? ==> forall a :: a in state ==> !Names(a, arnOrId)
  {
    if exists a :: a in state && Names(a, arnOrId) then var a :| a in state && Names(a, arnOrId); Some(a) else None
  }

  datatype Op =
    | Requests(request: Request, newArn: string)
    | Imports(commonName: string, newArn: string)
    | Reimports(arn: string, commonName: string)
    | Ticks(arn: string)
    | AdminSets(arnOrId: string, status: CertStatus, reason: Option<string>)
    | Renews(arn: string)
    | Revokes(arn: string, why: string)
    | Deletes(arn: string)

  ghost function Step(state: State, op: Op, now: Time): Outcome {
    match op
    case Requests(r, newArn) => RequestCertificate(state, r, newArn, now)
    case Imports(cn, newArn) => Outcome(state[newArn := ImportedCertificate(cn, newArn, now)], Ok(newArn))
    case Reimports(arn, cn) =>
      if arn !in state then Outcome(state, Err(NotFound)) else Replace(state, arn, Reimport(state[arn], cn, now))
    case Ticks(arn) =>
      if arn !in state then Outcome(state, Ok("")) else Replace(state, arn, Ok(Tick(state[arn], now)))
    case AdminSets(arnOrId, status, reason) =>
      var found := Addressed(state, arnOrId);
      if found.None? then Outcome(state, Err(NotFound))
      else Replace(state, found.value, Ok(SetStatus(state[found.value], status, reason, now)))
    case Renews(arn) =>
      if arn !in state then Outcome(state, Err(NotFound)) else Replace(state, arn, Renew(state[arn], now))
    case Revokes(arn, reason) =>
      if arn !in state then Outcome(state, Err(NotFound)) else Replace(state, arn, Revoke(state[arn], reason, now))
    case Deletes(arn) =>
      if arn !in state then Outcome(state, Err(NotFound))
      else if state[arn].inUseBy != [] then Outcome(state, Err(InUse))
      else Outcome(state - {arn}, Ok(""))
  }

  datatype Event = Event(op: Op, now: Time)

  ghost function Run(state: State, events: seq<Event>): State {
    if events == [] then state
    else Step(Run(state, events[..|events| - 1]), events[|events| - 1].op, events[|events| - 1].now).state
  }

  // Generated ARNs are new.
  ghost predicate ValidRun(state: State, events: seq<Event>) {
    events == [] ||
    var before, op := events[..|events| - 1], events[|events| - 1].op;
    ValidRun(state, before) && ((op.Requests? || op.Imports?) ==> op.newArn !in Run(state, before))
  }

  // ---- the invariant ----

  ghost predicate CertificateOk(c: Certificate) {
    && (c.status.Issued? ==> c.issuedAt.Some? && forall v :: v in c.validations ==> v.status.Success?)
    && (c.status.Issued? && c.certType.AmazonIssued? ==>
          c.eligible && c.summary.Some? && c.summary.value.validations == c.validations)
    && (c.certType.Imported? ==> !c.eligible && c.summary.None? && c.token.None?)
    && c.notAfter == c.notBefore + LIFETIME
    && (forall v :: v in c.validations ==> WellAddressed(v))
  }

  ghost predicate Inv(state: State) {
    && (forall a :: a in state ==> state[a].arn == a && CertificateOk(state[a]))
    && (forall a, b :: a in state && b in state && SameRequest(state[a], state[b]) ==> a == b)
  }

  // A successor that keeps what a certificate was requested as.
  ghost predicate SameIdentity(c: Certificate, d: Certificate) {
    d.arn == c.arn && d.token == c.token && (c.token.Some? ==> d.domain == c.domain && d.sans == c.sans)
    && Addresses(d.validations) == Addresses(c.validations)
  }

  lemma MarkedKeepsAddresses(c: Certificate, status: ValidationStatus)
    requires forall v :: v in c.validations ==> WellAddressed(v)
    ensures var vs := Marked(c.validations, status);
            Addresses(vs) == Addresses(c.validations) && forall v :: v in vs ==> WellAddressed(v) && v.status == status
  {
    var vs := Marked(c.validations, status);
    forall v | v in vs ensures WellAddressed(v) && v.status == status {
      var i :| 0 <= i < |vs| && vs[i] == v;
      assert WellAddressed(c.validations[i]);
    }
  }

  lemma TickOk(c: Certificate, now: Time)
    requires CertificateOk(c)
    ensures CertificateOk(Tick(c, now)) && SameIdentity(c, Tick(c, now))
    ensures c.status.PendingValidation? && c.certType.AmazonIssued? ==> Tick(c, now).status.Issued? && Tick(c, now).issuedAt == Some(now)
  {
    MarkedKeepsAddresses(c, Success);
  }

  lemma SetStatusOk(c: Certificate, status: CertStatus, reason: Option<string>, now: Time)
    requires CertificateOk(c)
    ensures CertificateOk(SetStatus(c, status, reason, now)) && SameIdentity(c, SetStatus(c, status, reason, now))
  {
    MarkedKeepsAddresses(c, Success);
    MarkedKeepsAddresses(c, ValidationFailed);
    MarkedKeepsAddresses(c, TimedOut);
  }

  lemma RenewOk(c: Certificate, now: Time)
    requires CertificateOk(c) && Renew(c, now).Ok?
    ensures CertificateOk(Renew(c, now).value) && SameIdentity(c, Renew(c, now).value)
  {
    MarkedKeepsAddresses(c, Success);
  }

  lemma RequestedOk(r: Request, arn: string, now: Time)
    requires RequestOk(r)
    ensures CertificateOk(Requested(r, arn, now))
  {
    StartedValidationsAreWellAddressed(EffectiveSans(r.domain, r.extras), r.method_, r.options);
  }

  // Replacing one certificate by a sound successor of the same identity keeps
  // the whole region sound.
  lemma ReplaceKeepsInv(state: State, arn: string, c: Certificate)
    requires Inv(state) && arn in state && CertificateOk(c) && SameIdentity(state[arn], c)
    ensures Inv(state[arn := c])
  {
    var next := state[arn := c];
    forall a, b | a in next && b in next && SameRequest(next[a], next[b]) ensures a == b {
      assert SameRequest(state[a], state[b]);
    }
  }

  lemma AddKeepsInv(state: State, arn: string, c: Certificate)
    requires Inv(state) && CertificateOk(c) && c.arn == arn && arn !in state
    requires forall a :: a in state ==> !SameRequest(state[a], c)
    ensures Inv(state[arn := c])
  {
    var next := state[arn := c];
    forall a, b | a in next && b in next && SameRequest(next[a], next[b]) ensures a == b {
      if a == arn && b != arn { assert SameRequest(state[b], c); }
    }
  }

  lemma StepKeepsInv(state: State, op: Op, now: Time)
    requires Inv(state)
    requires (op.Requests? || op.Imports?) ==> op.newArn !in state
    ensures Inv(Step(state, op, now).state)
  {
    match op
    case Requests(r, newArn) =>
      if RequestOk(r) {
        RequestedOk(r, newArn, now);
        if Existing(state, Requested(r, newArn, now)).None? { AddKeepsInv(state, newArn, Requested(r, newArn, now)); }
      }
    case Imports(cn, newArn) => AddKeepsInv(state, newArn, ImportedCertificate(cn, newArn, now));
    case Reimports(arn, cn) =>
      if arn in state && state[arn].certType.Imported? { ReplaceKeepsInv(state, arn, Reimport(state[arn], cn, now).value); }
    case Ticks(arn) =>
      if arn in state { TickOk(state[arn], now); ReplaceKeepsInv(state, arn, Tick(state[arn], now)); }
    case AdminSets(arnOrId, status, reason) =>
      var found := Addressed(state, arnOrId);
      if found.Some? {
        SetStatusOk(state[found.value], status, reason, now);
        ReplaceKeepsInv(state, found.value, SetStatus(state[found.value], status, reason, now));
      }
    case Renews(arn) =>
      if arn in state && Renew(state[arn], now).Ok? {
        RenewOk(state[arn], now);
        ReplaceKeepsInv(state, arn, Renew(state[arn], now).value);
      }
    case Revokes(arn, reason) =>
      if arn in state && Revoke(state[arn], reason, now).Ok? {
        ReplaceKeepsInv(state, arn, Revoke(state[arn], reason, now).value);
      }
    case Deletes(arn) =>
  }

  // Every certificate of every run from the empty region is sound, whatever the
  // interleaving of calls, ticks and admin switches.
  lemma {:induction false} RunKeepsInv(events: seq<Event>)
    requires ValidRun(map[], events)
    ensures Inv(Run(map[], events))
  {
    if events != [] {
      var before, e := events[..|events| - 1], events[|events| - 1];
      RunKeepsInv(before);
      StepKeepsInv(Run(map[], before), e.op, e.now);
    }
  }

  // A certificate in use outlives every run, and stays in use: no delete takes it.
  lemma {:induction false} UsedStays(state: State, events: seq<Event>, arn: string)
    requires ValidRun(state, events) && arn in state && state[arn].inUseBy != []
    ensures arn in Run(state, events) && Run(state, events)[arn].inUseBy == state[arn].inUseBy
  {
    if events != [] {
      var before, e := events[..|events| - 1], events[|events| - 1];
      UsedStays(state, before, arn);
      StepKeepsUsed(Run(state, before), e.op, e.now, arn);
    }
  }

  lemma StepKeepsUsed(state: State, op: Op, now: Time, arn: string)
    requires arn in state && state[arn].inUseBy != [] && ((op.Requests? || op.Imports?) ==> op.newArn !in state)
    ensures var next := Step(state, op, now).state; arn in next && next[arn].inUseBy == state[arn].inUseBy
    ensures op == Deletes(arn) ==> Step(state, op, now) == Outcome(state, Err(InUse))
  {
    match op
    case Requests(r, newArn) =>
    case AdminSets(arnOrId, status, reason) =>
    case _ =>
  }

  // The admin endpoint reaches a certificate by the id its ARN ends with.
  lemma TrailingId(prefix: string, id: string)
    requires forall i: nat :: i > |prefix| ==> !OccursAt(prefix + "certificate/" + id, "certificate/", i)
    ensures var arn := prefix + "certificate/" + id; IdOf(arn) == id && Names(arn, id) && Names(arn, arn)
  {
    var arn := prefix + "certificate/" + id;
    assert arn[|prefix|..|prefix| + 12] == "certificate/";
    IdAfterLast(arn, |arn|, |prefix|);
    assert arn[|prefix| + 12..] == id;
  }

  lemma {:induction false} IdAfterLast(arn: string, from: nat, at: nat)
    requires at <= from <= |arn| && OccursAt(arn, "certificate/", at)
    requires forall i: nat :: i > at ==> !OccursAt(arn, "certificate/", i)
    ensures IdAfter(arn, from) == arn[at + 12..]
  {
    if from > at { IdAfterLast(arn, from - 1, at); }
  }
}
