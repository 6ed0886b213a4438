// The life of one ACM Private CA certificate authority
// (crates/fakecloud-acmpca/src/service.rs and provision.rs): every handler that
// runs under the state's write lock, the background key-generation task, and
// the re-arm after a restart, as transitions of the CA record.
//
// Cryptography is symbolic: a key pair is a name, a certificate records whose
// public key it certifies and whose private key signed it.

module PrivateCa {
  import opened Common
  import opened Text
  import opened Validity
  import opened Serials

  // ---- symbolic cryptography ----

  datatype Key = Key(id: nat)
  datatype PublicKey = PublicKey(of: Key)
  datatype Csr = Csr(subjectKey: PublicKey)
  datatype Certificate = Certificate(subjectKey: PublicKey, signer: PublicKey, serial: string, notBefore: int, notAfter: int)

  // What a caller uploads where the API expects a CSR or a certificate.
  datatype Upload<+T> = Missing | Malformed | Parsed(value: T)

  function OwnCsr(key: Key): Csr { Csr(PublicKey(key)) }

  // The certificate carries whole seconds of the validity window.
  function Sign(key: Key, csr: Csr, serial: string, notBefore: Time, notAfter: Time): Certificate {
    Certificate(csr.subjectKey, PublicKey(key), serial, WholeSeconds(notBefore), WholeSeconds(notAfter))
  }

  predicate Certifies(certificate: Certificate, key: Key) { certificate.subjectKey == PublicKey(key) }

  // ---- the record ----

  datatype CaType = Root | Subordinate
  datatype Status = Creating | PendingCertificate | Active | Disabled | Expired | Deleted | Failed

  datatype Chain = Chain(issuer: Certificate, parents: Option<string>)

  // An issued certificate's ARN is the authority's ARN, "/certificate/" and the
  // serial, so the serial stands for it here.
  datatype Issued = Issued(
    serial: string, certificate: Certificate, chain: Option<Chain>,
    issuedAt: Time, notBefore: Time, notAfter: Time, template: Option<string>, token: Option<string>)

  datatype Revocation = Revocation(serial: string, revokedAt: Time, reason: Reason)

  datatype Authority = Authority(
    arn: string, caType: CaType, rsaKey: bool, createdAt: Time, token: Option<string>,
    status: Status, lastStateChangeAt: Option<Time>, failureReason: Option<string>, restorableUntil: Option<Time>,
    key: Option<Key>, csr: Option<Csr>,
    certificate: Option<Certificate>, chain: Option<string>,
    issued: map<string, Issued>, revoked: map<string, Revocation>)

  datatype Outcome = Outcome(ca: Authority, reply: Reply<string>)

  // provision.rs `build_pending_ca`
  function BuildPending(arn: string, caType: CaType, rsaKey: bool, token: Option<string>, now: Time): Authority {
    Authority(arn, caType, rsaKey, now, token, PendingCertificate, Some(now), None, None, None, None, None, None, map[], map[])
  }

  // ---- transitions ----

  // The critical section of the background key-generation task; `material` is
  // None when generation failed or panicked.
  function FinishKeygen(ca: Authority, material: Option<Key>, at: Time): Authority {
    if ca.key.Some? || ca.status.Failed? || ca.status.Deleted? then ca
    else if material.None? then ca.(status := Failed, failureReason := Some("OTHER"))
    else ca.(key := material, csr := Some(OwnCsr(material.value)),
             status := if ca.status.Creating? then PendingCertificate else ca.status,
             lastStateChangeAt := Some(at))
  }

  // `rearm_pending_creations` on one CA: a legacy CREATING record becomes
  // pending; the key generation it arms ends in `FinishKeygen`.
  function Rearm(ca: Authority): Authority {
    if ca.key.None? && ca.status.Creating? then ca.(status := PendingCertificate) else ca
  }

  // The `Status` member of UpdateCertificateAuthority.
  datatype StatusArg = Omitted | ToActive | ToDisabled | OtherStatus

  function Update(ca: Authority, status: StatusArg, at: Time): Outcome {
    if status.OtherStatus? then Outcome(ca, Err(InvalidArgs))
    else if ca.status.Creating? || ca.status.Deleted? then Outcome(ca, Err(InvalidState))
    else if status.Omitted? then Outcome(ca, Ok(""))
    else if status.ToActive? && ca.certificate.None? then Outcome(ca, Err(InvalidState))
    else Outcome(ca.(status := if status.ToActive? then Active else Disabled, lastStateChangeAt := Some(at)), Ok(""))
  }

  function Delete(ca: Authority, days: int, at: Time): Outcome {
    if !(7 <= days <= 30) then Outcome(ca, Err(InvalidArgs))
    else if ca.status.Active? || ca.status.Deleted? then Outcome(ca, Err(InvalidState))
    else Outcome(ca.(status := Deleted, restorableUntil := Some(at + days * DAY), lastStateChangeAt := Some(at)), Ok(""))
  }

  function Restore(ca: Authority, at: Time): Outcome {
    if !ca.status.Deleted? then Outcome(ca, Err(InvalidState))
    else Outcome(ca.(status := if ca.certificate.Some? then Disabled else PendingCertificate,
                     restorableUntil := None, lastStateChangeAt := Some(at)), Ok(""))
  }

  function Import(ca: Authority, certificate: Upload<Certificate>, chain: Option<string>, at: Time): Outcome {
    if certificate.Missing? then Outcome(ca, Err(MalformedCertificate))
    else if ca.status.Deleted? then Outcome(ca, Err(InvalidState))
    else if ca.status.Creating? || ca.key.None? then Outcome(ca, Err(InvalidState))
    else if ca.caType.Subordinate? && chain.None? then Outcome(ca, Err(InvalidRequest))
    else if certificate.Malformed? then Outcome(ca, Err(MalformedCertificate))
    else if !Certifies(certificate.value, ca.key.value) then Outcome(ca, Err(CertificateMismatch))
    else Outcome(ca.(certificate := Some(certificate.value), chain := chain, status := Active, lastStateChangeAt := Some(at)), Ok(""))
  }

  // ---- issuing ----

  // The request as received. `captured` is the clock value the handler reads
  // before it takes the lock, `serial` the random serial it would sign with,
  // `signerFails` whether the X.509 library refuses.
  datatype IssueRequest = IssueRequest(
    csr: Upload<Csr>, signingAlgorithm: SigningAlgorithm,
    validityValue: i64, validityType: string, startValue: Option<(i64, string)>,
    template: Option<string>, token: Option<string>,
    captured: Time, serial: string, signerFails: bool)

  // The request as it enters the critical section, its window resolved.
  datatype Prepared = Prepared(
    csr: Upload<Csr>, signingAlgorithm: SigningAlgorithm, notBefore: Time, notAfter: Time,
    template: Option<string>, caTemplate: bool, token: Option<string>,
    captured: Time, serial: string, signerFails: bool)

  datatype SigningAlgorithm =
    | Sha256WithEcdsa | Sha384WithEcdsa | Sha512WithEcdsa | Sha256WithRsa | Sha384WithRsa | Sha512WithRsa
    | Sm3WithSm2 | MlDsa44 | MlDsa65 | MlDsa87
    | OtherAlgorithm

  predicate IsCaTemplate(template: Option<string>) {
    template.Some? && (Find(template.value, "CACertificate").Some? || Find(template.value, "RootCACertificate").Some?)
  }

  predicate WellOrdered(p: Prepared) { !p.csr.Missing? && p.notBefore < p.notAfter < CEILING }

  // The checks made before the lock is taken. What passes has a well-ordered
  // window that a certificate can carry.
  function Prepare(r: IssueRequest): (p: Reply<Prepared>)
    ensures p.Ok? ==> WellOrdered(p.value)
    ensures p.Ok? ==> p.value.caTemplate == IsCaTemplate(r.template) && p.value.template == r.template
    ensures p.Ok? ==> p.value.captured == r.captured && p.value.serial == r.serial && p.value.token == r.token
  {
    var notBefore := if r.startValue.None? then Ok(r.captured)
                     else ResolveValidity(r.captured, r.startValue.value.0, r.startValue.value.1);
    var notAfter := ResolveValidity(r.captured, r.validityValue, r.validityType);
    if r.csr.Missing? then Err(MalformedCsr)
    else if r.signingAlgorithm.OtherAlgorithm? || notBefore.Err? || notAfter.Err? then Err(InvalidArgs)
    else if notAfter.value <= notBefore.value then Err(InvalidArgs)
    else Ok(Prepared(r.csr, r.signingAlgorithm, notBefore.value, notAfter.value, r.template, IsCaTemplate(r.template), r.token,
                     r.captured, r.serial, r.signerFails))
  }

  // validate.rs `load_signing_key`: the algorithm's family must match the key's.
  predicate FamilyMatches(rsaKey: bool, a: SigningAlgorithm) {
    if rsaKey then a.Sha256WithRsa? || a.Sha384WithRsa? || a.Sha512WithRsa?
    else a.Sha256WithEcdsa? || a.Sha384WithEcdsa? || a.Sha512WithEcdsa?
  }

  const IDEMPOTENCY_WINDOW: int := 300_000_000_000  // five minutes

  predicate InWindow(created: Time, at: Time) { at - created < IDEMPOTENCY_WINDOW }

  predicate Repeats(c: Issued, token: string, at: Time) { c.token == Some(token) && InWindow(c.issuedAt, at) }

  predicate RootSelfSign(ca: Authority, p: Prepared) {
    ca.status.PendingCertificate? && ca.caType.Root? && p.caTemplate
  }

  // The certificate a repeated token collapses onto. The search visits the map
  // in some order; which hit comes first is left open, and turns out not to
  // matter because there is never more than one.
  ghost function Repeated(ca: Authority, p: Prepared, at: Time): (r: Option<string>)
    ensures r.Some? ==> r.value in ca.issued && p.token.Some? && Repeats(ca.issued[r.value], p.token.value, at)
    ensures r.None? && p.token.Some? ==> forall s :: s in ca.issued ==> !Repeats(ca.issued[s], p.token.value, at)
  {
    if p.token.Some? && exists s :: s in ca.issued && Repeats(ca.issued[s], p.token.value, at) then
      var s :| s in ca.issued && Repeats(ca.issued[s], p.token.value, at);
      Some(s)
    else None
  }

  function NewRecord(ca: Authority, p: Prepared): Issued
    requires ca.key.Some? && p.csr.Parsed? && (RootSelfSign(ca, p) || ca.certificate.Some?)
  {
    Issued(p.serial,
           Sign(ca.key.value, p.csr.value, p.serial, p.notBefore, p.notAfter),
           if RootSelfSign(ca, p) then None else Some(Chain(ca.certificate.value, ca.chain)),
           p.captured, p.notBefore, p.notAfter, p.template, p.token)
  }

  // The critical section of IssueCertificate.
  ghost function Issue(ca: Authority, p: Prepared, at: Time): Outcome {
    if Repeated(ca, p, at).Some? then Outcome(ca, Ok(ca.issued[Repeated(ca, p, at).value].serial))
    else if !ca.status.Active? && !RootSelfSign(ca, p) then Outcome(ca, Err(InvalidState))
    else if !FamilyMatches(ca.rsaKey, p.signingAlgorithm) || ca.key.None? then Outcome(ca, Err(InvalidArgs))
    else if !RootSelfSign(ca, p) && ca.certificate.None? then Outcome(ca, Err(InvalidState))
    else if p.signerFails || !p.csr.Parsed? then Outcome(ca, Err(MalformedCsr))
    else
      var record := NewRecord(ca, p);
      Outcome(ca.(issued := ca.issued[record.serial := record]), Ok(record.serial))
  }

  // ---- revoking ----

  datatype Reason =
    | Unspecified | KeyCompromise | CertificateAuthorityCompromise | AffiliationChanged | Superseded
    | CessationOfOperation | PrivilegeWithdrawn | AACompromise
    | OtherReason

  // Whether the CA issued a certificate with this serial.
  predicate Knows(ca: Authority, serial: string) {
    exists s :: s in ca.issued && Normalize(ca.issued[s].serial) == serial
  }

  // The critical section of RevokeCertificate, on the normalised serial.
  function Revoke(ca: Authority, serial: string, reason: Reason, at: Time): (o: Outcome)
    ensures o.reply.Ok? ==> o.ca.revoked.Keys == ca.revoked.Keys + {serial}
  {
    if reason.OtherReason? then Outcome(ca, Err(InvalidArgs))
    else if !ca.status.Active? then Outcome(ca, Err(InvalidState))
    else if serial in ca.revoked then Outcome(ca, Err(AlreadyProcessed))
    else if !Knows(ca, serial) then Outcome(ca, Err(InvalidRequest))
    else Outcome(ca.(revoked := ca.revoked[serial := Revocation(serial, at, reason)]), Ok(""))
  }

  // ---- the transition system ----

  // Handlers and tasks that touch neither the issued nor the revoked records.
  datatype LifecycleOp =
    | KeygenEnds(material: Option<Key>)
    | Rearms
    | Updates(status: StatusArg)
    | Deletes(days: int)
    | Restores
    | Imports(certificate: Upload<Certificate>, chain: Option<string>)

  datatype Op =
    | Lifecycle(op: LifecycleOp)
    | Issues(prepared: Prepared)
    | Revokes(presented: string, reason: Reason)

  // One critical section, entered at clock value `at`.
  datatype Event = Event(op: Op, at: Time)

  function LifecycleStep(ca: Authority, op: LifecycleOp, at: Time): (o: Outcome)
    ensures o.ca.issued == ca.issued && o.ca.revoked == ca.revoked
    ensures o.reply.Err? ==> o.ca == ca
  {
    match op
    case KeygenEnds(material) => Outcome(FinishKeygen(ca, material, at), Ok(""))
    case Rearms => Outcome(Rearm(ca), Ok(""))
    case Updates(status) => Update(ca, status, at)
    case Deletes(days) => Delete(ca, days, at)
    case Restores => Restore(ca, at)
    case Imports(certificate, chain) => Import(ca, certificate, chain, at)
  }

  ghost function Step(ca: Authority, e: Event): Outcome {
    match e.op
    case Lifecycle(op) => LifecycleStep(ca, op, e.at)
    case Issues(p) => Issue(ca, p, e.at)
    case Revokes(presented, reason) => Revoke(ca, Normalize(presented), reason, e.at)
  }

  ghost function Run(ca: Authority, events: seq<Event>): Authority {
    if events == [] then ca
    else Step(Run(ca, events[..|events| - 1]), events[|events| - 1]).ca
  }

  function LastTime(start: Time, events: seq<Event>): Time {
    if events == [] then start else events[|events| - 1].at
  }

  // A random serial has the stored form and is new to this CA.
  ghost predicate FreshSerial(ca: Authority, op: Op) {
    op.Issues? ==> IsStoredSerial(op.prepared.serial) && op.prepared.serial !in ca.issued
  }

  // What the environment guarantees of one event: the clock does not run
  // backwards, a handler's early reading is not from its future, and the
  // request passed the checks made before the lock.
  ghost predicate Enabled(ca: Authority, now: Time, e: Event) {
    && now <= e.at
    && (e.op.Issues? ==> e.op.prepared.captured <= e.at && WellOrdered(e.op.prepared))
    && FreshSerial(ca, e.op)
  }

  // Any interleaving of handlers, key-generation completions and re-arms.
  ghost predicate ValidRun(ca: Authority, start: Time, events: seq<Event>) {
    events == [] ||
    var before := events[..|events| - 1];
    ValidRun(ca, start, before) && Enabled(Run(ca, before), LastTime(start, before), events[|events| - 1])
  }

  // ---- the invariant ----

  ghost predicate LifecycleInv(ca: Authority) {
    && (ca.status.Active? ==> ca.certificate.Some?)
    && (ca.certificate.Some? ==> ca.key.Some? && Certifies(ca.certificate.value, ca.key.value))
    && (ca.status.Failed? ==> ca.key.None?)
    && (ca.status.Creating? ==> ca.key.None?)
    && (ca.status.Deleted? <==> ca.restorableUntil.Some?)
    && (ca.key.Some? <==> ca.csr.Some?)
    && (ca.csr.Some? ==> ca.csr.value == OwnCsr(ca.key.value))
  }

  ghost predicate IssuedInv(ca: Authority) {
    forall s :: s in ca.issued ==> IssuedOk(ca.key, s, ca.issued[s])
  }

  ghost predicate IssuedOk(key: Option<Key>, serial: string, c: Issued) {
    && c.serial == serial == c.certificate.serial && IsStoredSerial(serial)
    && key.Some? && c.certificate.signer == PublicKey(key.value)
    && c.notBefore < c.notAfter < CEILING
  }

  // Revoked serials are serials this CA issued.
  ghost predicate RevokedInv(ca: Authority) {
    forall s :: s in ca.revoked ==> ca.revoked[s].serial == s && s in ca.issued
  }

  ghost predicate Inv(ca: Authority) { LifecycleInv(ca) && IssuedInv(ca) && RevokedInv(ca) }

  lemma PendingSatisfiesInv(arn: string, caType: CaType, rsaKey: bool, token: Option<string>, now: Time)
    ensures Inv(BuildPending(arn, caType, rsaKey, token, now))
  {
  }

  lemma IssueKeepsInv(ca: Authority, p: Prepared, at: Time)
    requires Inv(ca) && IsStoredSerial(p.serial) && WellOrdered(p)
    ensures Inv(Issue(ca, p, at).ca)
  {
  }

  // A serial the CA knows is, after normalising, one of its stored serials.
  lemma KnownIsStored(ca: Authority, serial: string)
    requires IssuedInv(ca)
    ensures Knows(ca, serial) <==> serial in ca.issued
  {
    forall s | s in ca.issued ensures Normalize(ca.issued[s].serial) == s {
      assert IssuedOk(ca.key, s, ca.issued[s]);
      NormalizeStored(s);
    }
  }

  lemma RevokeKeepsInv(ca: Authority, serial: string, reason: Reason, at: Time)
    requires Inv(ca)
    ensures Inv(Revoke(ca, serial, reason, at).ca)
  {
    KnownIsStored(ca, serial);
  }

  lemma StepKeepsInv(ca: Authority, now: Time, e: Event)
    requires Inv(ca) && Enabled(ca, now, e)
    ensures Inv(Step(ca, e).ca)
  {
    match e.op
    case Issues(p) => IssueKeepsInv(ca, p, e.at);
    case Revokes(presented, reason) => RevokeKeepsInv(ca, Normalize(presented), reason, e.at);
    case Lifecycle(op) => LifecycleKeepsInv(ca, op, e.at);
  }

  lemma LifecycleKeepsInv(ca: Authority, op: LifecycleOp, at: Time)
    requires Inv(ca)
    ensures Inv(LifecycleStep(ca, op, at).ca)
  {
    var next := LifecycleStep(ca, op, at).ca;
    assert ca.key.Some? ==> next.key == ca.key;
    forall s | s in next.issued ensures IssuedOk(next.key, s, next.issued[s]) {
      assert IssuedOk(ca.key, s, ca.issued[s]);
    }
  }

  // Every reachable state is sound, whatever the interleaving.
  lemma {:induction false} RunKeepsInv(ca: Authority, start: Time, events: seq<Event>)
    requires Inv(ca) && ValidRun(ca, start, events)
    ensures Inv(Run(ca, events))
  {
    if events != [] {
      var before := events[..|events| - 1];
      RunKeepsInv(ca, start, before);
      StepKeepsInv(Run(ca, before), LastTime(start, before), events[|events| - 1]);
    }
  }
}
