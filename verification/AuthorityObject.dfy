// The certificate authority as the service holds it: one object whose fields
// the handlers and the key-generation task update in place while they hold the
// write lock. Every method is proved against its transition in `PrivateCa`.

module AuthorityObject {
  import opened Common
  import opened Validity
  import opened Serials
  import Ca = PrivateCa
  import Runs = PrivateCaRuns

  class CertificateAuthority {
    const arn: string
    const caType: Ca.CaType
    const rsaKey: bool
    const createdAt: Time
    const token: Option<string>
    var status: Ca.Status
    var lastStateChangeAt: Option<Time>
    var failureReason: Option<string>
    var restorableUntil: Option<Time>
    var key: Option<Ca.Key>
    var csr: Option<Ca.Csr>
    var certificate: Option<Ca.Certificate>
    var chain: Option<string>
    var issued: map<string, Ca.Issued>
    var revoked: map<string, Ca.Revocation>

    ghost function View(): Ca.Authority
      reads this
    {
      Ca.Authority(arn, caType, rsaKey, createdAt, token, status, lastStateChangeAt, failureReason, restorableUntil,
                   key, csr, certificate, chain, issued, revoked)
    }

    // Sound, and no token has two certificates inside its window.
    ghost predicate Valid(now: Time)
      reads this
    {
      Ca.Inv(View()) && Runs.OnePerToken(View(), now)
    }

    constructor (arn: string, caType: Ca.CaType, rsaKey: bool, token: Option<string>, now: Time)
      ensures View() == Ca.BuildPending(arn, caType, rsaKey, token, now)
      ensures Valid(now)
    {
      this.arn, this.caType, this.rsaKey, this.createdAt, this.token := arn, caType, rsaKey, now, token;
      status, lastStateChangeAt, failureReason, restorableUntil := Ca.PendingCertificate, Some(now), None, None;
      key, csr, certificate, chain := None, None, None, None;
      issued, revoked := map[], map[];
    }

    // provision.rs `fill_keygen`
    method FillKeygen(newKey: Ca.Key, newCsr: Ca.Csr, at: Time)
      modifies this
      ensures View() == old(View()).(key := Some(newKey), csr := Some(newCsr), lastStateChangeAt := Some(at),
                                     status := if old(status).Creating? then Ca.PendingCertificate else old(status))
    {
      key, csr := Some(newKey), Some(newCsr);
      if status.Creating? {
        status := Ca.PendingCertificate;
      }
      lastStateChangeAt := Some(at);
    }

    method FinishKeygen(material: Option<Ca.Key>, at: Time)
      requires Valid(at)
      modifies this
      ensures View() == Ca.FinishKeygen(old(View()), material, at) && Valid(at)
    {
      if key.None? && !status.Failed? && !status.Deleted? {
        match material
        case Some(k) => FillKeygen(k, Ca.OwnCsr(k), at);
        case None =>
          status := Ca.Failed;
          failureReason := Some("OTHER");
      }
      Ca.LifecycleKeepsInv(old(View()), Ca.KeygenEnds(material), at);
    }

    method Update(newStatus: Ca.StatusArg, at: Time) returns (reply: Reply<string>)
      requires Valid(at)
      modifies this
      ensures Ca.Outcome(View(), reply) == Ca.Update(old(View()), newStatus, at) && Valid(at)
    {
      Ca.LifecycleKeepsInv(View(), Ca.Updates(newStatus), at);
      if newStatus.OtherStatus? { return Err(InvalidArgs); }
      if status.Creating? || status.Deleted? { return Err(InvalidState); }
      if !newStatus.Omitted? {
        if newStatus.ToActive? && certificate.None? { return Err(InvalidState); }
        status := if newStatus.ToActive? then Ca.Active else Ca.Disabled;
        lastStateChangeAt := Some(at);
      }
      return Ok("");
    }

    method Delete(days: int, at: Time) returns (reply: Reply<string>)
      requires Valid(at)
      modifies this
      ensures Ca.Outcome(View(), reply) == Ca.Delete(old(View()), days, at) && Valid(at)
    {
      Ca.LifecycleKeepsInv(View(), Ca.Deletes(days), at);
      if !(7 <= days <= 30) { return Err(InvalidArgs); }
      if status.Active? { return Err(InvalidState); }
      if status.Deleted? { return Err(InvalidState); }
      status := Ca.Deleted;
      restorableUntil := Some(at + days * DAY);
      lastStateChangeAt := Some(at);
      return Ok("");
    }

    method Restore(at: Time) returns (reply: Reply<string>)
      requires Valid(at)
      modifies this
      ensures Ca.Outcome(View(), reply) == Ca.Restore(old(View()), at) && Valid(at)
      ensures reply.Ok? <==> old(status).Deleted?
      ensures reply.Ok? ==> status == (if old(certificate).Some? then Ca.Disabled else Ca.PendingCertificate)
    {
      Ca.LifecycleKeepsInv(View(), Ca.Restores, at);
      if !status.Deleted? { return Err(InvalidState); }
      status := if certificate.Some? then Ca.Disabled else Ca.PendingCertificate;
      restorableUntil := None;
      lastStateChangeAt := Some(at);
      return Ok("");
    }

    method Import(upload: Ca.Upload<Ca.Certificate>, newChain: Option<string>, at: Time) returns (reply: Reply<string>)
      requires Valid(at)
      modifies this
      ensures Ca.Outcome(View(), reply) == Ca.Import(old(View()), upload, newChain, at) && Valid(at)
    {
      Ca.LifecycleKeepsInv(View(), Ca.Imports(upload, newChain), at);
      if upload.Missing? { return Err(MalformedCertificate); }
      if status.Deleted? { return Err(InvalidState); }
      if status.Creating? || key.None? { return Err(InvalidState); }
      if caType.Subordinate? && newChain.None? { return Err(InvalidRequest); }
      if upload.Malformed? { return Err(MalformedCertificate); }
      if !Ca.Certifies(upload.value, key.value) { return Err(CertificateMismatch); }
      certificate := Some(upload.value);
      chain := newChain;
      status := Ca.Active;
      lastStateChangeAt := Some(at);
      return Ok("");
    }

    // The certificate an idempotency token still collapses onto, if any.
    method FindRepeat(token: string, at: Time) returns (found: Option<string>)
      ensures found.Some? ==> found.value in issued && Ca.Repeats(issued[found.value], token, at)
      ensures found.None? ==> forall s :: s in issued ==> !Ca.Repeats(issued[s], token, at)
    {
      var left := issued.Keys;
      while left != {}
        invariant left <= issued.Keys
        invariant forall s :: s in issued && s !in left ==> !Ca.Repeats(issued[s], token, at)
        decreases left
      {
        var s :| s in left;
        if Ca.Repeats(issued[s], token, at) { return Some(s); }
        left := left - {s};
      }
      return None;
    }

    method Issue(p: Ca.Prepared, at: Time) returns (reply: Reply<string>)
      requires Valid(at) && Ca.WellOrdered(p) && Ca.FreshSerial(View(), Ca.Issues(p))
      modifies this
      ensures Ca.Outcome(View(), reply) == Ca.Issue(old(View()), p, at) && Valid(at)
      ensures issued != old(issued) ==>
                && reply == Ok(p.serial) && p.serial in issued && issued - {p.serial} == old(issued)
                && p.csr.Parsed? && old(key).Some?
                && var c := issued[p.serial].certificate;
                   c.subjectKey == p.csr.value.subjectKey && c.signer == Ca.PublicKey(old(key).value)
    {
      ghost var was := View();
      Ca.IssueKeepsInv(was, p, at);
      Runs.IssueKeepsOnePerToken(was, p, at);
      if p.token.Some? {
        var found := FindRepeat(p.token.value, at);
        if found.Some? {
          Runs.RepeatAnswered(was, found.value, p, at);
          return Ok(found.value);
        }
      }
      var rootSelfSign := status.PendingCertificate? && caType.Root? && p.caTemplate;
      if !status.Active? && !rootSelfSign { return Err(InvalidState); }
      if !Ca.FamilyMatches(rsaKey, p.signingAlgorithm) || key.None? { return Err(InvalidArgs); }
      var chainBase: Option<Ca.Chain> := None;
      if !rootSelfSign {
        if certificate.None? { return Err(InvalidState); }
        chainBase := Some(Ca.Chain(certificate.value, chain));
      }
      if p.signerFails || !p.csr.Parsed? { return Err(MalformedCsr); }
      var signed := Ca.Sign(key.value, p.csr.value, p.serial, p.notBefore, p.notAfter);
      var record := Ca.Issued(p.serial, signed, chainBase, p.captured, p.notBefore, p.notAfter, p.template, p.token);
      issued := issued[p.serial := record];
      return Ok(p.serial);
    }

    method Knows(serial: string) returns (known: bool)
      ensures known <==> Ca.Knows(View(), serial)
    {
      var left := issued.Keys;
      while left != {}
        invariant left <= issued.Keys
        invariant forall s :: s in issued && s !in left ==> Normalize(issued[s].serial) != serial
        decreases left
      {
        var s :| s in left;
        if Normalize(issued[s].serial) == serial { return true; }
        left := left - {s};
      }
      return false;
    }

    method Revoke(presented: string, reason: Ca.Reason, at: Time) returns (reply: Reply<string>)
      requires Valid(at)
      modifies this
      ensures Ca.Outcome(View(), reply) == Ca.Revoke(old(View()), Normalize(presented), reason, at) && Valid(at)
    {
      var serial := Normalize(presented);
      Ca.RevokeKeepsInv(View(), serial, reason, at);
      if reason.OtherReason? { return Err(InvalidArgs); }
      if !status.Active? { return Err(InvalidState); }
      if serial in revoked { return Err(AlreadyProcessed); }
      var known := Knows(serial);
      if !known { return Err(InvalidRequest); }
      revoked := revoked[serial := Ca.Revocation(serial, at, reason)];
      return Ok("");
    }
  }
}
