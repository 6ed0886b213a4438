// A stored ACM certificate as the service holds it: the tick, the admin switch
// and the renew, revoke and re-import handlers update its fields in place, the
// domain validations one by one. Each method is proved against its transition in
// `AcmCertificates`.

module CertificateObject {
  import opened Common
  import opened Validity
  import opened Domains
  import Acm = AcmCertificates

  class StoredCertificate {
    const arn: string
    const certType: Acm.CertType
    const token: Option<string>
    const createdAt: Time
    const validationMethod: Option<Method>
    const inUseBy: seq<string>
    const keyAlgorithm: string
    var domain: string
    var sans: seq<string>
    var status: Acm.CertStatus
    var issuedAt: Option<Time>
    var importedAt: Option<Time>
    var revokedAt: Option<Time>
    var revocationReason: Option<string>
    var failureReason: Option<string>
    var notBefore: Time
    var notAfter: Time
    var validations: seq<DomainValidation>
    var eligible: bool
    var summary: Option<Acm.RenewalSummary>

    ghost function View(): Acm.Certificate
      reads this
    {
      Acm.Certificate(arn, domain, sans, certType, token, createdAt, validationMethod, inUseBy, keyAlgorithm,
                      status, issuedAt, importedAt,
                      revokedAt, revocationReason, failureReason, notBefore, notAfter, validations, eligible, summary)
    }

    ghost predicate Valid()
      reads this
    {
      Acm.CertificateOk(View())
    }

    constructor (c: Acm.Certificate)
      requires Acm.CertificateOk(c)
      ensures View() == c && Valid()
    {
      arn, certType, token, createdAt := c.arn, c.certType, c.token, c.createdAt;
      validationMethod, inUseBy, keyAlgorithm := c.validationMethod, c.inUseBy, c.keyAlgorithm;
      domain, sans, status := c.domain, c.sans, c.status;
      issuedAt, importedAt, revokedAt := c.issuedAt, c.importedAt, c.revokedAt;
      revocationReason, failureReason := c.revocationReason, c.failureReason;
      notBefore, notAfter, validations, eligible, summary := c.notBefore, c.notAfter, c.validations, c.eligible, c.summary;
    }

    // Gives every domain validation the same outcome.
    method MarkAll(outcome: ValidationStatus)
      modifies this`validations
      ensures validations == Acm.Marked(old(validations), outcome)
    {
      var i := 0;
      while i < |validations|
        invariant 0 <= i <= |validations| == |old(validations)|
        invariant forall j :: 0 <= j < i ==> validations[j] == old(validations)[j].(status := outcome)
        invariant forall j :: i <= j < |validations| ==> validations[j] == old(validations)[j]
      {
        validations := validations[i := validations[i].(status := outcome)];
        i := i + 1;
      }
    }

    method Tick(now: Time) returns (flipped: bool)
      requires Valid()
      modifies this
      ensures View() == Acm.Tick(old(View()), now) && Valid()
      ensures flipped <==> old(status).PendingValidation? && certType.AmazonIssued?
      ensures if flipped then status.Issued? && issuedAt == Some(now) else View() == old(View())
    {
      Acm.TickOk(View(), now);
      flipped := false;
      if status.PendingValidation? && certType.AmazonIssued? {
        status := Acm.Issued;
        issuedAt := Some(now);
        eligible := true;
        MarkAll(Success);
        summary := Some(Acm.RenewalSummary(Acm.PendingAutoRenewal, validations, now));
        flipped := true;
      }
    }

    method SetStatus(newStatus: Acm.CertStatus, reason: Option<string>, now: Time)
      requires Valid()
      modifies this
      ensures View() == Acm.SetStatus(old(View()), newStatus, reason, now) && Valid()
    {
      Acm.SetStatusOk(View(), newStatus, reason, now);
      status := newStatus;
      if newStatus.Issued? {
        MarkIssued(now);
      } else {
        if newStatus.Failed? {
          MarkAll(ValidationFailed);
        } else if newStatus.ValidationTimedOut? {
          MarkAll(TimedOut);
        }
        if reason.Some? {
          failureReason := reason;
        }
      }
    }

    // The fields an issued certificate gets; only an Amazon-issued one becomes
    // eligible for renewal.
    method MarkIssued(now: Time)
      modifies this`issuedAt, this`validations, this`failureReason, this`eligible, this`summary
      ensures issuedAt == Some(now) && failureReason == None && validations == Acm.Marked(old(validations), Success)
      ensures if certType.AmazonIssued?
              then eligible && summary == Some(Acm.RenewalSummary(Acm.PendingAutoRenewal, validations, now))
              else eligible == old(eligible) && summary == old(summary)
    {
      issuedAt := Some(now);
      MarkAll(Success);
      failureReason := None;
      if certType.AmazonIssued? {
        eligible := true;
        summary := Some(Acm.RenewalSummary(Acm.PendingAutoRenewal, validations, now));
      }
    }

    method Renew(now: Time) returns (reply: Reply<string>)
      requires Valid()
      modifies this
      ensures Valid()
      ensures match Acm.Renew(old(View()), now)
              case Ok(c) => View() == c && reply == Ok("")
              case Err(e) => View() == old(View()) && reply == Err(e)
    {
      if certType.Imported? { return Err(InvalidParameter); }
      Acm.RenewOk(View(), now);
      ApplyRenewal(now);
      return Ok("");
    }

    method ApplyRenewal(now: Time)
      modifies this
      ensures View() == Acm.Renewed(old(View()), now)
    {
      RefreshWindow(now);
      status := Acm.Issued;
      eligible := true;
      failureReason := None;
      MarkAll(Success);
      summary := Some(Acm.RenewalSummary(Acm.RenewalSuccess, validations, now));
    }

    // A new validity window of 395 days from now, and a new issue time.
    method RefreshWindow(now: Time)
      modifies this`notBefore, this`notAfter, this`issuedAt
      ensures notBefore == now && notAfter == notBefore + Acm.LIFETIME && issuedAt == Some(notBefore)
    {
      notBefore := now;
      notAfter := now + Acm.LIFETIME;
      issuedAt := Some(now);
    }

    method Revoke(reason: string, now: Time) returns (reply: Reply<string>)
      requires Valid()
      modifies this
      ensures Valid()
      ensures match Acm.Revoke(old(View()), reason, now)
              case Ok(c) => View() == c && reply == Ok("")
              case Err(e) => View() == old(View()) && reply == Err(e)
    {
      if !certType.AmazonIssued? { return Err(InvalidParameter); }
      status := Acm.Revoked;
      revokedAt := Some(now);
      revocationReason := Some(reason);
      return Ok("");
    }

    method Reimport(commonName: string, now: Time) returns (reply: Reply<string>)
      requires Valid()
      modifies this
      ensures Valid()
      ensures match Acm.Reimport(old(View()), commonName, now)
              case Ok(c) => View() == c && reply == Ok("")
              case Err(e) => View() == old(View()) && reply == Err(e)
    {
      if !certType.Imported? { return Err(InvalidParameter); }
      importedAt := Some(now);
      notBefore := now;
      notAfter := now + Acm.LIFETIME;
      domain := commonName;
      sans := [commonName];
      return Ok("");
    }
  }
}
