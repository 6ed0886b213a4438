# fakecloud: certificate services, account management and Amplify jobs, verified

fakecloud emulates AWS services in memory. This project models the state
machines of its two certificate services, ACM Private CA (`fakecloud-acmpca`)
and ACM (`fakecloud-acm`), of Account Management (`fakecloud-account`) and of
the Amplify job allocator (`fakecloud-amplify`), and proves what they promise
over every input, every run and every interleaving. `dafny verify
dfyconfig.toml` checks all of it.

The history modules read a run from its events: for each field a function of the
event sequence says which accepted call wrote it last, a theorem over all runs says
the stored field is that, and the answer theorems say which calls are accepted.

How the system is modelled:

- A handler that works under the write lock is one atomic transition; a run is
  any sequence of transitions, background tasks included. The record types a
  handler mutates are classes, whose methods are proved to perform exactly the
  transition of the same name.
- The clock, random serials, UUIDs and the outcome of key generation are inputs.
  Runs assume a clock that does not go back and identifiers that are new.
- Keys, CSRs and certificates are symbolic: `Sign`, `Certifies` and `OwnCsr`
  stand for the X.509 library. An issued certificate is keyed by its serial,
  which its ARN ends in.
- Statuses, types and errors are enumerations; requests are typed records, with
  an explicit value for an argument that is missing or not recognised.
- Moments are nanoseconds since the Unix epoch; the calendar is the proleptic
  Gregorian one. `i64`, `usize` and `u64` limits are written out wherever the
  code meets them.

The main results:

- **Snapshot writes** (`SnapshotProtocol`): with any number of concurrent callers
  the stored snapshot only moves forward and covers every answered change. The
  one proviso, nobody abandoned in mid-write, is shown to be needed.
- **Certificate authorities** (`PrivateCa`, `PrivateCaRuns`, `CaHistory`,
  `CaCreation`): one invariant links status, key, certificate, issued and revoked
  records under every interleaving; every field of the CA, of its issued and
  revoked records and of its audit report, and every reply, is told by the events
  of the run alone; and creation with a token is settled exactly for
  every interleaving of lookups, inserts, deletes and restores.
- **Validity** (`Calendar`, `Validity`): every `i64` and type resolves without
  overflow to a time an X.509 certificate can carry, with the exact set of
  accepted inputs (section 4.1.2.5.2 of RFC 5280).
- **ACM** (`AcmCertificates`, `CertificateHistory`, `TickRaces`, `Domains`,
  `CertificateListing`, `RegionListing`, `FilterStatements`, `PemKeys`, `Base64`):
  the issue, fail, renew and revoke machine, every field of a certificate told by
  the events of the run; ticks that race with every other call; label-exact domain
  cover; listings of every reachable region; filters; key decoding.
- **ACME** (`Acme`, `AcmeRuns`, `AcmeHistory`, `AcmeRegion`, `EndpointHistory`,
  `BindingHistory`, `ValidationHistory`): parent and child integrity, idempotent
  creates, and every record and reply told by the events of the run alone;
  credentials are handed out exactly while their binding lives, unrevoked and
  unexpired.
- **Snapshot migration** (`SnapshotMigration`, `MigrationSafety`): splitting an
  account-wide state by region loses nothing, and keeps ACME integrity exactly
  when children sit in their endpoint's region.
- **Accounts and jobs** (`PhoneVerification`, `RegionOptIn`, `AccountDirectory`,
  `AmplifyJobs`, `AmplifyApp`, `JobListing`): every answer of the account calls and
  every job number in terms of the calls made so far.

Promises the code does not keep, each with a counterexample and the exact
condition under which it holds:

- CreateCertificateAuthority is not idempotent when calls overlap
  (`CaCreation.OverlapDuplicates`), nor when a CA is restored after its token was
  used again (`CaCreation.RestoreDuplicates`). `CaCreation.OneVisibleExactly` says
  when it is, and `CaCreation.OrderlyCallsAreIdempotent` what callers can do.
- A legacy binding or validation made in another region than its endpoint is
  parted from it by the migration: `MigrationSafety.CrossRegionChildIsStranded`,
  `MigrationSafety.SplitKeepsAcmeExactly`.
- An empty And and an empty Or both accept everything, so De Morgan fails for the
  empty list: `FilterStatements.DeMorganAnd`, `FilterStatements.DeMorganOr`.
- ListJobs says it lists the newest job first, but it reverses the string order
  of the ids, so the tenth build of a branch is listed after the ninth:
  `JobListing.TenthJobIsListedLate`, `JobListing.NewestFirstExactly`,
  `JobListing.NewestFirstBelowTen`.

Where a comment and the code disagree the model follows the code. The comment at
crates/fakecloud-acm/src/service.rs:1441-1446 says And, Or and Not are ignored;
the code evaluates them. The comment at crates/fakecloud-amplify/src/service.rs:1490
promises descending ids; the code sorts strings.

## Model

| member | source | states |
|---|---|---|
| SnapshotProtocol.StartSatisfiesInv | crates/fakecloud-acmpca/src/persistence.rs:16-40 | a service that has saved nothing and has no callers is sound |
| SnapshotProtocol.StepSafe | crates/fakecloud-acmpca/src/persistence.rs:16-40 | no step of any caller (change, lock, clone, write, return, give up before cloning) breaks the invariant or moves the stored snapshot back |
| SnapshotProtocol.StoredSnapshotMovesForward | crates/fakecloud-acmpca/src/persistence.rs:16-40 | over every interleaving of any number of callers the stored snapshot only moves forward in the state history, if nobody is abandoned while their write is under way; failed writes included |
| SnapshotProtocol.ReturnedChangesAreStored | crates/fakecloud-acmpca/src/service.rs:354-356 | once a mutating call has answered with its save done, the stored snapshot is, and for the rest of the run stays, a state at or after that call's own change |
| SnapshotProtocol.AbandonedWriteCanGoBack | crates/fakecloud-account/src/persistence.rs:47-71 | the proviso is needed from every sound state: dropping a caller in mid-write opens a run whose stored snapshot goes back |
| PrivateCa.Prepare | crates/fakecloud-acmpca/src/service.rs:792-866 | a request that passes the checks made before the lock has not_before < not_after, both below year 10000 |
| PrivateCa.Repeated | crates/fakecloud-acmpca/src/service.rs:868-888 | a repeated token collapses onto a stored certificate of that token inside the five-minute window, and onto none only if there is none |
| PrivateCa.PendingSatisfiesInv | crates/fakecloud-acmpca/src/provision.rs:54-93 | a freshly built pending CA satisfies the lifecycle invariant |
| PrivateCa.LifecycleStep | crates/fakecloud-acmpca/src/service.rs:559-790 | update, delete, restore, import, key generation and re-arm touch no issued or revoked record, and a refused call changes nothing |
| PrivateCa.LifecycleKeepsInv | crates/fakecloud-acmpca/src/service.rs:159-213 | keygen completion, re-arm, update, delete, restore and import keep: ACTIVE only with a certificate, a certificate only with a key it certifies, FAILED only without a key, DELETED exactly with restorable_until, CSR exactly that of the key, issued certificates signed by the key |
| PrivateCa.IssueKeepsInv | crates/fakecloud-acmpca/src/service.rs:868-963 | issuing keeps the invariant: every issued certificate is signed by the CA's key, stored under its serial, with an ordered window below year 10000 |
| PrivateCa.KnownIsStored | crates/fakecloud-acmpca/src/service.rs:1030-1034 | the scan for a serial finds exactly the stored serials |
| PrivateCa.RevokeKeepsInv | crates/fakecloud-acmpca/src/service.rs:990-1051 | revoking keeps the invariant, in particular revoked serials are issued serials |
| PrivateCa.RunKeepsInv | crates/fakecloud-acmpca/src/service.rs:159-213 | the invariant holds in every state reachable by any interleaving of handlers, keygen completions (success or failure) and re-arms with a non-decreasing clock and fresh serials |
| PrivateCaRuns.RunExtends | crates/fakecloud-acmpca/src/provision.rs:119-127 | over any run the key and CSR are written at most once, and no issued or revoked record is altered or dropped |
| PrivateCaRuns.IssuedGrowsOnly | crates/fakecloud-acmpca/src/service.rs:890-961 | the issued set grows only by an IssueCertificate, by exactly the serial replied, from an ACTIVE CA or a pending ROOT with a CA template |
| PrivateCaRuns.SelfSignedRootActivates | crates/fakecloud-acmpca/src/service.rs:718-790 | a certificate a ROOT signed from its own CSR can be imported after any further run, and activates the CA, exactly when the CA is not deleted by then |
| PrivateCaRuns.RunKeepsOnePerToken | crates/fakecloud-acmpca/src/service.rs:868-888 | over any run each token has at most one certificate inside its five-minute window |
| PrivateCaRuns.BurstNamesOneCertificate | crates/fakecloud-acmpca/src/service.rs:868-888 | after a successful issue and any further run, any issue with the same token inside the window succeeds, answers with the same certificate and adds nothing, whatever else it asks for |
| PrivateCaRuns.StepRevokes | crates/fakecloud-acmpca/src/service.rs:1000-1049 | one step marks a serial revoked exactly when it is a successful RevokeCertificate that presents it |
| PrivateCaRuns.RevokedExactly | crates/fakecloud-acmpca/src/service.rs:1000-1049 | after any run a serial is revoked exactly when some successful RevokeCertificate of the run presented it, in whatever form |
| PrivateCaRuns.CsvReport | crates/fakecloud-acmpca/src/service.rs:1492-1537 | the CSV loop produces the rows of the JSON format, in the same order |
| PrivateCaRuns.ReportHasOneRowEach | crates/fakecloud-acmpca/src/service.rs:1492-1537 | each issued certificate has exactly one report row |
| PrivateCaRuns.ReportIsExact | crates/fakecloud-acmpca/src/service.rs:1492-1537 | after any run each issued certificate has exactly one row, marked revoked exactly when a RevokeCertificate of the run named it |
| AuthorityObject.CertificateAuthority.constructor | crates/fakecloud-acmpca/src/provision.rs:54-93 | the object starts as the pending CA |
| AuthorityObject.CertificateAuthority.FinishKeygen | crates/fakecloud-acmpca/src/service.rs:179-206 | the task's critical section performs the keygen transition in place and keeps the object valid |
| AuthorityObject.CertificateAuthority.Update | crates/fakecloud-acmpca/src/service.rs:559-603 | performs the update transition in place, reply included |
| AuthorityObject.CertificateAuthority.Delete | crates/fakecloud-acmpca/src/service.rs:605-641 | performs the delete transition in place, reply included |
| AuthorityObject.CertificateAuthority.Restore | crates/fakecloud-acmpca/src/service.rs:643-669 | performs the restore transition in place, reply included: accepted exactly when DELETED, and then DISABLED with a certificate and PENDING_CERTIFICATE without |
| AuthorityObject.CertificateAuthority.Import | crates/fakecloud-acmpca/src/service.rs:718-790 | performs the import transition in place, reply included |
| AuthorityObject.CertificateAuthority.FindRepeat | crates/fakecloud-acmpca/src/service.rs:868-888 | the search loop finds the repeated certificate if there is one |
| AuthorityObject.CertificateAuthority.Issue | crates/fakecloud-acmpca/src/service.rs:868-963 | performs the issue transition in place, reply included: at most one record is added, which certifies the key of the CSR under the CA's key |
| AuthorityObject.CertificateAuthority.Knows | crates/fakecloud-acmpca/src/service.rs:1030-1034 | the search loop decides whether the CA issued the serial |
| AuthorityObject.CertificateAuthority.Revoke | crates/fakecloud-acmpca/src/service.rs:990-1051 | performs the revoke transition in place, reply included |
| CaHistory.CreatedIsNew | crates/fakecloud-acmpca/src/provision.rs:54-93 | the CA that CreateCertificateAuthority stores is sound and a fresh start for everything told below |
| CaHistory.RunTells | crates/fakecloud-acmpca/src/service.rs:559-790 | after every run each lifecycle field is told by the events alone: status, key and CSR, certificate and chain of the last accepted import, restorable-until of the last delete and its number of days, failure reason, last change |
| CaHistory.ActiveExactly | crates/fakecloud-acmpca/src/service.rs:559-790 | a CA is ACTIVE exactly when some accepted import or switch to ACTIVE has had no accepted switch to DISABLED and no accepted delete after it |
| CaHistory.LifecycleAnswers | crates/fakecloud-acmpca/src/service.rs:559-790 | the exact reply, error kinds in their order, of every update, delete, restore and import after every run, from the events alone |
| CaHistory.RelativeWindow | crates/fakecloud-acmpca/src/service.rs:843-866 | a request in days, months or years without a start opens when it is received and ends exactly that long after; it passes exactly when CSR, algorithm and validity are accepted |
| CaHistory.AbsoluteWindow | crates/fakecloud-acmpca/src/service.rs:843-866 | a request that gives both ends as timestamps gets exactly those ends, and passes exactly when they are ordered and in range |
| CaHistory.CaTemplateExactly | crates/fakecloud-acmpca/src/service.rs:837-840 | a template counts as one for authorities exactly when its name mentions CACertificate; the second name looked for adds nothing |
| CaHistory.RestOfRequest | crates/fakecloud-acmpca/src/service.rs:792-866 | what passes the checks enters the critical section unchanged |
| CaHistory.IssueAnswers | crates/fakecloud-acmpca/src/service.rs:868-963 | the exact reply of IssueCertificate after every run: the certificate of the same token if one was issued under five minutes ago; otherwise success exactly when the CA may sign, its key exists and is of the algorithm's family, and the request can be signed |
| CaHistory.IssueRecords | crates/fakecloud-acmpca/src/service.rs:926-961 | a new record certifies the key of the CSR, is signed by the CA's key, carries the whole seconds of the requested window, and keeps the clock reading, template, token, serial and the CA's certificate and chain of that moment |
| CaHistory.IssuedTells | crates/fakecloud-acmpca/src/service.rs:926-961 | every certificate of every run was recorded by one issue event, and still holds what that event asked for |
| CaHistory.CertifiesWhatWasAsked | crates/fakecloud-acmpca/src/validate.rs:182-210 | an issued certificate certifies a key exactly when the CSR of its own issue request was for that key |
| CaHistory.RestoredSignsNothing | crates/fakecloud-acmpca/src/service.rs:643-669 | a CA that is DISABLED with a certificate, as after a restore, issues nothing until an accepted activation, whatever else happens |
| CaHistory.RevokeAnswers | crates/fakecloud-acmpca/src/service.rs:990-1051 | RevokeCertificate succeeds exactly when the reason is known, the CA is active and the presented serial is one of an issued, unrevoked certificate |
| CaHistory.RevokedTells | crates/fakecloud-acmpca/src/service.rs:1036-1049 | a serial is revoked exactly when an accepted revocation named it, with that call's time and reason |
| CaHistory.ReportTells | crates/fakecloud-acmpca/src/service.rs:1492-1537 | each issued certificate has one audit row, holding the window and issue time of its request and the time and reason of its revocation |
| CaCreation.Lookup | crates/fakecloud-acmpca/src/service.rs:455-473 | returns a visible CA of the token, and none only if there is none |
| CaCreation.OneVisibleExactly | crates/fakecloud-acmpca/src/service.rs:455-509 | over every interleaving of lookups, inserts, deletes and restores, one token never shows two CAs exactly when every insert and every restore meets no CA of its token in view |
| CaCreation.RestoreIsSafeExactly | crates/fakecloud-acmpca/src/service.rs:643-669 | a restore keeps one CA per token exactly when the CA has no token, its five minutes are over, or no other CA of the token is in view |
| CaCreation.OrderlyCallsAreIdempotent | crates/fakecloud-acmpca/src/service.rs:451-515 | if no two creates with one token overlap, and no CA with a token is restored inside its window, no token ever shows two CAs |
| CaCreation.RepeatNamesTheOne | crates/fakecloud-acmpca/src/service.rs:455-473 | while a token has one CA in view, a create with it answers with that CA |
| CaCreation.OverlapDuplicates | crates/fakecloud-acmpca/src/service.rs:455-509 | whenever a token is not in view, two creates that both look it up before either inserts mint two CAs for it |
| CaCreation.RestoreDuplicates | crates/fakecloud-acmpca/src/service.rs:643-669 | whenever a token is not in view, create, delete, create again and restore, one call at a time, shows two CAs for it |
| CaCreation.EnsureKeyReady | crates/fakecloud-acmpca/src/service.rs:220-255 | the wait stops at the first reading that is settled (gone, keyed or failed) or past the five-minute deadline |
| Calendar.UnixEpoch | crates/fakecloud-acmpca/src/validate.rs:548-561 | 1970-01-01T00:00:00Z is timestamp 0 |
| Calendar.TimestampIncreases | crates/fakecloud-acmpca/src/validate.rs:548-561 | later civil times have larger timestamps (proleptic Gregorian calendar) |
| Calendar.YearOfCivil | crates/fakecloud-acmpca/src/validate.rs:493-501 | the year of a civil time's timestamp is its year |
| Validity.EnsureRepresentable | crates/fakecloud-acmpca/src/validate.rs:493-501 | the year test accepts exactly the moments before 10000-01-01T00:00:00Z and returns them unchanged |
| Validity.ResolveDays | crates/fakecloud-acmpca/src/validate.rs:527-533 | no day count, however large, overflows: the duration is built only when it fits, and the result is below the ceiling |
| Validity.NeverPastCeiling | crates/fakecloud-acmpca/src/validate.rs:508-544 | for every i64 value and every type the encoded second is at most 9999-12-31T23:59:59Z |
| Validity.RelativeExact | crates/fakecloud-acmpca/src/validate.rs:514-534 | DAYS, MONTHS and YEARS are accepted exactly when positive, within the cap and ending below the ceiling, and then end that many days (30 a month, 365 a year) after the start |
| Validity.RelativeIncreasing | crates/fakecloud-acmpca/src/validate.rs:514-534 | a longer relative validity ends strictly later, and acceptance is downward closed |
| Validity.AbsoluteExact | crates/fakecloud-acmpca/src/validate.rs:536-538 | ABSOLUTE is accepted exactly from chrono's first year through 9999-12-31T23:59:59Z, and resolves to that second |
| Validity.EndDateExact | crates/fakecloud-acmpca/src/validate.rs:548-561 | an END_DATE integer is accepted exactly when it spells a valid civil time of years 0 to 9999, and resolves to that time |
| Validity.EndDateOrder | crates/fakecloud-acmpca/src/validate.rs:548-561 | among accepted END_DATE integers integer order is time order |
| Serials.RandomSerial | crates/fakecloud-acmpca/src/validate.rs:459-469 | a serial is 19 bytes, positive with no leading zero byte, differs from the random bytes in the first byte only, and encodes to the stored form |
| Serials.NormalizeExact | crates/fakecloud-acmpca/src/service.rs:1661-1671 | a string normalises to a stored serial exactly when it presents it: outer white space, at most one 0x, digits in any case with white space and colons between |
| Serials.NormalizeStored | crates/fakecloud-acmpca/src/service.rs:1661-1671 | a stored serial normalises to itself |
| CaPaging.TokenRoundTrip | crates/fakecloud-acmpca/src/service.rs:1598-1609 | an opaque token decodes to the offset it was made from, for every usize |
| CaPaging.PageFrom | crates/fakecloud-acmpca/src/service.rs:1630-1642 | a page is the slice at its token's offset and carries a token exactly when more follows; the saturating addition never shows |
| CaPaging.CaWalkIsComplete | crates/fakecloud-acmpca/src/service.rs:1613-1642 | following NextToken from the first page ends and shows the whole list, each item once, in order |
| AcmCertificates.Existing | crates/fakecloud-acm/src/service.rs:577-598 | a repeated request collapses onto a certificate of the same token, domain, names and validation domains, and onto none only if there is none |
| AcmCertificates.MarkedKeepsAddresses | crates/fakecloud-acm/src/service.rs:206-243 | marking every validation keeps whom it is addressed to and leaves all of them in the new status |
| AcmCertificates.TickOk | crates/fakecloud-acm/src/service.rs:206-243 | the auto-issue tick issues a pending requested certificate at that moment, keeps it sound and keeps what it was requested as |
| AcmCertificates.SetStatusOk | crates/fakecloud-acm/src/service.rs:313-369 | so does the admin status switch, for every status |
| AcmCertificates.RenewOk | crates/fakecloud-acm/src/service.rs:1100-1135 | so does renewal, from any prior state |
| AcmCertificates.RequestedOk | crates/fakecloud-acm/src/service.rs:600-640 | a newly requested certificate is sound |
| AcmCertificates.StepKeepsInv | crates/fakecloud-acm/src/service.rs:479-1164 | request, import, re-import, tick, admin switch, renew, revoke and delete keep every certificate sound and requests unique |
| AcmCertificates.RunKeepsInv | crates/fakecloud-acm/src/service.rs:479-1164 | in every run from the empty region: ISSUED implies an issue time and all validations SUCCESS; an ISSUED AMAZON_ISSUED certificate is ELIGIBLE with a renewal summary equal to its validations; imported ones never become ELIGIBLE; not_after is not_before plus 395 days; EMAIL validations are well addressed; no two certificates answer the same request |
| AcmCertificates.UsedStays | crates/fakecloud-acm/src/service.rs:893-913 | no run deletes a certificate that is in use |
| AcmCertificates.TrailingId | crates/fakecloud-acm/src/service.rs:1835-1845 | the admin endpoint reaches a certificate by its ARN and by the id its ARN ends with |
| TickRaces.AtMostOneTickPerReset | crates/fakecloud-acm/src/service.rs:206-243 | over any run, with any calls between them, the ticks of a certificate that take effect are at most one more than the times it was deleted or switched back to pending |
| TickRaces.LaterTicksDoNothing | crates/fakecloud-acm/src/service.rs:181-243 | once a certificate has left PENDING_VALIDATION every later tick of the run changes nothing, until it is deleted or switched back |
| CertificateObject.StoredCertificate.constructor | crates/fakecloud-acm/src/service.rs:606-640 | the object starts as the given sound certificate |
| CertificateObject.StoredCertificate.MarkAll | crates/fakecloud-acm/src/service.rs:224-226 | the loop marks every validation and nothing else |
| CertificateObject.StoredCertificate.Tick | crates/fakecloud-acm/src/service.rs:206-243 | performs the tick in place: it flips a pending requested certificate to ISSUED at that moment and reports it, or changes nothing |
| CertificateObject.StoredCertificate.SetStatus | crates/fakecloud-acm/src/service.rs:313-369 | performs the admin switch in place |
| CertificateObject.StoredCertificate.Renew | crates/fakecloud-acm/src/service.rs:1100-1135 | performs the renewal in place, or refuses an imported certificate and changes nothing |
| CertificateObject.StoredCertificate.ApplyRenewal | crates/fakecloud-acm/src/service.rs:1118-1133 | the field updates of a renewal give the renewed certificate |
| CertificateObject.StoredCertificate.Revoke | crates/fakecloud-acm/src/service.rs:1137-1164 | performs the revocation in place, or refuses and changes nothing |
| CertificateObject.StoredCertificate.Reimport | crates/fakecloud-acm/src/service.rs:943-970 | performs the re-import in place, or refuses and changes nothing |
| CertificateHistory.RunTells | crates/fakecloud-acm/src/service.rs:479-1164 | after every run a certificate is there exactly when it was made and not deleted since, and every field is what the last event that writes it wrote: status, issue, import, revocation and failure marks, window, names, validations, renewal summary |
| CertificateHistory.RequestIsIssuedExactly | crates/fakecloud-acm/src/service.rs:206-243 | a requested certificate that nobody deletes, revokes or switches is ISSUED exactly when a tick or renewal has run since the request, PENDING_VALIDATION before, and its issue time is that of the last renewal or else the first tick |
| CertificateHistory.CallsAnswer | crates/fakecloud-acm/src/service.rs:893-1164 | the exact replies of renewal, revocation, re-import and deletion after every run, from the events alone |
| CertificateHistory.RequestAnswers | crates/fakecloud-acm/src/service.rs:533-642 | a request is refused exactly for its domain's length or an option; otherwise it is answered with a living certificate whose own request asked for the same, if there is one, and else with a new one |
| Domains.CoversExact | crates/fakecloud-acm/src/service.rs:1902-1909 | a validation domain covers a domain exactly when it is non-empty and its labels are a suffix of the base domain's labels |
| Domains.CoversTransitive | crates/fakecloud-acm/src/service.rs:1902-1909 | covering is transitive |
| Domains.EffectiveSans | crates/fakecloud-acm/src/service.rs:1966-1974 | the primary domain first, then each other requested name once, and no other |
| Domains.BuildEffectiveSans | crates/fakecloud-acm/src/service.rs:1966-1974 | the growing-vector loop builds that list |
| Domains.ParseOptions | crates/fakecloud-acm/src/service.rs:1916-1961 | the options are accepted exactly when there are 1 to 100 and each names a requested domain and a validation domain that covers it; the last option per domain wins |
| Domains.StartedValidationsAreWellAddressed | crates/fakecloud-acm/src/service.rs:1976-2037 | every EMAIL validation made from accepted options is addressed to its own domain or to one that covers it |
| Domains.OptionMapIsLast | crates/fakecloud-acm/src/service.rs:1916-1961 | an option for a name is in force exactly when the list has one, and the last one counts |
| Domains.StartedValidationIs | crates/fakecloud-acm/src/service.rs:1976-2037 | each name starts PENDING under the chosen method; an EMAIL challenge goes to the domain of the last option for the name, or to the name itself |
| Paging.FollowIsRest | crates/fakecloud-acm/src/service.rs:867-877 | pages from an offset are the rest of the list, each item once |
| Paging.IssuedTokensResume | crates/fakecloud-acm/src/service.rs:867-877 | a token the service hands out resumes at the offset it was made from, strictly further on, and never overflows the offset arithmetic |
| Paging.WalkIsComplete | crates/fakecloud-acm/src/service.rs:867-877 | following NextToken from the start ends and gives the whole list |
| CertificateListing.SortIsSorted | crates/fakecloud-acm/src/service.rs:836-862 | sorting gives an ordered arrangement of the same certificates |
| CertificateListing.SortedIsUnique | crates/fakecloud-acm/src/service.rs:836-862 | with ties broken on the ARN there is only one such arrangement |
| CertificateListing.SortIgnoresInputOrder | crates/fakecloud-acm/src/service.rs:836-862 | the listing does not depend on the order the map yields the certificates in |
| CertificateListing.SortThenRetain | crates/fakecloud-acm/src/service.rs:836-866 | sorting and then filtering equals filtering and then sorting |
| CertificateListing.SearchDescendingIsReverse | crates/fakecloud-acm/src/service.rs:1534-1556 | SearchCertificates DESCENDING is the exact reverse of ASCENDING for every sort key, ties included |
| CertificateListing.NewestFirstKeepsArnOrderInTies | crates/fakecloud-acm/src/service.rs:847-853 | ListCertificates DESCENDING by CREATED_AT puts newer first and keeps ARN order inside equal timestamps |
| RegionListing.Collect | crates/fakecloud-acm/src/service.rs:830-834 | collecting yields each certificate of the region once, in some order |
| RegionListing.ListingIsOne | crates/fakecloud-acm/src/service.rs:836-866 | whatever order the map yields its certificates in, sorting then filtering and filtering then sorting give one and the same listing |
| RegionListing.ListingIsExact | crates/fakecloud-acm/src/service.rs:836-866 | the listing of a sound region is sorted, holds each matching certificate exactly once and nothing else |
| RegionListing.ListCertificates | crates/fakecloud-acm/src/service.rs:830-877 | collect, sort, retain and page serves the pages of that listing |
| RegionListing.SearchCertificates | crates/fakecloud-acm/src/service.rs:1508-1565 | collect, retain by status, retain by the FilterStatement if there is one, sort and page serves the pages of the listing of the combined filter |
| RegionListing.RetainMatching | crates/fakecloud-acm/src/service.rs:1520-1522 | the retain loop, with the statement evaluator inside, keeps the entries the statement means |
| RegionListing.FoundIsExact | crates/fakecloud-acm/src/service.rs:1508-1549 | a search holds exactly the region's certificates that pass the status filter and the statement |
| RegionListing.SearchAnd | crates/fakecloud-acm/src/service.rs:1752-1757 | a search for And holds exactly what the searches for all its operands hold |
| RegionListing.SearchOr | crates/fakecloud-acm/src/service.rs:1758-1763 | a search for Or holds exactly what some search for an operand holds |
| RegionListing.AscendingOrder | crates/fakecloud-acm/src/service.rs:1534-1549 | in an ascending search earlier certificates have the smaller field that the sort key names, equal ones in ARN order |
| RegionListing.ListOrder | crates/fakecloud-acm/src/service.rs:836-862 | in a listing certificates come by ARN, or by creation time in the asked direction with equal ones in ARN order |
| RegionListing.WalkShowsEveryMatchOnce | crates/fakecloud-acm/src/service.rs:836-877 | in every region reachable from empty, following NextToken shows each matching certificate exactly once, in order, and nothing else |
| RegionListing.SearchesReverse | crates/fakecloud-acm/src/service.rs:1534-1556 | in every reachable region a DESCENDING search lists the exact reverse of the ASCENDING one |
| FilterStatements.MatchesStatement | crates/fakecloud-acm/src/service.rs:1752-1774 | the early-exit evaluator decides the conjunction of the present operators, on every tree |
| FilterStatements.NegationPartitions | crates/fakecloud-acm/src/service.rs:1515-1522 | a statement and its Not split any list of certificates without loss or overlap |
| FilterStatements.DeMorganAnd | crates/fakecloud-acm/src/service.rs:1752-1774 | Not of an And agrees with the Or of the Nots exactly when there are operands |
| FilterStatements.DeMorganOr | crates/fakecloud-acm/src/service.rs:1752-1774 | Not of an Or agrees with the And of the Nots exactly when there are operands |
| FilterStatements.LeafKeeps | crates/fakecloud-acm/src/service.rs:1764-1773 | a leaf keeps the certificates it matches, and Not keeps the others |
| FilterStatements.AndKeepsIntersection | crates/fakecloud-acm/src/service.rs:1752-1757 | And keeps the certificates that every operand keeps |
| FilterStatements.OrKeepsUnion | crates/fakecloud-acm/src/service.rs:1758-1763 | a non-empty Or keeps the certificates that some operand keeps |
| FilterStatements.MembersIntersect | crates/fakecloud-acm/src/service.rs:1752-1774 | an object with several members keeps what each member alone keeps |
| FilterStatements.OrIsWiderThanAnd | crates/fakecloud-acm/src/service.rs:1752-1774 | a certificate that matches one of two leaves passes their Or and not their And |
| Base64.DecodeEncode | crates/fakecloud-acm/src/service.rs:2412-2415 | decoding an encoding gives the bytes back |
| Base64.DecodeExact | crates/fakecloud-acm/src/service.rs:2412-2415 | a text decodes to given bytes exactly when it is their padded encoding (section 4 of RFC 4648) |
| PemKeys.BodyStart | crates/fakecloud-acm/src/service.rs:2381-2395 | the position found lies inside the text, so no slice is out of range |
| PemKeys.DecodesExactly | crates/fakecloud-acm/src/service.rs:2380-2416 | a text decodes to given bytes exactly when the block from its first BEGIN to its first END is a PRIVATE KEY block whose body spells them in base64, whatever the white space and the surrounding text (section 10 of RFC 7468) |
| PemKeys.PlainBlockDecodes | crates/fakecloud-acm/src/service.rs:2380-2416 | in particular every block with no dash before it or in the rest of its BEGIN line decodes to the bytes its body spells |
| AcmeRuns.StepKeepsInv | crates/fakecloud-acm/src/acme.rs:252-912 | every ACME handler keeps: children name an existing endpoint, an account's binding exists on the same endpoint, one validation per endpoint and domain, one resource per token |
| AcmeRuns.DeleteEndpointKeepsInv | crates/fakecloud-acm/src/acme.rs:414-432 | deleting an endpoint strands no child |
| AcmeRuns.BindingStepKeepsLinks | crates/fakecloud-acm/src/acme.rs:586-652 | deleting, revoking or creating a binding leaves no account linked to a missing binding |
| AcmeRuns.CreateKeepsValidations | crates/fakecloud-acm/src/acme.rs:656-742 | creating a validation keeps one per endpoint and domain and one per endpoint and token |
| AcmeRuns.RunKeepsInv | crates/fakecloud-acm/src/acme.rs:252-912 | the invariant holds after every run, whatever the order of calls |
| AcmeHistory.RefusedChangesNothing | crates/fakecloud-acm/src/acme.rs:374-411 | a refused call changes nothing |
| AcmeHistory.RunKeepsBinding | crates/fakecloud-acm/src/acme.rs:586-652 | over any run a binding keeps its endpoint, secret, expiry and token, and a revocation is never taken back |
| AcmeHistory.WithdrawnCredentialsStayWithdrawn | crates/fakecloud-acm/src/acme.rs:627-652 | once a binding is revoked, expired or gone, no later fetch of its credentials succeeds, whatever happens in between (section 7.3.4 of RFC 8555) |
| AcmeHistory.EndpointCreateRepeats | crates/fakecloud-acm/src/acme.rs:284-298 | while an endpoint lives, a valid create with its token answers with it and makes nothing |
| AcmeHistory.BindingCreateRepeats | crates/fakecloud-acm/src/acme.rs:498-515 | while a binding and its endpoint live, a create with its token on that endpoint answers with it and makes nothing |
| AcmeHistory.ValidationSurvives | crates/fakecloud-acm/src/acme.rs:744-830 | over any run a validation stays until it or its endpoint is deleted, and VALID never reverts |
| AcmeHistory.OneValidationPerDomain | crates/fakecloud-acm/src/acme.rs:680-708 | while a domain is under validation a further create for it adds nothing: the same token repeats, no token is a conflict |
| EndpointHistory.RunTells | crates/fakecloud-acm/src/acme.rs:252-432 | after every run an endpoint is there exactly when it was made and not deleted since, with the contact and authority last given, its update time that of the last accepted update |
| EndpointHistory.CreateAnswers | crates/fakecloud-acm/src/acme.rs:252-330 | the exact reply of every endpoint create: refused for an argument, the living endpoint made with the same token, or a new one |
| EndpointHistory.UpdateAnswers | crates/fakecloud-acm/src/acme.rs:361-412 | an update is refused exactly for a missing endpoint or an argument that is not recognised |
| EndpointHistory.AccountsTell | crates/fakecloud-acm/src/acme.rs:607-912 | an account lives until its endpoint is deleted, is linked until its binding is deleted, and is revoked exactly when a revocation was accepted |
| EndpointHistory.RevokeAccountAnswers | crates/fakecloud-acm/src/acme.rs:890-912 | the exact reply of every account revocation, from the events alone |
| BindingHistory.RunTells | crates/fakecloud-acm/src/acme.rs:447-652 | after every run a binding is there exactly when it was made and neither it nor its endpoint was deleted since; it holds what its create gave, is revoked by the first accepted revocation at that time, and was last used by the last fetch that was answered |
| BindingHistory.CredentialsExactly | crates/fakecloud-acm/src/acme.rs:627-652 | a fetch answers with the key id and secret its create call gave exactly when the binding lives, has not been revoked and has not expired; the exact error otherwise |
| BindingHistory.RevocationAnswers | crates/fakecloud-acm/src/acme.rs:586-605 | a revocation succeeds exactly on a living binding that was not revoked before |
| BindingHistory.RevocationWithdraws | crates/fakecloud-acm/src/acme.rs:586-652 | after an accepted revocation every later fetch is refused and changes nothing, whatever happens in between (section 7.3.4 of RFC 8555) |
| ValidationHistory.RunTells | crates/fakecloud-acm/src/acme.rs:656-830 | after every run a validation is there exactly when it was made and neither it nor its endpoint was deleted since; it is VALID exactly when it was described since, with the scope and zone last given |
| ValidationHistory.DescribeAnswers | crates/fakecloud-acm/src/acme.rs:744-763 | a describe answers with a VALID record of the domain, scope and zone the events gave, or not found |
| ValidationHistory.UpdateAnswers | crates/fakecloud-acm/src/acme.rs:784-816 | the exact reply of every validation update, from the events alone |
| ValidationHistory.CreateAnswers | crates/fakecloud-acm/src/acme.rs:656-742 | the exact reply of every validation create: bad scope, no endpoint, the one made with the same token, a domain already validated, or a new one |
| ValidationHistory.CreateBindingAnswers | crates/fakecloud-acm/src/acme.rs:447-549 | the exact reply of every binding create: no endpoint, the one made with the same token, or a new one |
| AcmeRegion.Region.constructor | crates/fakecloud-acm/src/state.rs:87-103 | an untouched region is consistent and empty |
| AcmeRegion.Region.FindEndpoint | crates/fakecloud-acm/src/acme.rs:287-293 | the search finds an endpoint of the token, and none only if there is none |
| AcmeRegion.Region.FindBinding | crates/fakecloud-acm/src/acme.rs:502-512 | the search finds a binding of the endpoint and token, and none only if there is none |
| AcmeRegion.Region.FindValidation | crates/fakecloud-acm/src/acme.rs:684-693 | the search finds a validation of the endpoint and token, and none only if there is none |
| AcmeRegion.Region.AnyValidates | crates/fakecloud-acm/src/acme.rs:699-704 | decides whether the domain is already under validation on the endpoint |
| AcmeRegion.Region.CreateEndpoint | crates/fakecloud-acm/src/acme.rs:252-330 | performs the create transition on the maps, reply included, and keeps them consistent |
| AcmeRegion.Region.UpdateEndpoint | crates/fakecloud-acm/src/acme.rs:361-412 | all arguments are checked before any is applied; performs the update transition and keeps consistency |
| AcmeRegion.Region.DeleteEndpoint | crates/fakecloud-acm/src/acme.rs:414-432 | removes the endpoint and everything that belongs to it, and keeps consistency |
| AcmeRegion.Region.CreateBinding | crates/fakecloud-acm/src/acme.rs:496-549 | performs the create transition, reply included, and keeps consistency |
| AcmeRegion.Region.RevokeBinding | crates/fakecloud-acm/src/acme.rs:586-605 | performs the revoke transition, reply included, and keeps consistency; a revoked binding holds the time and is no longer usable |
| AcmeRegion.Region.UnlinkAccounts | crates/fakecloud-acm/src/acme.rs:619-623 | the loop unlinks exactly the accounts linked to the binding |
| AcmeRegion.Region.DeleteBinding | crates/fakecloud-acm/src/acme.rs:607-625 | performs the delete transition and keeps consistency |
| AcmeRegion.Region.GetCredentials | crates/fakecloud-acm/src/acme.rs:627-652 | hands out the secret and stamps its use, or refuses and changes nothing; keeps consistency |
| AcmeRegion.Region.CreateValidation | crates/fakecloud-acm/src/acme.rs:656-742 | performs the create transition, reply included, and keeps consistency |
| AcmeRegion.Region.DescribeValidation | crates/fakecloud-acm/src/acme.rs:744-763 | settles a validation on first sight and answers with the settled record; keeps consistency |
| AcmeRegion.Region.UpdateValidation | crates/fakecloud-acm/src/acme.rs:784-816 | performs the update transition, reply included, and keeps consistency |
| AcmeRegion.Region.DeleteValidation | crates/fakecloud-acm/src/acme.rs:818-830 | performs the delete transition and keeps consistency |
| AcmeRegion.Region.RevokeAccount | crates/fakecloud-acm/src/acme.rs:890-912 | performs the revoke transition, reply included, and keeps consistency |
| SnapshotMigration.MintedArnNamesRegion | crates/fakecloud-aws/src/arn.rs:139-142 | an ARN of the minted form names the region it was minted with |
| SnapshotMigration.AtIsShare | crates/fakecloud-acm/src/state.rs:37-43 | region_mut hands out a region's share of the records seen so far, whether or not the region exists yet |
| SnapshotMigration.PlaceCertificates | crates/fakecloud-acm/src/state.rs:426-430 | the loop adds each certificate to its region's share and disturbs nothing else |
| SnapshotMigration.PlaceEndpoints | crates/fakecloud-acm/src/state.rs:431-435 | the same for endpoints |
| SnapshotMigration.PlaceBindings | crates/fakecloud-acm/src/state.rs:436-440 | the same for bindings |
| SnapshotMigration.PlaceValidations | crates/fakecloud-acm/src/state.rs:441-445 | the same for domain validations |
| SnapshotMigration.PlaceAccounts | crates/fakecloud-acm/src/state.rs:446-450 | the same for accounts, which follow their endpoint |
| SnapshotMigration.SplitLegacyAccount | crates/fakecloud-acm/src/state.rs:404-451 | the five loops together compute the split of the account by region |
| MigrationSafety.SplitConserves | crates/fakecloud-acm/src/state.rs:404-451 | each certificate, endpoint, binding, validation and account is in exactly one region, the one its (or its endpoint's) ARN names or else the default, unchanged; nothing else appears; the configuration stays in the default region |
| MigrationSafety.SplitKeepsAcmeExactly | crates/fakecloud-acm/src/state.rs:431-450 | every region satisfies the ACME invariant after the split exactly when every binding and validation sits in its endpoint's region |
| MigrationSafety.CrossRegionChildIsStranded | crates/fakecloud-acm/src/state.rs:431-440 | an endpoint minted in one region with a binding minted in another is consistent before the split and leaves an inconsistent region after it |
| MigrationSafety.ParseSnapshot | crates/fakecloud-acm/src/state.rs:376-402 | a newer snapshot comes back without state, a current one as it is, an older one as version 3 with every account split from its own records alone |
| PhoneVerification.RunTells | crates/fakecloud-account/src/service.rs:248-343 | after any history the record, if any, is for the current number, exists exactly when a code was sent for it, and is verified exactly when the code was then entered |
| PhoneVerification.StatusIsExact | crates/fakecloud-account/src/service.rs:790-806 | VERIFIED is reported exactly when, since the number last changed, a code was sent and then entered, PENDING exactly when it was sent and not entered; going back to an old number revives nothing |
| AccountDirectory.AccountsAreIndependent | crates/fakecloud-account/src/service.rs:220-599 | an account's contact is what its own phone calls made it and its regions what its own region calls made them, whatever the calls to other accounts in between |
| AccountDirectory.EntriesAreMadeByPassingCalls | crates/fakecloud-account/src/service.rs:220-599 | an account has an entry exactly when one of its calls got past its checks; failed calls create none |
| AccountDirectory.Directory.constructor | crates/fakecloud-account/src/service.rs:220-599 | no accounts and no calls at first |
| AccountDirectory.Directory.PutContactInformation | crates/fakecloud-account/src/service.rs:220-263 | a complete contact with a number is stored, anything else refused; a changed number starts unverified and the same number keeps its status |
| AccountDirectory.Directory.GetContactInformation | crates/fakecloud-account/src/service.rs:265-278 | the status shown is exactly what the account's calls amount to |
| AccountDirectory.Directory.SendPhoneNumberVerification | crates/fakecloud-account/src/service.rs:280-309 | by the account's calls so far: no number is not found, a number whose code was entered is a conflict, otherwise the number becomes pending |
| AccountDirectory.Directory.VerifyPhoneNumber | crates/fakecloud-account/src/service.rs:311-348 | by the account's calls so far: the number becomes verified exactly when a code is outstanding for it and that code is given; every refusal has its cause |
| AccountDirectory.Directory.SetRegion | crates/fakecloud-account/src/service.rs:576-599 | a toggle is accepted exactly for opt-in regions |
| AccountDirectory.Directory.GetRegionOptStatus | crates/fakecloud-account/src/service.rs:491-505 | a known region's status is the outcome of the account's last accepted toggle of it, or else its default |
| AccountDirectory.Directory.ListRegions | crates/fakecloud-account/src/service.rs:507-566 | a listing is a page of the filtered regions with every toggle of the account in effect |
| RegionOptIn.StepRefines | crates/fakecloud-account/src/service.rs:491-599 | each call on the lazily settled store answers as the eager store would and keeps the two related |
| RegionOptIn.AnswersAsIfEager | crates/fakecloud-account/src/service.rs:491-599 | after any calls, every further call answers as if changes took effect at once |
| RegionOptIn.ReadsReportLastToggle | crates/fakecloud-account/src/service.rs:491-505 | after any calls, asking the lazily settled store for a region answers with the outcome of the last accepted toggle, or else the default |
| RegionOptIn.AnswersAreSettled | crates/fakecloud-account/src/service.rs:664-672 | after any calls no answer of the lazily settled store, to a read or a listing, shows ENABLING or DISABLING |
| RegionOptIn.PageIsSlice | crates/fakecloud-account/src/service.rs:549-565 | a page is the slice at its offset, and its token resumes at the next offset |
| RegionOptIn.PagesAreTheListing | crates/fakecloud-account/src/service.rs:507-566 | after any calls, calling list_regions and following NextToken, each call settling the store, returns exactly the filtered list of outcomes |
| RegionOptIn.DefaultsAre | crates/fakecloud-account/src/state.rs:112-123 | a region nobody toggled is DISABLED if it is opt-in and ENABLED_BY_DEFAULT otherwise |
| RegionOptIn.ListingHolds | crates/fakecloud-account/src/service.rs:543-552 | after every run a listing goes through the table in order and holds each region whose outcome the filter shows, once, with that outcome |
| RegionOptIn.ListingAnswers | crates/fakecloud-account/src/service.rs:519-565 | a listing is refused exactly when the page size is not 1 to 50 or the token is no number; without either it is the first fifty regions |
| RegionOptIn.SettleAll | crates/fakecloud-account/src/service.rs:538-542 | the loop settles exactly the overrides of listed regions |
| AmplifyJobs.NextIdIsUnused | crates/fakecloud-amplify/src/service.rs:1318-1327 | the next number names no stored job, so allocation overwrites nothing |
| AmplifyJobs.StepKeepsInv | crates/fakecloud-amplify/src/service.rs:737-1635 | every handler keeps: jobs and counters only for existing branches, every id the decimal of a positive number below the counter, every summary under its own jobId |
| AmplifyJobs.RunKeepsInv | crates/fakecloud-amplify/src/service.rs:737-1635 | the invariant holds after every run of fewer than 2^64 - 2 calls, and the u64 counter does not wrap |
| AmplifyJobs.NumbersAreConsecutive | crates/fakecloud-amplify/src/service.rs:1318-1327 | a branch hands out 1, 2, 3, ... while it lives, deleted jobs included, and starts again at 1 once deleted |
| AmplifyJobs.AnswerIsTaken | crates/fakecloud-amplify/src/service.rs:1340-1395 | a call that takes a number answers with it and files the job under it |
| AmplifyApp.AppRecord.constructor | crates/fakecloud-amplify/src/service.rs:737-763 | an app starts without branches, jobs or counters |
| AmplifyApp.AppRecord.NextNumber | crates/fakecloud-amplify/src/service.rs:1318-1322 | by the calls so far the counter is one more than the numbers handed out, and no job has that number |
| AmplifyApp.AppRecord.CreateBranch | crates/fakecloud-amplify/src/service.rs:737-763 | a new branch has no jobs and starts at number 1; an existing one is refused and nothing changes |
| AmplifyApp.AppRecord.DeleteBranch | crates/fakecloud-amplify/src/service.rs:829-849 | a deleted branch leaves no job and no counter behind, and no other branch is touched |
| AmplifyApp.AppRecord.TakeNumber | crates/fakecloud-amplify/src/service.rs:1318-1327 | the id is one more than the numbers handed out and was unused; every other job stays; the counter moves by one |
| AmplifyApp.AppRecord.AllocateJob | crates/fakecloud-amplify/src/service.rs:1318-1338 | the new job is filed under the next, unused number and the branch names it active; no other branch is touched |
| AmplifyApp.AppRecord.StartJob | crates/fakecloud-amplify/src/service.rs:1340-1395 | a known job id starts over under that id, anything else becomes a new job under the next number; one job changes and no other branch is touched |
| AmplifyApp.AppRecord.StopJob | crates/fakecloud-amplify/src/service.rs:1417-1444 | cancels that job and nothing else, or refuses an unknown id |
| AmplifyApp.AppRecord.DeleteJob | crates/fakecloud-amplify/src/service.rs:1446-1470 | drops that job and nothing else; its number is not handed out again |
| AmplifyApp.AppRecord.CreateDeployment | crates/fakecloud-amplify/src/service.rs:1503-1562 | reserves the next, unused number; without the branch it answers and reserves nothing |
| JobListing.StringOrderIs | crates/fakecloud-amplify/src/service.rs:1490-1491 | decimal strings order like numbers exactly when cutting the longer one to the shorter one's length leaves it no smaller |
| JobListing.JobIdsAreNumbers | crates/fakecloud-amplify/src/service.rs:1318-1327 | in every reachable state the keys ListJobs sorts are the decimals of the branch's job numbers |
| JobListing.NewestFirstExactly | crates/fakecloud-amplify/src/service.rs:1490-1491 | ListJobs lists the newest job first exactly when no job's number exceeds the leading digits of a later one's |
| JobListing.NewestFirstBelowTen | crates/fakecloud-amplify/src/service.rs:1472-1499 | in every reachable state a branch whose jobs were never deleted lists the newest job first exactly while it has fewer than ten jobs |
| JobListing.TenthJobIsListedLate | crates/fakecloud-amplify/src/service.rs:1490-1491 | on any new branch nine builds are listed in order and the tenth breaks it |

## Left out

- Other CAs of the account: a handler looks up one CA and works on that record alone, so the model follows one CA; a missing CA is refused before any transition.
- Requests and replies as JSON, and their rendering: the typed arguments of a transition stand for a parsed body.
- X.509, key generation, key encryption and signature algorithms: symbolic, as described above; the extensions and subject of an issued certificate are not modelled, since no state depends on them.
- Tags, permissions, resource policies and account configuration of the certificate services: plain map updates with no invariant across them.
- Delivery of audit reports to S3, and the text of the CSV and JSON formats: `ReportIsExact` is about the rows.
- The wake-up of `ensure_key_ready`: it takes its notifier before it starts to wait, so only its exit condition and deadline are stated.
- Eventual key generation: restoring a CA deleted during key generation arms no new task, so nothing says a pending CA ever gets a key.
- Which certificates get a tick: creation arms DNS and HTTP, re-arming only DNS; a tick may come at any time in the model.
- Windows of issued certificates are about the stored times; the clamping of times no X.509 library can encode is not modelled.
- The order of a BTreeMap search where several records could match: left open in `PrivateCa.Repeated`, `AcmCertificates.Existing` and the ACME creates, where uniqueness makes it irrelevant, and in `AcmCertificates.Addressed`, where the admin call takes one of the certificates the ARN or id names.
- The admin status lookup across accounts and regions: the model works in one region.
- Paging.PageAt: reports Overflow where the unchecked offset addition of a client-made token would wrap or panic, and does not say which.
- Expiration arguments of ACME bindings arrive resolved to a moment.
- ACME accounts are keyed by the pair of endpoint and account URL that the state documents as their key; no handler creates one, so runs start from any consistent state that holds some.
- Non-ASCII case folding: `Serials.Normalize` lowers ASCII letters, which is what hex digits need; other characters never make a stored serial.
- The leaf filters of FilterStatement: a parameter of the evaluator.
- The table of AWS regions: a parameter of `RegionOptIn`.
- Alternate contacts, account names and the primary email of an account: fields apart from the contact and the regions, which no modelled call reads.
- Amplify apps, webhooks, domains, artifacts, `totalNumberOfJobs` (which only job starts refresh) and the settling of job statuses.
- AmplifyJobs.RunKeepsInv: bounded to runs of fewer than 2^64 - 2 calls, because beyond that the u64 counter wraps and ids do repeat; the methods of `AmplifyApp.AppRecord` and the results of `JobListing` carry the same bound.
- CloudFormation provisioning of the same state, logging, environment variables and the HTTP layer.
- Loading a snapshot at start (`load_into`) beyond the ACM version branches.
