// What an ACM certificate is and what the calls answer, told by the events of the
// run alone (crates/fakecloud-acm/src/service.rs). For each field: the last event
// that wrote it.

module CertificateHistory {
  import opened Common
  import opened Validity
  import opened Domains
  import opened AcmCertificates

  ghost function Now(events: seq<Event>): State { Run(map[], events) }

  // ---- reading a run ----

  // The last event made the certificate: an import under this ARN, or a request
  // that was answered with it.
  ghost predicate Born(events: seq<Event>, arn: string) {
    events != [] &&
    var e := events[|events| - 1];
    || (e.op.Imports? && e.op.newArn == arn)
    || (e.op.Requests? && e.op.newArn == arn && Step(Now(events[..|events| - 1]), e.op, e.now).reply == Ok(arn))
  }

  // It was made, and not deleted since.
  ghost predicate Lives(events: seq<Event>, arn: string) {
    events != [] && (Born(events, arn) || (events[|events| - 1].op != Deletes(arn) && Lives(events[..|events| - 1], arn)))
  }

  // It was requested, not imported.
  ghost predicate Amazon(events: seq<Event>, arn: string) {
    events != [] &&
    if Born(events, arn) then events[|events| - 1].op.Requests? else Amazon(events[..|events| - 1], arn)
  }

  // The admin switch found this certificate.
  ghost predicate Switched(before: seq<Event>, op: Op, arn: string) {
    op.AdminSets? && Addressed(Now(before), op.arnOrId) == Some(arn)
  }

  // A tick that finds a requested certificate pending, a renewal of a requested
  // one, a switch to ISSUED.
  ghost predicate TickTakes(before: seq<Event>, op: Op, arn: string) {
    op == Ticks(arn) && Lives(before, arn) && Amazon(before, arn) && StatusBy(before, arn) == PendingValidation
  }

  ghost predicate RenewTakes(before: seq<Event>, op: Op, arn: string) {
    op == Renews(arn) && Lives(before, arn) && Amazon(before, arn)
  }

  ghost predicate RevokeTakes(before: seq<Event>, op: Op, arn: string) {
    op.Revokes? && op.arn == arn && Lives(before, arn) && Amazon(before, arn)
  }

  ghost predicate ReimportTakes(before: seq<Event>, op: Op, arn: string) {
    op.Reimports? && op.arn == arn && Lives(before, arn) && !Amazon(before, arn)
  }

  // ---- field by field ----

  ghost function StatusBy(events: seq<Event>, arn: string): CertStatus
    decreases |events|, 1
  {
    if events == [] then PendingValidation
    else
      var before, op := events[..|events| - 1], events[|events| - 1].op;
      if Born(events, arn) then (if op.Requests? then PendingValidation else Issued)
      else if op == Ticks(arn) && Lives(before, arn) && Amazon(before, arn) && StatusBy(before, arn) == PendingValidation then Issued
      else if Switched(before, op, arn) then op.status
      else if RenewTakes(before, op, arn) then Issued
      else if RevokeTakes(before, op, arn) then Revoked
      else StatusBy(before, arn)
  }

  // The last event issued the certificate.
  ghost predicate IssuesNow(events: seq<Event>, arn: string) {
    events != [] &&
    var before, op := events[..|events| - 1], events[|events| - 1].op;
    TickTakes(before, op, arn) || RenewTakes(before, op, arn) || (Switched(before, op, arn) && op.status == Issued)
  }

  ghost function IssuedAtBy(events: seq<Event>, arn: string): Option<Time> {
    if events == [] then None
    else
      var e := events[|events| - 1];
      if Born(events, arn) then (if e.op.Imports? then Some(e.now) else None)
      else if IssuesNow(events, arn) then Some(e.now)
      else IssuedAtBy(events[..|events| - 1], arn)
  }

  // The window starts with the request, import, re-import or renewal.
  ghost function StartBy(events: seq<Event>, arn: string): Time {
    if events == [] then 0
    else
      var before, e := events[..|events| - 1], events[|events| - 1];
      if Born(events, arn) || RenewTakes(before, e.op, arn) || ReimportTakes(before, e.op, arn) then e.now
      else StartBy(before, arn)
  }

  ghost function ImportedAtBy(events: seq<Event>, arn: string): Option<Time> {
    if events == [] then None
    else
      var before, e := events[..|events| - 1], events[|events| - 1];
      if Born(events, arn) then (if e.op.Imports? then Some(e.now) else None)
      else if ReimportTakes(before, e.op, arn) then Some(e.now)
      else ImportedAtBy(before, arn)
  }

  ghost function RevocationBy(events: seq<Event>, arn: string): Option<(Time, string)> {
    if events == [] || Born(events, arn) then None
    else
      var before, e := events[..|events| - 1], events[|events| - 1];
      if RevokeTakes(before, e.op, arn) then Some((e.now, e.op.why)) else RevocationBy(before, arn)
  }

  ghost function FailureBy(events: seq<Event>, arn: string): Option<string> {
    if events == [] || Born(events, arn) then None
    else
      var before, op := events[..|events| - 1], events[|events| - 1].op;
      if RenewTakes(before, op, arn) || (Switched(before, op, arn) && op.status == Issued) then None
      else if Switched(before, op, arn) && op.reason.Some? then op.reason
      else FailureBy(before, arn)
  }

  // What the last renewal round was: its kind and moment. Only requested
  // certificates have one.
  ghost function RenewalBy(events: seq<Event>, arn: string): Option<(RenewalStatus, Time)> {
    if events == [] || Born(events, arn) then None
    else
      var before, e := events[..|events| - 1], events[|events| - 1];
      if IssuesNow(events, arn) && Amazon(before, arn)
      then Some((if RenewTakes(before, e.op, arn) then RenewalSuccess else PendingAutoRenewal, e.now))
      else RenewalBy(before, arn)
  }

  ghost function OutcomeBy(events: seq<Event>, arn: string): ValidationStatus {
    if events == [] || Born(events, arn) then Pending
    else
      var before, op := events[..|events| - 1], events[|events| - 1].op;
      if IssuesNow(events, arn) then Success
      else if Switched(before, op, arn) && op.status == Failed then ValidationFailed
      else if Switched(before, op, arn) && op.status == ValidationTimedOut then TimedOut
      else OutcomeBy(before, arn)
  }

  // The names come from the request, or from the last import of the ARN.
  ghost function NamesBy(events: seq<Event>, arn: string): (string, seq<string>) {
    if events == [] then ("", [])
    else
      var before, op := events[..|events| - 1], events[|events| - 1].op;
      if Born(events, arn) && op.Requests? then (op.request.domain, EffectiveSans(op.request.domain, op.request.extras))
      else if Born(events, arn) && op.Imports? then (op.commonName, [op.commonName])
      else if ReimportTakes(before, op, arn) then (op.commonName, [op.commonName])
      else NamesBy(before, arn)
  }

  // The event that made it.
  ghost function BirthBy(events: seq<Event>, arn: string): Option<Event> {
    if events == [] then None
    else if Born(events, arn) then Some(events[|events| - 1])
    else BirthBy(events[..|events| - 1], arn)
  }

  // The validations the request asked for.
  function Asked(birth: Op): seq<DomainValidation> {
    if birth.Requests?
    then StartValidations(EffectiveSans(birth.request.domain, birth.request.extras), birth.request.method_,
                          OptionMap(birth.request.options))
    else []
  }

  // ---- the certificate tells its history ----

  ghost predicate MarksTell(c: Certificate, events: seq<Event>, arn: string) {
    && c.status == StatusBy(events, arn)
    && c.issuedAt == IssuedAtBy(events, arn)
    && c.failureReason == FailureBy(events, arn)
    && (c.eligible <==> RenewalBy(events, arn).Some?)
  }

  ghost predicate DatesTell(c: Certificate, events: seq<Event>, arn: string) {
    && c.notBefore == StartBy(events, arn) && c.notAfter == StartBy(events, arn) + 395 * DAY
    && c.importedAt == ImportedAtBy(events, arn)
    && c.revokedAt == (if RevocationBy(events, arn).Some? then Some(RevocationBy(events, arn).value.0) else None)
    && c.revocationReason == (if RevocationBy(events, arn).Some? then Some(RevocationBy(events, arn).value.1) else None)
    && (c.domain, c.sans) == NamesBy(events, arn)
  }

  ghost predicate BirthTells(c: Certificate, events: seq<Event>, arn: string) {
    && BirthBy(events, arn).Some?
    && var birth := BirthBy(events, arn).value;
    && (birth.op.Requests? || birth.op.Imports?)
    && c.arn == arn && c.createdAt == birth.now && c.inUseBy == []
    && (c.certType.AmazonIssued? <==> Amazon(events, arn)) && (Amazon(events, arn) <==> birth.op.Requests?)
    && c.token == (if birth.op.Requests? then birth.op.request.token else None)
    && c.validationMethod == (if birth.op.Requests? then Some(birth.op.request.method_) else None)
    && c.keyAlgorithm == if birth.op.Requests? then birth.op.request.keyAlgorithm else "RSA_2048"
  }

  ghost predicate ValidationsTell(c: Certificate, events: seq<Event>, arn: string) {
    && BirthBy(events, arn).Some?
    && var asked := Asked(BirthBy(events, arn).value.op);
    && c.validations == Marked(asked, OutcomeBy(events, arn))
    && (c.summary.Some? <==> RenewalBy(events, arn).Some?)
    && (c.summary.Some? ==>
          c.summary.value == RenewalSummary(RenewalBy(events, arn).value.0, Marked(asked, Success), RenewalBy(events, arn).value.1))
  }

  ghost predicate Tells(c: Certificate, events: seq<Event>, arn: string) {
    MarksTell(c, events, arn) && DatesTell(c, events, arn) && BirthTells(c, events, arn) && ValidationsTell(c, events, arn)
  }

  ghost predicate RegionTells(events: seq<Event>, arn: string) {
    && (arn in Now(events) <==> Lives(events, arn))
    && (arn in Now(events) ==> Tells(Now(events)[arn], events, arn))
  }

  // ---- one event at a time ----

  // The last event has to do with this certificate.
  ghost predicate Concerns(events: seq<Event>, arn: string) {
    events != [] &&
    var before, op := events[..|events| - 1], events[|events| - 1].op;
    || Born(events, arn) || Switched(before, op, arn)
    || op == Ticks(arn) || op == Renews(arn) || op == Deletes(arn)
    || (op.Revokes? && op.arn == arn) || (op.Reimports? && op.arn == arn)
  }

  ghost predicate Ready(events: seq<Event>, arn: string) {
    events != [] && ValidRun(map[], events) && Inv(Now(events[..|events| - 1])) && RegionTells(events[..|events| - 1], arn)
  }

  predicate Targets(op: Op, arn: string) {
    match op
    case Ticks(a) => a == arn
    case Renews(a) => a == arn
    case Deletes(a) => a == arn
    case Revokes(a, _) => a == arn
    case Reimports(a, _) => a == arn
    case _ => false
  }

  lemma StepSpares(state: State, op: Op, now: Time, arn: string)
    requires !Targets(op, arn) && !(op.AdminSets? && Addressed(state, op.arnOrId) == Some(arn))
    requires !(op.Imports? && op.newArn == arn)
    requires op.Requests? && op.newArn == arn ==> Step(state, op, now).reply != Ok(arn)
    ensures var next := Step(state, op, now).state;
            (arn in next <==> arn in state) && (arn in state ==> next[arn] == state[arn])
  {
    match op
    case Requests(r, newArn) =>
    case AdminSets(arnOrId, status, reason) =>
    case _ =>
  }

  lemma BystanderState(events: seq<Event>, arn: string)
    requires Ready(events, arn) && !Concerns(events, arn)
    ensures var was, now := Now(events[..|events| - 1]), Now(events);
            (arn in now <==> arn in was) && (arn in was ==> now[arn] == was[arn])
  {
    var e := events[|events| - 1];
    StepSpares(Now(events[..|events| - 1]), e.op, e.now, arn);
  }

  lemma BystanderHistory(events: seq<Event>, arn: string)
    requires events != [] && !Concerns(events, arn)
    ensures var before := events[..|events| - 1];
            && Lives(events, arn) == Lives(before, arn) && Amazon(events, arn) == Amazon(before, arn)
            && StatusBy(events, arn) == StatusBy(before, arn) && IssuedAtBy(events, arn) == IssuedAtBy(before, arn)
            && FailureBy(events, arn) == FailureBy(before, arn) && RenewalBy(events, arn) == RenewalBy(before, arn)
  {
  }

  lemma BystanderDates(events: seq<Event>, arn: string)
    requires events != [] && !Concerns(events, arn)
    ensures var before := events[..|events| - 1];
            && StartBy(events, arn) == StartBy(before, arn) && ImportedAtBy(events, arn) == ImportedAtBy(before, arn)
            && RevocationBy(events, arn) == RevocationBy(before, arn) && NamesBy(events, arn) == NamesBy(before, arn)
            && BirthBy(events, arn) == BirthBy(before, arn) && OutcomeBy(events, arn) == OutcomeBy(before, arn)
  {
  }

  lemma BystanderTells(events: seq<Event>, arn: string)
    requires Ready(events, arn) && !Concerns(events, arn)
    ensures RegionTells(events, arn)
  {
    BystanderState(events, arn);
    BystanderHistory(events, arn);
    BystanderDates(events, arn);
  }

  lemma MarkedTwice(vs: seq<DomainValidation>, a: ValidationStatus, b: ValidationStatus)
    ensures Marked(Marked(vs, a), b) == Marked(vs, b)
  {
  }

  lemma AskedIsPending(op: Op)
    ensures Marked(Asked(op), Pending) == Asked(op)
  {
  }

  lemma BornTells(events: seq<Event>, arn: string)
    requires Ready(events, arn) && Born(events, arn)
    ensures RegionTells(events, arn)
  {
    AskedIsPending(events[|events| - 1].op);
  }

  lemma DeletedTells(events: seq<Event>, arn: string)
    requires Ready(events, arn) && events[|events| - 1].op == Deletes(arn)
    ensures RegionTells(events, arn)
  {
  }

  ghost predicate TickedLast(was: Certificate, events: seq<Event>, arn: string) {
    && events != [] && Tells(was, events[..|events| - 1], arn) && Lives(events[..|events| - 1], arn)
    && events[|events| - 1].op == Ticks(arn)
  }

  lemma TickMarks(was: Certificate, events: seq<Event>, arn: string)
    requires TickedLast(was, events, arn)
    ensures MarksTell(Tick(was, events[|events| - 1].now), events, arn)
  {
  }

  lemma TickRest(was: Certificate, events: seq<Event>, arn: string)
    requires TickedLast(was, events, arn)
    ensures var c := Tick(was, events[|events| - 1].now); DatesTell(c, events, arn) && BirthTells(c, events, arn)
  {
  }

  lemma TickValidations(was: Certificate, events: seq<Event>, arn: string)
    requires TickedLast(was, events, arn)
    ensures ValidationsTell(Tick(was, events[|events| - 1].now), events, arn)
  {
    var before := events[..|events| - 1];
    MarkedTwice(Asked(BirthBy(before, arn).value.op), OutcomeBy(before, arn), Success);
  }

  lemma TickTells(events: seq<Event>, arn: string)
    requires Ready(events, arn) && events[|events| - 1].op == Ticks(arn)
    ensures RegionTells(events, arn)
  {
    var was, e := Now(events[..|events| - 1]), events[|events| - 1];
    if arn in was {
      TickMarks(was[arn], events, arn);
      TickRest(was[arn], events, arn);
      TickValidations(was[arn], events, arn);
    }
    assert arn in was ==> Now(events) == was[arn := Tick(was[arn], e.now)];
  }

  lemma RenewTold(was: Certificate, events: seq<Event>, arn: string)
    requires events != [] && Tells(was, events[..|events| - 1], arn) && Lives(events[..|events| - 1], arn)
    requires var op := events[|events| - 1].op; op == Renews(arn) && was.certType.AmazonIssued?
    ensures Tells(Renewed(was, events[|events| - 1].now), events, arn)
  {
    var before := events[..|events| - 1];
    MarkedTwice(Asked(BirthBy(before, arn).value.op), OutcomeBy(before, arn), Success);
  }

  // A refused call leaves the history as it was.
  lemma RefusedTold(was: Certificate, events: seq<Event>, arn: string)
    requires events != [] && Tells(was, events[..|events| - 1], arn) && Lives(events[..|events| - 1], arn)
    requires var op := events[|events| - 1].op;
             || (op == Renews(arn) && was.certType.Imported?)
             || (op.Revokes? && op.arn == arn && was.certType.Imported?)
             || (op.Reimports? && op.arn == arn && was.certType.AmazonIssued?)
    ensures Tells(was, events, arn)
  {
  }

  lemma RenewTells(events: seq<Event>, arn: string)
    requires Ready(events, arn) && events[|events| - 1].op == Renews(arn)
    ensures RegionTells(events, arn)
  {
    var was, e := Now(events[..|events| - 1]), events[|events| - 1];
    if arn in was {
      if was[arn].certType.AmazonIssued? {
        RenewTold(was[arn], events, arn);
        assert Now(events) == was[arn := Renewed(was[arn], e.now)];
      } else {
        RefusedTold(was[arn], events, arn);
        assert Now(events) == was;
      }
    }
  }

  lemma RevokeTold(was: Certificate, events: seq<Event>, arn: string)
    requires events != [] && Tells(was, events[..|events| - 1], arn) && Lives(events[..|events| - 1], arn)
    requires var op := events[|events| - 1].op; op.Revokes? && op.arn == arn && was.certType.AmazonIssued?
    ensures Tells(Revoke(was, events[|events| - 1].op.why, events[|events| - 1].now).value, events, arn)
  {
  }

  lemma RevokeTells(events: seq<Event>, arn: string)
    requires Ready(events, arn) && events[|events| - 1].op.Revokes? && events[|events| - 1].op.arn == arn
    ensures RegionTells(events, arn)
  {
    var was, e := Now(events[..|events| - 1]), events[|events| - 1];
    if arn in was {
      if was[arn].certType.AmazonIssued? {
        RevokeTold(was[arn], events, arn);
        assert Now(events) == was[arn := Revoke(was[arn], e.op.why, e.now).value];
      } else {
        RefusedTold(was[arn], events, arn);
        assert Now(events) == was;
      }
    }
  }

  lemma ReimportTold(was: Certificate, events: seq<Event>, arn: string)
    requires events != [] && Tells(was, events[..|events| - 1], arn) && Lives(events[..|events| - 1], arn)
    requires var op := events[|events| - 1].op; op.Reimports? && op.arn == arn && was.certType.Imported?
    ensures Tells(Reimport(was, events[|events| - 1].op.commonName, events[|events| - 1].now).value, events, arn)
  {
  }

  lemma ReimportTells(events: seq<Event>, arn: string)
    requires Ready(events, arn) && events[|events| - 1].op.Reimports? && events[|events| - 1].op.arn == arn
    ensures RegionTells(events, arn)
  {
    var was, e := Now(events[..|events| - 1]), events[|events| - 1];
    if arn in was {
      if was[arn].certType.Imported? {
        ReimportTold(was[arn], events, arn);
        assert Now(events) == was[arn := Reimport(was[arn], e.op.commonName, e.now).value];
      } else {
        RefusedTold(was[arn], events, arn);
        assert Now(events) == was;
      }
    }
  }

  ghost predicate SwitchedLast(was: Certificate, events: seq<Event>, arn: string) {
    && events != [] && Tells(was, events[..|events| - 1], arn) && Lives(events[..|events| - 1], arn)
    && Switched(events[..|events| - 1], events[|events| - 1].op, arn)
  }

  lemma SwitchMarks(was: Certificate, events: seq<Event>, arn: string)
    requires SwitchedLast(was, events, arn)
    ensures var e := events[|events| - 1]; MarksTell(SetStatus(was, e.op.status, e.op.reason, e.now), events, arn)
  {
  }

  lemma SwitchDates(was: Certificate, events: seq<Event>, arn: string)
    requires SwitchedLast(was, events, arn)
    ensures var e := events[|events| - 1]; DatesTell(SetStatus(was, e.op.status, e.op.reason, e.now), events, arn)
  {
  }

  lemma SwitchBirth(was: Certificate, events: seq<Event>, arn: string)
    requires SwitchedLast(was, events, arn)
    ensures var e := events[|events| - 1]; BirthTells(SetStatus(was, e.op.status, e.op.reason, e.now), events, arn)
  {
  }

  function OutcomeOf(status: CertStatus, otherwise: ValidationStatus): ValidationStatus {
    if status.Issued? then Success
    else if status.Failed? then ValidationFailed
    else if status.ValidationTimedOut? then TimedOut
    else otherwise
  }

  lemma SwitchHistory(events: seq<Event>, arn: string)
    requires events != [] && Switched(events[..|events| - 1], events[|events| - 1].op, arn)
    ensures var before, e := events[..|events| - 1], events[|events| - 1];
            && BirthBy(events, arn) == BirthBy(before, arn)
            && OutcomeBy(events, arn) == OutcomeOf(e.op.status, OutcomeBy(before, arn))
            && RenewalBy(events, arn) == if e.op.status.Issued? && Amazon(before, arn) then Some((PendingAutoRenewal, e.now))
                                         else RenewalBy(before, arn)
  {
  }

  lemma SetStatusValidations(c: Certificate, asked: seq<DomainValidation>, outcome: ValidationStatus,
                             status: CertStatus, reason: Option<string>, now: Time)
    requires c.validations == Marked(asked, outcome)
    ensures var d := SetStatus(c, status, reason, now);
            && d.validations == Marked(asked, OutcomeOf(status, outcome))
            && d.summary == if status.Issued? && c.certType.AmazonIssued?
                            then Some(RenewalSummary(PendingAutoRenewal, Marked(asked, Success), now))
                            else c.summary
  {
    MarkedTwice(asked, outcome, Success);
    MarkedTwice(asked, outcome, ValidationFailed);
    MarkedTwice(asked, outcome, TimedOut);
  }

  lemma SwitchValidations(was: Certificate, events: seq<Event>, arn: string)
    requires SwitchedLast(was, events, arn)
    ensures var e := events[|events| - 1]; ValidationsTell(SetStatus(was, e.op.status, e.op.reason, e.now), events, arn)
  {
    var before, e := events[..|events| - 1], events[|events| - 1];
    SwitchHistory(events, arn);
    SetStatusValidations(was, Asked(BirthBy(before, arn).value.op), OutcomeBy(before, arn), e.op.status, e.op.reason, e.now);
  }

  lemma SwitchTells(events: seq<Event>, arn: string)
    requires Ready(events, arn) && Switched(events[..|events| - 1], events[|events| - 1].op, arn)
    ensures RegionTells(events, arn)
  {
    var was, e := Now(events[..|events| - 1]), events[|events| - 1];
    SwitchMarks(was[arn], events, arn);
    SwitchDates(was[arn], events, arn);
    SwitchBirth(was[arn], events, arn);
    SwitchValidations(was[arn], events, arn);
    assert Now(events) == was[arn := SetStatus(was[arn], e.op.status, e.op.reason, e.now)];
  }

  lemma StepTells(events: seq<Event>, arn: string)
    requires Ready(events, arn)
    ensures RegionTells(events, arn)
  {
    var op := events[|events| - 1].op;
    if !Concerns(events, arn) {
      BystanderTells(events, arn);
    } else if Born(events, arn) {
      BornTells(events, arn);
    } else if op.AdminSets? {
      SwitchTells(events, arn);
    } else {
      match op
      case Ticks(_) => TickTells(events, arn);
      case Renews(_) => RenewTells(events, arn);
      case Revokes(_, _) => RevokeTells(events, arn);
      case Reimports(_, _) => ReimportTells(events, arn);
      case Deletes(_) => DeletedTells(events, arn);
    }
  }

  // In every run from the empty region a certificate is there exactly when it was
  // made and not deleted, and each of its fields is what the last event that
  // writes it wrote.
  lemma {:induction false} RunTells(events: seq<Event>, arn: string)
    requires ValidRun(map[], events)
    ensures RegionTells(events, arn)
  {
    if events != [] {
      RunTells(events[..|events| - 1], arn);
      RunKeepsInv(events[..|events| - 1]);
      StepTells(events, arn);
    }
  }

  // ---- the answers ----

  // Renewal, revocation, re-import and deletion are answered by what came before.
  lemma CallsAnswer(events: seq<Event>, arn: string, why: string, commonName: string, now: Time)
    requires ValidRun(map[], events)
    ensures Step(Now(events), Renews(arn), now).reply
            == if !Lives(events, arn) then Err(NotFound) else if Amazon(events, arn) then Ok(arn) else Err(InvalidParameter)
    ensures Step(Now(events), Revokes(arn, why), now).reply
            == if !Lives(events, arn) then Err(NotFound) else if Amazon(events, arn) then Ok(arn) else Err(InvalidParameter)
    ensures Step(Now(events), Reimports(arn, commonName), now).reply
            == if !Lives(events, arn) then Err(NotFound) else if Amazon(events, arn) then Err(InvalidParameter) else Ok(arn)
    ensures Step(Now(events), Deletes(arn), now).reply == if Lives(events, arn) then Ok("") else Err(NotFound)
  {
    RunTells(events, arn);
  }

  // The two requests ask for the same: token, domain, names and the domains their
  // validations go to.
  ghost predicate AsksAlike(birth: Op, r: Request) {
    && birth.Requests? && birth.request.token.Some? && birth.request.token == r.token && birth.request.domain == r.domain
    && EffectiveSans(birth.request.domain, birth.request.extras) == EffectiveSans(r.domain, r.extras)
    && Addresses(Asked(birth)) == Addresses(StartValidations(EffectiveSans(r.domain, r.extras), r.method_, OptionMap(r.options)))
  }

  // The living certificate's own request asked for the same.
  ghost predicate AskedAlike(events: seq<Event>, arn: string, r: Request) {
    Lives(events, arn) && BirthBy(events, arn).Some? && AsksAlike(BirthBy(events, arn).value.op, r)
  }

  lemma SameRequestIsAlike(events: seq<Event>, arn: string, r: Request, newArn: string, now: Time)
    requires ValidRun(map[], events) && Lives(events, arn)
    ensures arn in Now(events)
    ensures SameRequest(Now(events)[arn], Requested(r, newArn, now)) <==> AskedAlike(events, arn, r)
  {
    RunTells(events, arn);
    NamesStay(events, arn);
    var c := Now(events)[arn];
    assert Addresses(c.validations) == Addresses(Asked(BirthBy(events, arn).value.op));
  }

  // A requested certificate keeps the names it was requested with.
  lemma {:induction false} NamesStay(events: seq<Event>, arn: string)
    ensures Lives(events, arn) && Amazon(events, arn) ==>
              && BirthBy(events, arn).Some? && BirthBy(events, arn).value.op.Requests?
              && var r := BirthBy(events, arn).value.op.request;
                 NamesBy(events, arn) == (r.domain, EffectiveSans(r.domain, r.extras))
  {
    if events != [] { NamesStay(events[..|events| - 1], arn); }
  }

  // A valid request is answered with a living certificate whose own request asked
  // for the same, if there is one, and otherwise with a new one.
  lemma RequestAnswers(events: seq<Event>, r: Request, newArn: string, now: Time)
    requires ValidRun(map[], events)
    ensures var reply := Step(Now(events), Requests(r, newArn), now).reply;
            if !(1 <= |r.domain| <= 253) || exists o :: o in r.options && !OptionOk(o, EffectiveSans(r.domain, r.extras))
            then reply == Err(InvalidParameter)
            else && reply.Ok?
                 && (reply.value == newArn
                     || AskedAlike(events, reply.value, r))
                 && ((exists a :: AskedAlike(events, a, r)) ==> AskedAlike(events, reply.value, r))
  {
    if RequestOk(r) {
      var existing := Existing(Now(events), Requested(r, newArn, now));
      if existing.Some? {
        RunTells(events, existing.value);
        SameRequestIsAlike(events, existing.value, r, newArn, now);
      }
      forall a | AskedAlike(events, a, r) ensures existing.Some? {
        RunTells(events, a);
        SameRequestIsAlike(events, a, r, newArn, now);
      }
    }
  }

  // ---- issuing a request ----

  // Events that leave the certificate to its ticks and renewals.
  predicate LeftAlone(op: Op, arn: string) {
    op != Deletes(arn) && !(op.Revokes? && op.arn == arn) && !(op.AdminSets? && Names(arn, op.arnOrId))
  }

  predicate Issuing(op: Op, arn: string) { op == Ticks(arn) || op == Renews(arn) }

  lemma LeftAloneStep(events: seq<Event>, arn: string)
    requires events != [] && ValidRun(map[], events) && LeftAlone(events[|events| - 1].op, arn)
    requires Lives(events[..|events| - 1], arn) && Amazon(events[..|events| - 1], arn)
    ensures Lives(events, arn) && Amazon(events, arn)
    ensures var before, e := events[..|events| - 1], events[|events| - 1];
            && StatusBy(events, arn) == (if e.op == Renews(arn) || (e.op == Ticks(arn) && StatusBy(before, arn) == PendingValidation)
                                         then Issued else StatusBy(before, arn))
            && IssuedAtBy(events, arn) == (if e.op == Renews(arn) || (e.op == Ticks(arn) && StatusBy(before, arn) == PendingValidation)
                                           then Some(e.now) else IssuedAtBy(before, arn))
  {
    var before := events[..|events| - 1];
    RunTells(before, arn);
    assert !Born(events, arn);
  }

  // A requested certificate that is not deleted, revoked or switched is ISSUED
  // exactly when a tick or a renewal for it has run since, and PENDING_VALIDATION
  // before; its issue time is that of the last renewal, or else of the first tick.
  lemma {:induction false} IssuedExactly(events: seq<Event>, more: seq<Event>, arn: string)
    requires ValidRun(map[], events + more) && Born(events, arn) && events[|events| - 1].op.Requests?
    requires forall e :: e in more ==> LeftAlone(e.op, arn)
    ensures Lives(events + more, arn) && Amazon(events + more, arn)
    ensures StatusBy(events + more, arn) == if exists e :: e in more && Issuing(e.op, arn) then Issued else PendingValidation
    ensures IssuedAtBy(events + more, arn) == IssueMoment(more, arn)
  {
    if more == [] {
      assert events + more == events;
    } else {
      var all, shorter, last := events + more, more[..|more| - 1], more[|more| - 1];
      assert all[..|all| - 1] == events + shorter && more == shorter + [last];
      IssuedExactly(events, shorter, arn);
      LeftAloneStep(all, arn);
      IssueMomentSome(shorter, arn);
      if Issuing(last.op, arn) { assert last in more; }
      if exists e :: e in shorter && Issuing(e.op, arn) {
        var e :| e in shorter && Issuing(e.op, arn);
        assert e in more;
      }
    }
  }

  function IssueMoment(more: seq<Event>, arn: string): Option<Time> {
    if more == [] then None
    else
      var before, e := IssueMoment(more[..|more| - 1], arn), more[|more| - 1];
      if e.op == Renews(arn) || (e.op == Ticks(arn) && before.None?) then Some(e.now) else before
  }

  lemma {:induction false} IssueMomentSome(more: seq<Event>, arn: string)
    ensures IssueMoment(more, arn).Some? <==> exists e :: e in more && Issuing(e.op, arn)
  {
    if more != [] {
      var shorter, last := more[..|more| - 1], more[|more| - 1];
      IssueMomentSome(shorter, arn);
      assert more == shorter + [last];
      if e :| e in shorter && Issuing(e.op, arn) { assert e in more; }
      if Issuing(last.op, arn) { assert last in more; }
    }
  }

  lemma RequestIsIssuedExactly(events: seq<Event>, more: seq<Event>, arn: string)
    requires ValidRun(map[], events + more) && Born(events, arn) && events[|events| - 1].op.Requests?
    requires forall e :: e in more ==> LeftAlone(e.op, arn)
    ensures var state := Now(events + more);
            && arn in state
            && state[arn].status == (if exists e :: e in more && Issuing(e.op, arn) then Issued else PendingValidation)
            && state[arn].issuedAt == IssueMoment(more, arn)
  {
    IssuedExactly(events, more, arn);
    RunTells(events + more, arn);
  }
}
