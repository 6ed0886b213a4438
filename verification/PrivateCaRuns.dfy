// What holds across whole runs of a certificate authority: the key is written
// once, history only grows, the root activation ceremony succeeds, idempotency
// tokens collapse, and revocation is exactly what callers asked for.

module PrivateCaRuns {
  import opened Common
  import opened Validity
  import opened Serials
  import opened PrivateCa

  // ---- what never changes and what only grows ----

  ghost predicate Submap<V(!new)>(small: map<string, V>, big: map<string, V>) {
    forall k :: k in small ==> k in big && big[k] == small[k]
  }

  ghost predicate Extends(old_: Authority, new_: Authority) {
    && new_.arn == old_.arn && new_.caType == old_.caType && new_.rsaKey == old_.rsaKey
    && (old_.key.Some? ==> new_.key == old_.key && new_.csr == old_.csr)
    && Submap(old_.issued, new_.issued)
    && Submap(old_.revoked, new_.revoked)
  }

  lemma IssueExtends(ca: Authority, p: Prepared, at: Time)
    requires p.serial !in ca.issued
    ensures Extends(ca, Issue(ca, p, at).ca)
  {
  }

  lemma RevokeExtends(ca: Authority, serial: string, reason: Reason, at: Time)
    ensures Extends(ca, Revoke(ca, serial, reason, at).ca)
  {
  }

  lemma LifecycleExtends(ca: Authority, op: LifecycleOp, at: Time)
    ensures Extends(ca, LifecycleStep(ca, op, at).ca)
  {
  }

  lemma StepExtends(ca: Authority, e: Event)
    requires FreshSerial(ca, e.op)
    ensures Extends(ca, Step(ca, e).ca)
  {
    match e.op
    case Issues(p) => IssueExtends(ca, p, e.at);
    case Revokes(presented, reason) => RevokeExtends(ca, Normalize(presented), reason, e.at);
    case Lifecycle(op) => LifecycleExtends(ca, op, e.at);
  }

  lemma ExtendsTransitive(a: Authority, b: Authority, c: Authority)
    requires Extends(a, b) && Extends(b, c)
    ensures Extends(a, c)
  {
  }

  // Over any run the key and CSR are written at most once, and no issued or
  // revoked record is ever altered or dropped.
  lemma {:induction false} RunExtends(ca: Authority, start: Time, events: seq<Event>)
    requires Inv(ca) && ValidRun(ca, start, events)
    ensures Extends(ca, Run(ca, events))
  {
    if events != [] {
      var before := events[..|events| - 1];
      RunExtends(ca, start, before);
      RunKeepsInv(ca, start, before);
      StepExtends(Run(ca, before), events[|events| - 1]);
      ExtendsTransitive(ca, Run(ca, before), Run(ca, events));
    }
  }

  // Certificates appear one at a time, and only from an ACTIVE authority or a
  // pending ROOT answering a CA-certificate template.
  lemma IssuedGrowsOnly(ca: Authority, e: Event)
    ensures Step(ca, e).ca.issued != ca.issued ==>
              e.op.Issues? && ca.key.Some? &&
              (ca.status.Active? || (ca.status.PendingCertificate? && ca.caType.Root? && e.op.prepared.caTemplate))
    ensures Step(ca, e).ca.issued != ca.issued ==>
              && Step(ca, e).reply == Ok(e.op.prepared.serial)
              && Step(ca, e).ca.issued.Keys == ca.issued.Keys + {e.op.prepared.serial}
  {
    match e.op
    case Issues(p) => IssueGrows(ca, p, e.at);
    case Revokes(presented, reason) => var o := Revoke(ca, Normalize(presented), reason, e.at);
    case Lifecycle(op) => var o := LifecycleStep(ca, op, e.at);
  }

  lemma IssueGrows(ca: Authority, p: Prepared, at: Time)
    ensures var o := Issue(ca, p, at);
            o.ca.issued != ca.issued ==>
              && ca.key.Some?
              && (ca.status.Active? || (ca.status.PendingCertificate? && ca.caType.Root? && p.caTemplate))
              && o.reply == Ok(p.serial)
              && o.ca.issued.Keys == ca.issued.Keys + {p.serial}
  {
  }

  // ---- the root activation ceremony ----

  // A certificate that a pending ROOT signs from its own CSR can be imported at
  // any later moment of any run, and activates the authority, exactly when the
  // authority is not deleted by then.
  lemma SelfSignedRootActivates(ca: Authority, p: Prepared, at: Time, events: seq<Event>,
                                chain: Option<string>, importAt: Time)
    requires Inv(ca) && ca.caType.Root? && Enabled(ca, at, Event(Issues(p), at))
    requires ca.csr.Some? && p.csr == Parsed(ca.csr.value)
    requires Issue(ca, p, at).reply.Ok? && Issue(ca, p, at).reply.value !in ca.issued
    requires ValidRun(Issue(ca, p, at).ca, at, events)
    ensures var arn := Issue(ca, p, at).reply.value;
            var later := Run(Issue(ca, p, at).ca, events);
            && arn in later.issued
            && var imported := Import(later, Parsed(later.issued[arn].certificate), chain, importAt);
               && (imported.reply.Ok? <==> !later.status.Deleted?)
               && (imported.reply.Ok? ==> imported.ca.status.Active?)
  {
    var signed := Issue(ca, p, at).ca;
    RepeatsAreOld(ca, p, at);
    StepKeepsInv(ca, at, Event(Issues(p), at));
    RunExtends(signed, at, events);
    RunKeepsInv(signed, at, events);
  }

  // A reply that repeats an earlier certificate names one already there.
  lemma RepeatsAreOld(ca: Authority, p: Prepared, at: Time)
    requires Inv(ca)
    ensures Repeated(ca, p, at).Some? ==> ca.issued[Repeated(ca, p, at).value].serial in ca.issued
  {
    var found := Repeated(ca, p, at);
    if found.Some? {
      assert IssuedOk(ca.key, found.value, ca.issued[found.value]);
    }
  }

  // ---- idempotency ----

  // At moment `now` each token has at most one certificate inside its window.
  ghost predicate OnePerToken(ca: Authority, now: Time) {
    forall a, b :: a in ca.issued && b in ca.issued && ca.issued[a].token.Some?
                   && ca.issued[a].token == ca.issued[b].token
                   && InWindow(ca.issued[a].issuedAt, now) && InWindow(ca.issued[b].issuedAt, now)
                   ==> a == b
  }

  lemma WindowsClose(ca: Authority, now: Time, later: Time)
    requires OnePerToken(ca, now) && now <= later
    ensures OnePerToken(ca, later)
  {
  }

  lemma IssueKeepsOnePerToken(ca: Authority, p: Prepared, at: Time)
    requires OnePerToken(ca, at)
    ensures OnePerToken(Issue(ca, p, at).ca, at)
  {
    var next := Issue(ca, p, at).ca;
    if next != ca {
      var arn := p.serial;
      forall a | a in ca.issued && a != arn && p.token.Some? && ca.issued[a].token == p.token
        ensures !InWindow(ca.issued[a].issuedAt, at)
      {
        assert !Repeats(ca.issued[a], p.token.value, at);
      }
    }
  }

  lemma StepKeepsOnePerToken(ca: Authority, now: Time, e: Event)
    requires OnePerToken(ca, now) && now <= e.at
    ensures OnePerToken(Step(ca, e).ca, e.at)
  {
    WindowsClose(ca, now, e.at);
    match e.op
    case Issues(p) => IssueKeepsOnePerToken(ca, p, e.at);
    case _ => IssuedGrowsOnly(ca, e);
  }

  // With a clock that does not run backwards, no interleaving of calls ever puts
  // two certificates of one token inside the five-minute window.
  lemma {:induction false} RunKeepsOnePerToken(ca: Authority, start: Time, events: seq<Event>)
    requires Inv(ca) && OnePerToken(ca, start) && ValidRun(ca, start, events)
    ensures OnePerToken(Run(ca, events), LastTime(start, events))
  {
    if events != [] {
      var before := events[..|events| - 1];
      RunKeepsOnePerToken(ca, start, before);
      RunKeepsInv(ca, start, before);
      StepKeepsOnePerToken(Run(ca, before), LastTime(start, before), events[|events| - 1]);
    }
  }

  // In any run that follows an issuing call, a later call with the same token
  // succeeds, answers with the same certificate and adds none, whatever else it
  // asks for, as long as the first one's window is open when it holds the lock.
  lemma BurstNamesOneCertificate(ca: Authority, first: Event, events: seq<Event>, again: Event)
    requires Inv(ca) && OnePerToken(ca, first.at) && Enabled(ca, first.at, first)
    requires first.op.Issues? && first.op.prepared.token.Some? && Step(ca, first).reply.Ok?
    requires ValidRun(Step(ca, first).ca, first.at, events) && LastTime(first.at, events) <= again.at
    requires again.op.Issues? && again.op.prepared.token == first.op.prepared.token
    requires Step(ca, first).reply.value in Step(ca, first).ca.issued
             ==> InWindow(Step(ca, first).ca.issued[Step(ca, first).reply.value].issuedAt, again.at)
    ensures var later := Run(Step(ca, first).ca, events);
            Step(later, again) == Outcome(later, Ok(Step(ca, first).reply.value))
  {
    var mid := Step(ca, first).ca;
    var serial := Step(ca, first).reply.value;
    var later := Run(mid, events);
    FirstReplyIsStored(ca, first);
    StepKeepsInv(ca, first.at, first);
    StepKeepsOnePerToken(ca, first.at, first);
    RunExtends(mid, first.at, events);
    RunKeepsInv(mid, first.at, events);
    RunKeepsOnePerToken(mid, first.at, events);
    WindowsClose(later, LastTime(first.at, events), again.at);
    RepeatAnswered(later, serial, again.op.prepared, again.at);
  }

  lemma RepeatAnswered(ca: Authority, serial: string, p: Prepared, at: Time)
    requires IssuedInv(ca) && OnePerToken(ca, at)
    requires serial in ca.issued && p.token.Some? && Repeats(ca.issued[serial], p.token.value, at)
    ensures Issue(ca, p, at) == Outcome(ca, Ok(serial))
  {
    assert IssuedOk(ca.key, serial, ca.issued[serial]);
  }

  lemma FirstReplyIsStored(ca: Authority, e: Event)
    requires Inv(ca) && e.op.Issues? && e.op.prepared.token.Some? && Step(ca, e).reply.Ok?
    requires e.op.Issues? ==> IsStoredSerial(e.op.prepared.serial)
    ensures var arn := Step(ca, e).reply.value;
            arn in Step(ca, e).ca.issued && Step(ca, e).ca.issued[arn].token == e.op.prepared.token
  {
    var found := Repeated(ca, e.op.prepared, e.at);
    if found.Some? {
      assert IssuedOk(ca.key, found.value, ca.issued[found.value]);
    }
  }

  // ---- revocation ----

  // The event is a RevokeCertificate that succeeds and names `serial` in some
  // presentation.
  ghost predicate Revokes(ca: Authority, e: Event, serial: string) {
    e.op.Revokes? && Step(ca, e).reply.Ok? && Presents(e.op.presented, serial)
  }

  // Some event of the run does so.
  ghost predicate RevokedBy(ca: Authority, events: seq<Event>, serial: string) {
    events != [] &&
    var before := events[..|events| - 1];
    RevokedBy(ca, before, serial) || Revokes(Run(ca, before), events[|events| - 1], serial)
  }

  // One event marks a serial exactly when it is such a RevokeCertificate.
  lemma StepRevokes(ca: Authority, e: Event, serial: string)
    requires forall c :: c in serial ==> IsLowerHex(c)
    ensures serial in Step(ca, e).ca.revoked <==> serial in ca.revoked || Revokes(ca, e, serial)
  {
    match e.op
    case Revokes(presented, reason) => NormalizeExact(presented, serial);
    case Issues(p) => var o := Issue(ca, p, e.at);
    case Lifecycle(op) => var o := LifecycleStep(ca, op, e.at);
  }

  // From a new authority, a serial is marked revoked exactly when an earlier
  // successful RevokeCertificate presented it, in whatever form.
  lemma {:induction false} RevokedExactly(ca: Authority, events: seq<Event>, serial: string)
    requires ca.revoked == map[]
    requires forall c :: c in serial ==> IsLowerHex(c)
    ensures serial in Run(ca, events).revoked <==> RevokedBy(ca, events, serial)
  {
    if events != [] {
      var before := events[..|events| - 1];
      RevokedExactly(ca, before, serial);
      StepRevokes(Run(ca, before), events[|events| - 1], serial);
    }
  }

  // ---- audit reports ----

  datatype Row = Row(
    serial: string, notBefore: Time, notAfter: Time, issuedAt: Time,
    revokedAt: Option<Time>, reason: Option<Reason>)

  function RowOf(ca: Authority, c: Issued): Row {
    var r := if c.serial in ca.revoked then Some(ca.revoked[c.serial]) else None;
    Row(c.serial, c.notBefore, c.notAfter, c.issuedAt,
        if r.Some? then Some(r.value.revokedAt) else None,
        if r.Some? then Some(r.value.reason) else None)
  }

  // The JSON format maps each certificate, in ARN order, to its entry.
  function JsonReport(ca: Authority): (rows: seq<Row>)
    ensures |rows| == |ca.issued|
  {
    var keys := SortedKeys(ca.issued.Keys);
    seq(|keys|, i requires 0 <= i < |keys| => RowOf(ca, ca.issued[keys[i]]))
  }

  // The CSV format appends one line per certificate.
  method CsvRows(ca: Authority, keys: seq<string>) returns (rows: seq<Row>)
    requires forall i :: 0 <= i < |keys| ==> keys[i] in ca.issued
    ensures |rows| == |keys| && forall i :: 0 <= i < |keys| ==> rows[i] == RowOf(ca, ca.issued[keys[i]])
  {
    rows := [];
    for i := 0 to |keys|
      invariant |rows| == i && forall j :: 0 <= j < i ==> rows[j] == RowOf(ca, ca.issued[keys[j]])
    {
      rows := rows + [RowOf(ca, ca.issued[keys[i]])];
    }
  }

  method CsvReport(ca: Authority) returns (rows: seq<Row>)
    ensures rows == JsonReport(ca)
  {
    var keys := SortedKeys(ca.issued.Keys);
    rows := CsvRows(ca, keys);
  }

  // Row `i` is the only row for `serial`.
  ghost predicate OnlyRow(rows: seq<Row>, i: int, serial: string) {
    0 <= i < |rows| && rows[i].serial == serial && forall j :: 0 <= j < |rows| && rows[j].serial == serial ==> j == i
  }

  lemma ReportHasOneRowEach(ca: Authority, serial: string)
    requires Inv(ca) && serial in ca.issued
    ensures exists i :: OnlyRow(JsonReport(ca), i, serial) && JsonReport(ca)[i] == RowOf(ca, ca.issued[serial])
  {
    var keys := SortedKeys(ca.issued.Keys);
    forall j | 0 <= j < |keys| ensures JsonReport(ca)[j].serial == keys[j] {
      assert IssuedOk(ca.key, keys[j], ca.issued[keys[j]]);
    }
    var i :| 0 <= i < |keys| && keys[i] == serial;
    assert OnlyRow(JsonReport(ca), i, serial);
  }

  // Whatever the history, a report holds exactly one row per certificate the
  // authority ever issued, and a row is marked revoked exactly when a successful
  // RevokeCertificate of the run presented that certificate's serial.
  lemma ReportIsExact(ca: Authority, start: Time, events: seq<Event>, serial: string)
    requires Inv(ca) && ca.revoked == map[] && ValidRun(ca, start, events)
    requires serial in Run(ca, events).issued
    ensures var report := JsonReport(Run(ca, events));
            exists i :: OnlyRow(report, i, serial)
                        && (report[i].revokedAt.Some? <==> RevokedBy(ca, events, serial))
  {
    var now := Run(ca, events);
    RunKeepsInv(ca, start, events);
    assert IssuedOk(now.key, serial, now.issued[serial]);
    RevokedExactly(ca, events, serial);
    ReportHasOneRowEach(now, serial);
  }
}
