// What a certificate authority is and answers, told by the calls and tasks of its
// run alone: which of them were accepted, in which order, with which arguments.

module CaHistory {
  import opened Common
  import opened Text
  import opened Calendar
  import opened Validity
  import opened Serials
  import opened PrivateCa
  import opened PrivateCaRuns

  // An authority as CreateCertificateAuthority makes it.
  predicate New(ca: Authority) {
    && ca.status.PendingCertificate? && ca.restorableUntil.None? && ca.failureReason.None?
    && ca.key.None? && ca.csr.None? && ca.certificate.None? && ca.chain.None?
    && ca.issued == map[] && ca.revoked == map[]
  }

  lemma CreatedIsNew(arn: string, caType: CaType, rsaKey: bool, token: Option<string>, now: Time)
    ensures New(BuildPending(arn, caType, rsaKey, token, now)) && Inv(BuildPending(arn, caType, rsaKey, token, now))
  {
  }

  // ---- reading a run ----

  // The last event of the run was accepted.
  ghost predicate Accepted(ca: Authority, events: seq<Event>) {
    events != [] && Step(Run(ca, events[..|events| - 1]), events[|events| - 1]).reply.Ok?
  }

  predicate Activates(op: Op) { op.Lifecycle? && (op.op.Imports? || op.op == Updates(ToActive)) }
  predicate Disables(op: Op) { op == Lifecycle(Updates(ToDisabled)) }
  predicate Deletes(op: Op) { op.Lifecycle? && op.op.Deletes? }
  predicate Restores(op: Op) { op == Lifecycle(LifecycleOp.Restores) }

  // The certificate and chain of the last accepted import.
  ghost function LastImport(ca: Authority, events: seq<Event>): Option<(Certificate, Option<string>)> {
    if events == [] then None
    else
      var op := events[|events| - 1].op;
      if Accepted(ca, events) && op.Lifecycle? && op.op.Imports? && op.op.certificate.Parsed?
      then Some((op.op.certificate.value, op.op.chain))
      else LastImport(ca, events[..|events| - 1])
  }

  // The last accepted delete: its time, and the days it asked for.
  ghost function LastDelete(ca: Authority, events: seq<Event>): Option<(Time, int)> {
    if events == [] then None
    else
      var e := events[|events| - 1];
      if Accepted(ca, events) && Deletes(e.op) then Some((e.at, e.op.op.days))
      else LastDelete(ca, events[..|events| - 1])
  }

  // An activation (an import or a switch to ACTIVE) was accepted, and no delete
  // or disable since.
  ghost predicate ActiveSince(ca: Authority, events: seq<Event>) {
    events != [] &&
    var op := events[|events| - 1].op;
    if Accepted(ca, events) && Activates(op) then true
    else if Accepted(ca, events) && (Deletes(op) || Disables(op)) then false
    else ActiveSince(ca, events[..|events| - 1])
  }

  // A delete was accepted, and no restore since.
  ghost predicate DeletedSince(ca: Authority, events: seq<Event>) {
    events != [] &&
    var op := events[|events| - 1].op;
    if Accepted(ca, events) && Deletes(op) then true
    else if Accepted(ca, events) && Restores(op) then false
    else DeletedSince(ca, events[..|events| - 1])
  }

  // A key generation ended while the authority was waiting for one: it had no
  // key, was not deleted and had not failed.
  ghost predicate Awaited(ca: Authority, before: seq<Event>, op: Op) {
    op.Lifecycle? && op.op.KeygenEnds? && KeyMade(ca, before).None? && !DeletedSince(ca, before) && !FailedSince(ca, before)
  }

  // The material of the first awaited key generation that succeeded.
  ghost function KeyMade(ca: Authority, events: seq<Event>): Option<Key>
    decreases |events|, 0
  {
    if events == [] then None
    else
      var before, op := events[..|events| - 1], events[|events| - 1].op;
      if op.Lifecycle? && op.op.KeygenEnds? && op.op.material.Some?
         && KeyMade(ca, before).None? && !DeletedSince(ca, before) && !FailedSince(ca, before)
      then op.op.material
      else KeyMade(ca, before)
  }

  // An awaited key generation failed, and no delete or disable since.
  ghost predicate FailedSince(ca: Authority, events: seq<Event>)
    decreases |events|, 0
  {
    events != [] &&
    var before, op := events[..|events| - 1], events[|events| - 1].op;
    if op == Lifecycle(KeygenEnds(None)) && KeyMade(ca, before).None? && !DeletedSince(ca, before) then true
    else if Accepted(ca, events) && (Deletes(op) || Disables(op)) then false
    else FailedSince(ca, before)
  }

  // A disable was accepted, or a restore of an authority with a certificate, and
  // no activation, delete or awaited failure since.
  ghost predicate DisabledSince(ca: Authority, events: seq<Event>) {
    events != [] &&
    var before, op := events[..|events| - 1], events[|events| - 1].op;
    if Accepted(ca, events) && Disables(op) then true
    else if Accepted(ca, events) && Restores(op) then LastImport(ca, before).Some?
    else if Accepted(ca, events) && (Activates(op) || Deletes(op)) then false
    else if op == Lifecycle(KeygenEnds(None)) && Awaited(ca, before, op) then false
    else DisabledSince(ca, before)
  }

  // The moment of the last accepted switch, delete, restore or import, or of the
  // key generation that made the key.
  ghost function LastStamp(ca: Authority, events: seq<Event>): Option<Time> {
    if events == [] then ca.lastStateChangeAt
    else
      var before, e := events[..|events| - 1], events[|events| - 1];
      if || (Accepted(ca, events) && (Activates(e.op) || Disables(e.op) || Deletes(e.op) || Restores(e.op)))
         || (Awaited(ca, before, e.op) && e.op.op.material.Some?)
      then Some(e.at)
      else LastStamp(ca, before)
  }

  ghost predicate EverFailed(ca: Authority, events: seq<Event>) {
    events != [] &&
    var before, op := events[..|events| - 1], events[|events| - 1].op;
    (op == Lifecycle(KeygenEnds(None)) && Awaited(ca, before, op)) || EverFailed(ca, before)
  }

  // ---- the state tells the history ----

  ghost predicate StatusTells(now: Authority, ca: Authority, events: seq<Event>) {
    && !now.status.Creating? && !now.status.Expired?
    && (now.status.Active? <==> ActiveSince(ca, events))
    && (now.status.Deleted? <==> DeletedSince(ca, events))
    && (now.status.Failed? <==> FailedSince(ca, events))
    && (now.status.Disabled? <==> DisabledSince(ca, events))
  }

  ghost predicate MaterialTells(now: Authority, ca: Authority, events: seq<Event>) {
    && now.lastStateChangeAt == LastStamp(ca, events)
    && now.failureReason == (if EverFailed(ca, events) then Some("OTHER") else None)
    && now.key == KeyMade(ca, events)
    && now.csr == (if KeyMade(ca, events).Some? then Some(OwnCsr(KeyMade(ca, events).value)) else None)
    && (now.certificate.Some? <==> LastImport(ca, events).Some?)
    && (LastImport(ca, events).Some? ==>
          Some(LastImport(ca, events).value.0) == now.certificate && LastImport(ca, events).value.1 == now.chain)
    && (LastImport(ca, events).None? ==> now.chain.None?)
    && (DeletedSince(ca, events) ==> LastDelete(ca, events).Some?)
    && now.restorableUntil == (if DeletedSince(ca, events)
                               then Some(LastDelete(ca, events).value.0 + LastDelete(ca, events).value.1 * DAY)
                               else None)
  }

  ghost predicate Tells(now: Authority, ca: Authority, events: seq<Event>) {
    StatusTells(now, ca, events) && MaterialTells(now, ca, events)
  }

  // Issuing, revoking and re-arming leave the lifecycle history as it was.
  lemma QuietEvent(ca: Authority, events: seq<Event>)
    requires events != [] && (!events[|events| - 1].op.Lifecycle? || events[|events| - 1].op == Lifecycle(Rearms))
    ensures SameHistory(ca, events[..|events| - 1], events)
  {
  }

  predicate SameLifecycle(a: Authority, b: Authority) { a == b.(issued := a.issued, revoked := a.revoked) }

  lemma OtherStepTells(ca: Authority, events: seq<Event>)
    requires events != [] && !events[|events| - 1].op.Lifecycle? && Tells(Run(ca, events[..|events| - 1]), ca, events[..|events| - 1])
    ensures Tells(Run(ca, events), ca, events)
  {
    OthersKeepLifecycle(Run(ca, events[..|events| - 1]), events[|events| - 1]);
    QuietEvent(ca, events);
    SameLifecycleTells(Run(ca, events[..|events| - 1]), Run(ca, events), ca, events[..|events| - 1], events);
  }

  ghost predicate SameHistory(ca: Authority, before: seq<Event>, events: seq<Event>) {
    && ActiveSince(ca, events) == ActiveSince(ca, before) && DeletedSince(ca, events) == DeletedSince(ca, before)
    && FailedSince(ca, events) == FailedSince(ca, before) && DisabledSince(ca, events) == DisabledSince(ca, before)
    && KeyMade(ca, events) == KeyMade(ca, before) && LastImport(ca, events) == LastImport(ca, before)
    && LastDelete(ca, events) == LastDelete(ca, before) && LastStamp(ca, events) == LastStamp(ca, before)
    && EverFailed(ca, events) == EverFailed(ca, before)
  }

  lemma SameLifecycleTells(was: Authority, now: Authority, ca: Authority, before: seq<Event>, events: seq<Event>)
    requires SameLifecycle(now, was) && Tells(was, ca, before) && SameHistory(ca, before, events)
    ensures Tells(now, ca, events)
  {
    assert StatusTells(now, ca, events);
    assert MaterialTells(now, ca, events);
  }

  lemma OthersKeepLifecycle(ca: Authority, e: Event)
    requires !e.op.Lifecycle?
    ensures SameLifecycle(Step(ca, e).ca, ca)
  {
    match e.op
    case Issues(p) => var o := Issue(ca, p, e.at);
    case Revokes(presented, reason) => var o := Revoke(ca, Normalize(presented), reason, e.at);
  }

  lemma KeygenTellsStatus(ca: Authority, events: seq<Event>)
    requires events != [] && events[|events| - 1].op.Lifecycle? && events[|events| - 1].op.op.KeygenEnds?
    requires Tells(Run(ca, events[..|events| - 1]), ca, events[..|events| - 1]) && Inv(Run(ca, events[..|events| - 1]))
    ensures StatusTells(Run(ca, events), ca, events)
  {
    var was, e := Run(ca, events[..|events| - 1]), events[|events| - 1];
    assert Run(ca, events) == LifecycleStep(was, e.op.op, e.at).ca;
    assert Accepted(ca, events) <==> LifecycleStep(was, e.op.op, e.at).reply.Ok?;
  }

  // The end of a key generation is no import, delete or restore.
  lemma KeygenQuiet(ca: Authority, events: seq<Event>)
    requires events != [] && events[|events| - 1].op.Lifecycle? && events[|events| - 1].op.op.KeygenEnds?
    ensures var before := events[..|events| - 1];
            && DeletedSince(ca, events) == DeletedSince(ca, before) && LastImport(ca, events) == LastImport(ca, before)
            && LastDelete(ca, events) == LastDelete(ca, before)
  {
  }

  lemma KeygenTellsMaterial(ca: Authority, events: seq<Event>)
    requires events != [] && events[|events| - 1].op.Lifecycle? && events[|events| - 1].op.op.KeygenEnds?
    requires Tells(Run(ca, events[..|events| - 1]), ca, events[..|events| - 1]) && Inv(Run(ca, events[..|events| - 1]))
    ensures MaterialTells(Run(ca, events), ca, events)
  {
    var before, e := events[..|events| - 1], events[|events| - 1];
    var was := Run(ca, before);
    assert Run(ca, events) == FinishKeygen(was, e.op.op.material, e.at);
    KeygenQuiet(ca, events);
    if Awaited(ca, before, e.op) {
      assert KeyMade(ca, events) == e.op.op.material;
    } else {
      assert Run(ca, events) == was && KeyMade(ca, events) == KeyMade(ca, before);
    }
  }

  lemma UpdateTellsStatus(ca: Authority, events: seq<Event>)
    requires events != [] && events[|events| - 1].op.Lifecycle? && events[|events| - 1].op.op.Updates?
    requires Tells(Run(ca, events[..|events| - 1]), ca, events[..|events| - 1]) && Inv(Run(ca, events[..|events| - 1]))
    ensures StatusTells(Run(ca, events), ca, events)
  {
    var was, e := Run(ca, events[..|events| - 1]), events[|events| - 1];
    assert Run(ca, events) == LifecycleStep(was, e.op.op, e.at).ca;
    assert Accepted(ca, events) <==> LifecycleStep(was, e.op.op, e.at).reply.Ok?;
  }

  lemma UpdateTellsMaterial(ca: Authority, events: seq<Event>)
    requires events != [] && events[|events| - 1].op.Lifecycle? && events[|events| - 1].op.op.Updates?
    requires Tells(Run(ca, events[..|events| - 1]), ca, events[..|events| - 1]) && Inv(Run(ca, events[..|events| - 1]))
    ensures MaterialTells(Run(ca, events), ca, events)
  {
    var was, e := Run(ca, events[..|events| - 1]), events[|events| - 1];
    assert Run(ca, events) == LifecycleStep(was, e.op.op, e.at).ca;
    assert Accepted(ca, events) <==> LifecycleStep(was, e.op.op, e.at).reply.Ok?;
  }

  lemma DeleteTellsStatus(ca: Authority, events: seq<Event>)
    requires events != [] && events[|events| - 1].op.Lifecycle? && events[|events| - 1].op.op.Deletes?
    requires Tells(Run(ca, events[..|events| - 1]), ca, events[..|events| - 1]) && Inv(Run(ca, events[..|events| - 1]))
    ensures StatusTells(Run(ca, events), ca, events)
  {
    var was, e := Run(ca, events[..|events| - 1]), events[|events| - 1];
    assert Run(ca, events) == LifecycleStep(was, e.op.op, e.at).ca;
    assert Accepted(ca, events) <==> LifecycleStep(was, e.op.op, e.at).reply.Ok?;
  }

  lemma DeleteTellsMaterial(ca: Authority, events: seq<Event>)
    requires events != [] && events[|events| - 1].op.Lifecycle? && events[|events| - 1].op.op.Deletes?
    requires Tells(Run(ca, events[..|events| - 1]), ca, events[..|events| - 1]) && Inv(Run(ca, events[..|events| - 1]))
    ensures MaterialTells(Run(ca, events), ca, events)
  {
    var was, e := Run(ca, events[..|events| - 1]), events[|events| - 1];
    assert Run(ca, events) == LifecycleStep(was, e.op.op, e.at).ca;
    assert Accepted(ca, events) <==> LifecycleStep(was, e.op.op, e.at).reply.Ok?;
  }

  lemma RestoreTellsStatus(ca: Authority, events: seq<Event>)
    requires events != [] && events[|events| - 1].op.Lifecycle? && events[|events| - 1].op.op.Restores?
    requires Tells(Run(ca, events[..|events| - 1]), ca, events[..|events| - 1]) && Inv(Run(ca, events[..|events| - 1]))
    ensures StatusTells(Run(ca, events), ca, events)
  {
    var was, e := Run(ca, events[..|events| - 1]), events[|events| - 1];
    assert Run(ca, events) == LifecycleStep(was, e.op.op, e.at).ca;
    assert Accepted(ca, events) <==> LifecycleStep(was, e.op.op, e.at).reply.Ok?;
  }

  lemma RestoreTellsMaterial(ca: Authority, events: seq<Event>)
    requires events != [] && events[|events| - 1].op.Lifecycle? && events[|events| - 1].op.op.Restores?
    requires Tells(Run(ca, events[..|events| - 1]), ca, events[..|events| - 1]) && Inv(Run(ca, events[..|events| - 1]))
    ensures MaterialTells(Run(ca, events), ca, events)
  {
    var was, e := Run(ca, events[..|events| - 1]), events[|events| - 1];
    assert Run(ca, events) == LifecycleStep(was, e.op.op, e.at).ca;
    assert Accepted(ca, events) <==> LifecycleStep(was, e.op.op, e.at).reply.Ok?;
  }

  lemma ImportTellsStatus(ca: Authority, events: seq<Event>)
    requires events != [] && events[|events| - 1].op.Lifecycle? && events[|events| - 1].op.op.Imports?
    requires Tells(Run(ca, events[..|events| - 1]), ca, events[..|events| - 1]) && Inv(Run(ca, events[..|events| - 1]))
    ensures StatusTells(Run(ca, events), ca, events)
  {
    var was, e := Run(ca, events[..|events| - 1]), events[|events| - 1];
    assert Run(ca, events) == LifecycleStep(was, e.op.op, e.at).ca;
    assert Accepted(ca, events) <==> LifecycleStep(was, e.op.op, e.at).reply.Ok?;
  }

  lemma ImportTellsMaterial(ca: Authority, events: seq<Event>)
    requires events != [] && events[|events| - 1].op.Lifecycle? && events[|events| - 1].op.op.Imports?
    requires Tells(Run(ca, events[..|events| - 1]), ca, events[..|events| - 1]) && Inv(Run(ca, events[..|events| - 1]))
    ensures MaterialTells(Run(ca, events), ca, events)
  {
    var was, e := Run(ca, events[..|events| - 1]), events[|events| - 1];
    assert Run(ca, events) == LifecycleStep(was, e.op.op, e.at).ca;
    assert Accepted(ca, events) <==> LifecycleStep(was, e.op.op, e.at).reply.Ok?;
  }

  // Nothing in a new authority's life is CREATING, so re-arming finds nothing to do.
  lemma RearmTells(ca: Authority, events: seq<Event>)
    requires events != [] && events[|events| - 1].op == Lifecycle(Rearms)
    requires Tells(Run(ca, events[..|events| - 1]), ca, events[..|events| - 1])
    ensures Tells(Run(ca, events), ca, events)
  {
    var was := Run(ca, events[..|events| - 1]);
    QuietEvent(ca, events);
    assert Run(ca, events) == Rearm(was) == was;
    SameLifecycleTells(was, was, ca, events[..|events| - 1], events);
  }

  lemma LifecycleStepTells(ca: Authority, events: seq<Event>)
    requires events != [] && events[|events| - 1].op.Lifecycle?
    requires Tells(Run(ca, events[..|events| - 1]), ca, events[..|events| - 1]) && Inv(Run(ca, events[..|events| - 1]))
    ensures Tells(Run(ca, events), ca, events)
  {
    match events[|events| - 1].op.op
    case KeygenEnds(_) =>
      KeygenTellsStatus(ca, events);
      KeygenTellsMaterial(ca, events);
    case Rearms => RearmTells(ca, events);
    case Updates(_) =>
      UpdateTellsStatus(ca, events);
      UpdateTellsMaterial(ca, events);
    case Deletes(_) =>
      DeleteTellsStatus(ca, events);
      DeleteTellsMaterial(ca, events);
    case Restores =>
      RestoreTellsStatus(ca, events);
      RestoreTellsMaterial(ca, events);
    case Imports(_, _) =>
      ImportTellsStatus(ca, events);
      ImportTellsMaterial(ca, events);
  }

  // In every run of a new authority its status, key, CSR, certificate, chain and
  // restore deadline are what the accepted events amount to.
  lemma {:induction false} RunTells(ca: Authority, start: Time, events: seq<Event>)
    requires New(ca) && Inv(ca) && ValidRun(ca, start, events)
    ensures Tells(Run(ca, events), ca, events)
  {
    if events != [] {
      var before := events[..|events| - 1];
      RunTells(ca, start, before);
      RunKeepsInv(ca, start, before);
      if events[|events| - 1].op.Lifecycle? { LifecycleStepTells(ca, events); } else { OtherStepTells(ca, events); }
    }
  }

  // ---- the statuses, event by event ----

  // Event i was accepted when it came.
  ghost predicate AcceptedAt(ca: Authority, events: seq<Event>, i: nat)
    decreases |events|
  {
    i < |events| && if i == |events| - 1 then Accepted(ca, events) else AcceptedAt(ca, events[..|events| - 1], i)
  }

  ghost predicate ActivatedAt(ca: Authority, events: seq<Event>, i: nat) {
    AcceptedAt(ca, events, i) && Activates(events[i].op)
  }

  ghost predicate StoppedAt(ca: Authority, events: seq<Event>, i: nat) {
    AcceptedAt(ca, events, i) && (Deletes(events[i].op) || Disables(events[i].op))
  }

  lemma PrefixAccepts(ca: Authority, events: seq<Event>, i: nat)
    requires events != [] && i < |events| - 1
    ensures var before := events[..|events| - 1];
            && ActivatedAt(ca, before, i) == ActivatedAt(ca, events, i)
            && StoppedAt(ca, before, i) == StoppedAt(ca, events, i)
  {
  }

  // Event i activated the authority, and nothing stopped it since.
  ghost predicate ActiveFrom(ca: Authority, events: seq<Event>, i: nat) {
    ActivatedAt(ca, events, i) && forall j: nat :: i < j < |events| ==> !StoppedAt(ca, events, j)
  }

  lemma ActiveFromStep(ca: Authority, events: seq<Event>, i: nat)
    requires events != [] && i < |events| - 1
    ensures ActiveFrom(ca, events, i) <==> ActiveFrom(ca, events[..|events| - 1], i) && !StoppedAt(ca, events, |events| - 1)
  {
    var n := |events| - 1;
    forall j: nat | j < n
      ensures ActivatedAt(ca, events[..n], j) == ActivatedAt(ca, events, j) && StoppedAt(ca, events[..n], j) == StoppedAt(ca, events, j)
    {
      PrefixAccepts(ca, events, j);
    }
  }

  lemma LastEventAt(ca: Authority, events: seq<Event>)
    requires events != []
    ensures var n, op := |events| - 1, events[|events| - 1].op;
            && (ActivatedAt(ca, events, n) <==> Accepted(ca, events) && Activates(op))
            && (StoppedAt(ca, events, n) <==> Accepted(ca, events) && (Deletes(op) || Disables(op)))
            && (ActiveFrom(ca, events, n) <==> ActivatedAt(ca, events, n))
  {
  }

  lemma {:induction false} ActiveSinceIs(ca: Authority, events: seq<Event>)
    ensures ActiveSince(ca, events) <==> exists i: nat :: ActiveFrom(ca, events, i)
  {
    if events != [] {
      var n := |events| - 1;
      LastEventAt(ca, events);
      ActiveSinceIs(ca, events[..n]);
      forall i: nat | i < n
        ensures ActiveFrom(ca, events, i) <==> ActiveFrom(ca, events[..n], i) && !StoppedAt(ca, events, n)
      {
        ActiveFromStep(ca, events, i);
      }
      if ActiveSince(ca, events[..n]) && !StoppedAt(ca, events, n) {
        var i: nat :| ActiveFrom(ca, events[..n], i);
        assert ActiveFrom(ca, events, i);
      }
      if i: nat :| ActiveFrom(ca, events, i) {
        assert i < n ==> ActiveFrom(ca, events[..n], i);
      }
    }
  }

  // An authority is ACTIVE exactly when an import or a switch to ACTIVE was
  // accepted and no delete or disable was accepted after it.
  lemma ActiveExactly(ca: Authority, start: Time, events: seq<Event>)
    requires New(ca) && Inv(ca) && ValidRun(ca, start, events)
    ensures Run(ca, events).status.Active? <==> exists i: nat :: ActiveFrom(ca, events, i)
  {
    RunTells(ca, start, events);
    ActiveSinceIs(ca, events);
  }

  // PENDING_CERTIFICATE is what is left.
  ghost predicate PendingNow(ca: Authority, events: seq<Event>) {
    !ActiveSince(ca, events) && !DeletedSince(ca, events) && !FailedSince(ca, events) && !DisabledSince(ca, events)
  }

  // ---- the answers ----

  function Done(ok: bool, otherwise: Fault): Reply<string> { if ok then Ok("") else Err(otherwise) }

  // The lifecycle calls are answered by what came before them.
  lemma LifecycleAnswers(ca: Authority, start: Time, events: seq<Event>, op: LifecycleOp, at: Time)
    requires New(ca) && Inv(ca) && ValidRun(ca, start, events)
    ensures LifecycleStep(Run(ca, events), op, at).reply ==
            match op
            case KeygenEnds(_) => Ok("")
            case Rearms => Ok("")
            case Updates(status) =>
              if status.OtherStatus? then Err(InvalidArgs)
              else Done(!DeletedSince(ca, events) && (status.ToActive? ==> LastImport(ca, events).Some?), InvalidState)
            case Deletes(days) =>
              if !(7 <= days <= 30) then Err(InvalidArgs)
              else Done(!ActiveSince(ca, events) && !DeletedSince(ca, events), InvalidState)
            case Restores => Done(DeletedSince(ca, events), InvalidState)
            case Imports(certificate, chain) =>
              if certificate.Missing? then Err(MalformedCertificate)
              else if DeletedSince(ca, events) || KeyMade(ca, events).None? then Err(InvalidState)
              else if ca.caType.Subordinate? && chain.None? then Err(InvalidRequest)
              else if certificate.Malformed? then Err(MalformedCertificate)
              else Done(certificate.value.subjectKey == PublicKey(KeyMade(ca, events).value), CertificateMismatch)
  {
    RunTells(ca, start, events);
    RunExtends(ca, start, events);
  }

  // The window of a request that names no start and asks for days, months or
  // years: it opens when the request is received and lasts that long.
  lemma RelativeWindow(r: IssueRequest)
    requires r.startValue.None? && IsRelative(r.validityType) && Representable(r.captured)
    ensures Prepare(r).Ok? <==>
            !r.csr.Missing? && !r.signingAlgorithm.OtherAlgorithm? && RelativeAccepted(r.captured, r.validityValue as int, r.validityType)
    ensures Prepare(r).Ok? ==>
              && Prepare(r).value.notBefore == r.captured
              && Prepare(r).value.notAfter == r.captured + RelativeDays(r.validityValue as int, r.validityType) * DAY
  {
    RelativeExact(r.captured, r.validityValue, r.validityType);
  }

  // The window of a request that gives both ends as timestamps.
  lemma AbsoluteWindow(r: IssueRequest)
    requires r.startValue.Some? && r.startValue.value.1 == "ABSOLUTE" && r.validityType == "ABSOLUTE"
    ensures var from, to := r.startValue.value.0 as int, r.validityValue as int;
            && (Prepare(r).Ok? <==>
                  && !r.csr.Missing? && !r.signingAlgorithm.OtherAlgorithm?
                  && StartOfYear(MIN_CHRONO_YEAR) <= from < to <= Timestamp(Civil(9999, 12, 31, 23, 59, 59)))
            && (Prepare(r).Ok? ==> Prepare(r).value.notBefore == from * NANOS && Prepare(r).value.notAfter == to * NANOS)
  {
    AbsoluteExact(r.captured, r.startValue.value.0);
    AbsoluteExact(r.captured, r.validityValue);
  }

  // A template is one for authorities exactly when its name mentions
  // CACertificate: the second name the code looks for contains the first.
  lemma CaTemplateExactly(template: string)
    ensures IsCaTemplate(Some(template)) <==> exists i: nat :: OccursAt(template, "CACertificate", i)
  {
    if Find(template, "CACertificate").Some? {
      Found(template, "CACertificate");
    } else if Find(template, "RootCACertificate").Some? {
      Found(template, "RootCACertificate");
      var i := Find(template, "RootCACertificate").value;
      RootNameHasName(template, i);
    }
    if i: nat :| OccursAt(template, "CACertificate", i) { OccursIsFound(template, "CACertificate", i); }
  }

  lemma RootNameHasName(template: string, i: nat)
    requires OccursAt(template, "RootCACertificate", i)
    ensures OccursAt(template, "CACertificate", i + 4)
  {
    assert template[i + 4..i + 17] == template[i..i + 17][4..];
  }

  // The rest of the request enters the critical section as it is.
  lemma RestOfRequest(r: IssueRequest)
    requires Prepare(r).Ok?
    ensures var p := Prepare(r).value;
            && (p.csr, p.signingAlgorithm, p.template, p.token) == (r.csr, r.signingAlgorithm, r.template, r.token)
            && (p.captured, p.serial, p.signerFails) == (r.captured, r.serial, r.signerFails)
            && (p.caTemplate <==> r.template.Some? && exists i: nat :: OccursAt(r.template.value, "CACertificate", i))
  {
    if r.template.Some? { CaTemplateExactly(r.template.value); }
  }

  // A certificate of the same token, issued less than five minutes ago.
  ghost predicate RecentlyIssued(now: Authority, token: Option<string>, at: Time) {
    token.Some? && exists s :: s in now.issued && now.issued[s].token == token && at < now.issued[s].issuedAt + 5 * 60 * NANOS
  }

  ghost predicate MaySign(ca: Authority, events: seq<Event>, p: Prepared) {
    ActiveSince(ca, events) || (ca.caType.Root? && p.caTemplate && PendingNow(ca, events))
  }

  datatype Family = Rsa | Ecdsa | NoFamily

  function FamilyOf(a: SigningAlgorithm): Family {
    match a
    case Sha256WithRsa | Sha384WithRsa | Sha512WithRsa => Rsa
    case Sha256WithEcdsa | Sha384WithEcdsa | Sha512WithEcdsa => Ecdsa
    case _ => NoFamily
  }

  lemma RepeatIsRecent(now: Authority, p: Prepared, at: Time)
    ensures Repeated(now, p, at).Some? <==> RecentlyIssued(now, p.token, at)
  {
    if RecentlyIssued(now, p.token, at) {
      var s :| s in now.issued && now.issued[s].token == p.token && at < now.issued[s].issuedAt + 5 * 60 * NANOS;
      assert Repeats(now.issued[s], p.token.value, at);
    }
  }

  // IssueCertificate repeats a certificate of its token issued less than five
  // minutes ago; otherwise it succeeds exactly when the authority may sign, has
  // its key, and the request can be signed.
  lemma IssueAnswers(ca: Authority, start: Time, events: seq<Event>, p: Prepared, at: Time)
    requires New(ca) && Inv(ca) && ValidRun(ca, start, events)
    ensures !RecentlyIssued(Run(ca, events), p.token, at) ==>
              Issue(Run(ca, events), p, at).reply ==
              if !MaySign(ca, events, p) then Err(InvalidState)
              else if FamilyOf(p.signingAlgorithm) != (if ca.rsaKey then Rsa else Ecdsa) || KeyMade(ca, events).None? then Err(InvalidArgs)
              else if p.signerFails || !p.csr.Parsed? then Err(MalformedCsr)
              else Ok(p.serial)
    ensures RecentlyIssued(Run(ca, events), p.token, at) ==>
              exists s :: && s in Run(ca, events).issued && Run(ca, events).issued[s].token == p.token
                          && at < Run(ca, events).issued[s].issuedAt + 5 * 60 * NANOS
                          && Issue(Run(ca, events), p, at) == Outcome(Run(ca, events), Ok(s))
  {
    RunTells(ca, start, events);
    RunKeepsInv(ca, start, events);
    RunExtends(ca, start, events);
    RepeatIsRecent(Run(ca, events), p, at);
    var found := Repeated(Run(ca, events), p, at);
    if found.Some? {
      assert IssuedOk(Run(ca, events).key, found.value, Run(ca, events).issued[found.value]);
    }
  }

  // RevokeCertificate succeeds exactly on an ACTIVE authority, with a known
  // reason, for a certificate of this authority not revoked before.
  lemma RevokeAnswers(ca: Authority, start: Time, events: seq<Event>, presented: string, reason: Reason, at: Time)
    requires New(ca) && Inv(ca) && ValidRun(ca, start, events)
    ensures Revoke(Run(ca, events), Normalize(presented), reason, at).reply.Ok? <==>
            && !reason.OtherReason? && ActiveSince(ca, events)
            && exists s :: s in Run(ca, events).issued && Presents(presented, s) && !RevokedBy(ca, events, s)
  {
    var now := Run(ca, events);
    RunTells(ca, start, events);
    RunKeepsInv(ca, start, events);
    KnownIsStored(now, Normalize(presented));
    forall s | s in now.issued
      ensures Presents(presented, s) <==> Normalize(presented) == s
      ensures RevokedBy(ca, events, s) <==> s in now.revoked
    {
      assert IssuedOk(now.key, s, now.issued[s]);
      NormalizeExact(presented, s);
      RevokedExactly(ca, events, s);
    }
  }

  // A restored authority with a certificate signs nothing until it is activated.
  lemma {:induction false} RestoredSignsNothing(ca: Authority, start: Time, events: seq<Event>, more: seq<Event>)
    requires New(ca) && Inv(ca) && ValidRun(ca, start, events + more)
    requires DisabledSince(ca, events) && LastImport(ca, events).Some?
    requires forall i: nat :: |events| <= i < |events + more| ==> !ActivatedAt(ca, events + more, i)
    ensures Run(ca, events + more).issued == Run(ca, events).issued
  {
    if more == [] {
      assert events + more == events;
    } else {
      var all, n := events + more, |events + more| - 1;
      assert all[..n] == events + more[..|more| - 1];
      forall i: nat | |events| <= i < n ensures !ActivatedAt(ca, all[..n], i) { PrefixAccepts(ca, all, i); }
      RestoredSignsNothing(ca, start, events, more[..|more| - 1]);
      NotPendingAgain(ca, start, events, more[..|more| - 1]);
      RunTells(ca, start, all[..n]);
      IssuedGrowsOnly(Run(ca, all[..n]), all[n]);
    }
  }

  // Once a certificate is installed the authority is never pending again, and
  // without an activation it does not become active.
  lemma {:induction false} NotPendingAgain(ca: Authority, start: Time, events: seq<Event>, more: seq<Event>)
    requires New(ca) && Inv(ca) && ValidRun(ca, start, events + more)
    requires DisabledSince(ca, events) && LastImport(ca, events).Some?
    requires forall i: nat :: |events| <= i < |events + more| ==> !ActivatedAt(ca, events + more, i)
    ensures LastImport(ca, events + more).Some? && (DisabledSince(ca, events + more) || DeletedSince(ca, events + more))
  {
    var all := events + more;
    if more == [] {
      assert all == events;
    } else {
      var n := |all| - 1;
      assert all[..n] == events + more[..|more| - 1];
      forall i: nat | |events| <= i < n ensures !ActivatedAt(ca, all[..n], i) { PrefixAccepts(ca, all, i); }
      NotPendingAgain(ca, start, events, more[..|more| - 1]);
      RunTells(ca, start, all[..n]);
      RunKeepsInv(ca, start, all[..n]);
      assert !ActivatedAt(ca, all, n);
    }
  }

  // ---- what was issued ----

  // A stored certificate is what the call asked for: the key of its CSR, signed
  // by the authority's key, with the call's window (encoded in whole seconds),
  // moment, template and token; a root's own certificate has no chain, any other
  // the installed certificate and its parents.
  ghost predicate RecordTells(was: Authority, p: Prepared, c: Issued) {
    && p.csr.Parsed? && was.key.Some?
    && c.certificate.subjectKey == p.csr.value.subjectKey && c.certificate.signer == PublicKey(was.key.value)
    && c.serial == p.serial == c.certificate.serial
    && c.certificate.notBefore == WholeSeconds(p.notBefore) && c.certificate.notAfter == WholeSeconds(p.notAfter)
    && c.notBefore == p.notBefore && c.notAfter == p.notAfter && c.issuedAt == p.captured
    && c.template == p.template && c.token == p.token
    && (c.chain.None? <==> was.status.PendingCertificate?)
    && (c.chain.Some? ==> was.status.Active? && was.certificate == Some(c.chain.value.issuer) && was.chain == c.chain.value.parents)
  }

  lemma IssueRecords(was: Authority, p: Prepared, at: Time)
    requires Inv(was) && p.serial !in was.issued && Issue(was, p, at).ca.issued != was.issued
    ensures p.serial in Issue(was, p, at).ca.issued && RecordTells(was, p, Issue(was, p, at).ca.issued[p.serial])
  {
  }

  // Event i issued the certificate.
  ghost predicate IssuedAt(ca: Authority, events: seq<Event>, i: nat, serial: string) {
    && i < |events| && events[i].op.Issues? && events[i].op.prepared.serial == serial
    && serial !in Run(ca, events[..i]).issued && serial in Run(ca, events[..i + 1]).issued
  }

  // Every certificate of the authority was issued by an event of the run, and is
  // what that call asked for.
  lemma {:induction false} IssuedTells(ca: Authority, start: Time, events: seq<Event>, serial: string) returns (i: nat)
    requires New(ca) && Inv(ca) && ValidRun(ca, start, events) && serial in Run(ca, events).issued
    ensures IssuedAt(ca, events, i, serial)
    ensures RecordTells(Run(ca, events[..i]), events[i].op.prepared, Run(ca, events).issued[serial])
  {
    var n := |events| - 1;
    var before := events[..n];
    var was := Run(ca, before);
    assert events[..n + 1] == events;
    RunKeepsInv(ca, start, before);
    StepExtends(was, events[n]);
    if serial in was.issued {
      i := IssuedTells(ca, start, before, serial);
      assert before[..i] == events[..i] && before[..i + 1] == events[..i + 1];
    } else {
      i := n;
      IssuedGrowsOnly(was, events[n]);
      IssueRecords(was, events[n].op.prepared, events[n].at);
    }
  }

  // A certificate of the authority certifies a key exactly when the call that
  // issued it presented a CSR for that key.
  lemma CertifiesWhatWasAsked(ca: Authority, start: Time, events: seq<Event>, serial: string, key: Key) returns (i: nat)
    requires New(ca) && Inv(ca) && ValidRun(ca, start, events) && serial in Run(ca, events).issued
    ensures IssuedAt(ca, events, i, serial)
    ensures Certifies(Run(ca, events).issued[serial].certificate, key)
            <==> events[i].op.prepared.csr == Parsed(Csr(PublicKey(key)))
  {
    i := IssuedTells(ca, start, events, serial);
  }

  // ---- what was revoked, and the report ----

  // The moment and reason of the RevokeCertificate that named the serial.
  ghost function RevocationOf(ca: Authority, events: seq<Event>, serial: string): Option<(Time, Reason)> {
    if events == [] then None
    else
      var before, e := events[..|events| - 1], events[|events| - 1];
      if PrivateCaRuns.Revokes(Run(ca, before), e, serial) then Some((e.at, e.op.reason))
      else RevocationOf(ca, before, serial)
  }

  lemma StepRevocation(was: Authority, e: Event, serial: string)
    requires forall c :: c in serial ==> IsLowerHex(c)
    ensures var now := Step(was, e).ca;
            if PrivateCaRuns.Revokes(was, e, serial)
            then serial in now.revoked && now.revoked[serial] == Revocation(serial, e.at, e.op.reason)
            else (serial in now.revoked <==> serial in was.revoked)
                 && (serial in was.revoked ==> now.revoked[serial] == was.revoked[serial])
  {
    match e.op
    case Revokes(presented, reason) => NormalizeExact(presented, serial);
    case Issues(p) => var o := Issue(was, p, e.at);
    case Lifecycle(op) => var o := LifecycleStep(was, op, e.at);
  }

  lemma {:induction false} RevokedTells(ca: Authority, events: seq<Event>, serial: string)
    requires ca.revoked == map[] && forall c :: c in serial ==> IsLowerHex(c)
    ensures var now := Run(ca, events);
            && (serial in now.revoked <==> RevocationOf(ca, events, serial).Some?)
            && (serial in now.revoked ==>
                  now.revoked[serial] == Revocation(serial, RevocationOf(ca, events, serial).value.0,
                                                    RevocationOf(ca, events, serial).value.1))
  {
    if events != [] {
      RevokedTells(ca, events[..|events| - 1], serial);
      StepRevocation(Run(ca, events[..|events| - 1]), events[|events| - 1], serial);
    }
  }

  // The one report row of a certificate holds the window and moment of the call
  // that issued it, and the moment and reason of the call that revoked it.
  lemma ReportTells(ca: Authority, start: Time, events: seq<Event>, serial: string) returns (i: nat)
    requires New(ca) && Inv(ca) && ValidRun(ca, start, events) && serial in Run(ca, events).issued
    ensures IssuedAt(ca, events, i, serial)
    ensures var p, revoked := events[i].op.prepared, RevocationOf(ca, events, serial);
            var report := JsonReport(Run(ca, events));
            exists k :: OnlyRow(report, k, serial)
                        && report[k] == Row(serial, p.notBefore, p.notAfter, p.captured,
                                            if revoked.Some? then Some(revoked.value.0) else None,
                                            if revoked.Some? then Some(revoked.value.1) else None)
  {
    var now := Run(ca, events);
    i := IssuedTells(ca, start, events, serial);
    RunKeepsInv(ca, start, events);
    assert IssuedOk(now.key, serial, now.issued[serial]);
    RevokedTells(ca, events, serial);
    ReportHasOneRowEach(now, serial);
  }
}
