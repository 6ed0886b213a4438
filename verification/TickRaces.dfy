// The auto-issue ticks of a certificate race with every other call
// (crates/fakecloud-acm/src/service.rs:181-243). Whatever the interleaving, at
// most one of them takes effect.

module TickRaces {
  import opened Common
  import opened AcmCertificates

  // The certificate is there and no longer pending.
  predicate Settled(state: State, arn: string) { arn in state && !state[arn].status.PendingValidation? }

  // The two ways out of that: a delete, and an admin switch back to pending.
  ghost predicate Resets(state: State, op: Op, arn: string) {
    op == Deletes(arn) || (op.AdminSets? && op.status.PendingValidation? && Addressed(state, op.arnOrId) == Some(arn))
  }

  // A tick that finds the certificate pending issues it.
  predicate Flips(state: State, op: Op, arn: string) {
    op == Ticks(arn) && arn in state && state[arn].status.PendingValidation? && state[arn].certType.AmazonIssued?
  }

  ghost function ResetsIn(state: State, events: seq<Event>, arn: string): nat {
    if events == [] then 0
    else
      var before, e := events[..|events| - 1], events[|events| - 1];
      ResetsIn(state, before, arn) + if Resets(Run(state, before), e.op, arn) then 1 else 0
  }

  ghost function FlipsIn(state: State, events: seq<Event>, arn: string): nat {
    if events == [] then 0
    else
      var before, e := events[..|events| - 1], events[|events| - 1];
      FlipsIn(state, before, arn) + if Flips(Run(state, before), e.op, arn) then 1 else 0
  }

  predicate FreshArn(state: State, op: Op) { op.Requests? || op.Imports? ==> op.newArn !in state }

  lemma StaysSettled(state: State, op: Op, now: int, arn: string)
    requires Settled(state, arn) && FreshArn(state, op) && !Resets(state, op, arn)
    ensures Settled(Step(state, op, now).state, arn)
  {
  }

  // A tick takes effect exactly when it flips, and then settles.
  lemma TickFlips(state: State, now: int, arn: string)
    ensures Flips(state, Ticks(arn), arn) ==> Settled(Step(state, Ticks(arn), now).state, arn)
    ensures !Flips(state, Ticks(arn), arn) ==> Step(state, Ticks(arn), now).state == state
  {
  }

  // Each return to pending (or deletion) buys at most one more effective tick.
  lemma {:induction false} FlipsNeedResets(state: State, events: seq<Event>, arn: string)
    requires ValidRun(state, events)
    ensures FlipsIn(state, events, arn) <= ResetsIn(state, events, arn) + if Settled(Run(state, events), arn) then 1 else 0
  {
    if events != [] {
      var before, e := events[..|events| - 1], events[|events| - 1];
      var was := Run(state, before);
      FlipsNeedResets(state, before, arn);
      if Flips(was, e.op, arn) {
        TickFlips(was, e.now, arn);
      } else if Settled(was, arn) && !Resets(was, e.op, arn) {
        StaysSettled(was, e.op, e.now, arn);
      }
    }
  }

  // Over any run, however many ticks are armed and whatever runs between them,
  // the ticks that take effect are at most one more than the resets.
  lemma AtMostOneTickPerReset(state: State, events: seq<Event>, arn: string)
    requires ValidRun(state, events)
    ensures FlipsIn(state, events, arn) <= ResetsIn(state, events, arn) + 1
  {
    FlipsNeedResets(state, events, arn);
  }

  lemma {:induction false} SettledStaysSettled(state: State, events: seq<Event>, arn: string)
    requires Settled(state, arn) && ValidRun(state, events) && ResetsIn(state, events, arn) == 0
    ensures Settled(Run(state, events), arn)
  {
    if events != [] {
      var before, e := events[..|events| - 1], events[|events| - 1];
      SettledStaysSettled(state, before, arn);
      StaysSettled(Run(state, before), e.op, e.now, arn);
    }
  }

  // Once a certificate has left PENDING_VALIDATION, every later tick of the run
  // changes nothing, until it is deleted or switched back.
  lemma LaterTicksDoNothing(state: State, events: seq<Event>, arn: string, now: int)
    requires Settled(state, arn) && ValidRun(state, events) && ResetsIn(state, events, arn) == 0
    ensures Step(Run(state, events), Ticks(arn), now).state == Run(state, events)
  {
    SettledStaysSettled(state, events, arn);
    TickFlips(Run(state, events), now, arn);
  }
}
