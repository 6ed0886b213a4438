// The snapshot-write protocol every service shares
// (crates/fakecloud-acmpca/src/persistence.rs, `save_acm_snapshot`, and
// crates/fakecloud-account/src/persistence.rs): a handler changes the state,
// then takes the async lock, clones the state, writes the clone on the blocking
// pool, releases the lock and answers. Any number of callers interleave.

module SnapshotProtocol {
  import opened Common

  // Where a caller stands once its change is made. `effect` is the position in
  // the state history its own change produced.
  datatype Phase<T> =
    | Waiting(effect: nat)
    | Locked(effect: nat)
    | Cloned(effect: nat, copy: T, version: nat)  // the blocking write is under way
    | Written(effect: nat, ok: bool)
    | Returned(effect: nat, ok: bool)

  datatype Saved<T> = Saved(copy: T, version: nat)

  // `history` lists every state the service has been in; the last one is current.
  // `orphans` are writes whose caller went away while they were under way.
  datatype World<T> = World(
    history: seq<T>, holder: Option<nat>, callers: map<nat, Phase<T>>,
    disk: Option<Saved<T>>, orphans: seq<Saved<T>>)

  datatype Event<T> =
    | Mutates(caller: nat, next: T)       // a successful mutating handler, or a background task
    | Changes(next: T)                    // a change nobody saves by itself
    | Acquires(caller: nat)
    | Clones(caller: nat)
    | Writes(caller: nat, ok: bool)
    | Returns(caller: nat)
    | Abandons(caller: nat)               // the request future is dropped
    | OrphanWrites(i: nat)

  predicate InLock<T>(p: Phase<T>) { p.Locked? || p.Cloned? || p.Written? }

  predicate Can<T>(w: World<T>, e: Event<T>) {
    match e
    case Mutates(c, _) => c !in w.callers
    case Changes(_) => true
    case Acquires(c) => c in w.callers && w.callers[c].Waiting? && w.holder.None?
    case Clones(c) => c in w.callers && w.callers[c].Locked? && w.history != []
    case Writes(c, _) => c in w.callers && w.callers[c].Cloned?
    case Returns(c) => c in w.callers && w.callers[c].Written?
    case Abandons(c) => c in w.callers && !w.callers[c].Returned?
    case OrphanWrites(i) => i < |w.orphans|
  }

  function Do<T>(w: World<T>, e: Event<T>): World<T>
    requires Can(w, e)
  {
    match e
    case Mutates(c, next) => w.(history := w.history + [next], callers := w.callers[c := Waiting(|w.history|)])
    case Changes(next) => w.(history := w.history + [next])
    case Acquires(c) => w.(holder := Some(c), callers := w.callers[c := Locked(w.callers[c].effect)])
    case Clones(c) =>
      var last := |w.history| - 1;
      w.(callers := w.callers[c := Cloned(w.callers[c].effect, w.history[last], last)])
    case Writes(c, ok) =>
      var p := w.callers[c];
      w.(callers := w.callers[c := Written(p.effect, ok)], disk := if ok then Some(Saved(p.copy, p.version)) else w.disk)
    case Returns(c) => w.(holder := None, callers := w.callers[c := Returned(w.callers[c].effect, w.callers[c].ok)])
    case Abandons(c) =>
      var p := w.callers[c];
      w.(callers := w.callers - {c},
         holder := if InLock(p) then None else w.holder,
         orphans := if p.Cloned? then w.orphans + [Saved(p.copy, p.version)] else w.orphans)
    case OrphanWrites(i) => w.(disk := Some(w.orphans[i]), orphans := w.orphans[..i] + w.orphans[i + 1..])
  }

  ghost predicate ValidRun<T>(w: World<T>, events: seq<Event<T>>)
    decreases |events|
  {
    events == [] || (Can(w, events[0]) && ValidRun(Do(w, events[0]), events[1..]))
  }

  ghost function Run<T>(w: World<T>, events: seq<Event<T>>): World<T>
    requires ValidRun(w, events)
    decreases |events|
  {
    if events == [] then w else Run(Do(w, events[0]), events[1..])
  }

  // How far into the history the stored snapshot reaches; -1 before any save.
  function StoredVersion<T>(w: World<T>): int { if w.disk.None? then -1 else w.disk.value.version }

  // A caller goes away between cloning the state and seeing its write finish.
  ghost predicate AbandonsInFlight<T>(w: World<T>, e: Event<T>) {
    e.Abandons? && e.caller in w.callers && w.callers[e.caller].Cloned?
  }

  ghost predicate NoneAbandonedInFlight<T>(w: World<T>, events: seq<Event<T>>)
    requires ValidRun(w, events)
    decreases |events|
  {
    events == [] || (!AbandonsInFlight(w, events[0]) && NoneAbandonedInFlight(Do(w, events[0]), events[1..]))
  }

  // ---- the invariant ----

  ghost predicate PhaseOk<T(!new)>(w: World<T>, c: nat, p: Phase<T>) {
    && p.effect < |w.history|
    && (InLock(p) <==> w.holder == Some(c))
    && (p.Cloned? ==> p.effect <= p.version < |w.history| && p.copy == w.history[p.version] && StoredVersion(w) <= p.version)
    && ((p.Written? || p.Returned?) && p.ok ==> p.effect <= StoredVersion(w))
  }

  ghost predicate Inv<T(!new)>(w: World<T>) {
    && w.history != []
    && w.orphans == []
    && (w.disk.Some? ==> w.disk.value.version < |w.history| && w.disk.value.copy == w.history[w.disk.value.version])
    && (w.holder.Some? ==> w.holder.value in w.callers)
    && forall c :: c in w.callers ==> PhaseOk(w, c, w.callers[c])
  }

  lemma StartSatisfiesInv<T(!new)>(initial: T)
    ensures Inv(World([initial], None, map[], None, []))
  {
  }

  // A new state of the service disturbs nobody.
  lemma ChangeSafe<T(!new)>(w: World<T>, e: Event<T>)
    requires Inv(w) && Can(w, e) && (e.Mutates? || e.Changes?)
    ensures Inv(Do(w, e)) && StoredVersion(w) == StoredVersion(Do(w, e))
  {
    var next := Do(w, e);
    forall c | c in next.callers ensures PhaseOk(next, c, next.callers[c]) {
      if c in w.callers { assert PhaseOk(w, c, w.callers[c]); }
    }
  }

  // Taking the lock, cloning under it, and giving it up or waiting in vain.
  lemma LockSafe<T(!new)>(w: World<T>, e: Event<T>)
    requires Inv(w) && Can(w, e) && !AbandonsInFlight(w, e)
    requires e.Acquires? || e.Clones? || e.Returns? || e.Abandons?
    ensures Inv(Do(w, e)) && StoredVersion(w) == StoredVersion(Do(w, e))
  {
    var next := Do(w, e);
    assert PhaseOk(w, e.caller, w.callers[e.caller]);
    forall c | c in next.callers ensures PhaseOk(next, c, next.callers[c]) {
      assert PhaseOk(w, c, w.callers[c]);
    }
  }

  // The lock holder's clone is at least as new as what is stored.
  lemma WriteSafe<T(!new)>(w: World<T>, caller: nat, ok: bool)
    requires Inv(w) && Can(w, Writes(caller, ok))
    ensures Inv(Do(w, Writes(caller, ok))) && StoredVersion(w) <= StoredVersion(Do(w, Writes(caller, ok)))
  {
    var next := Do(w, Writes(caller, ok));
    assert PhaseOk(w, caller, w.callers[caller]);
    forall c | c in next.callers ensures PhaseOk(next, c, next.callers[c]) {
      assert PhaseOk(w, c, w.callers[c]);
    }
  }

  lemma StepSafe<T(!new)>(w: World<T>, e: Event<T>)
    requires Inv(w) && Can(w, e) && !AbandonsInFlight(w, e)
    ensures Inv(Do(w, e))
    ensures StoredVersion(w) <= StoredVersion(Do(w, e))
  {
    match e
    case Mutates(_, _) => ChangeSafe(w, e);
    case Changes(_) => ChangeSafe(w, e);
    case Writes(caller, ok) => WriteSafe(w, caller, ok);
    case OrphanWrites(_) =>
    case _ => LockSafe(w, e);
  }

  // With any number of callers, and whether or not single writes fail, the
  // stored snapshot only moves forward in the state history, provided no caller
  // is abandoned while its write is under way.
  lemma {:induction false} StoredSnapshotMovesForward<T(!new)>(w: World<T>, events: seq<Event<T>>)
    requires Inv(w) && ValidRun(w, events) && NoneAbandonedInFlight(w, events)
    ensures Inv(Run(w, events))
    ensures StoredVersion(w) <= StoredVersion(Run(w, events))
    decreases |events|
  {
    if events != [] {
      StepSafe(w, events[0]);
      StoredSnapshotMovesForward(Do(w, events[0]), events[1..]);
    }
  }

  // When a mutating call has answered and its save succeeded, the stored
  // snapshot is a state of the history at or after the call's own change, and
  // stays so for the rest of the run.
  lemma ReturnedChangesAreStored<T(!new)>(w: World<T>, events: seq<Event<T>>, caller: nat)
    requires Inv(w) && ValidRun(w, events) && NoneAbandonedInFlight(w, events)
    requires caller in w.callers && w.callers[caller].Returned? && w.callers[caller].ok
    ensures var now := Run(w, events);
            && now.disk.Some?
            && w.callers[caller].effect <= now.disk.value.version < |now.history|
            && now.disk.value.copy == now.history[now.disk.value.version]
  {
    assert PhaseOk(w, caller, w.callers[caller]);
    StoredSnapshotMovesForward(w, events);
  }

  // ---- abandoned callers ----

  // The proviso is exact: from any sound state, abandoning a caller whose write
  // is under way opens a run in which the stored snapshot goes back.
  lemma AbandonedWriteCanGoBack<T(!new)>(w: World<T>, caller: nat, other: nat, next: T)
    requires Inv(w) && caller in w.callers && w.callers[caller].Cloned? && other !in w.callers
    ensures var save := [Abandons(caller), Mutates(other, next), Acquires(other), Clones(other), Writes(other, true)];
            && ValidRun(w, save)
            && ValidRun(Run(w, save), [OrphanWrites(0)])
            && StoredVersion(Run(Run(w, save), [OrphanWrites(0)])) < StoredVersion(Run(w, save))
  {
    var p := w.callers[caller];
    assert PhaseOk(w, caller, p);
    var e0, e1, e2, e3, e4: Event<T> :=
      Abandons(caller), Mutates(other, next), Acquires(other), Clones(other), Writes(other, true);
    var w1 := Do(w, e0);
    var w2 := Do(w1, e1);
    var w3 := Do(w2, e2);
    var w4 := Do(w3, e3);
    var w5 := Do(w4, e4);
    RunsFive(w, [e0, e1, e2, e3, e4], w1, w2, w3, w4, w5);
    assert w5.orphans == [Saved(p.copy, p.version)];
    RunsOne(w5, OrphanWrites(0));
  }

  lemma RunsOne<T(!new)>(w: World<T>, e: Event<T>)
    requires Can(w, e)
    ensures ValidRun(w, [e]) && Run(w, [e]) == Do(w, e)
  {
    assert [e][1..] == [];
  }

  lemma RunsFive<T(!new)>(w: World<T>, es: seq<Event<T>>, w1: World<T>, w2: World<T>, w3: World<T>, w4: World<T>, w5: World<T>)
    requires |es| == 5
    requires Can(w, es[0]) && Do(w, es[0]) == w1 && Can(w1, es[1]) && Do(w1, es[1]) == w2
    requires Can(w2, es[2]) && Do(w2, es[2]) == w3 && Can(w3, es[3]) && Do(w3, es[3]) == w4
    requires Can(w4, es[4]) && Do(w4, es[4]) == w5
    ensures ValidRun(w, es) && Run(w, es) == w5
  {
    assert es[1..][1..] == es[2..] && es[2..][1..] == es[3..] && es[3..][1..] == es[4..] && es[4..][1..] == [];
    assert ValidRun(w4, es[4..]) && Run(w4, es[4..]) == w5;
    assert ValidRun(w3, es[3..]) && Run(w3, es[3..]) == w5;
    assert ValidRun(w2, es[2..]) && Run(w2, es[2..]) == w5;
    assert ValidRun(w1, es[1..]) && Run(w1, es[1..]) == w5;
  }
}
