// CreateCertificateAuthority looks its idempotency token up under a read lock
// and inserts under a later write lock
// (crates/fakecloud-acmpca/src/service.rs:455-509), and RestoreCertificateAuthority
// brings a deleted authority back into view. This module states exactly when one
// token names at most one authority under every interleaving of those steps. It
// also models the bounded wait for background key generation.

module CaCreation {
  import opened Common
  import opened Validity
  import Ca = PrivateCa

  // The fields of an authority the token lookup reads.
  datatype Head = Head(token: Option<string>, createdAt: Time, deleted: bool)

  type Account = map<string, Head>

  predicate Visible(h: Head, token: string, at: Time) {
    h.token == Some(token) && !h.deleted && Ca.InWindow(h.createdAt, at)
  }

  // The read-locked lookup: the first visible authority in ARN order.
  function Lookup(account: Account, token: Option<string>, at: Time): (r: Option<string>)
    ensures r.Some? ==> token.Some? && r.value in account && Visible(account[r.value], token.value, at)
    ensures r.None? && token.Some? ==> forall a :: a in account ==> !Visible(account[a], token.value, at)
  {
    if token.None? then None
    else
      var hits := set a | a in account && Visible(account[a], token.value, at);
      assert forall a :: a in account && Visible(account[a], token.value, at) ==> a in hits;
      if hits == {} then None else Some(LeastKey(hits))
  }

  // Each token names at most one visible authority.
  ghost predicate OneVisible(account: Account, now: Time) {
    forall a, b, t :: a in account && b in account && Visible(account[a], t, now) && Visible(account[b], t, now) ==> a == b
  }

  predicate NoneVisible(account: Account, token: string, at: Time) {
    forall a :: a in account ==> !Visible(account[a], token, at)
  }

  // ---- the steps of the calls ----

  // `pending` holds the callers between an empty lookup and their insert, with
  // the token each looked up.
  datatype World = World(account: Account, pending: map<nat, Option<string>>)

  // `stamp` is the creation time the caller read before taking the write lock.
  datatype Op =
    | LooksUp(caller: nat, token: Option<string>)
    | Inserts(caller: nat, newArn: string, stamp: Time)
    | GivesUp(caller: nat)
    | Deletes(arn: string)
    | Restores(arn: string)

  datatype Event = Event(op: Op, at: Time)

  predicate Can(w: World, e: Event) {
    match e.op
    case LooksUp(c, _) => c !in w.pending
    case Inserts(c, newArn, stamp) => c in w.pending && newArn !in w.account && stamp <= e.at
    case GivesUp(c) => c in w.pending
    case Deletes(_) => true
    case Restores(_) => true
  }

  // A lookup that finds an authority answers with it; the others go on.
  function Do(w: World, e: Event): World
    requires Can(w, e)
  {
    match e.op
    case LooksUp(c, token) =>
      if Lookup(w.account, token, e.at).Some? then w else w.(pending := w.pending[c := token])
    case Inserts(c, newArn, stamp) =>
      World(w.account[newArn := Head(w.pending[c], stamp, false)], w.pending - {c})
    case GivesUp(c) => w.(pending := w.pending - {c})
    case Deletes(arn) =>
      if arn in w.account then w.(account := w.account[arn := w.account[arn].(deleted := true)]) else w
    case Restores(arn) =>
      if arn in w.account && w.account[arn].deleted
      then w.(account := w.account[arn := w.account[arn].(deleted := false)])
      else w
  }

  // Any interleaving, with a clock that does not run backwards.
  ghost predicate ValidRun(w: World, start: Time, events: seq<Event>)
    decreases |events|
  {
    events == [] ||
    (start <= events[0].at && Can(w, events[0]) && ValidRun(Do(w, events[0]), events[0].at, events[1..]))
  }

  ghost function Run(w: World, start: Time, events: seq<Event>): World
    requires ValidRun(w, start, events)
    decreases |events|
  {
    if events == [] then w else Run(Do(w, events[0]), events[0].at, events[1..])
  }

  // One authority per token, now and after every event of the run.
  ghost predicate AlwaysOneVisible(w: World, start: Time, events: seq<Event>)
    requires ValidRun(w, start, events)
    decreases |events|
  {
    OneVisible(w.account, start) &&
    (events == [] || AlwaysOneVisible(Do(w, events[0]), events[0].at, events[1..]))
  }

  // ---- exactly when it holds ----

  // An authority about to come into view meets none of its token: the guard an
  // insert or a restore would have to check under its own write lock.
  predicate Safe(w: World, e: Event)
    requires Can(w, e)
  {
    match e.op
    case Inserts(c, _, stamp) =>
      w.pending[c].Some? && Ca.InWindow(stamp, e.at) ==> NoneVisible(w.account, w.pending[c].value, e.at)
    case Restores(arn) =>
      arn in w.account && w.account[arn].deleted && w.account[arn].token.Some? && Ca.InWindow(w.account[arn].createdAt, e.at)
      ==> NoneVisible(w.account, w.account[arn].token.value, e.at)
    case _ => true
  }

  ghost predicate AlwaysSafe(w: World, start: Time, events: seq<Event>)
    requires ValidRun(w, start, events)
    decreases |events|
  {
    events == [] || (Safe(w, events[0]) && AlwaysSafe(Do(w, events[0]), events[0].at, events[1..]))
  }

  lemma VisibilityExpires(account: Account, now: Time, later: Time)
    requires OneVisible(account, now) && now <= later
    ensures OneVisible(account, later)
  {
    forall a, b, t | a in account && b in account && Visible(account[a], t, later) && Visible(account[b], t, later)
      ensures a == b
    {
      assert Visible(account[a], t, now) && Visible(account[b], t, now);
    }
  }

  // Bringing one head into view (a new authority, or a restored one) keeps one
  // authority per token exactly when no other of its token is in view.
  lemma AppearsSafelyExactly(account: Account, arn: string, h: Head, at: Time)
    requires OneVisible(account, at) && !h.deleted
    requires arn in account ==> account[arn].deleted
    ensures OneVisible(account[arn := h], at)
            <==> (h.token.Some? && Ca.InWindow(h.createdAt, at) ==> NoneVisible(account, h.token.value, at))
  {
    var next := account[arn := h];
    if h.token.Some? && Ca.InWindow(h.createdAt, at) {
      assert Visible(next[arn], h.token.value, at);
      forall a | a in account && Visible(account[a], h.token.value, at) ensures !OneVisible(next, at) {
        assert Visible(next[a], h.token.value, at);
      }
    }
    forall a, b, t | a in next && b in next && Visible(next[a], t, at) && Visible(next[b], t, at) && a != arn && b != arn
      ensures a == b
    {
      assert Visible(account[a], t, at) && Visible(account[b], t, at);
    }
  }

  // A restore keeps one authority per token exactly when the authority has no
  // token, its window has closed, or no other authority of its token is in view.
  lemma RestoreIsSafeExactly(account: Account, arn: string, at: Time)
    requires OneVisible(account, at) && arn in account && account[arn].deleted
    ensures OneVisible(account[arn := account[arn].(deleted := false)], at)
            <==> account[arn].token.None? || !Ca.InWindow(account[arn].createdAt, at)
                 || NoneVisible(account, account[arn].token.value, at)
  {
    AppearsSafelyExactly(account, arn, account[arn].(deleted := false), at);
  }

  lemma StepIsSafeExactly(w: World, e: Event)
    requires Can(w, e) && OneVisible(w.account, e.at)
    ensures OneVisible(Do(w, e).account, e.at) <==> Safe(w, e)
  {
    match e.op
    case Inserts(c, newArn, stamp) => AppearsSafelyExactly(w.account, newArn, Head(w.pending[c], stamp, false), e.at);
    case Restores(arn) =>
      if arn in w.account && w.account[arn].deleted { RestoreIsSafeExactly(w.account, arn, e.at); }
    case Deletes(arn) => DeleteHides(w.account, arn, e.at);
    case _ =>
  }

  lemma DeleteHides(account: Account, arn: string, at: Time)
    requires OneVisible(account, at)
    ensures arn in account ==> OneVisible(account[arn := account[arn].(deleted := true)], at)
  {
    if arn in account {
      var next := account[arn := account[arn].(deleted := true)];
      forall a, b, t | a in next && b in next && Visible(next[a], t, at) && Visible(next[b], t, at) ensures a == b {
        assert Visible(account[a], t, at) && Visible(account[b], t, at);
      }
    }
  }

  // Over every interleaving, one token never shows two authorities exactly when
  // every insert and every restore meets none of its token in view.
  lemma {:induction false} OneVisibleExactly(w: World, start: Time, events: seq<Event>)
    requires ValidRun(w, start, events) && OneVisible(w.account, start)
    ensures AlwaysOneVisible(w, start, events) <==> AlwaysSafe(w, start, events)
    decreases |events|
  {
    if events != [] {
      var e := events[0];
      VisibilityExpires(w.account, start, e.at);
      StepIsSafeExactly(w, e);
      if Safe(w, e) { OneVisibleExactly(Do(w, e), e.at, events[1..]); }
    }
  }

  // ---- what callers can do about it ----

  // No call with this token is between its lookup and its insert.
  predicate Unclaimed(w: World, token: Option<string>) {
    token.Some? ==> forall c :: c in w.pending ==> w.pending[c] != token
  }

  // The calls of one token do not overlap, and an authority that carries a token
  // is restored only once its five minutes are over.
  predicate Orderly(w: World, e: Event) {
    match e.op
    case LooksUp(_, token) => Unclaimed(w, token)
    case Restores(arn) => arn in w.account && w.account[arn].token.Some? ==> !Ca.InWindow(w.account[arn].createdAt, e.at)
    case _ => true
  }

  ghost predicate AlwaysOrderly(w: World, start: Time, events: seq<Event>)
    requires ValidRun(w, start, events)
    decreases |events|
  {
    events == [] || (Orderly(w, events[0]) && AlwaysOrderly(Do(w, events[0]), events[0].at, events[1..]))
  }

  // What an empty lookup found stays true until its caller inserts.
  ghost predicate LookupsHold(w: World, now: Time) {
    && (forall c :: c in w.pending && w.pending[c].Some? ==> NoneVisible(w.account, w.pending[c].value, now))
    && (forall c, d :: c in w.pending && d in w.pending && w.pending[c].Some? && w.pending[c] == w.pending[d] ==> c == d)
  }

  lemma EmptinessLasts(account: Account, token: string, now: Time, later: Time)
    requires NoneVisible(account, token, now) && now <= later
    ensures NoneVisible(account, token, later)
  {
    forall a | a in account ensures !Visible(account[a], token, later) {
      assert !Visible(account[a], token, now);
    }
  }

  lemma OrderlyStepHolds(w: World, e: Event)
    requires Can(w, e) && Orderly(w, e) && LookupsHold(w, e.at)
    ensures Safe(w, e) && LookupsHold(Do(w, e), e.at)
  {
    var next := Do(w, e);
    forall c | c in next.pending && next.pending[c].Some? ensures NoneVisible(next.account, next.pending[c].value, e.at) {
      var t := next.pending[c].value;
      if c in w.pending { assert NoneVisible(w.account, t, e.at); }
      forall a | a in next.account ensures !Visible(next.account[a], t, e.at) {
        if a in w.account { assert !Visible(w.account[a], t, e.at); }
      }
    }
  }

  lemma {:induction false} OrderlyIsSafe(w: World, start: Time, events: seq<Event>)
    requires ValidRun(w, start, events) && AlwaysOrderly(w, start, events) && LookupsHold(w, start)
    ensures AlwaysSafe(w, start, events)
    decreases |events|
  {
    if events != [] {
      var e := events[0];
      forall c | c in w.pending && w.pending[c].Some? ensures NoneVisible(w.account, w.pending[c].value, e.at) {
        EmptinessLasts(w.account, w.pending[c].value, start, e.at);
      }
      OrderlyStepHolds(w, e);
      OrderlyIsSafe(Do(w, e), e.at, events[1..]);
    }
  }

  // If no two calls with one token overlap, and no authority with a token is
  // restored inside its window, no token ever shows two authorities.
  lemma OrderlyCallsAreIdempotent(account: Account, start: Time, events: seq<Event>)
    requires OneVisible(account, start)
    requires ValidRun(World(account, map[]), start, events) && AlwaysOrderly(World(account, map[]), start, events)
    ensures AlwaysOneVisible(World(account, map[]), start, events)
  {
    OrderlyIsSafe(World(account, map[]), start, events);
    OneVisibleExactly(World(account, map[]), start, events);
  }

  // And then a create with a token in view answers with that very authority.
  lemma RepeatNamesTheOne(account: Account, arn: string, token: string, at: Time)
    requires OneVisible(account, at) && arn in account && Visible(account[arn], token, at)
    ensures Lookup(account, Some(token), at) == Some(arn)
  {
  }

  // ---- how it fails ----

  lemma Prepend(w: World, at: Time, e: Event, rest: seq<Event>)
    requires e.at == at && Can(w, e) && ValidRun(Do(w, e), at, rest)
    ensures ValidRun(w, at, [e] + rest) && Run(w, at, [e] + rest) == Run(Do(w, e), at, rest)
  {
    assert ([e] + rest)[1..] == rest;
  }

  // A create that nothing interleaves with.
  function CreateCall(caller: nat, token: string, arn: string, at: Time): seq<Event> {
    [Event(LooksUp(caller, Some(token)), at), Event(Inserts(caller, arn, at), at)]
  }

  lemma CreateRuns(w: World, caller: nat, token: string, arn: string, at: Time, rest: seq<Event>)
    requires caller !in w.pending && arn !in w.account && NoneVisible(w.account, token, at)
    requires ValidRun(w.(account := w.account[arn := Head(Some(token), at, false)]), at, rest)
    ensures var next := w.(account := w.account[arn := Head(Some(token), at, false)]);
            && ValidRun(w, at, CreateCall(caller, token, arn, at) + rest)
            && Run(w, at, CreateCall(caller, token, arn, at) + rest) == Run(next, at, rest)
  {
    var looks, inserts := Event(LooksUp(caller, Some(token)), at), Event(Inserts(caller, arn, at), at);
    var mid := w.(pending := w.pending[caller := Some(token)]);
    assert Do(w, looks) == mid;
    assert Do(mid, inserts).pending == w.pending;
    Prepend(mid, at, inserts, rest);
    Prepend(w, at, looks, [inserts] + rest);
    assert [looks] + ([inserts] + rest) == CreateCall(caller, token, arn, at) + rest;
  }

  // Whenever a token is not in view, two calls that both look it up before either
  // inserts mint two authorities for it.
  lemma OverlapDuplicates(account: Account, token: string, a: string, b: string, at: Time)
    requires NoneVisible(account, token, at) && a != b && a !in account && b !in account
    ensures var w := World(account, map[]);
            var events := [Event(LooksUp(1, Some(token)), at), Event(LooksUp(2, Some(token)), at),
                           Event(Inserts(1, a, at), at), Event(Inserts(2, b, at), at)];
            ValidRun(w, at, events) && !OneVisible(Run(w, at, events).account, at)
  {
    var e0, e1 := Event(LooksUp(1, Some(token)), at), Event(LooksUp(2, Some(token)), at);
    var e2, e3 := Event(Inserts(1, a, at), at), Event(Inserts(2, b, at), at);
    var w0 := World(account, map[]);
    var w1, w2 := Do(w0, e0), World(account, map[1 := Some(token), 2 := Some(token)]);
    assert Do(w1, e1) == w2;
    var w3 := Do(w2, e2);
    var w4 := Do(w3, e3);
    Prepend(w3, at, e3, []);
    Prepend(w2, at, e2, [e3]);
    Prepend(w1, at, e1, [e2, e3]);
    Prepend(w0, at, e0, [e1, e2, e3]);
    assert Visible(w4.account[a], token, at) && Visible(w4.account[b], token, at);
  }

  // Calling one at a time does not help a restore: whenever a token is not in
  // view, create, delete, create again and restore shows two authorities for it.
  lemma RestoreDuplicates(account: Account, token: string, a: string, b: string, at: Time)
    requires NoneVisible(account, token, at) && a != b && a !in account && b !in account
    ensures var w := World(account, map[]);
            var events := CreateCall(1, token, a, at)
                          + ([Event(Deletes(a), at)] + (CreateCall(1, token, b, at) + [Event(Restores(a), at)]));
            ValidRun(w, at, events) && !OneVisible(Run(w, at, events).account, at)
  {
    var w0 := World(account, map[]);
    var w1 := w0.(account := account[a := Head(Some(token), at, false)]);
    var w2 := Do(w1, Event(Deletes(a), at));
    var w3 := w2.(account := w2.account[b := Head(Some(token), at, false)]);
    var w4 := Do(w3, Event(Restores(a), at));
    assert NoneVisible(w2.account, token, at);
    Prepend(w3, at, Event(Restores(a), at), []);
    CreateRuns(w2, 1, token, b, at, [Event(Restores(a), at)]);
    Prepend(w1, at, Event(Deletes(a), at), CreateCall(1, token, b, at) + [Event(Restores(a), at)]);
    CreateRuns(w0, 1, token, a, at, [Event(Deletes(a), at)] + (CreateCall(1, token, b, at) + [Event(Restores(a), at)]));
    assert Visible(w4.account[a], token, at) && Visible(w4.account[b], token, at);
  }

  // ---- waiting for the key ----

  // What one pass of the wait loop sees: the CA's state, and the clock after it.
  datatype Reading = Reading(ca: Option<Ca.Authority>, clock: Time)

  const KEYGEN_WAIT: int := 300_000_000_000

  predicate Settled(ca: Option<Ca.Authority>) {
    ca.None? || ca.value.key.Some? || ca.value.status.Failed?
  }

  // `ensure_key_ready`: re-read until the CA is gone, has its key or has failed,
  // or the deadline passes. Whatever wakes the loop between readings, it stops
  // at the first reading that settles or is past the deadline.
  method EnsureKeyReady(start: Time, readings: seq<Reading>) returns (stop: nat)
    requires exists i :: 0 <= i < |readings| && readings[i].clock >= start + KEYGEN_WAIT
    ensures stop < |readings|
    ensures Settled(readings[stop].ca) || readings[stop].clock >= start + KEYGEN_WAIT
    ensures forall i :: 0 <= i < stop ==> !Settled(readings[i].ca) && readings[i].clock < start + KEYGEN_WAIT
  {
    var deadline := start + KEYGEN_WAIT;
    stop := 0;
    while true
      invariant stop < |readings|
      invariant forall i :: 0 <= i < stop ==> !Settled(readings[i].ca) && readings[i].clock < deadline
      decreases |readings| - stop
    {
      if Settled(readings[stop].ca) { return; }
      if deadline <= readings[stop].clock { return; }
      stop := stop + 1;
    }
  }
}
