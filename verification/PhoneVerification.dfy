// Verification of an account's contact phone number
// (crates/fakecloud-account/src/service.rs): contact information is put, a
// passcode is sent, and the passcode is entered.

module PhoneVerification {
  import opened Common

  const VERIFICATION_OTP: string := "000000"

  datatype Status = Unverified | Pending | Verified

  // The verification record, with the number it was issued for.
  datatype Verification = Verification(number: string, verified: bool, otp: Option<string>)

  // The part of an account these calls touch.
  datatype Contact = Contact(phone: Option<string>, verification: Option<Verification>)

  const NEW_ACCOUNT: Contact := Contact(None, None)

  function StatusOf(c: Contact): Status {
    if c.verification.None? || Some(c.verification.value.number) != c.phone then Unverified
    else if c.verification.value.verified then Verified
    else Pending
  }

  datatype Op =
    | PutContact(phone: string, complete: bool)
    | SendCode
    | VerifyCode(otp: string)

  predicate Alphanumeric(c: char) { '0' <= c <= '9' || 'a' <= c <= 'z' || 'A' <= c <= 'Z' }

  predicate WellFormedOtp(otp: string) { |otp| == 6 && forall c :: c in otp ==> Alphanumeric(c) }

  // Replacing the number drops a record issued for another one.
  function Put(c: Contact, phone: string): Contact {
    Contact(Some(phone),
            if c.verification.Some? && c.verification.value.number != phone then None else c.verification)
  }

  // Putting contact information answers with nothing, the other two with the
  // status they leave.
  function Step(c: Contact, op: Op): (Contact, Reply<Option<Status>>) {
    match op
    case PutContact(phone, complete) =>
      if !complete || phone == [] then (c, Err(Invalid)) else (Put(c, phone), Ok(None))
    case SendCode =>
      if c.phone.None? then (c, Err(NotFound))
      else if StatusOf(c) == Verified then (c, Err(Conflict))
      else (c.(verification := Some(Verification(c.phone.value, false, Some(VERIFICATION_OTP)))), Ok(Some(Pending)))
    case VerifyCode(otp) =>
      if !WellFormedOtp(otp) then (c, Err(Invalid))
      else if c.phone.None? then (c, Err(NotFound))
      else if StatusOf(c) != Pending then (c, Err(Conflict))
      else if c.verification.value.otp != Some(otp) then (c, Err(Invalid))
      else (c.(verification := Some(c.verification.value.(verified := true, otp := None))), Ok(Some(Verified)))
  }

  function Run(ops: seq<Op>): Contact {
    if ops == [] then NEW_ACCOUNT else Step(Run(ops[..|ops| - 1]), ops[|ops| - 1]).0
  }

  // ---- what the calls themselves say ----

  predicate Accepted(op: Op) { op.PutContact? && op.complete && op.phone != [] }

  // The number of the last accepted put.
  function PhoneAfter(ops: seq<Op>): Option<string> {
    if ops == [] then None
    else if Accepted(ops[|ops| - 1]) then Some(ops[|ops| - 1].phone)
    else PhoneAfter(ops[..|ops| - 1])
  }

  // Since call i the number has been the same throughout: putting another
  // number and then the first one again does not count.
  ghost predicate SameNumberSince(ops: seq<Op>, i: nat)
    requires i <= |ops|
  {
    forall k :: i <= k <= |ops| ==> PhoneAfter(ops[..k]) == PhoneAfter(ops[..i])
  }

  ghost predicate SentAt(ops: seq<Op>, i: nat) {
    i < |ops| && ops[i].SendCode? && PhoneAfter(ops[..i]).Some? && SameNumberSince(ops, i)
  }

  ghost predicate EnteredAt(ops: seq<Op>, i: nat, j: nat) {
    SentAt(ops, i) && i < j < |ops| && ops[j] == VerifyCode(VERIFICATION_OTP)
  }

  // A code was sent for the current number; and the code was then entered.
  ghost predicate WasSent(ops: seq<Op>) { exists i: nat :: SentAt(ops, i) }

  ghost predicate WasEntered(ops: seq<Op>) { exists i: nat, j: nat :: EnteredAt(ops, i, j) }

  lemma SameNumberStep(ops: seq<Op>, i: nat)
    requires ops != [] && i < |ops|
    ensures var before := ops[..|ops| - 1];
            SameNumberSince(ops, i) <==> SameNumberSince(before, i) && PhoneAfter(ops) == PhoneAfter(before)
  {
    var before := ops[..|ops| - 1];
    assert ops[..|ops|] == ops && before[..|before|] == before;
    forall k | 0 <= k < |ops| ensures ops[..k] == before[..k] {}
    if SameNumberSince(ops, i) {
      assert PhoneAfter(ops[..|ops|]) == PhoneAfter(ops[..i]);
      assert PhoneAfter(ops[..|ops| - 1]) == PhoneAfter(ops[..i]);
    }
    if SameNumberSince(before, i) && PhoneAfter(ops) == PhoneAfter(before) {
      assert PhoneAfter(before[..|before|]) == PhoneAfter(before[..i]);
      forall k | i <= k <= |ops| ensures PhoneAfter(ops[..k]) == PhoneAfter(ops[..i]) {
        if k < |ops| { assert PhoneAfter(before[..k]) == PhoneAfter(before[..i]); }
      }
    }
  }

  lemma SentStep(ops: seq<Op>)
    requires ops != []
    ensures var before, last := ops[..|ops| - 1], ops[|ops| - 1];
            WasSent(ops) <==> PhoneAfter(ops) == PhoneAfter(before) && (WasSent(before) || (last.SendCode? && PhoneAfter(before).Some?))
  {
    var n := |ops| - 1;
    var before, last := ops[..n], ops[n];
    forall i: nat | i < n ensures SentAt(ops, i) <==> SentAt(before, i) && PhoneAfter(ops) == PhoneAfter(before) {
      SameNumberStep(ops, i);
      assert ops[..i] == before[..i];
    }
    SameNumberStep(ops, n);
    assert before[..n] == before;
    assert SameNumberSince(before, n);
    assert SentAt(ops, n) <==> last.SendCode? && PhoneAfter(before).Some? && PhoneAfter(ops) == PhoneAfter(before);
    if WasSent(ops) {
      var i: nat :| SentAt(ops, i);
      assert i < n ==> SentAt(before, i);
    }
    if WasSent(before) {
      var i: nat :| SentAt(before, i);
      assert PhoneAfter(ops) == PhoneAfter(before) ==> SentAt(ops, i);
    }
  }

  lemma EnteredStep(ops: seq<Op>)
    requires ops != []
    ensures var before, last := ops[..|ops| - 1], ops[|ops| - 1];
            WasEntered(ops) <==> PhoneAfter(ops) == PhoneAfter(before)
                                 && (WasEntered(before) || (last == VerifyCode(VERIFICATION_OTP) && WasSent(before)))
  {
    var n := |ops| - 1;
    var before, last := ops[..n], ops[n];
    forall i: nat | i < n ensures SentAt(ops, i) <==> SentAt(before, i) && PhoneAfter(ops) == PhoneAfter(before) {
      SameNumberStep(ops, i);
      assert ops[..i] == before[..i];
    }
    if WasEntered(ops) {
      var i: nat, j: nat :| EnteredAt(ops, i, j);
      assert SentAt(before, i);
      assert j < n ==> EnteredAt(before, i, j);
    }
    if PhoneAfter(ops) == PhoneAfter(before) {
      if WasEntered(before) {
        var i: nat, j: nat :| EnteredAt(before, i, j);
        assert EnteredAt(ops, i, j);
      }
      if last == VerifyCode(VERIFICATION_OTP) && WasSent(before) {
        var i: nat :| SentAt(before, i);
        assert EnteredAt(ops, i, n);
      }
    }
  }

  // ---- the stored state says exactly that ----

  // What is stored: the current number, and a record (always for that number)
  // exactly when a code was sent for it, verified exactly when it was entered.
  ghost predicate Tells(c: Contact, ops: seq<Op>) {
    && c.phone == PhoneAfter(ops)
    && (c.verification.Some? <==> WasSent(ops))
    && (c.verification.Some? ==>
          var v := c.verification.value;
          && Some(v.number) == c.phone
          && (v.verified <==> WasEntered(ops))
          && v.otp == if v.verified then None else Some(VERIFICATION_OTP))
    && (WasEntered(ops) ==> WasSent(ops))
  }

  lemma {:induction false} RunTells(ops: seq<Op>)
    ensures Tells(Run(ops), ops)
  {
    if ops != [] {
      RunTells(ops[..|ops| - 1]);
      StepTells(Run(ops[..|ops| - 1]), ops);
    }
  }

  lemma StepTells(c: Contact, ops: seq<Op>)
    requires ops != [] && Tells(c, ops[..|ops| - 1])
    ensures Tells(Step(c, ops[|ops| - 1]).0, ops)
  {
    SentStep(ops);
    EnteredStep(ops);
    assert WellFormedOtp(VERIFICATION_OTP);
  }

  // An account reports VERIFIED exactly when, since its number last changed, a
  // code was sent and then entered; PENDING exactly when one was sent and not
  // entered.
  lemma StatusIsExact(ops: seq<Op>)
    ensures StatusOf(Run(ops)) == Verified <==> WasEntered(ops)
    ensures StatusOf(Run(ops)) == Pending <==> WasSent(ops) && !WasEntered(ops)
  {
    RunTells(ops);
  }
}
