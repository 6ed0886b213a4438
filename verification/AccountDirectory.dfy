// The accounts of the Account service, updated in place by the contact, phone
// verification and region calls (crates/fakecloud-account/src/service.rs). Each
// method's answer is stated in terms of the calls made so far.

module AccountDirectory {
  import opened Common
  import opened PhoneVerification
  import R = RegionOptIn

  datatype AccountData = AccountData(contact: Contact, overrides: R.Overrides)

  type Accounts = map<string, AccountData>

  const UNTOUCHED: AccountData := AccountData(NEW_ACCOUNT, map[])

  datatype Call =
    | PhoneCall(account: string, op: Op)
    | RegionCall(account: string, call: R.Call)

  function Lookup(accounts: Accounts, account: string): AccountData {
    if account in accounts then accounts[account] else UNTOUCHED
  }

  // Whether a region call gets past its checks; only then is the account's entry
  // made.
  predicate Passes(table: R.Table, call: R.Call) {
    match call
    case SetRegion(region, _) => R.OptInOf(table, region) == Some(true)
    case GetStatus(region) => R.DefaultStatus(table, region).Some?
    case ListRegions(_, max, token) => R.PageSize(max).Some? && R.StartFrom(token).Some?
  }

  // Among the phone calls only an accepted put makes an entry.
  function Apply(table: R.Table, accounts: Accounts, call: Call): Accounts {
    var was := Lookup(accounts, call.account);
    match call
    case PhoneCall(account, op) =>
      if account in accounts || Accepted(op) then accounts[account := was.(contact := Step(was.contact, op).0)] else accounts
    case RegionCall(account, c) =>
      if Passes(table, c) then accounts[account := was.(overrides := R.Lazy(table, was.overrides, c).0)] else accounts
  }

  function RunAll(table: R.Table, calls: seq<Call>): Accounts {
    if calls == [] then map[] else Apply(table, RunAll(table, calls[..|calls| - 1]), calls[|calls| - 1])
  }

  lemma RunSnoc(table: R.Table, calls: seq<Call>, call: Call)
    ensures RunAll(table, calls + [call]) == Apply(table, RunAll(table, calls), call)
  {
    assert (calls + [call])[..|calls|] == calls;
  }

  // The calls of one account.
  function PhoneOps(calls: seq<Call>, account: string): seq<Op> {
    if calls == [] then []
    else
      var before, last := PhoneOps(calls[..|calls| - 1], account), calls[|calls| - 1];
      if last.account == account && last.PhoneCall? then before + [last.op] else before
  }

  function RegionCalls(calls: seq<Call>, account: string): seq<R.Call> {
    if calls == [] then []
    else
      var before, last := RegionCalls(calls[..|calls| - 1], account), calls[|calls| - 1];
      if last.account == account && last.RegionCall? then before + [last.call] else before
  }

  lemma RefusedRegionCallChangesNothing(table: R.Table, overrides: R.Overrides, call: R.Call)
    ensures R.Lazy(table, overrides, call).1.Ok? <==> Passes(table, call)
    ensures !Passes(table, call) ==> R.Lazy(table, overrides, call).0 == overrides
  {
  }

  // What makes an entry for an account.
  ghost predicate Creates(table: R.Table, call: Call, account: string) {
    call.account == account && if call.PhoneCall? then Accepted(call.op) else Passes(table, call.call)
  }

  // An account's state is what its own calls made it, the phone calls its contact
  // and the region calls its regions, whatever the calls to other accounts in
  // between.
  lemma {:induction false} AccountsAreIndependent(table: R.Table, calls: seq<Call>, account: string)
    ensures Lookup(RunAll(table, calls), account)
            == AccountData(Run(PhoneOps(calls, account)), R.LazyRun(table, RegionCalls(calls, account)))
  {
    if calls != [] {
      var before, last := calls[..|calls| - 1], calls[|calls| - 1];
      AccountsAreIndependent(table, before, account);
      if last.account == account {
        match last
        case PhoneCall(_, op) =>
          assert PhoneOps(calls, account)[..|PhoneOps(before, account)|] == PhoneOps(before, account);
          if !Accepted(op) { NothingToPut(op); }
        case RegionCall(_, c) =>
          assert RegionCalls(calls, account)[..|RegionCalls(before, account)|] == RegionCalls(before, account);
          RefusedRegionCallChangesNothing(table, Lookup(RunAll(table, before), account).overrides, c);
      }
    }
  }

  // A phone call other than an accepted put leaves a new account as it is.
  lemma NothingToPut(op: Op)
    requires !Accepted(op)
    ensures Step(NEW_ACCOUNT, op).0 == NEW_ACCOUNT
  {
  }

  // An account has an entry exactly when one of its calls got past the checks;
  // calls that fail create none.
  lemma {:induction false} EntriesAreMadeByPassingCalls(table: R.Table, calls: seq<Call>, account: string)
    ensures account in RunAll(table, calls) <==> exists i :: 0 <= i < |calls| && Creates(table, calls[i], account)
  {
    if calls != [] {
      var n := |calls| - 1;
      EntriesAreMadeByPassingCalls(table, calls[..n], account);
      forall i | 0 <= i < n ensures calls[..n][i] == calls[i] {}
      if exists i :: 0 <= i < |calls| && Creates(table, calls[i], account) {
        var i :| 0 <= i < |calls| && Creates(table, calls[i], account);
        if i < n { assert Creates(table, calls[..n][i], account); }
      }
      if exists i :: 0 <= i < n && Creates(table, calls[..n][i], account) {
        var i :| 0 <= i < n && Creates(table, calls[..n][i], account);
        assert Creates(table, calls[i], account);
      }
    }
  }

  class Directory {
    const table: R.Table
    var accounts: Accounts
    // Every call made, in order.
    ghost var calls: seq<Call>

    ghost predicate Valid()
      reads this
    {
      accounts == RunAll(table, calls)
    }

    constructor (table: R.Table)
      ensures Valid() && calls == [] && this.table == table
    {
      this.table := table;
      accounts := map[];
      calls := [];
    }

    // The account's stored contact tells its history.
    lemma ContactTells(account: string)
      requires Valid()
      ensures Tells(Lookup(accounts, account).contact, PhoneOps(calls, account))
    {
      AccountsAreIndependent(table, calls, account);
      RunTells(PhoneOps(calls, account));
    }

    // A complete contact with a number is stored; a changed number starts
    // unverified, the same number keeps its status.
    method PutContactInformation(account: string, phone: string, complete: bool) returns (reply: Reply<Option<Status>>)
      requires Valid()
      modifies this
      ensures Valid() && calls == old(calls) + [PhoneCall(account, PutContact(phone, complete))]
      ensures reply == if complete && phone != [] then Ok(None) else Err(Invalid)
      ensures var was, now := old(Lookup(accounts, account).contact), Lookup(accounts, account).contact;
              if reply.Err? then now == was
              else now.phone == Some(phone)
                   && StatusOf(now) == if PhoneAfter(PhoneOps(old(calls), account)) == Some(phone) then StatusOf(was) else Unverified
    {
      ContactTells(account);
      RunSnoc(table, calls, PhoneCall(account, PutContact(phone, complete)));
      calls := calls + [PhoneCall(account, PutContact(phone, complete))];
      if !complete || phone == [] {
        assert account in accounts ==> accounts[account := accounts[account]] == accounts;
        return Err(Invalid);
      }
      var st := Lookup(accounts, account).contact;
      if st.verification.Some? && st.verification.value.number != phone {
        st := st.(verification := None);
      }
      st := st.(phone := Some(phone));
      accounts := accounts[account := Lookup(accounts, account).(contact := st)];
      return Ok(None);
    }

    // The status shown is exactly what the account's calls amount to.
    method GetContactInformation(account: string) returns (reply: Reply<(string, Status)>)
      requires Valid()
      ensures var ops := PhoneOps(calls, account);
              reply == if PhoneAfter(ops).None? then Err(NotFound)
                       else Ok((PhoneAfter(ops).value,
                                if WasEntered(ops) then Verified else if WasSent(ops) then Pending else Unverified))
    {
      ContactTells(account);
      if account !in accounts { return Err(NotFound); }
      var st := accounts[account].contact;
      if st.phone.None? { return Err(NotFound); }
      return Ok((st.phone.value, StatusOf(st)));
    }

    // A code is sent unless there is no number or it is already verified.
    method SendPhoneNumberVerification(account: string) returns (reply: Reply<Option<Status>>)
      requires Valid()
      modifies this
      ensures Valid() && calls == old(calls) + [PhoneCall(account, SendCode)]
      ensures var ops := PhoneOps(old(calls), account);
              reply == if PhoneAfter(ops).None? then Err(NotFound)
                       else if WasEntered(ops) then Err(Conflict)
                       else Ok(Some(Pending))
    {
      ContactTells(account);
      RunSnoc(table, calls, PhoneCall(account, SendCode));
      calls := calls + [PhoneCall(account, SendCode)];
      if account !in accounts { return Err(NotFound); }
      assert accounts[account := accounts[account]] == accounts;
      var st := accounts[account].contact;
      if st.phone.None? { return Err(NotFound); }
      if StatusOf(st) == Verified { return Err(Conflict); }
      st := st.(verification := Some(Verification(st.phone.value, false, Some(VERIFICATION_OTP))));
      accounts := accounts[account := accounts[account].(contact := st)];
      return Ok(Some(Pending));
    }

    // The number becomes verified exactly when a code is outstanding for it and
    // that code is entered.
    method VerifyPhoneNumber(account: string, otp: string) returns (reply: Reply<Option<Status>>)
      requires Valid()
      modifies this
      ensures Valid() && calls == old(calls) + [PhoneCall(account, VerifyCode(otp))]
      ensures var ops := PhoneOps(old(calls), account);
              reply == if !WellFormedOtp(otp) then Err(Invalid)
                       else if PhoneAfter(ops).None? then Err(NotFound)
                       else if !WasSent(ops) || WasEntered(ops) then Err(Conflict)
                       else if otp != VERIFICATION_OTP then Err(Invalid)
                       else Ok(Some(Verified))
    {
      ContactTells(account);
      RunSnoc(table, calls, PhoneCall(account, VerifyCode(otp)));
      calls := calls + [PhoneCall(account, VerifyCode(otp))];
      assert account in accounts ==> accounts[account := accounts[account]] == accounts;
      if |otp| != 6 || exists c :: c in otp && !Alphanumeric(c) { return Err(Invalid); }
      if account !in accounts { return Err(NotFound); }
      var st := accounts[account].contact;
      if st.phone.None? { return Err(NotFound); }
      if StatusOf(st) != Pending { return Err(Conflict); }
      var pending := st.verification.value;
      if pending.otp != Some(otp) { return Err(Invalid); }
      pending := pending.(verified := true);
      pending := pending.(otp := None);
      accounts := accounts[account := accounts[account].(contact := st.(verification := Some(pending)))];
      return Ok(Some(Verified));
    }

    // The account's region store answers as the eager one would.
    lemma RegionsAnswer(account: string, call: R.Call)
      requires Valid()
      ensures R.Lazy(table, Lookup(accounts, account).overrides, call).1
              == R.Eager(table, R.EagerRun(table, RegionCalls(calls, account)), call).1
    {
      AccountsAreIndependent(table, calls, account);
      R.AnswersAsIfEager(table, RegionCalls(calls, account), call);
    }

    // A toggle is accepted exactly for opt-in regions.
    method SetRegion(account: string, region: string, enable: bool) returns (reply: Reply<R.Answer>)
      requires Valid()
      modifies this
      ensures Valid() && calls == old(calls) + [RegionCall(account, R.SetRegion(region, enable))]
      ensures reply == if R.OptInOf(table, region) == Some(true) then Ok(R.Accepted) else Err(Invalid)
    {
      RunSnoc(table, calls, RegionCall(account, R.SetRegion(region, enable)));
      calls := calls + [RegionCall(account, R.SetRegion(region, enable))];
      if R.OptInOf(table, region) != Some(true) { return Err(Invalid); }
      var st := Lookup(accounts, account);
      accounts := accounts[account := st.(overrides := st.overrides[region := if enable then R.Enabling else R.Disabling])];
      return Ok(R.Accepted);
    }

    // A known region's status is the outcome of the account's last accepted
    // toggle of it, or else its default.
    method GetRegionOptStatus(account: string, region: string) returns (reply: Reply<R.Answer>)
      requires Valid()
      modifies this
      ensures Valid() && calls == old(calls) + [RegionCall(account, R.GetStatus(region))]
      ensures reply == if R.OptInOf(table, region).None? then Err(Invalid)
                       else Ok(R.Status(R.Outcome(table, RegionCalls(old(calls), account), region)))
    {
      RegionsAnswer(account, R.GetStatus(region));
      RunSnoc(table, calls, RegionCall(account, R.GetStatus(region)));
      ghost var before := RegionCalls(calls, account);
      calls := calls + [RegionCall(account, R.GetStatus(region))];
      if R.DefaultStatus(table, region).None? { return Err(Invalid); }
      R.EagerHoldsOutcome(table, before, region);
      var st := Lookup(accounts, account);
      st := st.(overrides := R.SettleOne(st.overrides, region));
      accounts := accounts[account := st];
      return Ok(R.Status(R.Reported(table, st.overrides, region)));
    }

    // A listing is a page of the filtered regions with every toggle in effect.
    method ListRegions(account: string, filter: set<R.OptStatus>, max: Option<int>, token: Option<string>)
      returns (reply: Reply<R.Answer>)
      requires Valid()
      modifies this
      ensures Valid() && calls == old(calls) + [RegionCall(account, R.ListRegions(filter, max, token))]
      ensures reply == if R.PageSize(max).None? || R.StartFrom(token).None? then Err(Invalid)
                       else Ok(R.PageOf(R.Listed(table, R.EagerRun(table, RegionCalls(old(calls), account)), filter),
                                        R.StartFrom(token).value, R.PageSize(max).value))
    {
      RegionsAnswer(account, R.ListRegions(filter, max, token));
      RunSnoc(table, calls, RegionCall(account, R.ListRegions(filter, max, token)));
      calls := calls + [RegionCall(account, R.ListRegions(filter, max, token))];
      var size, start := R.PageSize(max), R.StartFrom(token);
      if size.None? || start.None? { return Err(Invalid); }
      var st := Lookup(accounts, account);
      var settled := R.SettleAll(table, st.overrides);
      accounts := accounts[account := st.(overrides := settled)];
      return Ok(R.PageOf(R.Listed(table, settled, filter), start.value, size.value));
    }
  }
}
