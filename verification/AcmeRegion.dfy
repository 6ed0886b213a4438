// The ACME maps of one account and region, updated in place by the handlers
// (crates/fakecloud-acm/src/acme.rs, crates/fakecloud-acm/src/state.rs). Each
// method is proved to perform the transition of the same name in module Acme.

module AcmeRegion {
  import opened Common
  import opened Acme
  import opened AcmeRuns

  class Region {
    var endpoints: map<Arn, Endpoint>
    var bindings: map<Arn, Binding>
    var validations: map<Arn, Validation>
    var accounts: map<(Arn, string), Account>

    ghost function View(): State
      reads this
    {
      State(endpoints, bindings, validations, accounts)
    }

    ghost predicate Consistent()
      reads this
    {
      Inv(View())
    }

    constructor ()
      ensures Consistent() && View() == State(map[], map[], map[], map[])
    {
      endpoints, bindings, validations, accounts := map[], map[], map[], map[];
    }

    // A search over the values of the endpoint map.
    method FindEndpoint(token: string) returns (found: Option<Arn>)
      ensures found.Some? ==> EndpointHas(View(), found.value, token)
      ensures found.None? ==> forall k :: !EndpointHas(View(), k, token)
    {
      var left := endpoints.Keys;
      while left != {}
        invariant left <= endpoints.Keys
        invariant forall k :: EndpointHas(View(), k, token) ==> k in left
        decreases |left|
      {
        var k :| k in left;
        if endpoints[k].token == Some(token) { return Some(k); }
        left := left - {k};
      }
      return None;
    }

    method FindBinding(endpoint: Arn, token: string) returns (found: Option<Arn>)
      ensures found.Some? ==> BindingHas(View(), found.value, endpoint, token)
      ensures found.None? ==> forall k :: !BindingHas(View(), k, endpoint, token)
    {
      var left := bindings.Keys;
      while left != {}
        invariant left <= bindings.Keys
        invariant forall k :: BindingHas(View(), k, endpoint, token) ==> k in left
        decreases |left|
      {
        var k :| k in left;
        if bindings[k].endpoint == endpoint && bindings[k].token == Some(token) { return Some(k); }
        left := left - {k};
      }
      return None;
    }

    method FindValidation(endpoint: Arn, token: string) returns (found: Option<Arn>)
      ensures found.Some? ==> ValidationHas(View(), found.value, endpoint, token)
      ensures found.None? ==> forall k :: !ValidationHas(View(), k, endpoint, token)
    {
      var left := validations.Keys;
      while left != {}
        invariant left <= validations.Keys
        invariant forall k :: ValidationHas(View(), k, endpoint, token) ==> k in left
        decreases |left|
      {
        var k :| k in left;
        if validations[k].endpoint == endpoint && validations[k].token == Some(token) { return Some(k); }
        left := left - {k};
      }
      return None;
    }

    method AnyValidates(endpoint: Arn, domain: string) returns (found: bool)
      ensures found <==> exists k :: Validates(View(), k, endpoint, domain)
    {
      var left := validations.Keys;
      while left != {}
        invariant left <= validations.Keys
        invariant forall k :: Validates(View(), k, endpoint, domain) ==> k in left
        decreases |left|
      {
        var k :| k in left;
        if validations[k].endpoint == endpoint && validations[k].domain == domain {
          assert Validates(View(), k, endpoint, domain);
          return true;
        }
        left := left - {k};
      }
      return false;
    }

    method CreateEndpoint(behaviorOk: bool, ca: Option<string>, contact: Arg<Contact>, token: Option<string>,
                          newArn: Arn, now: int)
      returns (reply: Reply<Answer>)
      requires Consistent() && newArn !in endpoints
      modifies this
      ensures Consistent()
      ensures Outcome(View(), reply) == Acme.CreateEndpoint(old(View()), behaviorOk, ca, contact, token, newArn, now)
    {
      ghost var before := View();
      StepKeepsInv(before, Event(CreateEndpointOp(behaviorOk, ca, contact, token, newArn), now));
      if !behaviorOk || ca.None? || contact.Unknown? { return Err(Invalid); }
      if token.Some? {
        var existing := FindEndpoint(token.value);
        if existing.Some? { return Ok(Named(endpoints[existing.value].arn)); }
        assert View() == before;
        assert forall k :: !EndpointHas(before, k, token.value);
      }
      var e := Endpoint(newArn, if contact.Given? then contact.value else Required, ca.value, now, now, token);
      endpoints := endpoints[newArn := e];
      assert View() == Acme.CreateEndpoint(before, behaviorOk, ca, contact, token, newArn, now).state;
      return Ok(Named(newArn));
    }

    method UpdateEndpoint(arn: Arn, behavior: Arg<()>, contact: Arg<Contact>, authority: Arg<string>, now: int)
      returns (reply: Reply<Answer>)
      requires Consistent()
      modifies this
      ensures Consistent()
      ensures Outcome(View(), reply) == Acme.UpdateEndpoint(old(View()), arn, behavior, contact, authority, now)
    {
      StepKeepsInv(View(), Event(UpdateEndpointOp(arn, behavior, contact, authority), now));
      if arn !in endpoints { return Err(NotFound); }
      if behavior.Unknown? { return Err(Invalid); }
      if contact.Unknown? { return Err(Invalid); }
      if authority.Unknown? { return Err(Invalid); }
      var e := endpoints[arn];
      if contact.Given? { e := e.(contact := contact.value); }
      if authority.Given? { e := e.(authority := authority.value); }
      endpoints := endpoints[arn := e.(updatedAt := now)];
      return Ok(Done);
    }

    // The endpoint goes, and with it everything that belongs to it.
    method DeleteEndpoint(arn: Arn) returns (reply: Reply<Answer>)
      requires Consistent()
      modifies this
      ensures Consistent()
      ensures Outcome(View(), reply) == Acme.DeleteEndpoint(old(View()), arn)
    {
      DeleteEndpointKeepsInv(View(), arn);
      endpoints := endpoints - {arn};
      bindings := map k | k in bindings && bindings[k].endpoint != arn :: bindings[k];
      validations := map k | k in validations && validations[k].endpoint != arn :: validations[k];
      accounts := map k | k in accounts && k.0 != arn :: accounts[k];
      return Ok(Done);
    }

    method CreateBinding(endpoint: Arn, role: string, expiresAt: Option<int>, token: Option<string>,
                         newArn: Arn, keyId: string, macKey: string, now: int)
      returns (reply: Reply<Answer>)
      requires Consistent() && newArn !in bindings
      modifies this
      ensures Consistent()
      ensures Outcome(View(), reply)
              == Acme.CreateBinding(old(View()), endpoint, role, expiresAt, token, newArn, keyId, macKey, now)
    {
      ghost var before := View();
      StepKeepsInv(before, Event(CreateBindingOp(endpoint, role, expiresAt, token, newArn, keyId, macKey), now));
      if endpoint !in endpoints { return Err(NotFound); }
      if token.Some? {
        var existing := FindBinding(endpoint, token.value);
        if existing.Some? { return Ok(Named(bindings[existing.value].arn)); }
        assert View() == before;
        assert forall k :: !BindingHas(before, k, endpoint, token.value);
      }
      bindings := bindings[newArn := Binding(newArn, endpoint, role, keyId, macKey, expiresAt, None, None, now, now, token)];
      assert View() == Acme.CreateBinding(before, endpoint, role, expiresAt, token, newArn, keyId, macKey, now).state;
      return Ok(Named(newArn));
    }

    method RevokeBinding(arn: Arn, now: int) returns (reply: Reply<Answer>)
      requires Consistent()
      modifies this
      ensures Consistent()
      ensures Outcome(View(), reply) == Acme.RevokeBinding(old(View()), arn, now)
      ensures reply.Ok? ==> arn in bindings && bindings[arn].revokedAt == Some(now) && !Usable(bindings[arn], now)
    {
      StepKeepsInv(View(), Event(RevokeBindingOp(arn), now));
      if arn !in bindings { return Err(NotFound); }
      if bindings[arn].revokedAt.Some? { return Err(Conflict); }
      bindings := bindings[arn := bindings[arn].(revokedAt := Some(now), updatedAt := now)];
      return Ok(Done);
    }

    // The pass over the accounts that drops their links to a binding.
    method UnlinkAccounts(arn: Arn)
      modifies this`accounts
      ensures accounts == map k | k in old(accounts) :: Unlinked(old(accounts)[k], arn)
    {
      ghost var was := accounts;
      var left := accounts.Keys;
      while left != {}
        invariant left <= accounts.Keys == was.Keys
        invariant forall k :: k in was ==> accounts[k] == if k in left then was[k] else Unlinked(was[k], arn)
        decreases |left|
      {
        var k :| k in left;
        if accounts[k].binding == Some(arn) {
          accounts := accounts[k := accounts[k].(binding := None)];
        }
        left := left - {k};
      }
    }

    method DeleteBinding(arn: Arn) returns (reply: Reply<Answer>)
      requires Consistent()
      modifies this
      ensures Consistent()
      ensures Outcome(View(), reply) == Acme.DeleteBinding(old(View()), arn)
    {
      ghost var before := View();
      StepKeepsInv(before, Event(DeleteBindingOp(arn), 0));
      bindings := bindings - {arn};
      UnlinkAccounts(arn);
      assert View() == Acme.DeleteBinding(before, arn).state;
      return Ok(Done);
    }

    method GetCredentials(arn: Arn, now: int) returns (reply: Reply<Answer>)
      requires Consistent()
      modifies this
      ensures Consistent()
      ensures Outcome(View(), reply) == Acme.GetCredentials(old(View()), arn, now)
    {
      StepKeepsInv(View(), Event(GetCredentialsOp(arn), now));
      if arn !in bindings { return Err(NotFound); }
      var b := bindings[arn];
      if b.revokedAt.Some? { return Err(Conflict); }
      if b.expiresAt.Some? && b.expiresAt.value <= now { return Err(Conflict); }
      bindings := bindings[arn := b.(lastUsedAt := Some(now))];
      return Ok(Credentials(b.keyId, b.macKey));
    }

    method CreateValidation(endpoint: Arn, domain: string, scope: Arg<Scope>, zone: Option<string>,
                            token: Option<string>, newArn: Arn, now: int)
      returns (reply: Reply<Answer>)
      requires Consistent() && newArn !in validations
      modifies this
      ensures Consistent()
      ensures Outcome(View(), reply)
              == Acme.CreateValidation(old(View()), endpoint, domain, scope, zone, token, newArn, now)
    {
      ghost var before := View();
      StepKeepsInv(before, Event(CreateValidationOp(endpoint, domain, scope, zone, token, newArn), now));
      if scope.Unknown? { return Err(Invalid); }
      if endpoint !in endpoints { return Err(NotFound); }
      if token.Some? {
        var existing := FindValidation(endpoint, token.value);
        if existing.Some? { return Ok(Named(validations[existing.value].arn)); }
        assert View() == before;
        assert forall k :: !ValidationHas(before, k, endpoint, token.value);
      }
      var taken := AnyValidates(endpoint, domain);
      if taken { return Err(Conflict); }
      assert View() == before;
      assert forall k :: !Validates(before, k, endpoint, domain);
      var v := Validation(newArn, endpoint, domain, if scope.Given? then Some(scope.value) else None, zone,
                          Validating, now, now, token);
      validations := validations[newArn := v];
      assert View() == Acme.CreateValidation(before, endpoint, domain, scope, zone, token, newArn, now).state;
      return Ok(Named(newArn));
    }

    method DescribeValidation(arn: Arn, now: int) returns (reply: Reply<Answer>)
      requires Consistent()
      modifies this
      ensures Consistent()
      ensures Outcome(View(), reply) == Acme.DescribeValidation(old(View()), arn, now)
    {
      StepKeepsInv(View(), Event(DescribeValidationOp(arn), now));
      if arn !in validations { return Err(NotFound); }
      if validations[arn].status == Validating {
        validations := validations[arn := validations[arn].(status := Valid, updatedAt := now)];
      }
      assert View() == Acme.DescribeValidation(old(View()), arn, now).state;
      return Ok(Described(validations[arn]));
    }

    method UpdateValidation(arn: Arn, scope: Arg<Scope>, zone: Option<string>, now: int) returns (reply: Reply<Answer>)
      requires Consistent()
      modifies this
      ensures Consistent()
      ensures Outcome(View(), reply) == Acme.UpdateValidation(old(View()), arn, scope, zone, now)
    {
      StepKeepsInv(View(), Event(UpdateValidationOp(arn, scope, zone), now));
      if arn !in validations { return Err(NotFound); }
      if scope.Unknown? { return Err(Invalid); }
      var v := validations[arn];
      if scope.Given? { v := v.(scope := Some(scope.value)); }
      if zone.Some? { v := v.(zone := zone); }
      validations := validations[arn := v.(updatedAt := now)];
      return Ok(Done);
    }

    method DeleteValidation(arn: Arn) returns (reply: Reply<Answer>)
      requires Consistent()
      modifies this
      ensures Consistent()
      ensures Outcome(View(), reply) == Acme.DeleteValidation(old(View()), arn)
    {
      StepKeepsInv(View(), Event(DeleteValidationOp(arn), 0));
      validations := validations - {arn};
      return Ok(Done);
    }

    method RevokeAccount(endpoint: Arn, url: string) returns (reply: Reply<Answer>)
      requires Consistent()
      modifies this
      ensures Consistent()
      ensures Outcome(View(), reply) == Acme.RevokeAccount(old(View()), endpoint, url)
    {
      RevokeAccountKeepsInv(View(), endpoint, url);
      if endpoint !in endpoints { return Err(NotFound); }
      if (endpoint, url) !in accounts { return Err(NotFound); }
      if accounts[(endpoint, url)].revoked { return Err(Conflict); }
      accounts := accounts[(endpoint, url) := accounts[(endpoint, url)].(revoked := true)];
      return Ok(Done);
    }
  }
}
