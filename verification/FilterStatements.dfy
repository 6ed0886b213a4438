// The recursive FilterStatement of SearchCertificates
// (crates/fakecloud-acm/src/service.rs).

module FilterStatements {
  import opened Common

  // A statement object; each of the four members may be absent. `L` is the type
  // of a leaf filter.
  datatype Statement<L> = Statement(
    all: Operands<L>, some: Operands<L>, not: Option<Statement<L>>, leaf: Option<L>)

  datatype Operands<L> = Absent | Operands(items: seq<Statement<L>>)

  function And<L>(xs: seq<Statement<L>>): Statement<L> { Statement(Operands(xs), Absent, None, None) }
  function Or<L>(xs: seq<Statement<L>>): Statement<L> { Statement(Absent, Operands(xs), None, None) }
  function Not<L>(x: Statement<L>): Statement<L> { Statement(Absent, Absent, Some(x), None) }
  function Negated<L>(xs: seq<Statement<L>>): seq<Statement<L>> { seq(|xs|, i requires 0 <= i < |xs| => Not(xs[i])) }

  // The evaluator as the service runs it, present members checked one after the
  // other with an early exit; `leafMatches` decides a leaf for the certificate.
  method MatchesStatement<L>(s: Statement<L>, leafMatches: L -> bool) returns (r: bool)
    ensures r == Meaning(s, leafMatches)
    decreases s
  {
    if s.all.Operands? {
      for i := 0 to |s.all.items|
        invariant forall k :: 0 <= k < i ==> Meaning(s.all.items[k], leafMatches)
      {
        var m := MatchesStatement(s.all.items[i], leafMatches);
        if !m { return false; }
      }
    }
    if s.some.Operands? && s.some.items != [] {
      var found := false;
      var i := 0;
      while i < |s.some.items| && !found
        invariant 0 <= i <= |s.some.items|
        invariant found <==> exists k :: 0 <= k < i && Meaning(s.some.items[k], leafMatches)
      {
        found := MatchesStatement(s.some.items[i], leafMatches);
        i := i + 1;
      }
      if !found { return false; }
    }
    if s.not.Some? {
      var m := MatchesStatement(s.not.value, leafMatches);
      if m { return false; }
    }
    if s.leaf.Some? && !leafMatches(s.leaf.value) {
      return false;
    }
    return true;
  }

  // What a statement means: the conjunction of its present members.
  predicate Meaning<L>(s: Statement<L>, leafMatches: L -> bool)
    decreases s
  {
    && (s.all.Operands? ==> forall i :: 0 <= i < |s.all.items| ==> Meaning(s.all.items[i], leafMatches))
    && (s.some.Operands? ==>
          s.some.items == [] || exists i :: 0 <= i < |s.some.items| && Meaning(s.some.items[i], leafMatches))
    && (s.not.Some? ==> !Meaning(s.not.value, leafMatches))
    && (s.leaf.Some? ==> leafMatches(s.leaf.value))
  }

  // A statement and its negation partition any list of certificates: nothing is
  // lost or doubled, and each one passes exactly one of the two filters.
  // `leafOf` decides a leaf for a certificate.
  lemma NegationPartitions<L(!new), C(!new)>(s: Statement<L>, certificates: seq<C>, leafOf: (C, L) -> bool)
    ensures var yes := Filter(certificates, c => Meaning(s, l => leafOf(c, l)));
            var no := Filter(certificates, c => Meaning(Not(s), l => leafOf(c, l)));
            && multiset(yes) + multiset(no) == multiset(certificates)
            && forall c :: c in certificates ==> (c in yes <==> c !in no)
  {
    var keep: C -> bool := c => Meaning(s, l => leafOf(c, l));
    var drop: C -> bool := c => Meaning(Not(s), l => leafOf(c, l));
    FilterPartitions(certificates, keep);
    FilterAgrees(certificates, c => !keep(c), drop);
  }

  // De Morgan holds for every list of operands but the empty one: an empty And
  // and an empty Or both accept everything.
  lemma DeMorganAnd<L>(xs: seq<Statement<L>>, leafMatches: L -> bool)
    ensures Meaning(Not(And(xs)), leafMatches) == Meaning(Or(Negated(xs)), leafMatches) <==> xs != []
  {
    var ns := Negated(xs);
    assert forall i :: 0 <= i < |xs| ==> Meaning(ns[i], leafMatches) == !Meaning(xs[i], leafMatches);
    assert Meaning(And(xs), leafMatches) <==> forall i :: 0 <= i < |xs| ==> Meaning(xs[i], leafMatches);
    assert Meaning(Or(ns), leafMatches) <==> ns == [] || exists i :: 0 <= i < |ns| && Meaning(ns[i], leafMatches);
  }

  lemma DeMorganOr<L>(xs: seq<Statement<L>>, leafMatches: L -> bool)
    ensures Meaning(Not(Or(xs)), leafMatches) == Meaning(And(Negated(xs)), leafMatches) <==> xs != []
  {
    var ns := Negated(xs);
    assert forall i :: 0 <= i < |xs| ==> Meaning(ns[i], leafMatches) == !Meaning(xs[i], leafMatches);
    assert Meaning(And(ns), leafMatches) <==> forall i :: 0 <= i < |ns| ==> Meaning(ns[i], leafMatches);
    assert Meaning(Or(xs), leafMatches) <==> xs == [] || exists i :: 0 <= i < |xs| && Meaning(xs[i], leafMatches);
  }

  // ---- what a search lists ----

  function Leaf<L>(l: L): Statement<L> { Statement(Absent, Absent, None, Some(l)) }

  // The certificates a statement keeps, given which leaves each one matches.
  function Kept<L(!new), C(!new)>(s: Statement<L>, certificates: seq<C>, leafOf: (C, L) -> bool): seq<C> {
    Filter(certificates, c => Meaning(s, l => leafOf(c, l)))
  }

  // A leaf keeps the certificates that match it, and Not keeps the others.
  lemma LeafKeeps<L(!new), C(!new)>(l: L, s: Statement<L>, certificates: seq<C>, leafOf: (C, L) -> bool, c: C)
    requires c in certificates
    ensures c in Kept(Leaf(l), certificates, leafOf) <==> leafOf(c, l)
    ensures c in Kept(Not(s), certificates, leafOf) <==> c !in Kept(s, certificates, leafOf)
  {
  }

  // And keeps what every operand keeps.
  lemma AndKeepsIntersection<L(!new), C(!new)>(xs: seq<Statement<L>>, certificates: seq<C>, leafOf: (C, L) -> bool, c: C)
    requires c in certificates
    ensures c in Kept(And(xs), certificates, leafOf)
            <==> forall i :: 0 <= i < |xs| ==> c in Kept(xs[i], certificates, leafOf)
  {
  }

  // A non-empty Or keeps what some operand keeps.
  lemma OrKeepsUnion<L(!new), C(!new)>(xs: seq<Statement<L>>, certificates: seq<C>, leafOf: (C, L) -> bool, c: C)
    requires c in certificates && xs != []
    ensures c in Kept(Or(xs), certificates, leafOf)
            <==> exists i :: 0 <= i < |xs| && c in Kept(xs[i], certificates, leafOf)
  {
  }

  // The members of a statement, each taken alone; an absent member keeps all.
  function Members<L>(s: Statement<L>): seq<Statement<L>> {
    [ Statement(s.all, Absent, None, None), Statement(Absent, s.some, None, None),
      Statement(Absent, Absent, s.not, None), Statement(Absent, Absent, None, s.leaf) ]
  }

  // A statement with several members keeps what each of them alone keeps.
  lemma MembersIntersect<L(!new), C(!new)>(s: Statement<L>, certificates: seq<C>, leafOf: (C, L) -> bool, c: C)
    requires c in certificates
    ensures c in Kept(s, certificates, leafOf)
            <==> forall i :: 0 <= i < 4 ==> c in Kept(Members(s)[i], certificates, leafOf)
  {
    var m: L -> bool := l => leafOf(c, l);
    var parts := Members(s);
    assert Meaning(s, m) <==> Meaning(parts[0], m) && Meaning(parts[1], m) && Meaning(parts[2], m) && Meaning(parts[3], m);
    assert forall i :: 0 <= i < 4 ==> (c in Kept(parts[i], certificates, leafOf) <==> Meaning(parts[i], m));
  }

  // A certificate that matches one filter and not the other is kept by their Or
  // and dropped by their And.
  lemma OrIsWiderThanAnd<L(!new), C(!new)>(a: L, b: L, certificates: seq<C>, leafOf: (C, L) -> bool, c: C)
    requires c in certificates && leafOf(c, a) && !leafOf(c, b)
    ensures c in Kept(Or([Leaf(a), Leaf(b)]), certificates, leafOf)
    ensures c !in Kept(And([Leaf(a), Leaf(b)]), certificates, leafOf)
  {
    var xs := [Leaf(a), Leaf(b)];
    LeafKeeps(a, Leaf(a), certificates, leafOf, c);
    LeafKeeps(b, Leaf(b), certificates, leafOf, c);
    AndKeepsIntersection(xs, certificates, leafOf, c);
    OrKeepsUnion(xs, certificates, leafOf, c);
    assert xs[0] == Leaf(a) && xs[1] == Leaf(b);
  }
}
