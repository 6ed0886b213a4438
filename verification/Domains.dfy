// Domain names on ACM certificates (crates/fakecloud-acm/src/service.rs): which
// domain may receive the EMAIL challenge for another, the names a certificate
// carries, and the per-domain validations a request starts with.

module Domains {
  import opened Common
  import opened Text

  // ---- labels ----

  // A name's dot-separated labels; the empty name has one empty label.
  function Labels(s: string): (r: seq<string>)
    ensures r != [] && forall l :: l in r ==> '.' !in l
  {
    if s == [] then [""]
    else
      var rest := Labels(s[1..]);
      if s[0] == '.' then [""] + rest else [[s[0]] + rest[0]] + rest[1..]
  }

  function Join(labels: seq<string>): string
    requires labels != []
  {
    if |labels| == 1 then labels[0] else labels[0] + "." + Join(labels[1..])
  }

  lemma {:induction false} JoinOfLabels(s: string)
    ensures Join(Labels(s)) == s
  {
    if s != [] {
      JoinOfLabels(s[1..]);
      assert s == [s[0]] + s[1..];
    }
  }

  // A dot splits a name's labels in two.
  lemma {:induction false} LabelsOfConcat(a: string, b: string)
    ensures Labels(a + "." + b) == Labels(a) + Labels(b)
  {
    if a == [] {
      assert a + "." + b == "." + b;
      assert ("." + b)[1..] == b;
    } else {
      assert (a + "." + b)[1..] == a[1..] + "." + b;
      LabelsOfConcat(a[1..], b);
    }
  }

  lemma {:induction false} JoinOfConcat(xs: seq<string>, ys: seq<string>)
    requires xs != [] && ys != []
    ensures Join(xs + ys) == Join(xs) + "." + Join(ys)
  {
    if |xs| == 1 {
      assert (xs + ys)[1..] == ys;
    } else {
      assert (xs + ys)[1..] == xs[1..] + ys;
      JoinOfConcat(xs[1..], ys);
    }
  }

  ghost predicate IsSuffix<T(!new)>(suffix: seq<T>, s: seq<T>) {
    |suffix| <= |s| && s[|s| - |suffix|..] == suffix
  }

  // ---- covering ----

  function Base(domain: string): string { if StartsWith(domain, "*.") then domain[2..] else domain }

  predicate EqualsOrEndsAtLabel(base: string, v: string) {
    base == v || (EndsWith(base, v) && EndsWith(base[..|base| - |v|], "."))
  }

  // service.rs `validation_domain_covers`
  predicate Covers(domain: string, validationDomain: string) {
    validationDomain != "" && EqualsOrEndsAtLabel(Base(domain), validationDomain)
  }

  lemma ConcatHasSuffix<T(!new)>(xs: seq<T>, ys: seq<T>)
    ensures IsSuffix(ys, xs + ys)
  {
    assert (xs + ys)[|xs|..] == ys;
  }

  // A name that ends at a label is something, a dot, and the ending.
  lemma EndsAtLabelSplits(base: string, v: string) returns (head: string)
    requires base != v && EqualsOrEndsAtLabel(base, v)
    ensures base == head + "." + v
  {
    var rest := base[..|base| - |v|];
    head := rest[..|rest| - 1];
    assert base == rest + v && rest == head + ".";
  }

  lemma LabelEndsAreSuffixes(base: string, v: string)
    requires EqualsOrEndsAtLabel(base, v)
    ensures IsSuffix(Labels(v), Labels(base))
  {
    if base == v {
      assert Labels(base)[0..] == Labels(v);
    } else {
      var head := EndsAtLabelSplits(base, v);
      LabelsOfConcat(head, v);
      ConcatHasSuffix(Labels(head), Labels(v));
    }
  }

  lemma SuffixesAreLabelEnds(base: string, v: string)
    requires IsSuffix(Labels(v), Labels(base))
    ensures EqualsOrEndsAtLabel(base, v)
  {
    var head := SuffixSplits(Labels(v), Labels(base));
    if head == [] {
      SameLabels(base, v);
    } else {
      SplitAtLabel(base, head, v);
      EndsAtLabel(Join(head), v);
    }
  }

  lemma SuffixSplits<T(!new)>(suffix: seq<T>, s: seq<T>) returns (head: seq<T>)
    requires IsSuffix(suffix, s)
    ensures s == head + suffix && (head == [] ==> s == suffix)
  {
    head := s[..|s| - |suffix|];
  }

  lemma SameLabels(a: string, b: string)
    requires Labels(a) == Labels(b)
    ensures a == b
  {
    JoinOfLabels(a);
    JoinOfLabels(b);
  }

  lemma SplitAtLabel(base: string, head: seq<string>, v: string)
    requires head != [] && Labels(base) == head + Labels(v)
    ensures base == Join(head) + "." + v
  {
    JoinOfLabels(base);
    JoinOfLabels(v);
    JoinOfConcat(head, Labels(v));
  }

  lemma EndsAtLabel(head: string, v: string)
    ensures EqualsOrEndsAtLabel(head + "." + v, v)
  {
    var base := head + "." + v;
    assert base[|base| - |v|..] == v && base[..|base| - |v|] == head + ".";
  }

  // Covering is a statement about labels: the validation domain is non-empty and
  // its labels end the base domain's labels.
  lemma CoversExact(domain: string, validationDomain: string)
    ensures Covers(domain, validationDomain)
            <==> validationDomain != "" && IsSuffix(Labels(validationDomain), Labels(Base(domain)))
  {
    if EqualsOrEndsAtLabel(Base(domain), validationDomain) { LabelEndsAreSuffixes(Base(domain), validationDomain); }
    if IsSuffix(Labels(validationDomain), Labels(Base(domain))) { SuffixesAreLabelEnds(Base(domain), validationDomain); }
  }

  // Dropping a wildcard label leaves a suffix.
  lemma BaseIsSuffix(domain: string)
    ensures IsSuffix(Labels(Base(domain)), Labels(domain))
  {
    if StartsWith(domain, "*.") {
      assert domain == "*" + "." + domain[2..];
      LabelsOfConcat("*", domain[2..]);
    }
  }

  lemma SuffixTransitive<T(!new)>(a: seq<T>, b: seq<T>, c: seq<T>)
    requires IsSuffix(a, b) && IsSuffix(b, c)
    ensures IsSuffix(a, c)
  {
    assert c[|c| - |b|..][|b| - |a|..] == c[|c| - |a|..];
  }

  // Whoever may answer for an answerer may answer for the domain itself.
  lemma CoversTransitive(domain: string, middle: string, top: string)
    requires Covers(domain, middle) && Covers(middle, top)
    ensures Covers(domain, top)
  {
    LabelEndsAreSuffixes(Base(middle), top);
    BaseIsSuffix(middle);
    SuffixTransitive(Labels(top), Labels(Base(middle)), Labels(middle));
    LabelEndsAreSuffixes(Base(domain), middle);
    SuffixTransitive(Labels(top), Labels(middle), Labels(Base(domain)));
    SuffixesAreLabelEnds(Base(domain), top);
  }

  // ---- the names on a certificate ----

  // The names in order of first appearance, the apex first.
  function EffectiveSans(domain: string, extras: seq<string>): (r: seq<string>)
    ensures r != [] && r[0] == domain
    ensures forall x :: x in r <==> x == domain || x in extras
    ensures forall i, j :: 0 <= i < j < |r| ==> r[i] != r[j]
  {
    if extras == [] then [domain]
    else
      var r, last := EffectiveSans(domain, extras[..|extras| - 1]), extras[|extras| - 1];
      assert extras == extras[..|extras| - 1] + [last];
      if last in r then r else r + [last]
  }

  method BuildEffectiveSans(domain: string, extras: seq<string>) returns (all: seq<string>)
    ensures all == EffectiveSans(domain, extras)
  {
    all := [domain];
    for i := 0 to |extras|
      invariant all == EffectiveSans(domain, extras[..i])
    {
      assert extras[..i + 1][..i] == extras[..i];
      if extras[i] !in all {
        all := all + [extras[i]];
      }
    }
    assert extras[..|extras|] == extras;
  }

  // ---- requested validation domains ----

  datatype ValidationOption = ValidationOption(domain: string, validationDomain: string)

  predicate OptionOk(o: ValidationOption, names: seq<string>) {
    o.domain != "" && o.validationDomain != "" && o.domain in names && Covers(o.domain, o.validationDomain)
  }

  // The last option given for each domain.
  function OptionMap(options: seq<ValidationOption>): (m: map<string, string>)
    ensures forall d :: d in m ==> ValidationOption(d, m[d]) in options
  {
    if options == [] then map[]
    else
      var last := options[|options| - 1];
      OptionMap(options[..|options| - 1])[last.domain := last.validationDomain]
  }

  // service.rs `parse_domain_validation_options`
  method ParseOptions(options: Option<seq<ValidationOption>>, domain: string, sans: seq<string>)
    returns (r: Reply<map<string, string>>)
    ensures r.Ok? <==> options.None? || (1 <= |options.value| <= 100
                                         && forall o :: o in options.value ==> OptionOk(o, EffectiveSans(domain, sans)))
    ensures r.Ok? ==> r.value == if options.None? then map[] else OptionMap(options.value)
  {
    if options.None? { return Ok(map[]); }
    var opts := options.value;
    if !(1 <= |opts| <= 100) { return Err(BadDomainOptions); }
    var names := BuildEffectiveSans(domain, sans);
    var out: map<string, string> := map[];
    for i := 0 to |opts|
      invariant out == OptionMap(opts[..i])
      invariant forall o :: o in opts[..i] ==> OptionOk(o, names)
    {
      assert opts[..i + 1] == opts[..i] + [opts[i]];
      if !OptionOk(opts[i], names) { return Err(BadDomainOptions); }
      out := out[opts[i].domain := opts[i].validationDomain];
    }
    assert opts[..|opts|] == opts;
    return Ok(out);
  }

  // ---- the validations a request starts with ----

  datatype Method = Dns | Http | Email
  datatype ValidationStatus = Pending | Success | ValidationFailed | TimedOut

  datatype DomainValidation = DomainValidation(
    domain: string, status: ValidationStatus, method_: Method, validationDomain: Option<string>)

  // service.rs `synth_domain_validation`
  function StartValidation(name: string, method_: Method, chosen: map<string, string>): DomainValidation {
    DomainValidation(name, Pending, method_,
                     if !method_.Email? then None else if name in chosen then Some(chosen[name]) else Some(name))
  }

  function StartValidations(names: seq<string>, method_: Method, chosen: map<string, string>): (r: seq<DomainValidation>)
    ensures |r| == |names|
  {
    seq(|names|, i requires 0 <= i < |names| => StartValidation(names[i], method_, chosen))
  }

  // An EMAIL challenge goes to the domain itself or to one that covers it.
  ghost predicate WellAddressed(v: DomainValidation) {
    v.method_.Email? ==> v.validationDomain.Some?
                         && (v.validationDomain.value == v.domain || Covers(v.domain, v.validationDomain.value))
  }

  lemma StartedValidationsAreWellAddressed(names: seq<string>, method_: Method, options: seq<ValidationOption>)
    requires forall o :: o in options ==> OptionOk(o, names)
    ensures forall v :: v in StartValidations(names, method_, OptionMap(options)) ==> WellAddressed(v)
  {
    var chosen := OptionMap(options);
    forall v | v in StartValidations(names, method_, chosen) ensures WellAddressed(v) {
      if v.domain in chosen {
        assert OptionOk(ValidationOption(v.domain, chosen[v.domain]), names);
      }
    }
  }

  // Option k is the last one given for the name.
  ghost predicate LastFor(options: seq<ValidationOption>, k: nat, name: string) {
    k < |options| && options[k].domain == name && forall j :: k < j < |options| ==> options[j].domain != name
  }

  lemma {:induction false} FindLast(options: seq<ValidationOption>, name: string) returns (k: Option<nat>)
    ensures k.Some? ==>
              && LastFor(options, k.value, name)
              && name in OptionMap(options) && OptionMap(options)[name] == options[k.value].validationDomain
    ensures k.None? ==> name !in OptionMap(options) && forall j :: 0 <= j < |options| ==> options[j].domain != name
  {
    k := None;
    if options != [] {
      var n := |options| - 1;
      if options[n].domain == name {
        k := Some(n);
      } else {
        k := FindLast(options[..n], name);
        OptionMapSkips(options, name);
        if k.Some? { LastForSkips(options, k.value, name); }
      }
    }
  }

  lemma OptionMapSkips(options: seq<ValidationOption>, name: string)
    requires options != [] && options[|options| - 1].domain != name
    ensures var before := OptionMap(options[..|options| - 1]);
            && (name in OptionMap(options) <==> name in before)
            && (name in before ==> OptionMap(options)[name] == before[name])
  {
  }

  lemma LastForSkips(options: seq<ValidationOption>, k: nat, name: string)
    requires options != [] && options[|options| - 1].domain != name && LastFor(options[..|options| - 1], k, name)
    ensures LastFor(options, k, name)
  {
    assert forall j :: 0 <= j < |options| - 1 ==> options[..|options| - 1][j] == options[j];
  }

  lemma OptionMapIsLast(options: seq<ValidationOption>, name: string)
    ensures name in OptionMap(options) <==> exists k: nat :: LastFor(options, k, name)
    ensures forall k: nat :: LastFor(options, k, name) ==> name in OptionMap(options) && OptionMap(options)[name] == options[k].validationDomain
  {
    var found := FindLast(options, name);
    forall k: nat | LastFor(options, k, name) ensures found == Some(k) {
      if found.Some? && found.value < k { assert options[k].domain == name; }
    }
  }

  // The validations of a request, in the order of its names: each pending, by the
  // requested method, and for EMAIL addressed to the validation domain of the
  // last option given for its name, or else to the name itself.
  lemma StartedValidationIs(names: seq<string>, method_: Method, options: seq<ValidationOption>, i: nat)
    requires i < |names|
    ensures var v := StartValidations(names, method_, OptionMap(options))[i];
            && v.domain == names[i] && v.status == Pending && v.method_ == method_
            && (!method_.Email? ==> v.validationDomain == None)
            && (method_.Email? ==>
                  && (forall k: nat :: LastFor(options, k, names[i]) ==> v.validationDomain == Some(options[k].validationDomain))
                  && ((forall k: nat :: !LastFor(options, k, names[i])) ==> v.validationDomain == Some(names[i])))
  {
    OptionMapIsLast(options, names[i]);
  }
}
