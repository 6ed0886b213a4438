// Vocabulary shared by every service model: optional values, handler replies,
// finite-sequence filtering and the lexicographic order of Rust's `Ord` on
// strings, numbers and options.

module Common {

  datatype Option<+T> = None | Some(value: T)

  // The exceptions handlers report, named after their wire codes.
  datatype Fault =
    | InvalidArgs | InvalidState | InvalidRequest | InvalidParameter | Invalid
    | MalformedCertificate | MalformedCsr | CertificateMismatch | AlreadyProcessed
    | NotFound | Conflict | InUse | BadDomainOptions

  // What a handler answers: a value, or an error.
  datatype Reply<+T> = Ok(value: T) | Err(error: Fault)

  // ---- filtering (Rust's `retain` / `filter`) ----

  function Filter<T(!new)>(xs: seq<T>, keep: T -> bool): (r: seq<T>)
    ensures forall x :: x in r <==> x in xs && keep(x)
    ensures |r| <= |xs|
  {
    if xs == [] then []
    else if keep(xs[0]) then [xs[0]] + Filter(xs[1..], keep)
    else Filter(xs[1..], keep)
  }

  lemma {:induction false} FilterConcat<T(!new)>(xs: seq<T>, ys: seq<T>, keep: T -> bool)
    ensures Filter(xs + ys, keep) == Filter(xs, keep) + Filter(ys, keep)
  {
    if xs == [] {
      assert xs + ys == ys;
    } else {
      assert (xs + ys)[1..] == xs[1..] + ys;
      FilterConcat(xs[1..], ys, keep);
    }
  }

  // Keeping and dropping by a predicate splits a sequence without loss.
  lemma {:induction false} FilterPartitions<T(!new)>(xs: seq<T>, keep: T -> bool)
    ensures multiset(Filter(xs, keep)) + multiset(Filter(xs, x => !keep(x))) == multiset(xs)
  {
    if xs != [] {
      FilterPartitions(xs[1..], keep);
      assert xs == [xs[0]] + xs[1..];
      var yes, no := Filter(xs[1..], keep), Filter(xs[1..], x => !keep(x));
      if keep(xs[0]) {
        assert Filter(xs, keep) == [xs[0]] + yes && Filter(xs, x => !keep(x)) == no;
      } else {
        assert Filter(xs, keep) == yes && Filter(xs, x => !keep(x)) == [xs[0]] + no;
      }
    }
  }

  lemma {:induction false} FilterAgrees<T(!new)>(xs: seq<T>, p: T -> bool, q: T -> bool)
    requires forall x :: x in xs ==> p(x) == q(x)
    ensures Filter(xs, p) == Filter(xs, q)
  {
    if xs != [] {
      FilterAgrees(xs[1..], p, q);
    }
  }

  // ---- lexicographic order ----

  predicate LexLeq(a: seq<int>, b: seq<int>) {
    a == [] || (b != [] && (a[0] < b[0] || (a[0] == b[0] && LexLeq(a[1..], b[1..]))))
  }

  lemma {:induction false} LexTotal(a: seq<int>, b: seq<int>)
    ensures LexLeq(a, b) || LexLeq(b, a)
  {
    if a != [] && b != [] && a[0] == b[0] {
      LexTotal(a[1..], b[1..]);
    }
  }

  lemma {:induction false} LexAntisymmetric(a: seq<int>, b: seq<int>)
    requires LexLeq(a, b) && LexLeq(b, a)
    ensures a == b
  {
    if a != [] && b != [] {
      LexAntisymmetric(a[1..], b[1..]);
      assert a == [a[0]] + a[1..];
    }
  }

  lemma {:induction false} LexTransitive(a: seq<int>, b: seq<int>, c: seq<int>)
    requires LexLeq(a, b) && LexLeq(b, c)
    ensures LexLeq(a, c)
  {
    if a != [] && a[0] == b[0] && b[0] == c[0] {
      LexTransitive(a[1..], b[1..], c[1..]);
    }
  }

  // The code points of a string: Rust orders `String`s by them.
  function Codes(s: string): (r: seq<int>)
    ensures |r| == |s|
    ensures forall i :: 0 <= i < |s| ==> r[i] == s[i] as int
  {
    seq(|s|, i requires 0 <= i < |s| => s[i] as int)
  }

  lemma CodesInjective(a: string, b: string)
    requires Codes(a) == Codes(b)
    ensures a == b
  {
    forall i | 0 <= i < |a| ensures a[i] == b[i] {
      assert Codes(a)[i] == Codes(b)[i];
    }
  }

  predicate StringLeq(a: string, b: string) { LexLeq(Codes(a), Codes(b)) }

  // ---- a map's keys in `BTreeMap` iteration order ----

  predicate IsLeast(k: string, keys: set<string>) {
    k in keys && forall other :: other in keys ==> StringLeq(k, other)
  }

  lemma {:induction false} LeastKeyExists(keys: set<string>)
    requires keys != {}
    ensures exists k :: IsLeast(k, keys)
    decreases |keys|
  {
    var some :| some in keys;
    var rest := keys - {some};
    LexTotal(Codes(some), Codes(some));
    if rest == {} {
      assert keys == {some} + rest;
      assert IsLeast(some, keys);
    } else {
      LeastKeyExists(rest);
      var least :| IsLeast(least, rest);
      LexTotal(Codes(some), Codes(least));
      if StringLeq(some, least) {
        forall k | k in rest ensures StringLeq(some, k) {
          LexTransitive(Codes(some), Codes(least), Codes(k));
        }
        assert IsLeast(some, keys);
      } else {
        assert IsLeast(least, keys);
      }
    }
  }

  lemma LeastKeyUnique(keys: set<string>)
    ensures forall a, b :: IsLeast(a, keys) && IsLeast(b, keys) ==> a == b
  {
    forall a, b | IsLeast(a, keys) && IsLeast(b, keys) ensures a == b {
      LexAntisymmetric(Codes(a), Codes(b));
      CodesInjective(a, b);
    }
  }

  function LeastKey(keys: set<string>): (least: string)
    requires keys != {}
    ensures IsLeast(least, keys)
  {
    LeastKeyExists(keys);
    LeastKeyUnique(keys);
    var k :| k in keys && IsLeast(k, keys);
    k
  }

  // Every key once, in increasing order.
  function SortedKeys(keys: set<string>): (r: seq<string>)
    ensures forall k :: k in r <==> k in keys
    ensures |r| == |keys|
    ensures forall i, j :: 0 <= i < j < |r| ==> r[i] != r[j] && StringLeq(r[i], r[j])
    decreases |keys|
  {
    if keys == {} then []
    else
      var least := LeastKey(keys);
      [least] + SortedKeys(keys - {least})
  }
}
