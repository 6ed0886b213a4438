// ListJobs (crates/fakecloud-amplify/src/service.rs) reverses the job map, whose
// keys are decimal strings in string order, to list the newest job first.

module JobListing {
  import opened Common
  import opened Text
  import AmplifyJobs

  // ---- string order and number order ----

  lemma {:induction false} LexSnoc(s: seq<int>, a: int, t: seq<int>, b: int)
    requires |s| == |t|
    ensures LexLeq(s + [a], t + [b]) <==> if s == t then a <= b else LexLeq(s, t)
  {
    if s != [] {
      assert (s + [a])[1..] == s[1..] + [a] && (t + [b])[1..] == t[1..] + [b];
      LexSnoc(s[1..], a, t[1..], b);
      assert s == [s[0]] + s[1..] && t == [t[0]] + t[1..];
    }
  }

  lemma {:induction false} LexLonger(s: seq<int>, t: seq<int>, b: int)
    requires |s| <= |t|
    ensures LexLeq(s, t + [b]) <==> LexLeq(s, t)
  {
    if s != [] {
      assert (t + [b])[1..] == t[1..] + [b];
      LexLonger(s[1..], t[1..], b);
    }
  }

  lemma LexSingle(a: int, b: int)
    ensures LexLeq([a], [b]) <==> a <= b
  {
    assert [a][1..] == [] && [b][1..] == [];
  }

  lemma CodesSnoc(s: string, c: char)
    ensures Codes(s + [c]) == Codes(s) + [c as int]
  {
  }

  function Digits(n: nat): nat { |Decimal(n)| }

  // A number with its last e digits cut off.
  function Leading(n: nat, e: nat): nat { if e == 0 then n else Leading(n / 10, e - 1) }

  lemma {:induction false} DigitsGrow(m: nat, n: nat)
    requires m <= n
    ensures Digits(m) <= Digits(n)
  {
    if n >= 10 && m >= 10 { DigitsGrow(m / 10, n / 10); }
  }

  lemma {:induction false} SameDigits(m: nat, n: nat)
    requires Digits(m) == Digits(n)
    ensures StringLeq(Decimal(m), Decimal(n)) <==> m <= n
  {
    DigitsOfSmall(m);
    DigitsOfSmall(n);
    if m < 10 {
      assert Codes(Decimal(m)) == [m + '0' as int] && Codes(Decimal(n)) == [n + '0' as int];
      LexSingle(m + '0' as int, n + '0' as int);
    } else {
      SameDigits(m / 10, n / 10);
      CodesSnoc(Decimal(m / 10), DigitChar(m % 10));
      CodesSnoc(Decimal(n / 10), DigitChar(n % 10));
      LexSnoc(Codes(Decimal(m / 10)), DigitChar(m % 10) as int, Codes(Decimal(n / 10)), DigitChar(n % 10) as int);
      if Codes(Decimal(m / 10)) == Codes(Decimal(n / 10)) {
        CodesInjective(Decimal(m / 10), Decimal(n / 10));
        DecimalInjective(m / 10, n / 10);
      }
    }
  }

  lemma DigitsOfSmall(n: nat)
    ensures n < 10 <==> Digits(n) == 1
  {
    if n >= 10 { assert Digits(n) == Digits(n / 10) + 1; }
  }

  // A last digit beyond the shorter string's length does not matter.
  lemma CutLastDigit(m: nat, n: nat)
    requires Digits(m) < Digits(n)
    ensures n >= 10 && Digits(n / 10) == Digits(n) - 1
    ensures StringLeq(Decimal(m), Decimal(n)) <==> StringLeq(Decimal(m), Decimal(n / 10))
  {
    DigitsOfSmall(n);
    CodesSnoc(Decimal(n / 10), DigitChar(n % 10));
    LexLonger(Codes(Decimal(m)), Codes(Decimal(n / 10)), DigitChar(n % 10) as int);
  }

  // Decimal strings order like their numbers exactly when cutting the longer one
  // to the length of the shorter leaves it no smaller.
  lemma {:induction false} StringOrderIs(m: nat, n: nat, e: nat)
    requires Digits(n) == Digits(m) + e
    ensures StringLeq(Decimal(m), Decimal(n)) <==> m <= Leading(n, e)
    decreases e
  {
    if e == 0 {
      SameDigits(m, n);
    } else {
      CutLastDigit(m, n);
      StringOrderIs(m, n / 10, e - 1);
    }
  }

  // ---- the listing ----

  function Ids(numbers: set<nat>): set<string> { set n | n in numbers :: Decimal(n) }

  // Map values in key order, then reversed.
  function Listed(numbers: set<nat>): seq<string> {
    var keys := SortedKeys(Ids(numbers));
    seq(|keys|, i requires 0 <= i < |keys| => keys[|keys| - 1 - i])
  }

  // A later job never comes after an earlier one.
  ghost predicate NewestFirst(numbers: set<nat>) {
    forall i: nat, j: nat, m: nat, n: nat :: ListedAt(numbers, i, m) && ListedAt(numbers, j, n) && i < j ==> m > n
  }

  predicate ListedAt(numbers: set<nat>, i: nat, n: nat) {
    i < |Listed(numbers)| && n in numbers && Listed(numbers)[i] == Decimal(n)
  }

  // No number is larger than the leading digits of a larger one.
  ghost predicate LeadingDigitsGrow(numbers: set<nat>) {
    forall m, n :: m in numbers && n in numbers && m < n ==> LeadingDigitsHold(m, n)
  }

  // Each job is listed once.
  lemma ListedOnce(numbers: set<nat>, n: nat) returns (i: nat)
    requires n in numbers
    ensures ListedAt(numbers, i, n)
  {
    var keys := SortedKeys(Ids(numbers));
    assert Decimal(n) in Ids(numbers);
    var k :| 0 <= k < |keys| && keys[k] == Decimal(n);
    i := |keys| - 1 - k;
    assert Listed(numbers)[i] == keys[k];
  }

  lemma ListedDescends(numbers: set<nat>, i: nat, j: nat)
    requires i < j < |Listed(numbers)|
    ensures Listed(numbers)[i] != Listed(numbers)[j] && StringLeq(Listed(numbers)[j], Listed(numbers)[i])
  {
  }

  predicate LeadingDigitsHold(m: nat, n: nat) {
    Digits(m) <= Digits(n) && m <= Leading(n, Digits(n) - Digits(m))
  }

  lemma LeadingDigitsMeanStringOrder(m: nat, n: nat)
    requires m < n
    ensures Decimal(m) != Decimal(n)
    ensures LeadingDigitsHold(m, n) <==> StringLeq(Decimal(m), Decimal(n))
    ensures LeadingDigitsHold(m, n) <==> !StringLeq(Decimal(n), Decimal(m))
  {
    DigitsGrow(m, n);
    StringOrderIs(m, n, Digits(n) - Digits(m));
    if Decimal(m) == Decimal(n) { DecimalInjective(m, n); }
    LexTotal(Codes(Decimal(m)), Codes(Decimal(n)));
    if StringLeq(Decimal(m), Decimal(n)) && StringLeq(Decimal(n), Decimal(m)) {
      LexAntisymmetric(Codes(Decimal(m)), Codes(Decimal(n)));
      CodesInjective(Decimal(m), Decimal(n));
    }
  }

  // Of two jobs the earlier is listed first exactly when its leading digits win.
  lemma PairOrder(numbers: set<nat>, i: nat, j: nat, m: nat, n: nat)
    requires ListedAt(numbers, i, m) && ListedAt(numbers, j, n) && m < n
    ensures i < j <==> !LeadingDigitsHold(m, n)
  {
    LeadingDigitsMeanStringOrder(m, n);
    if i < j { ListedDescends(numbers, i, j); }
    if j < i { ListedDescends(numbers, j, i); }
  }

  lemma GrowingIsNewestFirst(numbers: set<nat>)
    requires LeadingDigitsGrow(numbers)
    ensures NewestFirst(numbers)
  {
    forall i: nat, j: nat, m: nat, n: nat | ListedAt(numbers, i, m) && ListedAt(numbers, j, n) && i < j ensures m > n {
      ListedDescends(numbers, i, j);
      if m < n { PairOrder(numbers, i, j, m, n); }
    }
  }

  lemma NewestFirstIsGrowing(numbers: set<nat>)
    requires NewestFirst(numbers)
    ensures LeadingDigitsGrow(numbers)
  {
    forall m: nat, n: nat | m in numbers && n in numbers && m < n ensures LeadingDigitsHold(m, n) {
      var i := ListedOnce(numbers, m);
      var j := ListedOnce(numbers, n);
      PairOrder(numbers, i, j, m, n);
    }
  }

  // ListJobs shows the newest job first exactly when no job's number exceeds the
  // leading digits of a later one's.
  lemma NewestFirstExactly(numbers: set<nat>)
    ensures NewestFirst(numbers) <==> LeadingDigitsGrow(numbers)
  {
    if LeadingDigitsGrow(numbers) { GrowingIsNewestFirst(numbers); }
    if NewestFirst(numbers) { NewestFirstIsGrowing(numbers); }
  }

  // The numbers of a branch's jobs.
  function NumbersOf(a: AmplifyJobs.App, b: string): set<nat> {
    set n: nat | n < AmplifyJobs.Counter(a, b) && Decimal(n) in AmplifyJobs.JobsOf(a, b)
  }

  // In every reachable state the keys ListJobs sorts are the decimals of the
  // branch's job numbers.
  lemma JobIdsAreNumbers(ops: seq<AmplifyJobs.Op>, b: string)
    requires |ops| + 2 < AmplifyJobs.U64_LIMIT
    ensures var a := AmplifyJobs.Run(ops); AmplifyJobs.JobsOf(a, b).Keys == Ids(NumbersOf(a, b))
  {
    var a := AmplifyJobs.Run(ops);
    AmplifyJobs.RunKeepsInv(ops);
    forall id | id in AmplifyJobs.JobsOf(a, b) ensures id in Ids(NumbersOf(a, b)) {
      assert AmplifyJobs.JobOk(id, a.jobs[b][id], a.nextJobId[b]);
      var n: nat :| 1 <= n < a.nextJobId[b] && AmplifyJobs.Numbered(id, n);
      assert n in NumbersOf(a, b);
    }
  }

  // ---- branches whose jobs are never deleted ----

  predicate DeletesJob(op: AmplifyJobs.Op, b: string) { op.DeleteJob? && op.branch == b }

  // Every number handed out still has its job.
  ghost predicate AllKept(a: AmplifyJobs.App, b: string) {
    forall n: nat :: 1 <= n < AmplifyJobs.Counter(a, b) ==> Decimal(n) in AmplifyJobs.JobsOf(a, b)
  }

  lemma StepKeepsAll(a: AmplifyJobs.App, op: AmplifyJobs.Op, b: string)
    requires AmplifyJobs.Inv(a) && AllKept(a, b) && !DeletesJob(op, b) && AmplifyJobs.Counter(a, b) + 1 < AmplifyJobs.U64_LIMIT
    requires AmplifyJobs.Counter(a, op.branch) + 1 < AmplifyJobs.U64_LIMIT
    ensures AllKept(AmplifyJobs.Step(a, op).0, b)
  {
    AmplifyJobs.StepCounter(a, op, b);
    if !(op.DeleteBranch? && op.branch == b) {
      StepKeepsJobs(a, op, b);
      if AmplifyJobs.Taken(a, op, b).Some? { AmplifyJobs.AnswerIsTaken(a, op); }
    }
  }

  // Only deleting a job or its branch drops a job.
  lemma StepKeepsJobs(a: AmplifyJobs.App, op: AmplifyJobs.Op, b: string)
    requires !DeletesJob(op, b) && op != AmplifyJobs.DeleteBranch(b)
    ensures AmplifyJobs.JobsOf(a, b).Keys <= AmplifyJobs.JobsOf(AmplifyJobs.Step(a, op).0, b).Keys
  {
  }

  lemma {:induction false} RunKeepsAll(ops: seq<AmplifyJobs.Op>, b: string)
    requires |ops| + 2 < AmplifyJobs.U64_LIMIT && forall op :: op in ops ==> !DeletesJob(op, b)
    ensures AllKept(AmplifyJobs.Run(ops), b)
  {
    if ops != [] {
      var before := ops[..|ops| - 1];
      RunKeepsAll(before, b);
      AmplifyJobs.RunKeepsInv(before);
      assert AmplifyJobs.Counter(AmplifyJobs.Run(before), b) <= 1 + |before|;
      assert AmplifyJobs.Counter(AmplifyJobs.Run(before), ops[|ops| - 1].branch) <= 1 + |before|;
      StepKeepsAll(AmplifyJobs.Run(before), ops[|ops| - 1], b);
    }
  }

  ghost predicate Consecutive(numbers: set<nat>, counter: nat) {
    forall n: nat :: n in numbers <==> 1 <= n < counter
  }

  // The branch then holds the jobs 1 to its count, without a gap.
  lemma NumbersHaveNoGaps(ops: seq<AmplifyJobs.Op>, b: string)
    requires |ops| + 2 < AmplifyJobs.U64_LIMIT && forall op :: op in ops ==> !DeletesJob(op, b)
    ensures var a := AmplifyJobs.Run(ops); Consecutive(NumbersOf(a, b), AmplifyJobs.Counter(a, b))
  {
    var a := AmplifyJobs.Run(ops);
    RunKeepsAll(ops, b);
    AmplifyJobs.RunKeepsInv(ops);
    forall n: nat | n in NumbersOf(a, b) ensures 1 <= n {
      var id := Decimal(n);
      assert AmplifyJobs.JobOk(id, a.jobs[b][id], a.nextJobId[b]);
      var m: nat :| 1 <= m < a.nextJobId[b] && AmplifyJobs.Numbered(id, m);
      DecimalInjective(m, n);
    }
  }

  lemma NinePrecedesTen()
    ensures !LeadingDigitsHold(9, 10)
  {
    assert Digits(9) == 1 && Digits(10) == 2;
    assert Leading(10, 1) == 1;
  }

  lemma SmallNumbersGrow(numbers: set<nat>)
    requires forall n :: n in numbers ==> n < 10
    ensures LeadingDigitsGrow(numbers)
  {
    forall m: nat, n: nat | m in numbers && n in numbers && m < n ensures LeadingDigitsHold(m, n) {
      DigitsOfSmall(m);
      DigitsOfSmall(n);
    }
  }

  // Of consecutive numbers from 1, those below ten are in order and no more.
  lemma ConsecutiveBelowTen(numbers: set<nat>, counter: nat)
    requires Consecutive(numbers, counter)
    ensures NewestFirst(numbers) <==> counter <= 10
  {
    NewestFirstExactly(numbers);
    if counter <= 10 {
      SmallNumbersGrow(numbers);
    } else {
      NinePrecedesTen();
      assert 9 in numbers && 10 in numbers;
      assert !LeadingDigitsGrow(numbers);
    }
  }

  // In every reachable state a branch whose jobs were never deleted lists the
  // newest job first exactly while it has fewer than ten jobs.
  lemma NewestFirstBelowTen(ops: seq<AmplifyJobs.Op>, b: string)
    requires |ops| + 2 < AmplifyJobs.U64_LIMIT && forall op :: op in ops ==> !DeletesJob(op, b)
    ensures var a := AmplifyJobs.Run(ops);
            NewestFirst(NumbersOf(a, b)) <==> AmplifyJobs.Counter(a, b) <= 10
  {
    var a := AmplifyJobs.Run(ops);
    NumbersHaveNoGaps(ops, b);
    ConsecutiveBelowTen(NumbersOf(a, b), AmplifyJobs.Counter(a, b));
  }

  // ---- ten builds ----

  // A branch is made and k jobs are started on it.
  function Builds(b: string, k: nat): seq<AmplifyJobs.Op> {
    if k == 0 then [AmplifyJobs.CreateBranch(b)]
    else Builds(b, k - 1) + [AmplifyJobs.StartJob(b, None, "RELEASE")]
  }

  lemma {:induction false} BuildsDeleteNothing(b: string, k: nat)
    ensures |Builds(b, k)| == k + 1 && forall op :: op in Builds(b, k) ==> !DeletesJob(op, b)
  {
    if k > 0 { BuildsDeleteNothing(b, k - 1); }
  }

  ghost predicate Numbers(a: AmplifyJobs.App, b: string, k: nat) {
    b in a.branches && AmplifyJobs.Counter(a, b) == k + 1
  }

  lemma NewBranchNumbersNothing(b: string)
    ensures Numbers(AmplifyJobs.Run([AmplifyJobs.CreateBranch(b)]), b, 0)
  {
    AmplifyJobs.RunSnoc([], AmplifyJobs.CreateBranch(b));
    assert [] + [AmplifyJobs.CreateBranch(b)] == [AmplifyJobs.CreateBranch(b)];
  }

  lemma StartNumbersOne(ops: seq<AmplifyJobs.Op>, b: string, k: nat)
    requires Numbers(AmplifyJobs.Run(ops), b, k) && k + 2 < AmplifyJobs.U64_LIMIT
    ensures Numbers(AmplifyJobs.Run(ops + [AmplifyJobs.StartJob(b, None, "RELEASE")]), b, k + 1)
  {
    var a := AmplifyJobs.Run(ops);
    AmplifyJobs.RunSnoc(ops, AmplifyJobs.StartJob(b, None, "RELEASE"));
    StartTakesOne(a, b);
  }

  lemma {:induction false} BuildsCount(b: string, k: nat)
    requires k + 3 < AmplifyJobs.U64_LIMIT
    ensures Numbers(AmplifyJobs.Run(Builds(b, k)), b, k)
  {
    if k == 0 {
      NewBranchNumbersNothing(b);
    } else {
      BuildsCount(b, k - 1);
      StartNumbersOne(Builds(b, k - 1), b, k - 1);
    }
  }

  lemma StartTakesOne(a: AmplifyJobs.App, b: string)
    requires b in a.branches && AmplifyJobs.Counter(a, b) + 1 < AmplifyJobs.U64_LIMIT
    ensures var r := AmplifyJobs.Step(a, AmplifyJobs.StartJob(b, None, "RELEASE")).0;
            b in r.branches && AmplifyJobs.Counter(r, b) == AmplifyJobs.Counter(a, b) + 1
  {
    AmplifyJobs.TakeCounter(a, b, AmplifyJobs.Pending, "RELEASE", b);
  }

  // The tenth build of any branch breaks the promised order.
  lemma TenthJobIsListedLate(b: string)
    ensures NewestFirst(NumbersOf(AmplifyJobs.Run(Builds(b, 9)), b))
    ensures !NewestFirst(NumbersOf(AmplifyJobs.Run(Builds(b, 10)), b))
  {
    BuildsDeleteNothing(b, 9);
    BuildsDeleteNothing(b, 10);
    BuildsCount(b, 9);
    BuildsCount(b, 10);
    NewestFirstBelowTen(Builds(b, 9), b);
    NewestFirstBelowTen(Builds(b, 10), b);
  }
}
