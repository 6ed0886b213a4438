// Build jobs of an Amplify app (crates/fakecloud-amplify/src/service.rs): each
// branch numbers its jobs with its own counter.

module AmplifyJobs {
  import opened Common
  import opened Text

  const U64_LIMIT: nat := 0x1_0000_0000_0000_0000

  datatype JobStatus = Created | Pending | Cancelled

  datatype Summary = Summary(jobId: string, status: JobStatus, jobType: string)

  datatype Branch = Branch(activeJob: Option<string>, totalJobs: nat)

  datatype App = App(
    branches: map<string, Branch>, jobs: map<string, map<string, Summary>>, nextJobId: map<string, nat>)

  const NEW_APP: App := App(map[], map[], map[])

  function Counter(a: App, b: string): nat { if b in a.nextJobId then a.nextJobId[b] else 1 }

  function JobsOf(a: App, b: string): map<string, Summary> { if b in a.jobs then a.jobs[b] else map[] }

  // Both places that take a number: the counter moves on (and would wrap at
  // 2^64), and the job is filed under the number it was given.
  function Take(a: App, b: string, status: JobStatus, jobType: string): App {
    var id := Decimal(Counter(a, b));
    a.(nextJobId := a.nextJobId[b := (Counter(a, b) + 1) % U64_LIMIT],
       jobs := a.jobs[b := JobsOf(a, b)[id := Summary(id, status, jobType)]])
  }

  // `allocate_job` also marks the branch.
  function Allocate(a: App, b: string, jobType: string): App {
    var taken := Take(a, b, Pending, jobType);
    taken.(branches := taken.branches[b := Branch(Some(Decimal(Counter(a, b))), |JobsOf(taken, b)|)])
  }

  datatype Op =
    | CreateBranch(branch: string)
    | DeleteBranch(branch: string)
    | StartJob(branch: string, requested: Option<string>, jobType: string)
    | StopJob(branch: string, id: string)
    | DeleteJob(branch: string, id: string)
    | CreateDeployment(branch: string)

  // The answer: a job's summary, a reserved job id, or nothing.
  datatype Answer = Job(summary: Summary) | Reserved(id: Option<string>) | Done

  predicate Restarts(a: App, b: string, requested: Option<string>) {
    requested.Some? && requested.value in JobsOf(a, b)
  }

  // StartDeployment is StartJob with type MANUAL.
  function Step(a: App, op: Op): (App, Reply<Answer>) {
    match op
    case CreateBranch(b) =>
      if b in a.branches then (a, Err(Invalid))
      else (a.(branches := a.branches[b := Branch(None, 0)]), Ok(Done))
    case DeleteBranch(b) =>
      if b !in a.branches then (a, Err(NotFound))
      else (App(a.branches - {b}, a.jobs - {b}, a.nextJobId - {b}), Ok(Done))
    case StartJob(b, requested, jobType) =>
      if b !in a.branches then (a, Err(NotFound))
      else if Restarts(a, b, requested) then
        var s := Summary(requested.value, Pending, jobType);
        (a.(jobs := a.jobs[b := a.jobs[b][requested.value := s]]), Ok(Job(s)))
      else (Allocate(a, b, jobType), Ok(Job(Summary(Decimal(Counter(a, b)), Pending, jobType))))
    case StopJob(b, id) =>
      if id !in JobsOf(a, b) then (a, Err(NotFound))
      else
        var s := a.jobs[b][id].(status := Cancelled);
        (a.(jobs := a.jobs[b := a.jobs[b][id := s]]), Ok(Job(s)))
    case DeleteJob(b, id) =>
      if id !in JobsOf(a, b) then (a, Err(NotFound))
      else (a.(jobs := a.jobs[b := a.jobs[b] - {id}]), Ok(Job(a.jobs[b][id])))
    case CreateDeployment(b) =>
      if b !in a.branches then (a, Ok(Reserved(None)))
      else (Take(a, b, Created, "MANUAL"), Ok(Reserved(Some(Decimal(Counter(a, b))))))
  }

  function Run(ops: seq<Op>): App {
    if ops == [] then NEW_APP else Step(Run(ops[..|ops| - 1]), ops[|ops| - 1]).0
  }

  lemma RunSnoc(ops: seq<Op>, op: Op)
    ensures Run(ops + [op]) == Step(Run(ops), op).0
  {
    assert (ops + [op])[..|ops|] == ops;
  }

  // ---- the invariant ----

  predicate Numbered(id: string, n: nat) { id == Decimal(n) }

  // A job's id is a number the branch's counter has passed, and its summary
  // carries that id.
  ghost predicate JobOk(id: string, s: Summary, counter: nat) {
    s.jobId == id && exists n: nat :: 1 <= n < counter && Numbered(id, n)
  }

  ghost predicate Inv(a: App) {
    && a.jobs.Keys <= a.nextJobId.Keys <= a.branches.Keys
    && (forall b :: b in a.nextJobId ==> 1 <= a.nextJobId[b])
    && (forall b, id :: b in a.jobs && id in a.jobs[b] ==> JobOk(id, a.jobs[b][id], a.nextJobId[b]))
  }

  // A number about to be given is not in use, so no job is overwritten.
  lemma NextIdIsUnused(a: App, b: string)
    requires Inv(a)
    ensures Decimal(Counter(a, b)) !in JobsOf(a, b)
  {
    var id := Decimal(Counter(a, b));
    if id in JobsOf(a, b) {
      assert JobOk(id, a.jobs[b][id], a.nextJobId[b]);
      var n: nat :| 1 <= n < a.nextJobId[b] && Numbered(id, n);
      DecimalInjective(n, Counter(a, b));
    }
  }

  lemma TakeKeepsInv(a: App, b: string, status: JobStatus, jobType: string)
    requires Inv(a) && b in a.branches && Counter(a, b) + 1 < U64_LIMIT
    ensures Inv(Take(a, b, status, jobType))
  {
    var r := Take(a, b, status, jobType);
    var newId := Decimal(Counter(a, b));
    assert Numbered(newId, Counter(a, b));
    forall id | id in r.jobs[b] ensures JobOk(id, r.jobs[b][id], r.nextJobId[b]) {
      if id != newId {
        assert JobOk(id, a.jobs[b][id], a.nextJobId[b]);
        var n: nat :| 1 <= n < a.nextJobId[b] && Numbered(id, n);
      }
    }
  }

  lemma StepKeepsInv(a: App, op: Op)
    requires Inv(a) && Counter(a, op.branch) + 1 < U64_LIMIT
    ensures Inv(Step(a, op).0)
  {
    match op
    case StartJob(b, requested, jobType) =>
      if b in a.branches && !Restarts(a, b, requested) { TakeKeepsInv(a, b, Pending, jobType); }
    case CreateDeployment(b) =>
      if b in a.branches { TakeKeepsInv(a, b, Created, "MANUAL"); }
    case _ =>
  }

  lemma StepBoundsCounter(a: App, op: Op, bound: nat)
    requires bound + 1 < U64_LIMIT && forall b :: Counter(a, b) <= bound
    ensures forall b :: Counter(Step(a, op).0, b) <= bound + 1
  {
    assert Counter(a, op.branch) <= bound;
    forall b ensures Counter(Step(a, op).0, b) <= bound + 1 {
      assert Counter(a, b) <= bound;
      if op.DeleteBranch? && b == op.branch { assert 1 <= bound + 1; }
    }
  }

  // Every run short of 2^64 calls: jobs and counters exist only for existing
  // branches, and every id is a number the branch has already handed out.
  lemma {:induction false} RunKeepsInv(ops: seq<Op>)
    requires |ops| + 2 < U64_LIMIT
    ensures Inv(Run(ops)) && forall b :: Counter(Run(ops), b) <= 1 + |ops|
  {
    if ops != [] {
      var before := ops[..|ops| - 1];
      RunKeepsInv(before);
      StepBoundsCounter(Run(before), ops[|ops| - 1], 1 + |before|);
      StepKeepsInv(Run(before), ops[|ops| - 1]);
    }
  }

  // ---- numbers are given once ----

  // The number a call takes on a branch, if it takes one.
  function Taken(a: App, op: Op, b: string): Option<nat> {
    if op.branch != b || b !in a.branches then None
    else if op.CreateDeployment? || (op.StartJob? && !Restarts(a, b, op.requested)) then Some(Counter(a, b))
    else None
  }

  // The numbers taken on a branch since it was last made.
  function Given(ops: seq<Op>, b: string): seq<nat> {
    if ops == [] then []
    else
      var before, last := ops[..|ops| - 1], ops[|ops| - 1];
      var given := Given(before, b);
      if last.DeleteBranch? && last.branch == b then []
      else
        var n := Taken(Run(before), last, b);
        if n.Some? then given + [n.value] else given
  }

  lemma TakeCounter(a: App, b: string, status: JobStatus, jobType: string, c: string)
    requires Counter(a, b) + 1 < U64_LIMIT
    ensures Counter(Take(a, b, status, jobType), c) == if b == c then Counter(a, c) + 1 else Counter(a, c)
  {
  }

  lemma StepCounter(a: App, op: Op, b: string)
    requires Inv(a) && Counter(a, b) + 1 < U64_LIMIT && Counter(a, op.branch) + 1 < U64_LIMIT
    ensures Counter(Step(a, op).0, b)
            == if op.DeleteBranch? && op.branch == b then 1
               else if Taken(a, op, b).Some? then Counter(a, b) + 1
               else Counter(a, b)
  {
    var r := Step(a, op).0;
    match op
    case DeleteBranch(_) =>
    case StartJob(c, requested, jobType) =>
      TakeCounter(a, c, Pending, jobType, b);
    case CreateDeployment(c) =>
      TakeCounter(a, c, Created, "MANUAL", b);
    case _ => assert r.nextJobId == a.nextJobId;
  }

  // A branch hands out 1, 2, 3, ... in order: no number twice while it lives,
  // deleted jobs included, and from 1 again once it is deleted.
  lemma {:induction false} NumbersAreConsecutive(ops: seq<Op>, b: string)
    requires |ops| + 2 < U64_LIMIT
    ensures var given := Given(ops, b);
            && Counter(Run(ops), b) == |given| + 1
            && forall i :: 0 <= i < |given| ==> given[i] == i + 1
  {
    if ops != [] {
      var before := ops[..|ops| - 1];
      RunKeepsInv(before);
      NumbersAreConsecutive(before, b);
      StepCounter(Run(before), ops[|ops| - 1], b);
      var given, last := Given(before, b), ops[|ops| - 1];
      assert Given(ops, b) == if last.DeleteBranch? && last.branch == b then []
                              else if Taken(Run(before), last, b).Some? then given + [Counter(Run(before), b)]
                              else given;
    }
  }

  // What a call answers is the number it took, filed under that id.
  lemma AnswerIsTaken(a: App, op: Op)
    requires Taken(a, op, op.branch).Some?
    ensures var id := Decimal(Taken(a, op, op.branch).value);
            var r := Step(a, op);
            && id in JobsOf(r.0, op.branch)
            && (op.StartJob? ==> r.1 == Ok(Job(JobsOf(r.0, op.branch)[id])) && r.1.value.summary.jobId == id)
            && (op.CreateDeployment? ==> r.1 == Ok(Reserved(Some(id))))
  {
  }
}
