// One Amplify app's record, updated in place by the handlers
// (crates/fakecloud-amplify/src/service.rs). The record remembers its calls, so
// that a method can say which number it hands out.

module AmplifyApp {
  import opened Common
  import opened Text
  import opened AmplifyJobs

  // Nothing but the one branch differs.
  ghost predicate Elsewhere(before: App, after: App, b: string) {
    && before.branches - {b} == after.branches - {b}
    && before.jobs - {b} == after.jobs - {b}
    && before.nextJobId - {b} == after.nextJobId - {b}
  }

  lemma OneBranchWritten(before: App, after: App, b: string)
    requires b in after.jobs && after.jobs == before.jobs[b := after.jobs[b]]
    requires after.branches == before.branches || (b in after.branches && after.branches == before.branches[b := after.branches[b]])
    requires after.nextJobId == before.nextJobId
             || (b in after.nextJobId && after.nextJobId == before.nextJobId[b := after.nextJobId[b]])
    ensures Elsewhere(before, after, b)
  {
  }

  // What taking a number does: one new job, the counter moved by one.
  lemma TakeChanges(a: App, b: string, status: JobStatus, jobType: string)
    requires Counter(a, b) + 1 < U64_LIMIT
    ensures var r, id := Take(a, b, status, jobType), Decimal(Counter(a, b));
            && JobsOf(r, b) == JobsOf(a, b)[id := Summary(id, status, jobType)]
            && Counter(r, b) == Counter(a, b) + 1
            && Elsewhere(a, r, b)
  {
    OneBranchWritten(a, Take(a, b, status, jobType), b);
  }

  class AppRecord {
    var branches: map<string, Branch>
    var jobs: map<string, map<string, Summary>>
    var nextJobId: map<string, nat>
    // Every call made, in order.
    ghost var calls: seq<Op>

    ghost function View(): App
      reads this
    {
      App(branches, jobs, nextJobId)
    }

    // The record is what its calls made it, and the next call will not wrap a
    // counter.
    ghost predicate Valid()
      reads this
    {
      View() == Run(calls) && |calls| + 3 < U64_LIMIT
    }

    // The jobs of a branch, and how many numbers it has handed out since it was
    // last made.
    ghost function Jobs(b: string): map<string, Summary>
      reads this
    {
      JobsOf(View(), b)
    }

    ghost function Handed(b: string): nat
      reads this
    {
      |Given(calls, b)|
    }

    constructor ()
      ensures Valid() && calls == [] && View() == NEW_APP
    {
      branches, jobs, nextJobId := map[], map[], map[];
      calls := [];
    }

    // The counter stands at the next number, which no job has.
    lemma NextNumber(b: string)
      requires Valid()
      ensures Counter(View(), b) == Handed(b) + 1 && Handed(b) + 2 < U64_LIMIT
      ensures Decimal(Handed(b) + 1) !in Jobs(b)
      ensures Inv(View())
    {
      RunKeepsInv(calls);
      NumbersAreConsecutive(calls, b);
      assert Counter(View(), b) <= 1 + |calls|;
      NextIdIsUnused(View(), b);
    }

    // A new branch has no jobs and starts at number 1.
    method CreateBranch(b: string) returns (reply: Reply<Answer>)
      requires Valid()
      modifies this
      ensures View() == Run(calls) && calls == old(calls) + [AmplifyJobs.CreateBranch(b)]
      ensures reply == if b in old(branches) then Err(Invalid) else Ok(Done)
      ensures reply.Err? ==> View() == old(View())
      ensures reply.Ok? ==> b in branches && Jobs(b) == map[] && Counter(View(), b) == 1 && Elsewhere(old(View()), View(), b)
    {
      NextNumber(b);
      RunSnoc(calls, AmplifyJobs.CreateBranch(b));
      calls := calls + [AmplifyJobs.CreateBranch(b)];
      if b in branches { return Err(Invalid); }
      branches := branches[b := Branch(None, 0)];
      return Ok(Done);
    }

    // A deleted branch leaves no job and no counter behind.
    method DeleteBranch(b: string) returns (reply: Reply<Answer>)
      requires Valid()
      modifies this
      ensures View() == Run(calls) && calls == old(calls) + [AmplifyJobs.DeleteBranch(b)]
      ensures reply == if b in old(branches) then Ok(Done) else Err(NotFound)
      ensures b !in branches && b !in jobs && b !in nextJobId && Handed(b) == 0
      ensures Elsewhere(old(View()), View(), b)
    {
      NextNumber(b);
      RunSnoc(calls, AmplifyJobs.DeleteBranch(b));
      calls := calls + [AmplifyJobs.DeleteBranch(b)];
      if b !in branches { return Err(NotFound); }
      branches := branches - {b};
      jobs := jobs - {b};
      nextJobId := nextJobId - {b};
      return Ok(Done);
    }

    // Takes the branch's next number: one more than it has handed out, in use by
    // no job. Every other job stays as it is.
    method TakeNumber(b: string, status: JobStatus, jobType: string) returns (id: string)
      requires Valid()
      modifies this`jobs, this`nextJobId
      ensures id == Decimal(Handed(b) + 1) && id !in old(Jobs(b))
      ensures Jobs(b) == old(Jobs(b))[id := Summary(id, status, jobType)]
      ensures old(Counter(View(), b)) == Handed(b) + 1 && Counter(View(), b) == Handed(b) + 2
      ensures View() == Take(old(View()), b, status, jobType) && Elsewhere(old(View()), View(), b)
    {
      NextNumber(b);
      TakeChanges(View(), b, status, jobType);
      id := FileUnderNext(b, status, jobType);
    }

    method FileUnderNext(b: string, status: JobStatus, jobType: string) returns (id: string)
      modifies this`jobs, this`nextJobId
      ensures View() == Take(old(View()), b, status, jobType) && id == Decimal(old(Counter(View(), b)))
    {
      var next := if b in nextJobId then nextJobId[b] else 1;
      var filed := if b in jobs then jobs[b] else map[];
      id := Decimal(next);
      nextJobId := nextJobId[b := (next + 1) % U64_LIMIT];
      jobs := jobs[b := filed[id := Summary(id, status, jobType)]];
    }

    // `allocate_job`: a new job under the next number, which the branch names as
    // its active one.
    method AllocateJob(b: string, jobType: string) returns (id: string)
      requires Valid() && b in branches
      modifies this`branches, this`jobs, this`nextJobId
      ensures id == Decimal(Handed(b) + 1) && id !in old(Jobs(b))
      ensures Jobs(b) == old(Jobs(b))[id := Summary(id, Pending, jobType)]
      ensures b in branches && branches[b] == Branch(Some(id), |Jobs(b)|) && Elsewhere(old(View()), View(), b)
      ensures View() == Allocate(old(View()), b, jobType)
    {
      ghost var before := View();
      id := TakeNumber(b, Pending, jobType);
      ghost var taken := View();
      assert taken == Take(before, b, Pending, jobType) && id == Decimal(Counter(before, b));
      branches := branches[b := Branch(Some(id), |jobs[b]|)];
      assert View() == taken.(branches := taken.branches[b := Branch(Some(id), |JobsOf(taken, b)|)]);
    }

    method RestartJob(b: string, id: string, jobType: string)
      requires b in jobs && id in jobs[b]
      modifies this`jobs
      ensures Jobs(b) == old(Jobs(b))[id := Summary(id, Pending, jobType)] && Elsewhere(old(View()), View(), b)
      ensures jobs == old(jobs)[b := Jobs(b)]
    {
      ghost var before := View();
      jobs := jobs[b := jobs[b][id := Summary(id, Pending, jobType)]];
      OneBranchWritten(before, View(), b);
    }

    // `start_job`, and `start_deployment` with type MANUAL. A job that is asked
    // for by its id and exists starts over under that id; anything else becomes a
    // new job under the next number. Either way one job changes.
    method StartJob(b: string, requested: Option<string>, jobType: string) returns (reply: Reply<Answer>)
      requires Valid()
      modifies this
      ensures View() == Run(calls) && calls == old(calls) + [AmplifyJobs.StartJob(b, requested, jobType)]
      ensures b !in old(branches) ==> reply == Err(NotFound) && View() == old(View())
      ensures b in old(branches) ==>
                var id := if requested.Some? && requested.value in old(Jobs(b)) then requested.value
                          else Decimal(old(Handed(b)) + 1);
                && reply == Ok(Job(Summary(id, Pending, jobType)))
                && Jobs(b) == old(Jobs(b))[id := Summary(id, Pending, jobType)]
                && Elsewhere(old(View()), View(), b)
    {
      ghost var op := AmplifyJobs.StartJob(b, requested, jobType);
      RunSnoc(calls, op);
      if b !in branches {
        calls := calls + [op];
        return Err(NotFound);
      }
      if requested.Some? && b in jobs && requested.value in jobs[b] {
        RestartJob(b, requested.value, jobType);
        calls := calls + [op];
        return Ok(Job(Summary(requested.value, Pending, jobType)));
      }
      NextNumber(b);
      var id := AllocateJob(b, jobType);
      calls := calls + [op];
      return Ok(Job(Summary(id, Pending, jobType)));
    }

    // Stopping cancels that job and nothing else.
    method StopJob(b: string, id: string) returns (reply: Reply<Answer>)
      requires Valid()
      modifies this
      ensures View() == Run(calls) && calls == old(calls) + [AmplifyJobs.StopJob(b, id)]
      ensures id !in old(Jobs(b)) ==> reply == Err(NotFound) && View() == old(View())
      ensures id in old(Jobs(b)) ==>
                var s := old(Jobs(b)[id]).(status := Cancelled);
                && reply == Ok(Job(s)) && s.jobId == id
                && Jobs(b) == old(Jobs(b))[id := s]
                && branches == old(branches) && nextJobId == old(nextJobId) && Elsewhere(old(View()), View(), b)
    {
      NextNumber(b);
      RunSnoc(calls, AmplifyJobs.StopJob(b, id));
      calls := calls + [AmplifyJobs.StopJob(b, id)];
      if b !in jobs || id !in jobs[b] { return Err(NotFound); }
      assert JobOk(id, jobs[b][id], nextJobId[b]);
      jobs := jobs[b := jobs[b][id := jobs[b][id].(status := Cancelled)]];
      return Ok(Job(jobs[b][id]));
    }

    // Deleting drops that job and nothing else; the counter stays, so its number
    // is not handed out again.
    method DeleteJob(b: string, id: string) returns (reply: Reply<Answer>)
      requires Valid()
      modifies this
      ensures View() == Run(calls) && calls == old(calls) + [AmplifyJobs.DeleteJob(b, id)]
      ensures id !in old(Jobs(b)) ==> reply == Err(NotFound) && View() == old(View())
      ensures id in old(Jobs(b)) ==>
                && reply == Ok(Job(old(Jobs(b)[id]))) && reply.value.summary.jobId == id
                && Jobs(b) == old(Jobs(b)) - {id} && id != Decimal(Handed(b) + 1) && Handed(b) == old(Handed(b))
                && branches == old(branches) && nextJobId == old(nextJobId) && Elsewhere(old(View()), View(), b)
    {
      NextNumber(b);
      RunSnoc(calls, AmplifyJobs.DeleteJob(b, id));
      calls := calls + [AmplifyJobs.DeleteJob(b, id)];
      assert calls[..|calls| - 1] == old(calls);
      if b !in jobs || id !in jobs[b] { return Err(NotFound); }
      var s := jobs[b][id];
      assert JobOk(id, s, nextJobId[b]);
      jobs := jobs[b := jobs[b] - {id}];
      return Ok(Job(s));
    }

    // Reserves the next number for an upload; without the branch it answers and
    // reserves nothing.
    method CreateDeployment(b: string) returns (reply: Reply<Answer>)
      requires Valid()
      modifies this
      ensures View() == Run(calls) && calls == old(calls) + [AmplifyJobs.CreateDeployment(b)]
      ensures b !in old(branches) ==> reply == Ok(Reserved(None)) && View() == old(View())
      ensures b in old(branches) ==>
                var id := Decimal(old(Handed(b)) + 1);
                && reply == Ok(Reserved(Some(id))) && id !in old(Jobs(b))
                && Jobs(b) == old(Jobs(b))[id := Summary(id, Created, "MANUAL")]
                && branches == old(branches) && Elsewhere(old(View()), View(), b)
    {
      NextNumber(b);
      RunSnoc(calls, AmplifyJobs.CreateDeployment(b));
      if b !in branches {
        calls := calls + [AmplifyJobs.CreateDeployment(b)];
        return Ok(Reserved(None));
      }
      var id := TakeNumber(b, Created, "MANUAL");
      calls := calls + [AmplifyJobs.CreateDeployment(b)];
      return Ok(Reserved(Some(id)));
    }
  }
}
