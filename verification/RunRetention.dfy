/** The run history: normal cleanup removes old finished runs, but never the newest
    reliable backup of a job that still exists. */
module RunRetention {
  import opened Options

  datatype Status = Queued | Running | Success | Warning | Failed | Cancelled

  datatype Run = Run(job: Option<nat>, backup: bool, status: Status, created: int)

  predicate Active(run: Run) {
    run.status == Queued || run.status == Running
  }

  /** A backup of the job that can serve as its baseline. */
  predicate Reliable(run: Run, job: nat) {
    run.backup && run.job == Some(job) && (run.status == Success || run.status == Warning)
  }

  /** Run r is the newest reliable backup of the job. */
  predicate Newest(runs: map<nat, Run>, job: nat, r: nat) {
    && r in runs && Reliable(runs[r], job)
    && forall other :: other in runs && Reliable(runs[other], job) ==> other <= r
  }

  /** `retained_run_ids_for_existing_jobs`. */
  function RetainedRunIds(jobs: set<nat>, runs: map<nat, Run>): set<nat> {
    set r | r in runs && runs[r].job.Some? && runs[r].job.value in jobs && Newest(runs, runs[r].job.value, r)
  }

  function Expired(jobs: set<nat>, runs: map<nat, Run>, cutoff: int): set<nat> {
    set r | r in runs && !Active(runs[r]) && runs[r].created < cutoff && r !in RetainedRunIds(jobs, runs)
  }

  function Finished(runs: map<nat, Run>): set<nat> {
    set r | r in runs && !Active(runs[r])
  }

  // ---- what is protected, column by column ----

  /** The run is the newest backup of an existing job that ended with success or a warning. */
  predicate IsBaseline(jobs: set<nat>, runs: map<nat, Run>, r: nat) {
    && r in runs && runs[r].backup && runs[r].status in {Success, Warning}
    && runs[r].job.Some? && runs[r].job.value in jobs
    && forall other ::
      (other in runs && runs[other].backup && runs[other].job == runs[r].job
       && runs[other].status in {Success, Warning}) ==> other <= r
  }

  lemma BaselineIsRetained(jobs: set<nat>, runs: map<nat, Run>, r: nat)
    ensures IsBaseline(jobs, runs, r) <==> r in RetainedRunIds(jobs, runs)
  {
  }

  /** What a cleanup takes: finished runs, all of them or those before the cutoff that are no
      job's baseline. */
  predicate Goes(jobs: set<nat>, runs: map<nat, Run>, retentionDays: int, allFinished: bool, now: int, r: nat) {
    && r in runs && runs[r].status !in {Queued, Running}
    && (allFinished
        || (retentionDays > 0 && runs[r].created < now - retentionDays && !IsBaseline(jobs, runs, r)))
  }

  lemma GoneExactly(jobs: set<nat>, runs: map<nat, Run>, retentionDays: int, allFinished: bool, now: int)
    ensures var gone := if allFinished then Finished(runs) else if retentionDays <= 0 then {}
                        else Expired(jobs, runs, now - retentionDays);
      forall r :: r in gone <==> Goes(jobs, runs, retentionDays, allFinished, now, r)
  {
    hide IsBaseline, RetainedRunIds;
    forall r ensures IsBaseline(jobs, runs, r) <==> r in RetainedRunIds(jobs, runs) {
      BaselineIsRetained(jobs, runs, r);
    }
  }

  class RunHistory {
    /** The existing jobs. */
    var jobs: set<nat>
    var runs: map<nat, Run>
    /** For every job the newest reliable backup it ever had. */
    ghost var best: map<nat, nat>

    /** Every existing job that ever had a reliable backup still has its newest one. */
    ghost predicate Valid()
      reads this
    {
      && (forall job :: job in jobs && job in best ==> Newest(runs, job, best[job]))
      && (forall r, job :: r in runs && job in jobs && Reliable(runs[r], job) ==> job in best)
    }

    ghost predicate Later(before: map<nat, nat>)
      reads this
    {
      forall job :: job in before ==> job in best && before[job] <= best[job]
    }

    constructor ()
      ensures Valid() && jobs == {} && runs == map[] && best == map[]
    {
      jobs, runs, best := {}, map[], map[];
    }

    /** A new job; its id was never used, so it is not in `best`. */
    method AddJob(job: nat) returns (ok: bool)
      requires Valid() && (job !in jobs ==> job !in best && forall r :: r in runs ==> runs[r].job != Some(job))
      modifies this`jobs
      ensures Valid() && jobs == old(jobs) + {job} && ok == (job !in old(jobs))
    {
      ok := job !in jobs;
      jobs := jobs + {job};
    }

    method DeleteJob(job: nat) returns (ok: bool)
      requires Valid()
      modifies this
      ensures Valid() && best == old(best)
      ensures ok <==>
        && job in old(jobs)
        && forall r :: r in old(runs) && old(runs)[r].job == Some(job) ==> !Active(old(runs)[r])
      ensures jobs == (if ok then old(jobs) - {job} else old(jobs)) && runs.Keys == old(runs).Keys
      ensures forall r :: r in runs ==>
        runs[r] == if ok && old(runs)[r].job == Some(job) then old(runs)[r].(job := None) else old(runs)[r]
    {
      if job !in jobs || exists r :: r in runs && runs[r].job == Some(job) && Active(runs[r]) {
        return false;
      }
      ghost var before := runs;
      runs := map r | r in runs :: if runs[r].job == Some(job) then runs[r].(job := None) else runs[r];
      jobs := jobs - {job};
      assert forall r, other :: r in runs && other != job ==> Reliable(runs[r], other) == Reliable(before[r], other);
      ok := true;
    }

    /** A run is recorded under an id above all recorded ones. */
    method StartRun(job: Option<nat>, backup: bool, now: int) returns (id: nat)
      requires Valid()
      modifies this`runs
      ensures Valid() && id !in old(runs) && runs == old(runs)[id := Run(job, backup, Queued, now)]
      ensures forall r :: r in old(runs) ==> r < id
    {
      var rest := runs.Keys;
      id := 0;
      while rest != {}
        invariant rest <= runs.Keys && forall r :: r in runs && r !in rest ==> r < id
      {
        var r :| r in rest;
        rest := rest - {r};
        if r >= id {
          id := r + 1;
        }
      }
      ghost var before := runs;
      runs := runs[id := Run(job, backup, Queued, now)];
      assert forall job :: !Reliable(runs[id], job);
      forall j | j in jobs && j in best ensures Newest(runs, j, best[j]) {
        assert Newest(before, j, best[j]);
      }
    }

    /** A queued or running run gets its final status. */
    method FinishRun(id: nat, status: Status) returns (ok: bool)
      requires Valid() && status != Queued && status != Running
      modifies this
      ensures Valid() && Later(old(best)) && jobs == old(jobs)
      ensures forall job :: job in best && job !in old(best) ==> id in old(runs) && old(runs)[id].job == Some(job)
      ensures ok <==> id in old(runs) && Active(old(runs)[id])
      ensures runs == if ok then old(runs)[id := old(runs)[id].(status := status)] else old(runs)
    {
      ok := id in runs && Active(runs[id]);
      if ok {
        ghost var before := runs;
        runs := runs[id := runs[id].(status := status)];
        if runs[id].job.Some? && Reliable(runs[id], runs[id].job.value) {
          ghost var job := runs[id].job.value;
          if job !in best || best[job] < id {
            best := best[job := id];
          }
        }
        forall j | j in jobs && j in best ensures Newest(runs, j, best[j]) {
          assert j in old(best) ==> Newest(before, j, old(best)[j]);
          assert forall r :: r in runs && r != id ==> Reliable(runs[r], j) == Reliable(before[r], j);
        }
      }
    }

    /** `cleanup_run_history`: by age, or everything finished. */
    method Cleanup(retentionDays: int, allFinished: bool, now: int) returns (removed: nat)
      requires Valid()
      modifies this`runs, this`best
      ensures Valid() && (if allFinished then best == map[] else best == old(best))
      ensures var gone := if allFinished then Finished(old(runs)) else if retentionDays <= 0 then {}
                          else Expired(jobs, old(runs), now - retentionDays);
        && runs == old(runs) - gone && removed == |gone|
      ensures forall r :: r in old(runs) ==>
        (r !in runs <==> Goes(jobs, old(runs), retentionDays, allFinished, now, r))
      ensures forall r :: r in old(runs) && Active(old(runs)[r]) ==> r in runs && runs[r] == old(runs)[r]
    {
      GoneExactly(jobs, runs, retentionDays, allFinished, now);
      hide Goes;
      if !allFinished && retentionDays <= 0 {
        return 0;
      }
      ghost var before := runs;
      var gone := if allFinished then Finished(runs) else Expired(jobs, runs, now - retentionDays);
      runs := runs - gone;
      removed := |gone|;
      if allFinished {
        best := map[];
      } else {
        forall j | j in jobs && j in best ensures Newest(runs, j, best[j]) {
          assert Newest(before, j, best[j]);
          assert best[j] in RetainedRunIds(jobs, before);
        }
      }
    }

    /** Deleting a single run: not an active and not a retained one. */
    method DeleteExecution(id: nat) returns (ok: bool)
      requires Valid()
      modifies this`runs
      ensures Valid()
      ensures ok <==> id in old(runs) && !Active(old(runs)[id]) && id !in RetainedRunIds(jobs, old(runs))
      ensures ok <==>
        && id in old(runs) && old(runs)[id].status !in {Queued, Running} && !IsBaseline(jobs, old(runs), id)
      ensures runs == if ok then old(runs) - {id} else old(runs)
    {
      BaselineIsRetained(jobs, runs, id);
      hide IsBaseline;
      if id !in runs || Active(runs[id]) || id in RetainedRunIds(jobs, runs) {
        return false;
      }
      ghost var before := runs;
      runs := runs - {id};
      forall j | j in jobs && j in best ensures Newest(runs, j, best[j]) {
        assert Newest(before, j, best[j]);
        assert best[j] in RetainedRunIds(jobs, before);
      }
      ok := true;
    }
  }

  // ---- whole histories ----

  datatype Event =
    | Start(job: Option<nat>, backup: bool, now: int) | Finish(id: nat, status: Status)
    | CleanupByAge(retentionDays: int, now: int) | Delete(id: nat) | CreateJob(id: nat) | RemoveJob(id: nat)

  /** No run there belongs to a job that was never known. */
  ghost predicate JobsAmong(runs: map<nat, Run>, known: set<nat>) {
    forall r :: r in runs && runs[r].job.Some? ==> runs[r].job.value in known
  }

  /** Every reliable run there of an existing job is at most as new as that job's best. */
  ghost predicate Surpassed(runs: map<nat, Run>, jobs: set<nat>, best: map<nat, nat>) {
    forall r, job :: r in runs && job in jobs && Reliable(runs[r], job) ==> job in best && r <= best[job]
  }

  ghost predicate ActiveKept(before: map<nat, Run>, after: map<nat, Run>) {
    forall r :: r in before && Active(before[r]) ==> r in after
  }

  /** One event; `known` are all job ids ever used. A new job comes under an id no job had
      before, and a run is started for an existing job or none, as the tables demand. */
  method Step(history: RunHistory, event: Event, known: set<nat>) returns (used: set<nat>)
    requires history.Valid() && history.jobs <= known && history.best.Keys <= known && JobsAmong(history.runs, known)
    modifies history
    ensures history.Valid() && history.Later(old(history.best))
    ensures known <= used && history.jobs <= used && history.best.Keys <= used && JobsAmong(history.runs, used)
    ensures forall job :: job in history.jobs ==> job in old(history.jobs) || (job !in known && event == CreateJob(job))
    ensures ActiveKept(old(history.runs), history.runs)
  {
    used := known;
    match event {
      case Start(job, backup, now) =>
        if job.None? || job.value in history.jobs {
          var _ := history.StartRun(job, backup, now);
        }
      case Finish(id, status) =>
        if status != Queued && status != Running {
          var _ := history.FinishRun(id, status);
        }
      case CleanupByAge(retentionDays, now) =>
        var _ := history.Cleanup(retentionDays, false, now);
      case Delete(id) =>
        var _ := history.DeleteExecution(id);
      case CreateJob(id) =>
        if id !in known {
          var _ := history.AddJob(id);
          used := known + {id};
        }
      case RemoveJob(id) =>
        var _ := history.DeleteJob(id);
    }
  }

  lemma StillSurpassed(runs: map<nat, Run>, jobs: set<nat>, best: map<nat, nat>, jobs': set<nat>, best': map<nat, nat>,
                       known: set<nat>)
    requires Surpassed(runs, jobs, best) && JobsAmong(runs, known)
    requires forall job :: job in jobs' ==> job in jobs || job !in known
    requires forall job :: job in best ==> job in best' && best[job] <= best'[job]
    ensures Surpassed(runs, jobs', best')
  {
  }

  /** Over any such events: a job that still exists and once had a reliable backup has one,
      and the newest one it ever had is kept: no reliable run that was ever there had a
      higher id. Active runs are never removed. */
  method Replay(jobs: set<nat>, events: seq<Event>)
      returns (left: set<nat>, runs: map<nat, Run>, ghost ever: seq<map<nat, Run>>)
    ensures forall job :: job in left ==> job in jobs || CreateJob(job) in events
    ensures |ever| == |events| + 1 && ever[|events|] == runs
    ensures forall i, r, job :: 0 <= i < |ever| && r in ever[i] && job in left && Reliable(ever[i][r], job) ==>
      exists kept :: kept >= r && Newest(runs, job, kept)
    ensures forall i, r ::
      (0 <= i < |ever| && r in ever[i] && ever[i][r].job.Some? && ever[i][r].job.value in left
       && ever[i][r].backup && ever[i][r].status in {Success, Warning}) ==>
        exists kept :: kept >= r && IsBaseline(left, runs, kept) && runs[kept].job == ever[i][r].job
    ensures forall i :: 0 <= i < |events| ==> ActiveKept(ever[i], ever[i + 1])
    ensures forall i, r ::
      0 <= i < |events| && r in ever[i] && ever[i][r].status in {Queued, Running} ==> r in ever[i + 1]
  {
    hide Surpassed, JobsAmong, ActiveKept, Newest, IsBaseline, Reliable, Active;
    var history := new RunHistory();
    history.jobs := jobs;
    var known := jobs;
    ever := [history.runs];
    NoRuns(jobs);
    var i := 0;
    while i < |events|
      invariant 0 <= i <= |events| && fresh(history) && history.Valid()
      invariant forall job :: job in history.jobs ==> job in jobs || CreateJob(job) in events
      invariant history.jobs <= known && history.best.Keys <= known
      invariant |ever| == i + 1 && ever[i] == history.runs
      invariant forall k :: 0 <= k <= i ==> JobsAmong(ever[k], known)
      invariant forall k :: 0 <= k <= i ==> Surpassed(ever[k], history.jobs, history.best)
      invariant forall k :: 0 <= k < i ==> ActiveKept(ever[k], ever[k + 1])
    {
      ghost var oldJobs, oldBest, oldKnown := history.jobs, history.best, known;
      known := Step(history, events[i], known);
      forall k | 0 <= k <= i ensures Surpassed(ever[k], history.jobs, history.best) && JobsAmong(ever[k], known) {
        StillSurpassed(ever[k], oldJobs, oldBest, history.jobs, history.best, oldKnown);
        MoreKnown(ever[k], oldKnown, known);
      }
      NowSurpassed(history);
      ever := ever + [history.runs];
      i := i + 1;
    }
    left, runs := history.jobs, history.runs;
    Kept(history, ever);
    KeptBaselines(left, runs, ever);
    forall i | 0 <= i < |events|
      ensures forall r :: r in ever[i] && ever[i][r].status in {Queued, Running} ==> r in ever[i + 1]
    {
      ActiveStay(ever[i], ever[i + 1]);
    }
  }

  lemma ActiveStay(before: map<nat, Run>, after: map<nat, Run>)
    requires ActiveKept(before, after)
    ensures forall r :: r in before && before[r].status in {Queued, Running} ==> r in after
  {
  }

  lemma KeptBaselines(left: set<nat>, runs: map<nat, Run>, ever: seq<map<nat, Run>>)
    requires forall i, r, job :: 0 <= i < |ever| && r in ever[i] && job in left && Reliable(ever[i][r], job) ==>
      exists kept :: kept >= r && Newest(runs, job, kept)
    ensures forall i, r ::
      (0 <= i < |ever| && r in ever[i] && ever[i][r].job.Some? && ever[i][r].job.value in left
       && ever[i][r].backup && ever[i][r].status in {Success, Warning}) ==>
        exists kept :: kept >= r && IsBaseline(left, runs, kept) && runs[kept].job == ever[i][r].job
  {
    forall i, r | 0 <= i < |ever| && r in ever[i] && ever[i][r].job.Some? && ever[i][r].job.value in left
      && ever[i][r].backup && ever[i][r].status in {Success, Warning}
      ensures exists kept :: kept >= r && IsBaseline(left, runs, kept) && runs[kept].job == ever[i][r].job
    {
      var job := ever[i][r].job.value;
      assert Reliable(ever[i][r], job);
      var kept :| kept >= r && Newest(runs, job, kept);
      NewestIsBaseline(left, runs, job, kept);
    }
  }

  lemma NewestIsBaseline(left: set<nat>, runs: map<nat, Run>, job: nat, r: nat)
    requires job in left && Newest(runs, job, r)
    ensures IsBaseline(left, runs, r) && runs[r].job == Some(job)
  {
  }

  lemma NoRuns(known: set<nat>)
    ensures JobsAmong(map[], known) && Surpassed(map[], known, map[])
  {
  }

  lemma MoreKnown(runs: map<nat, Run>, known: set<nat>, more: set<nat>)
    requires JobsAmong(runs, known) && known <= more
    ensures JobsAmong(runs, more)
  {
  }

  lemma NowSurpassed(history: RunHistory)
    requires history.Valid()
    ensures Surpassed(history.runs, history.jobs, history.best)
  {
    forall r, job | r in history.runs && job in history.jobs && Reliable(history.runs[r], job)
      ensures job in history.best && r <= history.best[job]
    {
      assert Newest(history.runs, job, history.best[job]);
    }
  }

  lemma Kept(history: RunHistory, ever: seq<map<nat, Run>>)
    requires history.Valid() && forall k :: 0 <= k < |ever| ==> Surpassed(ever[k], history.jobs, history.best)
    ensures forall i, r, job :: 0 <= i < |ever| && r in ever[i] && job in history.jobs && Reliable(ever[i][r], job) ==>
      exists kept :: kept >= r && Newest(history.runs, job, kept)
  {
    forall i, r, job | 0 <= i < |ever| && r in ever[i] && job in history.jobs && Reliable(ever[i][r], job)
      ensures exists kept :: kept >= r && Newest(history.runs, job, kept)
    {
      assert Surpassed(ever[i], history.jobs, history.best);
      assert Newest(history.runs, job, history.best[job]);
    }
  }
}
