/** Hosts, repositories, jobs and backup schedules: every operation of the manager on
    them keeps each job in at most one enabled schedule and no schedule target dangling. */
module Schedules {
  import opened Options

  datatype Mode = Hosts | Repository | Jobs | Other(name: string)

  datatype Schedule = Schedule(mode: Mode, hosts: set<nat>, repository: Option<nat>, jobs: set<nat>, enabled: bool)

  datatype Job = Job(host: nat, repository: nat)

  datatype Run = Run(job: Option<nat>, repository: Option<nat>, active: bool)

  datatype Tables = Tables(hosts: set<nat>, repositories: set<nat>, jobs: map<nat, Job>, schedules: map<nat, Schedule>)

  // ---- what a schedule targets ----

  predicate Matches(s: Schedule, id: nat, job: Job) {
    match s.mode
    case Hosts => job.host in s.hosts
    case Repository => s.repository == Some(job.repository)
    case Jobs => id in s.jobs
    case Other(_) => false
  }

  /** The job is selected for the schedule, disabled jobs included. */
  predicate Targets(db: Tables, s: Schedule, id: nat) {
    && id in db.jobs && db.jobs[id].host in db.hosts && db.jobs[id].repository in db.repositories
    && Matches(s, id, db.jobs[id])
  }

  predicate TargetsExist(db: Tables, s: Schedule) {
    match s.mode
    case Hosts => s.hosts <= db.hosts
    case Repository => s.repository.Some? && s.repository.value in db.repositories
    case Jobs => s.jobs <= db.jobs.Keys
    case Other(_) => false
  }

  /** Two enabled schedules never share a job. */
  predicate Exclusive(db: Tables, a: nat, b: nat) {
    a in db.schedules && b in db.schedules && a != b && db.schedules[a].enabled && db.schedules[b].enabled ==>
      forall id :: id in db.jobs ==> !(Targets(db, db.schedules[a], id) && Targets(db, db.schedules[b], id))
  }

  ghost predicate AtMostOne(db: Tables) {
    forall a, b :: Exclusive(db, a, b)
  }

  predicate NoDanglingJob(db: Tables) {
    forall id :: id in db.jobs ==> db.jobs[id].host in db.hosts && db.jobs[id].repository in db.repositories
  }

  predicate NoDanglingTarget(db: Tables) {
    forall id :: id in db.schedules ==> TargetsExist(db, db.schedules[id])
  }

  ghost predicate Consistent(db: Tables) {
    AtMostOne(db) && NoDanglingJob(db) && NoDanglingTarget(db)
  }

  // ---- the same, column by column ----

  /** The job falls under the row. */
  predicate Covers(s: Schedule, id: nat, job: Job) {
    || (s.mode.Hosts? && job.host in s.hosts)
    || (s.mode.Repository? && s.repository.Some? && s.repository.value == job.repository)
    || (s.mode.Jobs? && id in s.jobs)
  }

  /** Every target the row's mode looks at exists. */
  predicate Anchored(db: Tables, s: Schedule) {
    || (s.mode.Hosts? && forall h :: h in s.hosts ==> h in db.hosts)
    || (s.mode.Repository? && s.repository.Some? && s.repository.value in db.repositories)
    || (s.mode.Jobs? && forall j :: j in s.jobs ==> j in db.jobs)
  }

  /** Some job the row covers is covered by another enabled row already. */
  predicate Taken(db: Tables, id: nat, s: Schedule) {
    exists a, j :: a in db.schedules && a != id && j in db.jobs && db.schedules[a].enabled
      && Covers(db.schedules[a], j, db.jobs[j]) && Covers(s, j, db.jobs[j])
  }

  /** A request can be stored: its ids are positive, its mode's targets are given and exist, and
      an enabled one covers no job of another enabled row. */
  predicate Storable(db: Tables, id: nat, s: Schedule) {
    && (forall h :: h in s.hosts ==> h > 0) && (forall j :: j in s.jobs ==> j > 0)
    && (s.repository.Some? ==> s.repository.value > 0)
    && (s.mode.Hosts? ==> s.hosts != {}) && (s.mode.Jobs? ==> s.jobs != {})
    && Anchored(db, s) && !(s.enabled && Taken(db, id, s))
  }

  /** The stored row: what was asked for, and a repository only in repository mode. */
  ghost predicate Keeps(row: Schedule, request: Schedule) {
    && row.mode == request.mode && row.hosts == request.hosts && row.jobs == request.jobs
    && row.enabled == request.enabled
    && (request.mode.Repository? ==> row.repository == request.repository)
    && (!request.mode.Repository? ==> row.repository.None?)
    && forall id, job :: Covers(row, id, job) <==> Covers(request, id, job)
  }

  /** No job, host or repository a row refers to is missing, and no job is covered twice by
      enabled rows. */
  ghost predicate Sound(db: Tables) {
    && (forall id :: id in db.jobs ==> db.jobs[id].host in db.hosts && db.jobs[id].repository in db.repositories)
    && (forall a :: a in db.schedules ==> Anchored(db, db.schedules[a]))
    && forall a :: a in db.schedules && db.schedules[a].enabled ==> !Taken(db, a, db.schedules[a])
  }

  lemma CoversIsMatches(s: Schedule, id: nat, job: Job)
    ensures Covers(s, id, job) <==> Matches(s, id, job)
  {
  }

  lemma AnchoredIsExist(db: Tables, s: Schedule)
    ensures Anchored(db, s) <==> TargetsExist(db, s)
  {
  }

  lemma TakenIsConflict(db: Tables, id: nat, s: Schedule)
    requires NoDanglingJob(db)
    ensures Taken(db, id, s) <==> Conflicts(db, id, s) != {}
  {
    hide Covers, Matches;
    forall t: Schedule, j | j in db.jobs ensures Covers(t, j, db.jobs[j]) <==> Targets(db, t, j) {
      CoversIsMatches(t, j, db.jobs[j]);
    }
    if Taken(db, id, s) {
      var a, j :| a in db.schedules && a != id && j in db.jobs && db.schedules[a].enabled
        && Covers(db.schedules[a], j, db.jobs[j]) && Covers(s, j, db.jobs[j]);
      assert j in Conflicts(db, id, s);
    }
    forall j | j in Conflicts(db, id, s) ensures Taken(db, id, s) {
      var a :| a in db.schedules && a != id && db.schedules[a].enabled && Targets(db, db.schedules[a], j);
      assert Covers(db.schedules[a], j, db.jobs[j]) && Covers(s, j, db.jobs[j]);
    }
  }

  lemma ConflictIsShared(db: Tables, a: nat)
    requires a in db.schedules && db.schedules[a].enabled
    ensures Conflicts(db, a, db.schedules[a]) == {} <==> forall b :: Exclusive(db, a, b)
  {
    hide Targets;
    var s := db.schedules[a];
    if j :| j in Conflicts(db, a, s) {
      var b :| b in db.schedules && b != a && db.schedules[b].enabled && Targets(db, db.schedules[b], j);
      assert !Exclusive(db, a, b);
    } else {
      forall b ensures Exclusive(db, a, b) {
        forall j | b in db.schedules && b != a && db.schedules[b].enabled && j in db.jobs
          ensures !(Targets(db, s, j) && Targets(db, db.schedules[b], j))
        {
          assert j !in Conflicts(db, a, s);
        }
      }
    }
  }

  /** What every operation keeps, in terms of the columns alone. */
  lemma ConsistentIsSound(db: Tables)
    ensures Consistent(db) <==> Sound(db)
  {
    hide Targets, TargetsExist, Anchored, Taken, Conflicts, Exclusive;
    forall a | a in db.schedules ensures Anchored(db, db.schedules[a]) <==> TargetsExist(db, db.schedules[a]) {
      AnchoredIsExist(db, db.schedules[a]);
    }
    if NoDanglingJob(db) {
      forall a | a in db.schedules && db.schedules[a].enabled
        ensures Taken(db, a, db.schedules[a]) <==> !(forall b :: Exclusive(db, a, b))
      {
        TakenIsConflict(db, a, db.schedules[a]);
        ConflictIsShared(db, a);
      }
      forall a, b | !(a in db.schedules && db.schedules[a].enabled) ensures Exclusive(db, a, b) {
        NotEnabled(db, a, b);
      }
    }
  }

  lemma NotEnabled(db: Tables, a: nat, b: nat)
    requires !(a in db.schedules && db.schedules[a].enabled)
    ensures Exclusive(db, a, b)
  {
  }

  /** Taking targets or schedules away cannot break exclusiveness. */
  lemma FewerTargets(db: Tables, after: Tables)
    requires AtMostOne(db)
    requires forall a :: a in after.schedules && after.schedules[a].enabled ==>
      && a in db.schedules && db.schedules[a].enabled
      && forall id :: Targets(after, after.schedules[a], id) ==> Targets(db, db.schedules[a], id)
    ensures AtMostOne(after)
  {
    forall a, b ensures Exclusive(after, a, b) {
      assert Exclusive(db, a, b);
      hide Targets;
    }
  }

  // ---- what makes a row acceptable ----

  function WithSchedule(db: Tables, id: nat, s: Schedule): Tables {
    db.(schedules := db.schedules[id := s])
  }

  function WithJob(db: Tables, id: nat, job: Job): Tables {
    db.(jobs := db.jobs[id := job])
  }

  /** The jobs another enabled schedule has already. */
  function Conflicts(db: Tables, id: nat, s: Schedule): set<nat> {
    set j | j in db.jobs && Targets(db, s, j)
      && exists a :: a in db.schedules && a != id && db.schedules[a].enabled && Targets(db, db.schedules[a], j)
  }

  lemma ScheduleFits(db: Tables, id: nat, s: Schedule)
    requires Consistent(db)
    ensures Consistent(WithSchedule(db, id, s)) <==> TargetsExist(db, s) && (s.enabled ==> Conflicts(db, id, s) == {})
  {
    var after := WithSchedule(db, id, s);
    forall t, j ensures Targets(after, t, j) <==> Targets(db, t, j) {
    }
    assert TargetsExist(after, s) <==> TargetsExist(db, s);
    if s.enabled && Conflicts(db, id, s) != {} {
      var j :| j in Conflicts(db, id, s);
      var a :| a in db.schedules && a != id && db.schedules[a].enabled && Targets(db, db.schedules[a], j);
      assert !Exclusive(after, a, id);
    } else {
      forall a, b ensures Exclusive(after, a, b) {
        assert Exclusive(db, a, b);
        hide Targets;
        forall j | s.enabled && j in db.jobs && Targets(db, s, j) ensures j !in Conflicts(db, id, s) {
        }
      }
    }
    if TargetsExist(db, s) && NoDanglingTarget(db) {
      forall a | a in after.schedules ensures TargetsExist(after, after.schedules[a]) {
        assert a != id ==> TargetsExist(db, db.schedules[a]);
      }
    } else {
      assert id in after.schedules;
    }
  }

  /** The enabled schedules a job row falls into. */
  function MatchingSchedules(db: Tables, id: nat, job: Job): set<nat> {
    set a | a in db.schedules && db.schedules[a].enabled && Matches(db.schedules[a], id, job)
  }

  lemma TwoElements(s: set<nat>)
    ensures |s| > 1 <==> exists a, b :: a in s && b in s && a != b
  {
    if |s| > 1 {
      var a :| a in s;
      assert |s - {a}| > 0;
      var b :| b in s - {a};
    } else if a, b :| a in s && b in s && a != b {
      assert {a, b} <= s;
      SubsetSize({a, b}, s);
    }
  }

  lemma {:induction false} SubsetSize(a: set<nat>, b: set<nat>)
    requires a <= b
    ensures |a| <= |b|
  {
    if a != {} {
      var x :| x in a;
      SubsetSize(a - {x}, b - {x});
    }
  }

  lemma JobFits(db: Tables, id: nat, job: Job)
    requires Consistent(db) && job.host in db.hosts && job.repository in db.repositories
    ensures Consistent(WithJob(db, id, job)) <==> |MatchingSchedules(db, id, job)| <= 1
  {
    var after, matching := WithJob(db, id, job), MatchingSchedules(db, id, job);
    TwoElements(matching);
    forall t, j ensures Targets(after, t, j) <==> if j == id then Matches(t, id, job) else Targets(db, t, j) {
    }
    if a, b :| a in matching && b in matching && a != b {
      assert Targets(after, after.schedules[a], id);
      assert Targets(after, after.schedules[b], id);
      assert !Exclusive(after, a, b);
    } else {
      forall a, b ensures Exclusive(after, a, b) {
        assert Exclusive(db, a, b);
        assert a in matching && b in matching ==> a == b;
        hide Targets;
      }
    }
    forall a | a in db.schedules ensures TargetsExist(after, db.schedules[a]) {
      assert TargetsExist(db, db.schedules[a]);
    }
  }

  /** An id no job has yet is in no schedule's list, so all such ids fare alike. */
  lemma FreshIdsAlike(db: Tables, id: nat, job: Job)
    requires Consistent(db) && job.host in db.hosts && job.repository in db.repositories && id !in db.jobs
    ensures Consistent(WithJob(db, id, job)) <==> |MatchingSchedules(db, id, job)| <= 1
    ensures (forall other :: other !in db.jobs ==> Consistent(WithJob(db, other, job)))
      <==> |MatchingSchedules(db, id, job)| <= 1
  {
    JobFits(db, id, job);
    forall other | other !in db.jobs
      ensures Consistent(WithJob(db, other, job)) <==> |MatchingSchedules(db, id, job)| <= 1
    {
      JobFits(db, other, job);
      forall a | a in db.schedules ensures Matches(db.schedules[a], id, job) == Matches(db.schedules[a], other, job) {
        assert TargetsExist(db, db.schedules[a]);
      }
      assert MatchingSchedules(db, id, job) == MatchingSchedules(db, other, job);
    }
  }

  lemma DanglingJob(db: Tables, job: Job)
    ensures job.host !in db.hosts || job.repository !in db.repositories ==>
      exists id :: id !in db.jobs && !Consistent(WithJob(db, id, job))
  {
    var id := FreshId(db.jobs.Keys);
    assert id in WithJob(db, id, job).jobs;
  }

  lemma {:induction false} FreshId(ids: set<nat>) returns (id: nat)
    ensures id !in ids && forall other :: other in ids ==> other < id
  {
    if ids == {} {
      id := 0;
    } else {
      var x :| x in ids;
      id := FreshId(ids - {x});
      assert forall other :: other in ids ==> other == x || other in ids - {x};
      if id <= x {
        id := x + 1;
      }
    }
  }

  /** What the request schema demands of a schedule. */
  predicate Acceptable(s: Schedule) {
    && 0 !in s.hosts && 0 !in s.jobs && s.repository != Some(0)
    && match s.mode
       case Hosts => s.hosts != {}
       case Repository => s.repository.Some?
       case Jobs => s.jobs != {}
       case Other(_) => false
  }

  /** The row of a request: a repository target is stored for its own mode only. */
  function Stored(s: Schedule): Schedule {
    if s.mode == Repository then s else s.(repository := None)
  }

  lemma StoredKeeps(request: Schedule)
    ensures Keeps(Stored(request), request)
  {
  }

  /** Accepting the stored row is accepting the request. */
  lemma StorableExactly(db: Tables, id: nat, request: Schedule)
    requires Consistent(db)
    ensures Storable(db, id, request) <==> Acceptable(request) && Consistent(WithSchedule(db, id, Stored(request)))
  {
    hide Consistent, Covers, Taken, Conflicts, Anchored, TargetsExist;
    var row := Stored(request);
    ScheduleFits(db, id, row);
    AnchoredIsExist(db, row);
    assert NoDanglingJob(db) by {
      ConsistentParts(db);
    }
    TakenIsConflict(db, id, row);
    StoredAlike(db, id, request);
    StoredAnchored(db, request);
    AnchoredModes(db, request);
    if !request.mode.Other? && (request.mode.Repository? ==> request.repository.Some?) {
      AcceptableParts(request);
    }
  }

  lemma AnchoredModes(db: Tables, s: Schedule)
    ensures Anchored(db, s) ==> !s.mode.Other? && (s.mode.Repository? ==> s.repository.Some?)
  {
  }

  lemma ConsistentParts(db: Tables)
    ensures Consistent(db) ==> NoDanglingJob(db)
  {
  }

  lemma StoredAnchored(db: Tables, request: Schedule)
    ensures Anchored(db, Stored(request)) <==> Anchored(db, request)
  {
  }

  lemma StoredAlike(db: Tables, id: nat, request: Schedule)
    ensures Taken(db, id, Stored(request)) <==> Taken(db, id, request)
  {
    hide Covers, Stored;
    var row := Stored(request);
    StoredKeeps(request);
    forall a, j | a in db.schedules && j in db.jobs && Covers(db.schedules[a], j, db.jobs[j])
      ensures Covers(row, j, db.jobs[j]) <==> Covers(request, j, db.jobs[j])
    {
    }
  }

  lemma AcceptableParts(s: Schedule)
    requires !s.mode.Other? && (s.mode.Repository? ==> s.repository.Some?)
    ensures Acceptable(s) <==>
      && (forall h :: h in s.hosts ==> h > 0) && (forall j :: j in s.jobs ==> j > 0)
      && (s.repository.Some? ==> s.repository.value > 0)
      && (s.mode.Hosts? ==> s.hosts != {}) && (s.mode.Jobs? ==> s.jobs != {})
  {
    assert 0 in s.hosts <==> !(forall h :: h in s.hosts ==> h > 0);
    assert 0 in s.jobs <==> !(forall j :: j in s.jobs ==> j > 0);
  }

  // ---- deleting what schedules refer to ----

  function WithoutHost(schedules: map<nat, Schedule>, host: nat): map<nat, Schedule> {
    map id | id in schedules && (schedules[id].mode == Hosts ==> schedules[id].hosts - {host} != {})
      :: if schedules[id].mode == Hosts then schedules[id].(hosts := schedules[id].hosts - {host}) else schedules[id]
  }

  function WithoutJob(schedules: map<nat, Schedule>, job: nat): map<nat, Schedule> {
    map id | id in schedules && (schedules[id].mode == Jobs ==> schedules[id].jobs - {job} != {})
      :: if schedules[id].mode == Jobs then schedules[id].(jobs := schedules[id].jobs - {job}) else schedules[id]
  }

  function WithoutRepository(schedules: map<nat, Schedule>, repository: nat): map<nat, Schedule> {
    map id | id in schedules && !(schedules[id].mode == Repository && schedules[id].repository == Some(repository))
      :: schedules[id]
  }

  lemma HostRemoved(db: Tables, host: nat)
    requires Consistent(db) && forall id :: id in db.jobs ==> db.jobs[id].host != host
    ensures Consistent(db.(hosts := db.hosts - {host}, schedules := WithoutHost(db.schedules, host)))
  {
    var after := db.(hosts := db.hosts - {host}, schedules := WithoutHost(db.schedules, host));
    FewerTargets(db, after);
    forall id | id in after.schedules ensures TargetsExist(after, after.schedules[id]) {
      assert TargetsExist(db, db.schedules[id]);
    }
  }

  lemma JobRemoved(db: Tables, job: nat)
    requires Consistent(db)
    ensures Consistent(db.(jobs := db.jobs - {job}, schedules := WithoutJob(db.schedules, job)))
  {
    var after := db.(jobs := db.jobs - {job}, schedules := WithoutJob(db.schedules, job));
    FewerTargets(db, after);
    forall id | id in after.schedules ensures TargetsExist(after, after.schedules[id]) {
      assert TargetsExist(db, db.schedules[id]);
    }
  }

  lemma RepositoryRemoved(db: Tables, repository: nat)
    requires Consistent(db) && forall id :: id in db.jobs ==> db.jobs[id].repository != repository
    ensures Consistent(db.(repositories := db.repositories - {repository},
                           schedules := WithoutRepository(db.schedules, repository)))
  {
    var after := db.(repositories := db.repositories - {repository},
                     schedules := WithoutRepository(db.schedules, repository));
    FewerTargets(db, after);
    forall id | id in after.schedules ensures TargetsExist(after, after.schedules[id]) {
      assert TargetsExist(db, db.schedules[id]);
    }
  }

  /** Only the schedules of this repository go. */
  lemma OthersStay(schedules: map<nat, Schedule>, repository: nat)
    ensures var after := WithoutRepository(schedules, repository);
      && (forall a :: a in after <==>
          a in schedules && !(schedules[a].mode.Repository? && schedules[a].repository == Some(repository)))
      && (forall a :: a in after ==> after[a] == schedules[a])
  {
  }

  function ForgetJob(runs: map<nat, Run>, job: nat): map<nat, Run> {
    map r | r in runs :: if runs[r].job == Some(job) then runs[r].(job := None) else runs[r]
  }

  function ForgetRepository(runs: map<nat, Run>, repository: nat): map<nat, Run> {
    map r | r in runs :: if runs[r].repository == Some(repository) then runs[r].(repository := None) else runs[r]
  }

  // ---- repair ----

  function SafeIds(ids: set<nat>): set<nat> {
    ids - {0}
  }

  /** The row names a target that does not exist, as the preview counts it. */
  predicate PreviewInvalid(db: Tables, s: Schedule) {
    match s.mode
    case Hosts => !(SafeIds(s.hosts) <= db.hosts)
    case Repository => s.repository.Some? && s.repository.value !in db.repositories
    case Jobs => !(SafeIds(s.jobs) <= db.jobs.Keys)
    case Other(_) => false
  }

  function InvalidRows(db: Tables): set<nat> {
    set id | id in db.schedules && PreviewInvalid(db, db.schedules[id])
  }

  /** Repository schedules that lost their repository before. */
  function EmptyRows(db: Tables): set<nat> {
    set id | id in db.schedules && db.schedules[id].mode == Repository && db.schedules[id].repository == None
  }

  predicate Affected(db: Tables, s: Schedule) {
    PreviewInvalid(db, s) || (s.mode == Repository && s.repository == None)
  }

  function Repaired(db: Tables, s: Schedule): Schedule {
    if Affected(db, s) then
      var hosts, jobs := SafeIds(s.hosts) * db.hosts, SafeIds(s.jobs) * db.jobs.Keys;
      Schedule(s.mode, hosts, if s.mode == Repository then None else s.repository, jobs,
               s.enabled && match s.mode
                            case Hosts => hosts != {}
                            case Jobs => jobs != {}
                            case _ => false)
    else s
  }

  function RepairedTables(db: Tables): Tables {
    db.(schedules := map id | id in db.schedules :: Repaired(db, db.schedules[id]))
  }

  /** A row is changed, and counted, exactly if a positive id its mode looks at is missing, or a
      repository row has no existing repository; both lists then lose what is missing, a
      repository row its repository, and a row left without targets is disabled. */
  lemma RepairExactly(db: Tables, s: Schedule)
    ensures Affected(db, s) <==>
      || (s.mode.Hosts? && exists h :: h in s.hosts && h > 0 && h !in db.hosts)
      || (s.mode.Jobs? && exists j :: j in s.jobs && j > 0 && j !in db.jobs)
      || (s.mode.Repository? && (s.repository.None? || s.repository.value !in db.repositories))
    ensures var t := Repaired(db, s);
      if !Affected(db, s) then t == s
      else
        && t.mode == s.mode && t.hosts == (set h | h in s.hosts && h > 0 && h in db.hosts)
        && t.jobs == (set j | j in s.jobs && j > 0 && j in db.jobs)
        && t.repository == (if s.mode.Repository? then None else s.repository)
        && (t.enabled <==>
            && s.enabled && !s.mode.Repository?
            && (s.mode.Hosts? ==> t.hosts != {}) && (s.mode.Jobs? ==> t.jobs != {}))
  {
  }

  /** Repair on any tables at all: nothing is added or enabled, the preview is then empty,
      exclusiveness is kept, and what is left enabled targets only what exists. */
  lemma RepairIsSafe(db: Tables)
    ensures var after := RepairedTables(db);
      && InvalidRows(after) == {} && after.schedules.Keys == db.schedules.Keys
      && (AtMostOne(db) ==> AtMostOne(after))
      && forall id :: id in db.schedules ==>
        var s, t := db.schedules[id], after.schedules[id];
        && t.mode == s.mode && t.hosts <= s.hosts && t.jobs <= s.jobs &&
           (t.repository == s.repository || t.repository == None)
        && (t.enabled ==> s.enabled)
        && (t.enabled && 0 !in t.hosts && 0 !in t.jobs && !t.mode.Other? ==> TargetsExist(after, t))
        && forall j :: Targets(after, t, j) && 0 !in s.jobs ==> Targets(db, s, j)
  {
    var after := RepairedTables(db);
    if AtMostOne(db) {
      FewerTargets(db, after);
    }
  }

  /** A repaired database repairs to itself, but its empty repository schedules are reported again. */
  lemma RepairTwice(db: Tables)
    ensures var after := RepairedTables(db);
      && RepairedTables(after).schedules == after.schedules
      && EmptyRows(after) == EmptyRows(db) + set id | id in InvalidRows(db) && db.schedules[id].mode == Repository
  {
    var after := RepairedTables(db);
    forall id | id in db.schedules ensures Repaired(after, after.schedules[id]) == after.schedules[id] {
    }
    var lost := set id | id in InvalidRows(db) && db.schedules[id].mode == Repository;
    forall id ensures id in EmptyRows(after) <==> id in EmptyRows(db) || id in lost {
      hide SafeIds;
    }
  }

  // ---- the manager ----

  /** The largest id, or 0, as `coalesce(max(id), 0)`. */
  method MaxId(ids: set<nat>) returns (highest: nat)
    ensures forall id :: id in ids ==> id <= highest
    ensures highest == 0 || highest in ids
  {
    highest := 0;
    var rest := ids;
    while rest != {}
      invariant rest <= ids
      invariant forall id :: id in ids && id !in rest ==> id <= highest
      invariant highest == 0 || highest in ids
    {
      var id :| id in rest;
      rest := rest - {id};
      if id > highest {
        highest := id;
      }
    }
  }

  class Manager {
    var db: Tables
    var runs: map<nat, Run>
    /** Repositories with an active archive mount. */
    var mounted: set<nat>
    /** The ids ever reserved for jobs. */
    var reservations: set<nat>
    /** The ids of all jobs ever created here, in order. */
    ghost var issued: seq<nat>

    ghost predicate Valid()
      reads this
    {
      && Consistent(db)
      && (forall k :: 0 <= k < |issued| ==> issued[k] in reservations)
      && (forall k, l :: 0 <= k < l < |issued| ==> issued[k] < issued[l])
    }

    constructor (db: Tables, reservations: set<nat>)
      requires Consistent(db)
      ensures Valid() && this.db == db && issued == [] && runs == map[] && this.reservations == reservations
    {
      this.db, this.reservations := db, reservations;
      runs, mounted, issued := map[], {}, [];
    }

    /** `validate_schedule_conflicts`: the jobs other enabled schedules have, with one of those. */
    method ConflictsOf(id: nat, candidate: Schedule) returns (conflicts: map<nat, nat>)
      ensures conflicts.Keys == if candidate.enabled then Conflicts(db, id, candidate) else {}
    {
      conflicts := map[];
      if !candidate.enabled {
        return;
      }
      var targets := set j | j in db.jobs && Targets(db, candidate, j);
      var rest := db.schedules.Keys;
      while rest != {}
        invariant rest <= db.schedules.Keys
        invariant conflicts.Keys == set j | j in targets
          && exists a ::
             a in db.schedules.Keys - rest && a != id && db.schedules[a].enabled && Targets(db, db.schedules[a], j)
      {
        var a :| a in rest;
        rest := rest - {a};
        if db.schedules[a].enabled && a != id {
          conflicts := conflicts + map j | j in targets && Targets(db, db.schedules[a], j) :: a;
        }
        hide Targets;
      }
    }

    method CreateSchedule(id: nat, request: Schedule, nameFree: bool) returns (ok: bool)
      requires Valid() && id !in db.schedules
      modifies this`db
      ensures Valid()
      ensures ok <==> Acceptable(request) && nameFree && Consistent(WithSchedule(old(db), id, Stored(request)))
      ensures db == if ok then WithSchedule(old(db), id, Stored(request)) else old(db)
      ensures ok <==> nameFree && Storable(old(db), id, request)
      ensures ok ==> id in db.schedules && Keeps(db.schedules[id], request)
    {
      hide Consistent, Storable, Keeps;
      ok := PutSchedule(id, request, nameFree);
    }

    method UpdateSchedule(id: nat, request: Schedule, nameFree: bool) returns (ok: bool)
      requires Valid()
      modifies this`db
      ensures Valid()
      ensures ok <==>
        && id in old(db).schedules && Acceptable(request) && nameFree
        && Consistent(WithSchedule(old(db), id, Stored(request)))
      ensures db == if ok then WithSchedule(old(db), id, Stored(request)) else old(db)
      ensures ok <==> id in old(db).schedules && nameFree && Storable(old(db), id, request)
      ensures ok ==> id in db.schedules && Keeps(db.schedules[id], request)
    {
      hide Consistent, Storable, Keeps;
      if id !in db.schedules {
        return false;
      }
      ok := PutSchedule(id, request, nameFree);
    }

    /** The part both handlers share: check the request, the targets, then the conflicts. */
    method PutSchedule(id: nat, request: Schedule, nameFree: bool) returns (ok: bool)
      requires Valid()
      modifies this`db
      ensures Valid()
      ensures ok <==> Acceptable(request) && nameFree && Consistent(WithSchedule(old(db), id, Stored(request)))
      ensures db == if ok then WithSchedule(old(db), id, Stored(request)) else old(db)
      ensures ok <==> nameFree && Storable(old(db), id, request)
      ensures ok ==> id in db.schedules && Keeps(db.schedules[id], request)
    {
      hide Consistent, TargetsExist, Conflicts, Storable, Keeps, Acceptable, Stored;
      var row := Stored(request);
      StorableExactly(db, id, request);
      StoredKeeps(request);
      ScheduleFits(db, id, row);
      if !Acceptable(request) || !nameFree || !TargetsExist(db, row) {
        return false;
      }
      var conflicts := ConflictsOf(id, row);
      if conflicts.Keys != {} {
        return false;
      }
      db := WithSchedule(db, id, row);
      ok := true;
    }

    method DeleteSchedule(id: nat) returns (ok: bool)
      requires Valid()
      modifies this`db
      ensures Valid() && ok == (id in old(db).schedules)
      ensures db == old(db).(schedules := old(db).schedules - {id})
    {
      ok := id in db.schedules;
      FewerTargets(db, db.(schedules := db.schedules - {id}));
      db := db.(schedules := db.schedules - {id});
      assert forall a :: a in db.schedules ==> TargetsExist(old(db), db.schedules[a]);
    }

    /** `validate_job_schedule_conflicts`, before it counts: the enabled schedules that match. */
    method MatchesOf(id: nat, job: Job) returns (matches: set<nat>)
      ensures matches == MatchingSchedules(db, id, job)
    {
      matches := {};
      var rest := db.schedules.Keys;
      while rest != {}
        invariant rest <= db.schedules.Keys
        invariant matches == set a |
          a in db.schedules.Keys - rest && db.schedules[a].enabled && Matches(db.schedules[a], id, job)
      {
        var a :| a in rest;
        rest := rest - {a};
        if db.schedules[a].enabled && Matches(db.schedules[a], id, job) {
          matches := matches + {a};
        }
        hide Matches;
      }
    }

    /** One more than every id in use, reserved or left behind in a run. */
    method AllocateJobId() returns (id: nat)
      modifies this`reservations
      ensures reservations == old(reservations) + {id}
      ensures id > 0 && id !in db.jobs && forall r :: r in old(reservations) ==> r < id
      ensures forall r :: r in runs && runs[r].job.Some? ==> runs[r].job.value < id
      ensures id == 1 || id - 1 in db.jobs || id - 1 in old(reservations)
        || exists r :: r in runs && runs[r].job == Some(id - 1)
    {
      var highestJob := MaxId(db.jobs.Keys);
      var highestReservation := MaxId(reservations);
      var runJobs := set r | r in runs && runs[r].job.Some? :: runs[r].job.value;
      assert forall r :: r in runs && runs[r].job.Some? ==> runs[r].job.value in runJobs;
      var highestRun := MaxId(runJobs);
      id := 1 + if highestJob >= highestReservation && highestJob >= highestRun then highestJob
                else if highestReservation >= highestRun then highestReservation else highestRun;
      reservations := reservations + {id};
    }

    /** A job gets an id no job ever had before. */
    method CreateJob(job: Job, nameFree: bool) returns (created: Option<nat>)
      requires Valid()
      modifies this
      ensures Valid() && runs == old(runs) && mounted == old(mounted) && old(reservations) <= reservations
      ensures created.None? ==> db == old(db) && reservations == old(reservations) && issued == old(issued)
      ensures created.Some? ==>
        && created.value in reservations && created.value !in old(reservations)
        && created.value !in old(db).jobs && created.value !in old(issued)
        && db == WithJob(old(db), created.value, job) && issued == old(issued) + [created.value]
      ensures created.Some? <==> nameFree && forall id :: id !in old(db).jobs ==> Consistent(WithJob(old(db), id, job))
    {
      hide Consistent, Conflicts;
      var before := reservations;
      if job.host !in db.hosts || job.repository !in db.repositories || !nameFree {
        DanglingJob(db, job);
        return None;
      }
      var id := AllocateJobId();
      FreshIdsAlike(db, id, job);
      var matches := MatchesOf(id, job);
      if |matches| > 1 {
        reservations := before;
        return None;
      }
      db := WithJob(db, id, job);
      issued := issued + [id];
      return Some(id);
    }

    method UpdateJob(id: nat, job: Job, nameFree: bool) returns (ok: bool)
      requires Valid()
      modifies this`db
      ensures Valid()
      ensures ok <==> id in old(db).jobs && nameFree && Consistent(WithJob(old(db), id, job))
      ensures db == if ok then WithJob(old(db), id, job) else old(db)
    {
      if id !in db.jobs || job.host !in db.hosts || job.repository !in db.repositories {
        assert id in WithJob(db, id, job).jobs;
        return false;
      }
      hide Consistent;
      JobFits(db, id, job);
      var matches := MatchesOf(id, job);
      if |matches| > 1 || !nameFree {
        return false;
      }
      db := WithJob(db, id, job);
      ok := true;
    }

    /** A new host or repository, under the unused id the database picks. */
    method AddHost(host: nat) returns (ok: bool)
      requires Valid()
      modifies this`db
      ensures Valid() && ok == (host !in old(db).hosts) && db == old(db).(hosts := old(db).hosts + {host})
    {
      ok := host !in db.hosts;
      ghost var before := db;
      db := db.(hosts := db.hosts + {host});
      TargetsGrown(before, db);
    }

    method AddRepository(repository: nat) returns (ok: bool)
      requires Valid()
      modifies this`db
      ensures Valid() && ok == (repository !in old(db).repositories)
      ensures db == old(db).(repositories := old(db).repositories + {repository})
    {
      ok := repository !in db.repositories;
      ghost var before := db;
      db := db.(repositories := db.repositories + {repository});
      TargetsGrown(before, db);
    }

    /** `_drop_host_schedule_references`. */
    method DropHostReferences(host: nat)
      modifies this`db
      ensures db == old(db).(schedules := WithoutHost(old(db).schedules, host))
    {
      var rest := db.schedules.Keys;
      while rest != {}
        invariant rest <= old(db).schedules.Keys
        invariant db == old(db).(schedules := db.schedules)
        invariant forall id :: id in rest ==> id in db.schedules && db.schedules[id] == old(db).schedules[id]
        invariant forall id :: id in old(db).schedules.Keys - rest ==>
          (id in db.schedules <==> id in WithoutHost(old(db).schedules, host))
        invariant forall id :: id in db.schedules ==>
          && id in old(db).schedules
          && (id !in rest ==>
              && id in WithoutHost(old(db).schedules, host)
              && db.schedules[id] == WithoutHost(old(db).schedules, host)[id])
      {
        var id :| id in rest;
        rest := rest - {id};
        var s := db.schedules[id];
        if s.mode == Hosts {
          if s.hosts - {host} != {} {
            db := db.(schedules := db.schedules[id := s.(hosts := s.hosts - {host})]);
          } else {
            db := db.(schedules := db.schedules - {id});
          }
        }
      }
    }

    /** `_drop_job_schedule_references`. */
    method DropJobReferences(job: nat)
      modifies this`db
      ensures db == old(db).(schedules := WithoutJob(old(db).schedules, job))
    {
      var rest := db.schedules.Keys;
      while rest != {}
        invariant rest <= old(db).schedules.Keys
        invariant db == old(db).(schedules := db.schedules)
        invariant forall id :: id in rest ==> id in db.schedules && db.schedules[id] == old(db).schedules[id]
        invariant forall id :: id in old(db).schedules.Keys - rest ==>
          (id in db.schedules <==> id in WithoutJob(old(db).schedules, job))
        invariant forall id :: id in db.schedules ==>
          && id in old(db).schedules
          && (id !in rest ==>
              && id in WithoutJob(old(db).schedules, job)
              && db.schedules[id] == WithoutJob(old(db).schedules, job)[id])
      {
        var id :| id in rest;
        rest := rest - {id};
        var s := db.schedules[id];
        if s.mode == Jobs {
          if s.jobs - {job} != {} {
            db := db.(schedules := db.schedules[id := s.(jobs := s.jobs - {job})]);
          } else {
            db := db.(schedules := db.schedules - {id});
          }
        }
      }
    }

    method DeleteHost(host: nat) returns (ok: bool)
      requires Valid()
      modifies this`db
      ensures Valid()
      ensures ok <==> host in old(db).hosts && forall id :: id in old(db).jobs ==> old(db).jobs[id].host != host
      ensures db == if ok then old(db).(hosts := old(db).hosts - {host},
                                        schedules := WithoutHost(old(db).schedules, host))
                    else old(db)
    {
      hide Consistent, WithoutHost;
      if host !in db.hosts || exists id :: id in db.jobs && db.jobs[id].host == host {
        return false;
      }
      HostRemoved(db, host);
      DropHostReferences(host);
      db := db.(hosts := db.hosts - {host});
      ok := true;
    }

    method DeleteJob(job: nat) returns (ok: bool)
      requires Valid()
      modifies this`db, this`runs
      ensures Valid()
      ensures ok <==>
        && job in old(db).jobs
        && !exists r :: r in old(runs) && old(runs)[r].job == Some(job) && old(runs)[r].active
      ensures db == if ok then old(db).(jobs := old(db).jobs - {job}, schedules := WithoutJob(old(db).schedules, job))
                    else old(db)
      ensures runs == if ok then ForgetJob(old(runs), job) else old(runs)
      ensures ok ==> runs.Keys == old(runs).Keys && forall r :: r in runs ==>
        && runs[r].repository == old(runs)[r].repository && runs[r].active == old(runs)[r].active
        && runs[r].job == if old(runs)[r].job == Some(job) then None else old(runs)[r].job
    {
      hide Consistent, WithoutJob;
      if job !in db.jobs || exists r :: r in runs && runs[r].job == Some(job) && runs[r].active {
        return false;
      }
      JobRemoved(db, job);
      runs := ForgetJob(runs, job);
      DropJobReferences(job);
      db := db.(jobs := db.jobs - {job});
      ok := true;
    }

    method DeleteRepository(repository: nat) returns (ok: bool)
      requires Valid()
      modifies this`db, this`runs
      ensures Valid()
      ensures ok <==>
        && repository in old(db).repositories && repository !in mounted
        && (forall id :: id in old(db).jobs ==> old(db).jobs[id].repository != repository)
        && !exists r :: r in old(runs) && old(runs)[r].repository == Some(repository) && old(runs)[r].active
      ensures db == if ok then old(db).(repositories := old(db).repositories - {repository},
                                        schedules := WithoutRepository(old(db).schedules, repository))
                    else old(db)
      ensures ok ==> forall a :: a in db.schedules <==>
        && a in old(db).schedules
        && !(old(db).schedules[a].mode.Repository? && old(db).schedules[a].repository == Some(repository))
      ensures ok ==> forall a :: a in db.schedules ==> db.schedules[a] == old(db).schedules[a]
      ensures runs == if ok then ForgetRepository(old(runs), repository) else old(runs)
      ensures ok ==> runs.Keys == old(runs).Keys && forall r :: r in runs ==>
        && runs[r].job == old(runs)[r].job && runs[r].active == old(runs)[r].active
        && runs[r].repository == if old(runs)[r].repository == Some(repository) then None else old(runs)[r].repository
    {
      hide Consistent, WithoutRepository;
      if || repository !in db.repositories || repository in mounted
         || (exists id :: id in db.jobs && db.jobs[id].repository == repository)
         || (exists r :: r in runs && runs[r].repository == Some(repository) && runs[r].active)
      {
        return false;
      }
      RepositoryRemoved(db, repository);
      OthersStay(db.schedules, repository);
      runs := ForgetRepository(runs, repository);
      db := db.(repositories := db.repositories - {repository},
                schedules := WithoutRepository(db.schedules, repository));
      ok := true;
    }

    method RepairRow(s: Schedule) returns (changed: bool, row: Schedule)
      ensures changed == Affected(db, s)
      ensures row == Repaired(db, s) && (!changed ==> row == s)
    {
      var hosts, jobs := SafeIds(s.hosts) * db.hosts, SafeIds(s.jobs) * db.jobs.Keys;
      var repository, enabled := s.repository, s.enabled;
      changed := false;
      match s.mode {
        case Hosts =>
          if hosts != SafeIds(s.hosts) {
            changed := true;
            enabled := enabled && hosts != {};
          }
        case Jobs =>
          if jobs != SafeIds(s.jobs) {
            changed := true;
            enabled := enabled && jobs != {};
          }
        case Repository =>
          if repository.None? || repository.value !in db.repositories {
            repository, enabled, changed := None, false, true;
          }
        case Other(_) =>
      }
      row := if changed then Schedule(s.mode, hosts, repository, jobs, enabled) else s;
    }

    /** The schedule part of the database cleanup, on tables in any condition. */
    method RepairTargets() returns (repaired: nat)
      modifies this`db
      ensures db == RepairedTables(old(db))
      ensures repaired == |InvalidRows(old(db))| + |EmptyRows(old(db))|
      ensures old(Valid()) ==> Valid() && db == old(db) && repaired == 0
    {
      hide Repaired, Affected, Consistent, InvalidRows, EmptyRows, RepairedTables;
      ghost var before := db;
      ghost var done: set<nat> := {};
      repaired := 0;
      var rest := db.schedules.Keys;
      while rest != {}
        invariant rest <= before.schedules.Keys && db == before.(schedules := db.schedules)
        invariant db.schedules.Keys == before.schedules.Keys
        invariant forall id :: id in before.schedules ==>
          db.schedules[id] == if id in rest then before.schedules[id] else Repaired(before, before.schedules[id])
        invariant repaired == |done|
        invariant forall id :: id in done <==>
          id in before.schedules && id !in rest && Affected(before, before.schedules[id])
      {
        var id :| id in rest;
        rest := rest - {id};
        var s := db.schedules[id];
        var changed, row := RepairRow(s);
        RepairedAlike(before, db, s);
        if changed {
          db := db.(schedules := db.schedules[id := row]);
          repaired := repaired + 1;
          done := done + {id};
        }
      }
      AllRepaired(before, db, done);
      if Consistent(before) {
        NothingToRepair(before);
      }
    }
  }

  lemma RepairedAlike(db: Tables, other: Tables, s: Schedule)
    requires other == db.(schedules := other.schedules)
    ensures Affected(db, s) == Affected(other, s) && Repaired(db, s) == Repaired(other, s)
  {
  }

  lemma AllRepaired(before: Tables, after: Tables, done: set<nat>)
    requires after == before.(schedules := after.schedules) && after.schedules.Keys == before.schedules.Keys
    requires forall id :: id in before.schedules ==> after.schedules[id] == Repaired(before, before.schedules[id])
    requires forall id :: id in done <==> id in before.schedules && Affected(before, before.schedules[id])
    ensures after == RepairedTables(before)
    ensures |done| == |InvalidRows(before)| + |EmptyRows(before)|
  {
    hide Repaired, PreviewInvalid;
    assert after.schedules == RepairedTables(before).schedules;
    Disjoint(before);
    assert done == InvalidRows(before) + EmptyRows(before);
  }

  lemma Disjoint(db: Tables)
    ensures InvalidRows(db) !! EmptyRows(db)
  {
  }

  lemma NothingToRepair(db: Tables)
    requires Consistent(db)
    ensures RepairedTables(db) == db && |InvalidRows(db)| == 0 && |EmptyRows(db)| == 0
  {
    forall id | id in db.schedules
      ensures !PreviewInvalid(db, db.schedules[id]) && Repaired(db, db.schedules[id]) == db.schedules[id]
    {
      assert TargetsExist(db, db.schedules[id]);
    }
    assert RepairedTables(db).schedules == db.schedules;
  }

  lemma TargetsGrown(db: Tables, after: Tables)
    requires Consistent(db) && after.jobs == db.jobs && after.schedules == db.schedules
    requires db.hosts <= after.hosts && db.repositories <= after.repositories
    ensures Consistent(after)
  {
    FewerTargets(db, after);
    forall id | id in after.schedules ensures TargetsExist(after, after.schedules[id]) {
      assert TargetsExist(db, db.schedules[id]);
    }
  }

  // ---- whole runs ----

  datatype Operation =
    | AddHost(id: nat) | RemoveHost(id: nat)
    | AddRepository(id: nat) | RemoveRepository(id: nat)
    | AddJob(job: Job, nameFree: bool) | ChangeJob(id: nat, job: Job, nameFree: bool) | RemoveJob(id: nat)
    | AddSchedule(id: nat, schedule: Schedule, nameFree: bool)
    | ChangeSchedule(id: nat, schedule: Schedule, nameFree: bool) | RemoveSchedule(id: nat)
    | Repair
    /** A run is queued, or a run ends. */
    | Queue(run: nat, row: Run) | Finish(run: nat)

  /** A job id that was there and went away does not come back. */
  ghost predicate NoReturn(history: seq<Tables>, id: nat) {
    forall i, m, j :: 0 <= i < m < j < |history| && id in history[i].jobs && id !in history[m].jobs ==>
      id !in history[j].jobs
  }

  /** One operation. A job id that appears was never reserved before. */
  method Perform(manager: Manager, operation: Operation) returns (created: Option<nat>)
    requires manager.Valid()
    modifies manager
    ensures manager.Valid() && old(manager.reservations) <= manager.reservations
    ensures manager.issued == old(manager.issued) + if created.Some? then [created.value] else []
    ensures forall id :: id in manager.db.jobs ==> id in old(manager.db).jobs || created == Some(id)
    ensures created.Some? ==> created.value !in old(manager.reservations) && created.value in manager.reservations
  {
    hide Consistent, TargetsExist, RepairedTables;
    created := None;
    match operation {
      case AddHost(id) => var _ := manager.AddHost(id);
      case RemoveHost(id) => var _ := manager.DeleteHost(id);
      case AddRepository(id) => var _ := manager.AddRepository(id);
      case RemoveRepository(id) => var _ := manager.DeleteRepository(id);
      case AddJob(job, nameFree) => created := manager.CreateJob(job, nameFree);
      case ChangeJob(id, job, nameFree) => var _ := manager.UpdateJob(id, job, nameFree);
      case RemoveJob(id) => var _ := manager.DeleteJob(id);
      case AddSchedule(id, schedule, nameFree) =>
        if id !in manager.db.schedules {
          var _ := manager.CreateSchedule(id, schedule, nameFree);
        }
      case ChangeSchedule(id, schedule, nameFree) => var _ := manager.UpdateSchedule(id, schedule, nameFree);
      case RemoveSchedule(id) => var _ := manager.DeleteSchedule(id);
      case Repair => var _ := manager.RepairTargets();
      case Queue(run, row) => manager.runs := manager.runs[run := row];
      case Finish(run) =>
        if run in manager.runs {
          manager.runs := manager.runs[run := manager.runs[run].(active := false)];
        }
    }
  }

  /** After any operations in any order, accepted or rejected, the tables are consistent; the
      jobs created on the way, deleted ones included, had ever larger, never reused ids; and
      no job comes back once deleted, reserved or created here as it was. */
  method Operate(db: Tables, reservations: set<nat>, operations: seq<Operation>)
      returns (history: seq<Tables>, created: seq<nat>)
    requires Consistent(db)
    ensures |history| == |operations| + 1 && history[0] == db
    ensures forall k :: 0 <= k < |history| ==> Consistent(history[k]) && Sound(history[k])
    ensures forall k, l :: 0 <= k < l < |created| ==> created[k] < created[l]
    ensures forall k :: 0 <= k < |created| ==> created[k] !in reservations
    ensures forall id :: id in reservations || id !in db.jobs ==> NoReturn(history, id)
  {
    hide Consistent, NoReturn, Sound;
    var manager := new Manager(db, reservations);
    created, history := [], [db];
    OneState(db);
    var i := 0;
    while i < |operations|
      invariant 0 <= i <= |operations| && manager.Valid() && fresh(manager)
      invariant |history| == i + 1 && history[0] == db && history[i] == manager.db
      invariant forall k :: 0 <= k < |history| ==> Consistent(history[k])
      invariant created == manager.issued && reservations <= manager.reservations
      invariant forall k :: 0 <= k < |created| ==> created[k] !in reservations
      invariant forall k, id ::
        (0 <= k < |history| && id in history[k].jobs && (id in reservations || id !in db.jobs)) ==>
        id in manager.reservations
      invariant forall id :: id in reservations || id !in db.jobs ==> NoReturn(history, id)
    {
      ghost var known := manager.reservations;
      var id := Perform(manager, operations[i]);
      if id.Some? {
        created := created + [id.value];
      }
      forall id | id in reservations || id !in db.jobs ensures NoReturn(history + [manager.db], id) {
        NextState(history, manager.db, id, known);
      }
      history := history + [manager.db];
      i := i + 1;
    }
    forall k | 0 <= k < |history| ensures Sound(history[k]) {
      ConsistentIsSound(history[k]);
    }
  }

  lemma OneState(db: Tables)
    ensures forall id :: NoReturn([db], id)
  {
  }

  lemma NextState(history: seq<Tables>, next: Tables, id: nat, known: set<nat>)
    requires history != [] && NoReturn(history, id)
    requires id in next.jobs ==> id in history[|history| - 1].jobs || id !in known
    requires forall k :: 0 <= k < |history| && id in history[k].jobs ==> id in known
    ensures NoReturn(history + [next], id)
  {
    var more := history + [next];
    forall i, m, j | 0 <= i < m < j < |more| && id in more[i].jobs && id !in more[m].jobs ensures id !in more[j].jobs {
      assert more[i] == history[i] && more[m] == history[m];
      if j == |history| {
        assert id in known;
        assert m < |history| - 1 ==> id !in history[|history| - 1].jobs;
      } else {
        assert more[j] == history[j];
      }
    }
  }
}
