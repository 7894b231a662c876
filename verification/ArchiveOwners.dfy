/** Which job owns an archive: the job with the longest archive prefix the name starts with. */
module ArchiveOwners {
  import opened Options

  /** `prefix` is empty for a row that has none; `history` are the prefixes it had before. */
  datatype Job = Job(id: nat, prefix: string, history: seq<string>)

  // ---- prefixes ----

  function Digit(n: nat): char
    requires n < 10
  {
    "0123456789"[n]
  }

  function Decimal(n: nat): (r: string)
    ensures r != [] && '-' !in r
  {
    if n < 10 then [Digit(n)] else Decimal(n / 10) + [Digit(n % 10)]
  }

  /** `bbm-<id>-`. */
  function Compact(id: nat): string {
    "bbm-" + Decimal(id) + "-"
  }

  function ActivePrefix(job: Job): string {
    if job.prefix != "" then job.prefix else Compact(job.id)
  }

  function AddHistory(prefixes: seq<string>, history: seq<string>): seq<string>
    decreases |history|
  {
    if history == [] then prefixes
    else if history[0] == "" || history[0] in prefixes then AddHistory(prefixes, history[1..])
    else AddHistory(prefixes + [history[0]], history[1..])
  }

  /** `job_archive_prefixes`. */
  function Prefixes(job: Job): seq<string> {
    AddHistory([ActivePrefix(job)], job.history)
  }

  predicate StartsWith(name: string, prefix: string) {
    prefix <= name
  }

  datatype Candidate = Candidate(prefix: string, owner: nat)

  function JobCandidates(prefixes: seq<string>, owner: nat): seq<Candidate> {
    seq(|prefixes|, i requires 0 <= i < |prefixes| => Candidate(prefixes[i], owner))
  }

  /** Every job's prefixes, in the order of the jobs. */
  function Candidates(jobs: seq<Job>): seq<Candidate> {
    if jobs == [] then [] else JobCandidates(Prefixes(jobs[0]), jobs[0].id) + Candidates(jobs[1..])
  }

  // ---- the two ways to find the owner ----

  /** The first of the longest matching candidates, as `max` picks it. */
  function Longest(candidates: seq<Candidate>, name: string): Option<Candidate> {
    if candidates == [] then None
    else
      var c, rest := candidates[0], Longest(candidates[1..], name);
      if StartsWith(name, c.prefix) && (rest.None? || |c.prefix| >= |rest.value.prefix|) then Some(c) else rest
  }

  predicate Picked(candidates: seq<Candidate>, name: string, c: Candidate, i: nat) {
    && i < |candidates| && candidates[i] == c && StartsWith(name, c.prefix)
    && forall j :: 0 <= j < |candidates| && StartsWith(name, candidates[j].prefix) ==>
      |candidates[j].prefix| <= |c.prefix| && (j < i ==> |candidates[j].prefix| < |c.prefix|)
  }

  /** The pick matches, nothing that matches is longer, and what is as long comes later. */
  lemma {:induction false} LongestMatch(candidates: seq<Candidate>, name: string)
    ensures var m := Longest(candidates, name);
      match m
      case None => forall j :: 0 <= j < |candidates| ==> !StartsWith(name, candidates[j].prefix)
      case Some(c) => exists i: nat :: Picked(candidates, name, c, i)
  {
    if candidates != [] {
      var rest := candidates[1..];
      LongestMatch(rest, name);
      var c, m := candidates[0], Longest(rest, name);
      if m.Some? {
        var i: nat :| Picked(rest, name, m.value, i);
        assert Picked(candidates, name, m.value, i + 1) || Picked(candidates, name, c, 0);
      } else {
        assert StartsWith(name, c.prefix) ==> Picked(candidates, name, c, 0);
      }
    }
  }

  /** `archive_owner_job`. */
  function ArchiveOwnerJob(name: string, jobs: seq<Job>): Option<nat> {
    match Longest(Candidates(jobs), name)
    case Some(c) => Some(c.owner)
    case None => None
  }

  /** The stable sort by descending length. */
  function Insert(c: Candidate, sorted: seq<Candidate>): seq<Candidate> {
    if sorted == [] || |c.prefix| >= |sorted[0].prefix| then [c] + sorted else [sorted[0]] + Insert(c, sorted[1..])
  }

  function SortedByLength(candidates: seq<Candidate>): seq<Candidate> {
    if candidates == [] then [] else Insert(candidates[0], SortedByLength(candidates[1..]))
  }

  predicate Descending(candidates: seq<Candidate>) {
    candidates != [] ==>
      && (forall k :: 0 < k < |candidates| ==> |candidates[k].prefix| <= |candidates[0].prefix|)
      && Descending(candidates[1..])
  }

  function FirstMatch(candidates: seq<Candidate>, name: string): Option<Candidate> {
    if candidates == [] then None
    else if StartsWith(name, candidates[0].prefix) then Some(candidates[0])
    else FirstMatch(candidates[1..], name)
  }

  lemma {:induction false} InsertDescending(c: Candidate, sorted: seq<Candidate>)
    requires Descending(sorted)
    ensures Descending(Insert(c, sorted))
    ensures forall x :: x in Insert(c, sorted) <==> x == c || x in sorted
  {
    if sorted != [] && |c.prefix| < |sorted[0].prefix| {
      InsertDescending(c, sorted[1..]);
      assert forall x :: x in sorted <==> x == sorted[0] || x in sorted[1..];
      var tail := Insert(c, sorted[1..]);
      assert ([sorted[0]] + tail)[1..] == tail;
      forall k | 0 <= k < |tail| ensures |tail[k].prefix| <= |sorted[0].prefix| {
        assert tail[k] in tail;
      }
    } else {
      assert ([c] + sorted)[1..] == sorted;
    }
  }

  lemma {:induction false} FirstMatchIsBounded(sorted: seq<Candidate>, name: string, bound: nat)
    requires Descending(sorted) && (sorted != [] ==> |sorted[0].prefix| <= bound)
    ensures var m := FirstMatch(sorted, name); m.Some? ==> |m.value.prefix| <= bound
  {
    if sorted != [] {
      FirstMatchIsBounded(sorted[1..], name, bound);
    }
  }

  lemma {:induction false} FirstMatchInsert(c: Candidate, sorted: seq<Candidate>, name: string)
    requires Descending(sorted)
    ensures var m := FirstMatch(sorted, name);
      FirstMatch(Insert(c, sorted), name)
      == if StartsWith(name, c.prefix) && (m.None? || |c.prefix| >= |m.value.prefix|) then Some(c) else m
  {
    if sorted == [] || |c.prefix| >= |sorted[0].prefix| {
      assert ([c] + sorted)[1..] == sorted;
      FirstMatchIsBounded(sorted, name, |c.prefix|);
    } else {
      FirstMatchInsert(c, sorted[1..], name);
      assert ([sorted[0]] + Insert(c, sorted[1..]))[1..] == Insert(c, sorted[1..]);
      FirstMatchIsBounded(sorted, name, |sorted[0].prefix|);
    }
  }

  /** Searching the sorted list finds the owner `max` finds, for any jobs and histories. */
  lemma {:induction false} BothWaysAgree(candidates: seq<Candidate>, name: string)
    ensures Descending(SortedByLength(candidates))
    ensures FirstMatch(SortedByLength(candidates), name) == Longest(candidates, name)
  {
    if candidates != [] {
      BothWaysAgree(candidates[1..], name);
      InsertDescending(candidates[0], SortedByLength(candidates[1..]));
      FirstMatchInsert(candidates[0], SortedByLength(candidates[1..]), name);
    }
  }

  /** `assign_archive_owners`: one owner, or none, for every archive name. */
  method AssignArchiveOwners(names: seq<string>, jobs: seq<Job>) returns (owners: seq<Option<nat>>)
    ensures |owners| == |names|
    ensures forall i :: 0 <= i < |names| ==> owners[i] == ArchiveOwnerJob(names[i], jobs)
  {
    var prefixes := SortedByLength(Candidates(jobs));
    owners := [];
    for i := 0 to |names|
      invariant |owners| == i
      invariant forall k :: 0 <= k < i ==> owners[k] == ArchiveOwnerJob(names[k], jobs)
    {
      BothWaysAgree(Candidates(jobs), names[i]);
      var owner := FirstMatch(prefixes, names[i]);
      owners := owners + [if owner.Some? then Some(owner.value.owner) else None];
    }
  }

  // ---- compact prefixes ----

  lemma {:induction false} DecimalInjective(a: nat, b: nat)
    requires Decimal(a) == Decimal(b)
    ensures a == b
    decreases a
  {
    var x, y := Decimal(a), Decimal(b);
    assert x[|x| - 1] == Digit(a % 10) && y[|y| - 1] == Digit(b % 10);
    if a >= 10 && b >= 10 {
      assert Decimal(a / 10) == x[..|x| - 1] && Decimal(b / 10) == y[..|y| - 1];
      DecimalInjective(a / 10, b / 10);
    }
  }

  lemma CompactParts(name: string, id: nat)
    requires StartsWith(name, Compact(id))
    ensures var x := Decimal(id);
      && |name| > 4 + |x| && name[4 + |x|] == '-'
      && name[4..4 + |x|] == x
      && forall k :: 4 <= k < 4 + |x| ==> name[k] != '-'
  {
    hide Decimal;
    var x, prefix := Decimal(id), Compact(id);
    assert prefix[4 + |x|] == '-' && forall k :: 0 <= k < |x| ==> prefix[4 + k] == x[k];
    assert forall k :: 0 <= k < |prefix| ==> name[k] == prefix[k];
  }

  /** No archive name starts with the compact prefixes of two jobs. */
  lemma CompactExclusive(name: string, a: nat, b: nat)
    requires StartsWith(name, Compact(a)) && StartsWith(name, Compact(b))
    ensures a == b
  {
    hide Decimal, Compact, StartsWith;
    CompactParts(name, a);
    CompactParts(name, b);
    var x, y := Decimal(a), Decimal(b);
    assert |x| == |y|;
    DecimalInjective(a, b);
  }

  predicate OnlyCompact(job: Job) {
    (job.prefix == "" || job.prefix == Compact(job.id)) && job.history == []
  }

  lemma CompactFirst(jobs: seq<Job>)
    requires jobs != [] && OnlyCompact(jobs[0])
    ensures Candidates(jobs) == [Candidate(Compact(jobs[0].id), jobs[0].id)] + Candidates(jobs[1..])
  {
    var job := jobs[0];
    assert Prefixes(job) == [Compact(job.id)];
    assert JobCandidates(Prefixes(job), job.id) == [Candidate(Compact(job.id), job.id)];
  }

  lemma LongestOf(c: Candidate, candidates: seq<Candidate>, name: string)
    ensures var rest := Longest(candidates, name);
      Longest([c] + candidates, name)
      == if StartsWith(name, c.prefix) && (rest.None? || |c.prefix| >= |rest.value.prefix|) then Some(c) else rest
  {
    assert ([c] + candidates)[1..] == candidates;
  }

  lemma {:induction false} LongestIsCompact(jobs: seq<Job>, name: string)
    requires forall job :: job in jobs ==> OnlyCompact(job)
    ensures var m := Longest(Candidates(jobs), name);
      m.Some? ==> m.value.prefix == Compact(m.value.owner) && StartsWith(name, m.value.prefix)
  {
    hide Compact, Prefixes, StartsWith, Longest;
    if jobs == [] {
      NoCandidates(name);
    } else {
      LongestIsCompact(jobs[1..], name);
      CompactFirst(jobs);
      LongestOf(Candidate(Compact(jobs[0].id), jobs[0].id), Candidates(jobs[1..]), name);
    }
  }

  lemma NoCandidates(name: string)
    ensures Longest([], name) == None
  {
  }

  /** Among jobs that carry only the prefix they were created with, a job owns exactly the
      archives that start with it: the order of the jobs does not matter, and the archives of
      a deleted job stay without an owner, as no later job gets its id. */
  lemma {:induction false} OwnerIsCreator(name: string, jobs: seq<Job>, id: nat)
    requires forall job :: job in jobs ==> OnlyCompact(job)
    ensures ArchiveOwnerJob(name, jobs) == Some(id)
      <==> StartsWith(name, Compact(id)) && exists job :: job in jobs && job.id == id
  {
    hide Compact, Prefixes, StartsWith, Longest;
    if jobs == [] {
      NoCandidates(name);
    } else {
      var job := jobs[0];
      OwnerIsCreator(name, jobs[1..], id);
      CompactFirst(jobs);
      LongestOf(Candidate(Compact(job.id), job.id), Candidates(jobs[1..]), name);
      LongestIsCompact(jobs[1..], name);
      if StartsWith(name, Compact(job.id)) {
        var rest := Longest(Candidates(jobs[1..]), name);
        if rest.Some? {
          CompactExclusive(name, job.id, rest.value.owner);
        }
        if StartsWith(name, Compact(id)) {
          CompactExclusive(name, job.id, id);
        }
      }
    }
  }

  // ---- the owner, job by job ----

  /** One of the job's prefixes: its own, the compact one if it has none, or an earlier one. */
  predicate Uses(job: Job, p: string) {
    || (job.prefix != "" && p == job.prefix)
    || (job.prefix == "" && p == Compact(job.id))
    || (p != "" && p in job.history)
  }

  lemma {:induction false} AddHistoryHolds(prefixes: seq<string>, history: seq<string>, p: string)
    ensures p in AddHistory(prefixes, history) <==> p in prefixes || (p != "" && p in history)
    decreases |history|
  {
    if history != [] {
      assert p in history <==> p == history[0] || p in history[1..];
      if history[0] == "" || history[0] in prefixes {
        AddHistoryHolds(prefixes, history[1..], p);
      } else {
        AddHistoryHolds(prefixes + [history[0]], history[1..], p);
      }
    }
  }

  /** Of job k a prefix matches; no matching prefix of any job is longer, and of earlier jobs
      none is as long. */
  ghost predicate Claims(name: string, jobs: seq<Job>, k: nat, p: string) {
    && k < |jobs| && Uses(jobs[k], p) && p <= name
    && forall j :: 0 <= j < |jobs| ==> NoLonger(name, jobs[j], |p|, j < k)
  }

  ghost predicate NoLonger(name: string, job: Job, n: nat, earlier: bool) {
    forall q :: Uses(job, q) && q <= name ==> |q| <= n && (earlier ==> |q| < n)
  }

  lemma {:induction false} LongestAppend(a: seq<Candidate>, b: seq<Candidate>, name: string)
    ensures var x, y := Longest(a, name), Longest(b, name);
      Longest(a + b, name) == if x.Some? && (y.None? || |x.value.prefix| >= |y.value.prefix|) then x else y
  {
    if a == [] {
      assert a + b == b;
    } else {
      assert (a + b)[1..] == a[1..] + b;
      LongestAppend(a[1..], b, name);
    }
  }

  /** The candidates of one job. */
  lemma LongestOfJob(job: Job, name: string)
    ensures match Longest(JobCandidates(Prefixes(job), job.id), name)
      case None => forall p :: Uses(job, p) ==> !(p <= name)
      case Some(c) =>
        c.owner == job.id && Uses(job, c.prefix) && c.prefix <= name && NoLonger(name, job, |c.prefix|, false)
  {
    var candidates, prefixes := JobCandidates(Prefixes(job), job.id), Prefixes(job);
    LongestMatch(candidates, name);
    forall p ensures p in prefixes <==> Uses(job, p) {
      AddHistoryHolds([ActivePrefix(job)], job.history, p);
      CompactNotEmpty(job.id);
    }
    hide Uses, Prefixes, Longest, Compact;
    forall p | p in prefixes ensures exists j :: 0 <= j < |candidates| && candidates[j].prefix == p {
      var j :| 0 <= j < |prefixes| && prefixes[j] == p;
      assert candidates[j].prefix == p;
    }
  }

  lemma CompactNotEmpty(id: nat)
    ensures Compact(id) != ""
  {
  }

  /** The owner is the first job with the longest matching prefix; earlier prefixes count. */
  lemma {:induction false} OwnerExactly(name: string, jobs: seq<Job>)
    ensures match ArchiveOwnerJob(name, jobs)
      case None => forall k, p :: 0 <= k < |jobs| && Uses(jobs[k], p) ==> !(p <= name)
      case Some(id) => exists k: nat, p :: Claims(name, jobs, k, p) && jobs[k].id == id
  {
    LongestClaims(name, jobs);
  }

  lemma {:induction false} LongestClaims(name: string, jobs: seq<Job>)
    ensures match Longest(Candidates(jobs), name)
      case None => forall k, p :: 0 <= k < |jobs| && Uses(jobs[k], p) ==> !(p <= name)
      case Some(c) => exists k: nat :: Claims(name, jobs, k, c.prefix) && jobs[k].id == c.owner
  {
    hide Uses, Prefixes, Longest;
    if jobs == [] {
      LongestMatch([], name);
    } else {
      var job, rest := jobs[0], jobs[1..];
      LongestClaims(name, rest);
      LongestOfJob(job, name);
      LongestAppend(JobCandidates(Prefixes(job), job.id), Candidates(rest), name);
      hide Claims, NoLonger;
      FirstClaims(name, jobs, Longest(JobCandidates(Prefixes(job), job.id), name), Longest(Candidates(rest), name));
    }
  }

  lemma FirstClaims(name: string, jobs: seq<Job>, x: Option<Candidate>, y: Option<Candidate>)
    requires jobs != []
    requires match x
      case None => forall p :: Uses(jobs[0], p) ==> !(p <= name)
      case Some(c) =>
        && c.owner == jobs[0].id && Uses(jobs[0], c.prefix) && c.prefix <= name
        && NoLonger(name, jobs[0], |c.prefix|, false)
    requires match y
      case None => forall k, p :: 0 <= k < |jobs[1..]| && Uses(jobs[1..][k], p) ==> !(p <= name)
      case Some(c) => exists k: nat :: Claims(name, jobs[1..], k, c.prefix) && jobs[1..][k].id == c.owner
    ensures match if x.Some? && (y.None? || |x.value.prefix| >= |y.value.prefix|) then x else y
      case None => forall k, p :: 0 <= k < |jobs| && Uses(jobs[k], p) ==> !(p <= name)
      case Some(c) => exists k: nat :: Claims(name, jobs, k, c.prefix) && jobs[k].id == c.owner
  {
    hide Uses;
    assert forall k :: 0 < k < |jobs| ==> jobs[k] == jobs[1..][k - 1];
    if y.Some? {
      var k: nat :| Claims(name, jobs[1..], k, y.value.prefix) && jobs[1..][k].id == y.value.owner;
      if x.Some? && |x.value.prefix| >= |y.value.prefix| {
        assert Claims(name, jobs, 0, x.value.prefix);
      } else {
        assert Claims(name, jobs, k + 1, y.value.prefix);
      }
    } else if x.Some? {
      assert Claims(name, jobs, 0, x.value.prefix);
    }
  }

  /** What decimal digits read as. */
  function Value(s: string): int {
    if s == "" then 0 else 10 * Value(s[..|s| - 1]) + (s[|s| - 1] as int - '0' as int)
  }

  /** An id is written in decimal digits, without leading zeros. */
  lemma {:induction false} DecimalReads(n: nat)
    ensures Value(Decimal(n)) == n && (n > 0 ==> Decimal(n)[0] != '0')
    ensures forall k :: 0 <= k < |Decimal(n)| ==> '0' <= Decimal(n)[k] <= '9'
  {
    if n >= 10 {
      DecimalReads(n / 10);
      assert Decimal(n)[..|Decimal(n)| - 1] == Decimal(n / 10);
    } else {
      assert Decimal(n)[..0] == "";
    }
    DigitReads(n % 10);
  }

  lemma DigitReads(n: nat)
    requires n < 10
    ensures Digit(n) as int == '0' as int + n
  {
  }

  /** The prefix of job 12. */
  lemma CompactOfTwelve()
    ensures Compact(12) == "bbm-12-"
  {
    assert Decimal(12) == Decimal(1) + [Digit(2)] && Decimal(1) == [Digit(1)];
  }
}
