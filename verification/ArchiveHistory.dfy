/** Archive ownership over the life of the job table: the archives of a deleted job are
    never attributed to a later one. */
module ArchiveHistory {
  import opened ArchiveOwners
  import opened Options
  import Schedules

  /** The rows of jobs that carry the prefix they were created with, in some order. */
  method CompactRows(ids: set<nat>) returns (rows: seq<Job>)
    ensures forall row :: row in rows ==> OnlyCompact(row) && row.id in ids
    ensures forall id :: id in ids ==> exists row :: row in rows && row.id == id
  {
    rows := [];
    var rest := ids;
    while rest != {}
      invariant rest <= ids
      invariant forall row :: row in rows ==> OnlyCompact(row) && row.id in ids
      invariant forall id :: id in ids && id !in rest ==> exists row :: row in rows && row.id == id
    {
      var id :| id in rest;
      rest := rest - {id};
      ghost var before := rows;
      rows := rows + [Job(id, Compact(id), [])];
      assert rows[|rows| - 1] in rows;
      assert forall row :: row in before ==> row in rows;
    }
  }

  /** Once the archive is not this job's any more, it is nobody's. */
  ghost predicate GoneForGood(owners: seq<Option<nat>>, id: nat) {
    forall i, m, j :: 0 <= i < m < j < |owners| && owners[i] == Some(id) && owners[m] != Some(id) ==> owners[j] == None
  }

  /** The owner of one archive after every operation of a history. It is a job whose prefix
      the name has, as long as that job exists, and nobody for ever after it was deleted. */
  method OwnersOver(db: Schedules.Tables, reservations: set<nat>, operations: seq<Schedules.Operation>, name: string)
      returns (history: seq<Schedules.Tables>, owners: seq<Option<nat>>)
    requires Schedules.Consistent(db)
    ensures |owners| == |history| == |operations| + 1 && history[0] == db
    ensures forall k, id: nat :: 0 <= k < |owners| ==>
      (owners[k] == Some(id) <==> StartsWith(name, Compact(id)) && id in history[k].jobs)
    ensures forall id: nat :: id in reservations || id !in db.jobs ==> GoneForGood(owners, id)
  {
    hide Compact, StartsWith, Schedules.Consistent;
    var created;
    history, created := Schedules.Operate(db, reservations, operations);
    owners := [];
    for k := 0 to |history|
      invariant |owners| == k
      invariant forall l, id: nat :: 0 <= l < k ==>
        (owners[l] == Some(id) <==> StartsWith(name, Compact(id)) && id in history[l].jobs)
    {
      var rows := CompactRows(history[k].jobs.Keys);
      forall id: nat
        ensures ArchiveOwnerJob(name, rows) == Some(id) <==> StartsWith(name, Compact(id)) && id in history[k].jobs
      {
        OwnerIsCreator(name, rows, id);
      }
      owners := owners + [ArchiveOwnerJob(name, rows)];
    }
    forall id: nat | id in reservations || id !in db.jobs ensures GoneForGood(owners, id) {
      forall i, m, j | 0 <= i < m < j < |owners| && owners[i] == Some(id) && owners[m] != Some(id)
        ensures owners[j] == None
      {
        assert Schedules.NoReturn(history, id);
        assert id !in history[j].jobs;
        if owners[j].Some? {
          CompactExclusive(name, id, owners[j].value);
        }
      }
    }
  }
}
