/** Applying a prepared restore: every component is exchanged by two renames,
    the originals are kept until the whole exchange is done, and a failed
    exchange is rolled back. Any rename may fail, in the rollback too. */
module PreparedRestore {
  import opened Attempts
  import opened Options

  /** The names directly under the data directory. */
  datatype Name =
    | ManagerDb | ManagerDbWal | ManagerDbShm | Settings | Notifications | Ssh | RepositorySsh | RepositoryKeys
    | Tls | Security | BorgCache | BorgSecurity
    | Other(name: string)

  datatype Tree = File(bytes: seq<bv8>) | Directory(entries: seq<(string, Tree)>) | Link(target: string)

  /** The data directory itself, and `new` and `old` of the transaction directory. */
  datatype Root = Live | New | Old

  datatype Path = Path(root: Root, name: Name)

  type FileSystem = map<Path, Tree>

  const RESTORE_COMPONENTS: seq<Name> :=
    [ManagerDb, Settings, Notifications, Ssh, RepositorySsh, RepositoryKeys, Tls, Security, BorgCache, BorgSecurity]

  const SIDECARS: seq<Name> := [ManagerDbWal, ManagerDbShm]

  datatype Outcome = NoData | CopyFailed | Installed | RolledBack | DoubleFailure

  // ---- what is exchanged ----

  /** A backup without notifications removes the existing ones. */
  predicate Selected(source: map<Name, Tree>, c: Name) {
    c in source || c == Notifications
  }

  function Select(source: map<Name, Tree>, names: seq<Name>): (r: seq<Name>)
    ensures forall c :: c in r <==> c in names && Selected(source, c)
  {
    if names == [] then []
    else
      var r := Select(source, names[..|names| - 1]);
      var last := names[|names| - 1];
      if Selected(source, last) then r + [last] else r
  }

  function Components(source: map<Name, Tree>): seq<Name> {
    Select(source, RESTORE_COMPONENTS) + if ManagerDb in source then SIDECARS else []
  }

  function Prepared(source: map<Name, Tree>, names: seq<Name>): map<Name, Tree> {
    map c | c in source && c in names :: source[c]
  }

  predicate Distinct(names: seq<Name>) {
    forall i, j :: 0 <= i < j < |names| ==> names[i] != names[j]
  }

  lemma {:induction false} SelectDistinct(source: map<Name, Tree>, names: seq<Name>)
    requires Distinct(names)
    ensures Distinct(Select(source, names))
  {
    if names != [] {
      SelectDistinct(source, names[..|names| - 1]);
    }
  }

  lemma ComponentsDistinct(source: map<Name, Tree>)
    ensures Distinct(Components(source))
    ensures forall c :: c in Prepared(source, RESTORE_COMPONENTS) ==> c in Components(source)
  {
    assert Distinct(RESTORE_COMPONENTS);
    SelectDistinct(source, RESTORE_COMPONENTS);
    assert ManagerDbWal !in RESTORE_COMPONENTS && ManagerDbShm !in RESTORE_COMPONENTS;
    var selected := Select(source, RESTORE_COMPONENTS);
    assert forall i :: 0 <= i < |selected| ==> selected[i] in RESTORE_COMPONENTS;
  }

  // ---- where a component stands during the exchange ----

  datatype Stage = Untouched | SetAside | Exchanged

  predicate Same(fs: FileSystem, p: Path, before: FileSystem, q: Path) {
    (p in fs <==> q in before) && (p in fs ==> fs[p] == before[q])
  }

  predicate Holds(fs: FileSystem, p: Path, prepared: map<Name, Tree>, c: Name) {
    (p in fs <==> c in prepared) && (p in fs ==> fs[p] == prepared[c])
  }

  predicate At(fs: FileSystem, before: FileSystem, prepared: map<Name, Tree>, c: Name, stage: Stage) {
    match stage
    case Untouched =>
      && Same(fs, Path(Live, c), before, Path(Live, c)) && Path(Old, c) !in fs
      && Holds(fs, Path(New, c), prepared, c)
    case SetAside =>
      && Path(Live, c) !in fs && Same(fs, Path(Old, c), before, Path(Live, c))
      && Holds(fs, Path(New, c), prepared, c)
    case Exchanged =>
      && c in prepared && Holds(fs, Path(Live, c), prepared, c) && Same(fs, Path(Old, c), before, Path(Live, c))
      && Path(New, c) !in fs
  }

  type Stages = map<Name, Stage>

  predicate StandsAt(fs: FileSystem, before: FileSystem, prepared: map<Name, Tree>, stages: Stages, c: Name) {
    At(fs, before, prepared, c, if c in stages then stages[c] else Untouched)
  }

  ghost predicate Standing(fs: FileSystem, before: FileSystem, prepared: map<Name, Tree>, stages: Stages) {
    forall c :: StandsAt(fs, before, prepared, stages, c)
  }

  /** Every component stands somewhere in its exchange and no other name is touched. */
  ghost predicate Safe(fs: FileSystem, before: FileSystem, prepared: map<Name, Tree>, components: seq<Name>) {
    exists stages: Stages :: Standing(fs, before, prepared, stages) && forall c :: c in stages ==> c in components
  }

  ghost predicate AllSafe(history: seq<FileSystem>, before: FileSystem, prepared: map<Name, Tree>,
                          components: seq<Name>) {
    forall k :: 0 <= k < |history| ==> Safe(history[k], before, prepared, components)
  }

  /** Every live name outside the displaced ones is as it was. */
  ghost predicate RestoredExcept(fs: FileSystem, before: FileSystem, displaced: set<Name>) {
    forall c: Name :: c !in displaced ==> Same(fs, Path(Live, c), before, Path(Live, c))
  }

  /** In such a state no original and no prepared content is lost: each is in its live slot or in its own. */
  lemma NothingIsLost(fs: FileSystem, before: FileSystem, prepared: map<Name, Tree>, components: seq<Name>, c: Name)
    requires Safe(fs, before, prepared, components)
    ensures Path(Live, c) in before ==>
      exists root :: root in [Live, Old] && Path(root, c) in fs && fs[Path(root, c)] == before[Path(Live, c)]
    ensures c in prepared ==>
      exists root :: root in [Live, New] && Path(root, c) in fs && fs[Path(root, c)] == prepared[c]
    ensures Path(Live, c) in fs && Path(Live, c) !in before ==> c in prepared && fs[Path(Live, c)] == prepared[c]
  {
    var stages: Stages :| Standing(fs, before, prepared, stages);
    assert StandsAt(fs, before, prepared, stages, c);
    assert Live in [Live, Old] && Old in [Live, Old] && Live in [Live, New] && New in [Live, New];
  }

  function Renamed(fs: FileSystem, src: Path, dst: Path): FileSystem
    requires src in fs
  {
    fs[dst := fs[src]] - {src}
  }

  predicate Legal(fs: FileSystem, c: Name, origin: Root, dest: Root) {
    origin != dest && Path(origin, c) in fs && Path(dest, c) !in fs
  }

  /** The four renames and the stage each one leads to. */
  lemma RenameMoves(fs: FileSystem, before: FileSystem, prepared: map<Name, Tree>, stages: Stages,
                    c: Name, origin: Root, dest: Root)
    requires Standing(fs, before, prepared, stages) && Path(origin, c) in fs
    requires var stage := if c in stages then stages[c] else Untouched;
      || (stage == Untouched && (origin, dest) == (Live, Old))
      || (stage == SetAside && (origin == New || origin == Old) && dest == Live)
      || (stage == Exchanged && (origin, dest) == (Live, New))
    ensures Legal(fs, c, origin, dest)
    ensures Standing(Renamed(fs, Path(origin, c), Path(dest, c)), before, prepared,
      stages[c := if origin == New then Exchanged else if origin == Old then Untouched else SetAside])
  {
    assert StandsAt(fs, before, prepared, stages, c);
    var next := stages[c := if origin == New then Exchanged else if origin == Old then Untouched else SetAside];
    var moved := Renamed(fs, Path(origin, c), Path(dest, c));
    forall d ensures StandsAt(moved, before, prepared, next, d) {
      assert StandsAt(fs, before, prepared, stages, d);
    }
  }

  /** With nothing to rename the stage changes on its own. */
  lemma NothingToMove(fs: FileSystem, before: FileSystem, prepared: map<Name, Tree>, stages: Stages, c: Name)
    requires Standing(fs, before, prepared, stages)
    ensures c !in stages && Path(Live, c) !in fs ==> Standing(fs, before, prepared, stages[c := SetAside])
    ensures c in stages && stages[c] == SetAside && Path(Old, c) !in fs
      ==> Standing(fs, before, prepared, stages[c := Untouched])
  {
    assert StandsAt(fs, before, prepared, stages, c);
    StageOfOthers(fs, before, prepared, stages, c, SetAside);
    StageOfOthers(fs, before, prepared, stages, c, Untouched);
  }

  lemma StageOfOthers(fs: FileSystem, before: FileSystem, prepared: map<Name, Tree>, stages: Stages, c: Name,
                      next: Stage)
    requires Standing(fs, before, prepared, stages)
    ensures At(fs, before, prepared, c, next) ==> Standing(fs, before, prepared, stages[c := next])
  {
    hide At;
    var after := stages[c := next];
    forall d: Name | d != c ensures StandsAt(fs, before, prepared, after, d) {
      assert StandsAt(fs, before, prepared, stages, d);
    }
  }

  /** The directory a completed restore leaves. */
  function Replaced(before: FileSystem, source: map<Name, Tree>): FileSystem {
    var selected := Components(source);
    var prepared := Prepared(source, RESTORE_COMPONENTS);
    map p | p in before.Keys + (set c | c in prepared :: Path(Live, c))
            && p.root == Live && (p.name in selected ==> p.name in prepared)
          :: if p.name in prepared then prepared[p.name] else before[p]
  }

  /** Selected names hold the backup's content or nothing, all others what they held. */
  lemma ReplacedAt(before: FileSystem, source: map<Name, Tree>, c: Name)
    ensures var result, p, prepared := Replaced(before, source), Path(Live, c), Prepared(source, RESTORE_COMPONENTS);
      if c in Components(source) then Holds(result, p, prepared, c)
      else if c in prepared then p in result && result[p] == prepared[c]
      else Same(result, p, before, p)
    ensures forall root :: root != Live ==> Path(root, c) !in Replaced(before, source)
  {
    hide Components, Prepared;
    var prepared := Prepared(source, RESTORE_COMPONENTS);
    assert c in prepared ==> Path(Live, c) in (set d | d in prepared :: Path(Live, d));
  }

  function LiveOnly(fs: FileSystem): FileSystem {
    map p | p in fs && p.root == Live :: fs[p]
  }

  // ---- what a restore means for each name ----

  /** The names a backup may hold. */
  predicate Restorable(c: Name) {
    !(c.ManagerDbWal? || c.ManagerDbShm? || c.Other?)
  }

  /** The names a restore clears without putting anything in their place. */
  predicate Cleared(source: map<Name, Tree>, c: Name) {
    || (c.Notifications? && c !in source)
    || ((c.ManagerDbWal? || c.ManagerDbShm?) && ManagerDb in source)
  }

  /** After a completed restore a name holds what the backup has under it; what is cleared is
      absent; and every other name is as it was, whatever else is in the backup. */
  predicate InstalledAt(fs: FileSystem, before: FileSystem, source: map<Name, Tree>, c: Name) {
    var p := Path(Live, c);
    if Restorable(c) && c in source then p in fs && fs[p] == source[c]
    else if Cleared(source, c) then p !in fs
    else Same(fs, p, before, p)
  }

  /** In the middle of a restore an original is in its live slot or set aside, a live slot holds
      the original or what the backup has, and a name that is neither in the backup nor cleared
      is as it was. */
  predicate AccountedAt(fs: FileSystem, before: FileSystem, source: map<Name, Tree>, c: Name) {
    var p, q := Path(Live, c), Path(Old, c);
    && (p in before ==> (p in fs && fs[p] == before[p]) || (q in fs && fs[q] == before[p]))
    && (p in fs ==> (p in before && fs[p] == before[p]) || (Restorable(c) && c in source && fs[p] == source[c]))
    && ((Restorable(c) && c in source) || Cleared(source, c) || Same(fs, p, before, p))
  }

  lemma ComponentsAre(source: map<Name, Tree>, c: Name)
    ensures c in Components(source) <==> (Restorable(c) && c in source) || Cleared(source, c)
    ensures c in Prepared(source, RESTORE_COMPONENTS) <==> Restorable(c) && c in source
  {
    assert Restorable(c) <==> c in RESTORE_COMPONENTS;
    assert c in SIDECARS <==> c.ManagerDbWal? || c.ManagerDbShm?;
  }

  lemma ReplacedIsInstalled(before: FileSystem, source: map<Name, Tree>, c: Name)
    ensures InstalledAt(Replaced(before, source), before, source, c)
  {
    hide Components, Prepared, Replaced;
    ComponentsAre(source, c);
    ReplacedAt(before, source, c);
    PreparedHolds(source, c);
  }

  lemma PreparedHolds(source: map<Name, Tree>, c: Name)
    ensures c in Prepared(source, RESTORE_COMPONENTS) ==> Prepared(source, RESTORE_COMPONENTS)[c] == source[c]
  {
  }

  lemma SafeIsAccounted(fs: FileSystem, before: FileSystem, source: map<Name, Tree>, c: Name)
    requires Safe(fs, before, Prepared(source, RESTORE_COMPONENTS), Components(source))
    ensures AccountedAt(fs, before, source, c)
  {
    hide Components, Prepared;
    var stages: Stages :| Standing(fs, before, Prepared(source, RESTORE_COMPONENTS), stages)
      && forall d :: d in stages ==> d in Components(source);
    assert StandsAt(fs, before, Prepared(source, RESTORE_COMPONENTS), stages, c);
    ComponentsAre(source, c);
    PreparedHolds(source, c);
  }

  ghost predicate AllAccounted(history: seq<FileSystem>, before: FileSystem, source: map<Name, Tree>) {
    forall k, c :: 0 <= k < |history| ==> AccountedAt(history[k], before, source, c)
  }

  lemma SafeAreAccounted(history: seq<FileSystem>, before: FileSystem, source: map<Name, Tree>)
    requires AllSafe(history, before, Prepared(source, RESTORE_COMPONENTS), Components(source))
    ensures AllAccounted(history, before, source)
  {
    hide Components, Prepared, Safe, AccountedAt;
    forall k, c | 0 <= k < |history| ensures AccountedAt(history[k], before, source, c) {
      SafeIsAccounted(history[k], before, source, c);
    }
  }

  // ---- counting renames ----

  /** The renames a whole restore takes. */
  function RenamesFor(before: FileSystem, source: map<Name, Tree>): nat {
    var components := Components(source);
    Needed(before, Prepared(source, RESTORE_COMPONENTS), components, |components|)
  }

  /** The renames the first n exchanges take. */
  function Needed(before: FileSystem, prepared: map<Name, Tree>, components: seq<Name>, n: nat): nat
    requires n <= |components|
  {
    if n == 0 then 0
    else
      Needed(before, prepared, components, n - 1) + Cost(before, prepared, components[n - 1])
  }

  function Cost(before: FileSystem, prepared: map<Name, Tree>, c: Name): nat {
    (if Path(Live, c) in before then 1 else 0) + if c in prepared then 1 else 0
  }

  lemma {:induction false} NeededGrows(before: FileSystem, prepared: map<Name, Tree>, components: seq<Name>, m: nat,
                                       n: nat)
    requires m <= n <= |components|
    ensures Needed(before, prepared, components, m) <= Needed(before, prepared, components, n)
  {
    if m < n {
      NeededGrows(before, prepared, components, m, n - 1);
    }
  }

  // ---- the operation ----

  class DataDirectory {
    var files: FileSystem
    /** How many renames were attempted, and which attempts fail. */
    var renames: nat
    const fails: nat -> bool
    /** Every state the directory went through in the current operation. */
    ghost var history: seq<FileSystem>

    constructor (files: FileSystem, fails: nat -> bool)
      ensures this.files == files && this.fails == fails && renames == 0 && history == []
    {
      this.files, this.fails := files, fails;
      renames, history := 0, [];
    }

    /** Nothing is ever renamed over existing content. */
    method Rename(c: Name, origin: Root, dest: Root) returns (ok: bool)
      requires Legal(files, c, origin, dest)
      modifies this
      ensures ok == !fails(old(renames)) && renames == old(renames) + 1
      ensures files == if ok then Renamed(old(files), Path(origin, c), Path(dest, c)) else old(files)
      ensures history == old(history) + [files]
    {
      ok := !fails(renames);
      renames := renames + 1;
      if ok {
        files := files[Path(dest, c) := files[Path(origin, c)]] - {Path(origin, c)};
      }
      history := history + [files];
    }

    /** Copies the selected components into `new` before live data is touched. */
    method CopyComponents(source: map<Name, Tree>, names: seq<Name>, copies: Name -> bool)
        returns (ok: bool, components: seq<Name>)
      requires files == LiveOnly(files)
      modifies this`files
      ensures LiveOnly(files) == old(files)
      ensures ok == forall c :: c in names && c in source ==> copies(c)
      ensures ok ==> components == Select(source, names)
      ensures ok ==> Standing(files, old(files), Prepared(source, names), map[])
    {
      hide LiveOnly, Select, Standing, Prepared;
      components := [];
      NothingCopied(files);
      NothingPrepared(source, names);
      var i := 0;
      while i < |names|
        invariant 0 <= i <= |names|
        invariant components == Select(source, names[..i])
        invariant forall c :: c in names[..i] && c in source ==> copies(c)
        invariant Standing(files, old(files), Prepared(source, names[..i]), map[])
      {
        var c := names[i];
        if c in source && !copies(c) {
          ok := false;
          UntouchedIsBefore(files, old(files), Prepared(source, names[..i]), map[]);
          return;
        }
        SelectNext(source, names, i);
        if c in source {
          CopyStands(files, old(files), Prepared(source, names[..i]), c, source[c]);
          files := files[Path(New, c) := source[c]];
        }
        if Selected(source, c) {
          components := components + [c];
        }
        i := i + 1;
      }
      assert names[..i] == names;
      UntouchedIsBefore(files, old(files), Prepared(source, names), map[]);
      ok := true;
    }

    /** Sets the original of one component aside and moves the new content in. */
    method ExchangeOne(ghost before: FileSystem, ghost prepared: map<Name, Tree>, ghost stages: Stages,
                       ghost components: seq<Name>, c: Name)
        returns (ok: bool, changed: bool, installed: bool)
      requires Standing(files, before, prepared, stages) && c !in stages && c in components
      requires forall d :: d in stages ==> d in components
      modifies this
      ensures Standing(files, before, prepared,
        if installed then stages[c := Exchanged] else if changed then stages[c := SetAside] else stages)
      ensures installed ==> changed && c in prepared
      ensures ok ==> changed && (c in prepared ==> installed)
      ensures old(renames) <= renames <= old(renames) + Cost(before, prepared, c)
      ensures ok ==> renames == old(renames) + Cost(before, prepared, c)
      ensures Failures(fails, old(renames), renames) == if ok then 0 else 1
      ensures old(history) <= history
      ensures AllSafe(old(history), before, prepared, components) ==> AllSafe(history, before, prepared, components)
    {
      hide Standing, Renamed, Safe, Failures;
      NoFailures(fails, renames, renames);
      changed, installed := false, false;
      SlotsAgree(files, before, prepared, stages, c);
      if Path(Live, c) in files {
        RenameMoves(files, before, prepared, stages, c, Live, Old);
        ok := Rename(c, Live, Old);
        OneAttempt(fails, old(renames));
        StandingIsSafe(files, before, prepared, if ok then stages[c := SetAside] else stages, components);
        if !ok {
          return;
        }
      } else {
        NothingToMove(files, before, prepared, stages, c);
      }
      changed := true;
      ghost var r := renames;
      ghost var aside := stages[c := SetAside];
      SlotsAgree(files, before, prepared, aside, c);
      if Path(New, c) in files {
        RenameMoves(files, before, prepared, aside, c, New, Live);
        assert aside[c := Exchanged] == stages[c := Exchanged];
        ok := Rename(c, New, Live);
        OneAttempt(fails, r);
        FailuresAdd(fails, old(renames), r, renames);
        StandingIsSafe(files, before, prepared, if ok then stages[c := Exchanged] else aside, components);
        installed := ok;
        return;
      }
      ok := true;
    }

    /** Exchanges the components one after the other until one fails. */
    method Exchange(ghost before: FileSystem, ghost prepared: map<Name, Tree>, components: seq<Name>)
        returns (ok: bool, changed: seq<Name>, installed: set<Name>)
      requires Distinct(components) && Standing(files, before, prepared, map[])
      modifies this
      ensures changed <= components && (ok ==> changed == components)
      ensures Standing(files, before, prepared, Progress(changed, installed))
      ensures forall c :: c in installed ==> c in changed && c in prepared
      ensures ok ==> forall c :: c in changed && c in prepared ==> c in installed
      ensures old(renames) <= renames <= old(renames) + Needed(before, prepared, components, |components|)
      ensures ok ==> renames == old(renames) + Needed(before, prepared, components, |components|)
      ensures Failures(fails, old(renames), renames) == if ok then 0 else 1
      ensures old(history) <= history
      ensures AllSafe(old(history), before, prepared, components) ==> AllSafe(history, before, prepared, components)
    {
      hide Standing, Safe, AllSafe, Cost, Distinct, Progress, Needed, Failures;
      changed, installed := [], {};
      Begin(before, prepared, components, fails, renames);
      var i := 0;
      while i < |components|
        invariant 0 <= i <= |components| && changed == components[..i]
        invariant forall c :: c in installed <==> c in changed && c in prepared
        invariant Standing(files, before, prepared, Progress(changed, installed))
        invariant renames == old(renames) + Needed(before, prepared, components, i)
        invariant Failures(fails, old(renames), renames) == 0
        invariant old(history) <= history
        invariant AllSafe(old(history), before, prepared, components) ==> AllSafe(history, before, prepared, components)
      {
        var c := components[i];
        ghost var r := renames;
        NeededGrows(before, prepared, components, i + 1, |components|);
        NeededNext(before, prepared, components, i);
        NextProgress(components, i, installed);
        var moved, setAside, movedIn := ExchangeOne(before, prepared, Progress(changed, installed), components, c);
        FailuresAdd(fails, old(renames), r, renames);
        if setAside {
          changed := changed + [c];
        }
        if movedIn {
          installed := installed + {c};
        }
        if !moved {
          ok := false;
          return;
        }
        i := i + 1;
      }
      ok := true;
    }

    /** Puts one component back: the new content first, then the original. */
    method UndoOne(ghost before: FileSystem, ghost prepared: map<Name, Tree>, ghost stages: Stages,
                   ghost components: seq<Name>, c: Name, installed: bool)
        returns (ok: bool, ghost after: Stages)
      requires Standing(files, before, prepared, stages)
      requires c in stages && stages[c] == if installed then Exchanged else SetAside
      requires forall d :: d in stages ==> d in components
      modifies this
      ensures Standing(files, before, prepared, after)
      ensures after.Keys == stages.Keys && forall d :: d in stages && d != c ==> after[d] == stages[d]
      ensures ok ==> after[c] == Untouched
      ensures old(renames) <= renames && Failures(fails, old(renames), renames) == if ok then 0 else 1
      ensures old(history) <= history
      ensures forall k :: |old(history)| <= k < |history| ==> Safe(history[k], before, prepared, components)
    {
      hide Standing, Renamed, Safe, Failures;
      NoFailures(fails, renames, renames);
      after := stages;
      SlotsAgree(files, before, prepared, after, c);
      if installed {
        RenameMoves(files, before, prepared, after, c, Live, New);
        ok := Rename(c, Live, New);
        after := if ok then after[c := SetAside] else after;
        StandingIsSafe(files, before, prepared, after, components);
        OneAttempt(fails, old(renames));
        if !ok {
          return;
        }
      }
      ghost var r := renames;
      if Path(Old, c) in files {
        RenameMoves(files, before, prepared, after, c, Old, Live);
        ok := Rename(c, Old, Live);
        OneAttempt(fails, r);
        FailuresAdd(fails, old(renames), r, renames);
        after := if ok then after[c := Untouched] else after;
        StandingIsSafe(files, before, prepared, after, components);
      } else {
        NothingToMove(files, before, prepared, after, c);
        after := after[c := Untouched];
        ok := true;
      }
    }

    /** Undoes the changed components, last first, going on after an error. */
    method Rollback(ghost before: FileSystem, ghost prepared: map<Name, Tree>, ghost components: seq<Name>,
                    changed: seq<Name>, installed: set<Name>)
        returns (errors: nat, ghost stages: Stages, ghost displaced: set<Name>)
      requires Distinct(components) && changed <= components
      requires Standing(files, before, prepared, Progress(changed, installed))
      modifies this
      ensures Standing(files, before, prepared, stages) && stages.Keys == Pending(changed, |changed|)
      ensures |displaced| == errors && forall c :: c in stages && c !in displaced ==> stages[c] == Untouched
      ensures old(renames) <= renames && Failures(fails, old(renames), renames) == errors
      ensures old(history) <= history
      ensures AllSafe(old(history), before, prepared, components) ==> AllSafe(history, before, prepared, components)
    {
      hide Standing, Safe, AllSafe, Failures, Distinct, Progress, Pending, Undone;
      ProgressStages(changed, installed);
      stages := Progress(changed, installed);
      errors, displaced := 0, {};
      var j := |changed|;
      NoFailures(fails, renames, renames);
      while j > 0
        invariant 0 <= j <= |changed|
        invariant stages.Keys == Pending(changed, |changed|) && Standing(files, before, prepared, stages)
        invariant Undone(stages, Pending(changed, j), installed, displaced) && |displaced| == errors
        invariant old(renames) <= renames && Failures(fails, old(renames), renames) == errors
        invariant old(history) <= history
        invariant AllSafe(old(history), before, prepared, components) ==> AllSafe(history, before, prepared, components)
      {
        j := j - 1;
        PendingNext(components, changed, j);
        UndoneAt(stages, Pending(changed, j + 1), installed, displaced, changed[j]);
        ghost var r, h, was := renames, history, stages;
        var ok;
        ok, stages := UndoOne(before, prepared, was, components, changed[j], changed[j] in installed);
        UndoneNext(was, stages, Pending(changed, j), installed, displaced, changed[j], ok);
        FailuresAdd(fails, old(renames), r, renames);
        MoreSafe(h, history, before, prepared, components);
        if !ok {
          errors, displaced := errors + 1, displaced + {changed[j]};
        }
      }
      UndoneEnds(stages, Pending(changed, 0), installed, displaced);
    }

    /** Whatever renames fail, the directory ends completely restored, exactly as it
        was, or, after a failed rollback, with every original still in place or set aside.
        No failing attempt means Installed, one means RolledBack, more mean DoubleFailure,
        and each failure beyond the first displaces one component. */
    method Apply(source: Option<map<Name, Tree>>, copies: Name -> bool) returns (outcome: Outcome)
      requires files == LiveOnly(files)
      modifies this
      ensures outcome.NoData? <==> source.None?
      ensures outcome.CopyFailed? <==>
        source.Some? && exists c :: c in RESTORE_COMPONENTS && c in source.value && !copies(c)
      ensures outcome.NoData? || outcome.CopyFailed? || outcome.RolledBack? ==> files == old(files)
      ensures outcome.Installed? ==> files == Replaced(old(files), source.value)
      ensures outcome.Installed? ==> forall c :: InstalledAt(files, old(files), source.value, c)
      ensures outcome.DoubleFailure? ==> forall c :: AccountedAt(files, old(files), source.value, c)
      ensures source.Some? ==> AllAccounted(history, old(files), source.value)
      ensures outcome.DoubleFailure? ==>
        Safe(files, old(files), Prepared(source.value, RESTORE_COMPONENTS), Components(source.value))
      ensures old(renames) <= renames
      ensures outcome.DoubleFailure? ==> exists displaced: set<Name> ::
        && RestoredExcept(files, old(files), displaced)
        && |displaced| + 1 == Failures(fails, old(renames), renames)
      ensures source.Some? ==>
        AllSafe(history, old(files), Prepared(source.value, RESTORE_COMPONENTS), Components(source.value))
      ensures outcome.NoData? || outcome.CopyFailed? ==> renames == old(renames) && history == []
      ensures outcome.Installed? || outcome.RolledBack? || outcome.DoubleFailure? ==>
        var failed := Failures(fails, old(renames), renames);
        outcome == if failed == 0 then Installed else if failed == 1 then RolledBack else DoubleFailure
      ensures outcome.Installed? || outcome.RolledBack? || outcome.DoubleFailure? ==>
        var needed := RenamesFor(old(files), source.value);
        outcome.Installed? <==> forall k :: old(renames) <= k < old(renames) + needed ==> !fails(k)
    {
      hide Standing, Safe, AllSafe, Failures, LiveOnly, Replaced, Needed, Select, Distinct, Prepared,
           Components, RestoredExcept, AccountedAt, InstalledAt, AllAccounted;
      ghost var before := files;
      history := [];
      if source.None? {
        return NoData;
      }
      ghost var prepared := Prepared(source.value, RESTORE_COMPONENTS);
      NothingYet(before, prepared, Components(source.value));
      var copied, components := CopyComponents(source.value, RESTORE_COMPONENTS, copies);
      if !copied {
        files := LiveOnly(files);
        return CopyFailed;
      }
      SelectedFirst(source.value, components);
      if ManagerDb in components {
        components := components + SIDECARS;
      }
      ComponentsDistinct(source.value);
      var ok, changed, installed := Exchange(before, prepared, components);
      ghost var exchanged := renames;
      if ok {
        InstalledIsReplaced(files, before, source.value, Progress(changed, installed));
        files := LiveOnly(files);
        outcome := Installed;
      } else {
        var errors, stages, displaced := Rollback(before, prepared, components, changed, installed);
        FailuresAdd(fails, old(renames), exchanged, renames);
        if errors > 0 {
          PendingAre(components, changed);
          StandingIsSafe(files, before, prepared, stages, components);
          OthersRestored(files, before, prepared, stages, displaced);
          outcome := DoubleFailure;
        } else {
          UntouchedIsBefore(files, before, prepared, stages);
          files := LiveOnly(files);
          outcome := RolledBack;
        }
      }
      FailuresWithin(fails, old(renames), exchanged, old(renames) + RenamesFor(before, source.value));
      WholeRestore(files, history, before, source.value, outcome);
    }
  }

  lemma WholeRestore(files: FileSystem, history: seq<FileSystem>, before: FileSystem, source: map<Name, Tree>,
                     outcome: Outcome)
    requires AllSafe(history, before, Prepared(source, RESTORE_COMPONENTS), Components(source))
    requires outcome.Installed? ==> files == Replaced(before, source)
    requires outcome.DoubleFailure? ==> Safe(files, before, Prepared(source, RESTORE_COMPONENTS), Components(source))
    ensures AllAccounted(history, before, source)
    ensures outcome.Installed? ==> forall c :: InstalledAt(files, before, source, c)
    ensures outcome.DoubleFailure? ==> forall c :: AccountedAt(files, before, source, c)
  {
    hide *;
    SafeAreAccounted(history, before, source);
    forall c ensures outcome.Installed? ==> InstalledAt(files, before, source, c) {
      ReplacedIsInstalled(before, source, c);
    }
    forall c ensures outcome.DoubleFailure? ==> AccountedAt(files, before, source, c) {
      if outcome.DoubleFailure? {
        SafeIsAccounted(files, before, source, c);
      }
    }
  }

  lemma SelectedFirst(source: map<Name, Tree>, selected: seq<Name>)
    requires selected == Select(source, RESTORE_COMPONENTS)
    ensures Components(source) == if ManagerDb in selected then selected + SIDECARS else selected
  {
    assert ManagerDb in RESTORE_COMPONENTS;
    assert selected + [] == selected;
  }

  lemma OthersRestored(fs: FileSystem, before: FileSystem, prepared: map<Name, Tree>, stages: Stages,
                       displaced: set<Name>)
    requires Standing(fs, before, prepared, stages)
    requires forall c :: c in stages && c !in displaced ==> stages[c] == Untouched
    ensures RestoredExcept(fs, before, displaced)
  {
    forall c: Name | c !in displaced ensures Same(fs, Path(Live, c), before, Path(Live, c)) {
      assert StandsAt(fs, before, prepared, stages, c);
    }
  }

  lemma MoreSafe(earlier: seq<FileSystem>, history: seq<FileSystem>, before: FileSystem, prepared: map<Name, Tree>,
                 components: seq<Name>)
    requires earlier <= history &&
             forall k :: |earlier| <= k < |history| ==> Safe(history[k], before, prepared, components)
    ensures AllSafe(earlier, before, prepared, components) ==> AllSafe(history, before, prepared, components)
  {
    hide Safe;
  }

  lemma NothingYet(before: FileSystem, prepared: map<Name, Tree>, components: seq<Name>)
    ensures AllSafe([], before, prepared, components)
    ensures forall source :: AllAccounted([], before, source)
  {
  }

  lemma SameIsEqual(a: FileSystem, b: FileSystem)
    requires forall p: Path :: Same(a, p, b, p)
    ensures a == b
  {
    forall p: Path ensures (p in a <==> p in b) && (p in a ==> a[p] == b[p]) {
      assert Same(a, p, b, p);
    }
  }

  /** A completed exchange, with the transaction directory dropped. */
  lemma InstalledIsReplaced(fs: FileSystem, before: FileSystem, source: map<Name, Tree>, stages: Stages)
    requires var prepared := Prepared(source, RESTORE_COMPONENTS);
      && Standing(fs, before, prepared, stages)
      && stages.Keys == (set c | c in Components(source))
      && forall c :: c in stages ==> stages[c] == if c in prepared then Exchanged else SetAside
    requires before == LiveOnly(before)
    ensures LiveOnly(fs) == Replaced(before, source)
  {
    hide Components, Prepared, Replaced;
    var prepared := Prepared(source, RESTORE_COMPONENTS);
    ComponentsDistinct(source);
    assert forall p: Path :: p in before ==> p in LiveOnly(before) && p.root == Live;
    forall p: Path ensures Same(LiveOnly(fs), p, Replaced(before, source), p) {
      assert StandsAt(fs, before, prepared, stages, p.name);
      ReplacedAt(before, source, p.name);
      assert p == Path(p.root, p.name);
    }
    SameIsEqual(LiveOnly(fs), Replaced(before, source));
  }

  /** Where the exchange stands, from its two bookkeeping variables. */
  function Progress(changed: seq<Name>, installed: set<Name>): Stages {
    map c | c in changed :: if c in installed then Exchanged else SetAside
  }

  lemma Begin(before: FileSystem, prepared: map<Name, Tree>, components: seq<Name>, fails: nat -> bool, renames: nat)
    ensures Progress([], {}) == map[] && Needed(before, prepared, components, 0) == 0
    ensures Failures(fails, renames, renames) == 0 && components[..0] == []
  {
  }

  lemma NeededNext(before: FileSystem, prepared: map<Name, Tree>, components: seq<Name>, i: nat)
    requires i < |components|
    ensures Needed(before, prepared, components, i + 1)
      == Needed(before, prepared, components, i) + Cost(before, prepared, components[i])
  {
  }

  /** The components the rollback has still to visit. */
  ghost function Pending(changed: seq<Name>, j: nat): set<Name>
    requires j <= |changed|
  {
    set c | c in changed[..j]
  }

  lemma PendingNext(components: seq<Name>, changed: seq<Name>, j: nat)
    requires Distinct(components) && changed <= components && j < |changed|
    ensures Pending(changed, j + 1) == Pending(changed, j) + {changed[j]} && changed[j] !in Pending(changed, j)
    ensures changed[j] in Pending(changed, |changed|)
    ensures forall c :: c in Pending(changed, |changed|) ==> c in components
  {
    assert changed[..j + 1] == changed[..j] + [changed[j]];
    assert changed[..|changed|] == changed;
    assert forall c :: c in changed[..j + 1] <==> c in changed[..j] || c == changed[j];
  }

  /** The pending components are as they were; the others are back or displaced. */
  ghost predicate Undone(stages: Stages, pending: set<Name>, installed: set<Name>, displaced: set<Name>) {
    forall c :: c in stages ==>
      if c in pending then c !in displaced && stages[c] == (if c in installed then Exchanged else SetAside)
      else c in displaced || stages[c] == Untouched
  }

  lemma UndoneAt(stages: Stages, pending: set<Name>, installed: set<Name>, displaced: set<Name>, c: Name)
    requires Undone(stages, pending, installed, displaced) && c in stages && c in pending
    ensures stages[c] == (if c in installed then Exchanged else SetAside) && c !in displaced
  {
  }

  lemma UndoneNext(stages: Stages, after: Stages, pending: set<Name>, installed: set<Name>, displaced: set<Name>,
                   c: Name, ok: bool)
    requires Undone(stages, pending + {c}, installed, displaced) && c !in pending
    requires after.Keys == stages.Keys && forall d :: d in stages && d != c ==> after[d] == stages[d]
    requires c in after && (ok ==> after[c] == Untouched)
    ensures Undone(after, pending, installed, if ok then displaced else displaced + {c})
  {
    forall d | d in after && d != c ensures d in stages && (d in pending <==> d in pending + {c}) {
    }
  }

  lemma UndoneEnds(stages: Stages, pending: set<Name>, installed: set<Name>, displaced: set<Name>)
    requires Undone(stages, pending, installed, displaced) && pending == {}
    ensures forall c :: c in stages && c !in displaced ==> stages[c] == Untouched
  {
  }

  lemma PendingAre(components: seq<Name>, changed: seq<Name>)
    requires changed <= components
    ensures forall c :: c in Pending(changed, |changed|) ==> c in components
  {
  }

  lemma ProgressStages(changed: seq<Name>, installed: set<Name>)
    ensures Progress(changed, installed).Keys == Pending(changed, |changed|)
    ensures forall c :: c in Pending(changed, |changed|) ==>
      Progress(changed, installed)[c] == if c in installed then Exchanged else SetAside
    ensures Undone(Progress(changed, installed), Pending(changed, |changed|), installed, {})
    ensures Pending(changed, 0) == {}
  {
    assert changed[..|changed|] == changed;
  }

  lemma NextProgress(components: seq<Name>, i: nat, installed: set<Name>)
    requires i < |components| && Distinct(components)
    requires forall c :: c in installed ==> c in components[..i]
    ensures components[..i + 1] == components[..i] + [components[i]] && components[i] !in components[..i]
    ensures forall d :: d in components[..i + 1] <==> d in components[..i] || d == components[i]
    ensures forall d :: d in Progress(components[..i], installed) ==> d in components && d != components[i]
    ensures var c, stages := components[i], Progress(components[..i], installed);
      && Progress(components[..i] + [c], installed) == stages[c := SetAside]
      && Progress(components[..i] + [c], installed + {c}) == stages[c := Exchanged]
  {
    var c, stages := components[i], Progress(components[..i], installed);
    assert forall d :: d in components[..i] + [c] <==> d in components[..i] || d == c;
    assert Progress(components[..i] + [c], installed) == stages[c := SetAside];
    assert Progress(components[..i] + [c], installed + {c}) == stages[c := Exchanged];
  }

  lemma SlotsAgree(fs: FileSystem, before: FileSystem, prepared: map<Name, Tree>, stages: Stages, c: Name)
    requires Standing(fs, before, prepared, stages)
    ensures c !in stages ==> (Path(Live, c) in fs <==> Path(Live, c) in before)
    ensures c in stages && stages[c] == SetAside ==> (Path(New, c) in fs <==> c in prepared)
    ensures c in stages && stages[c] == Exchanged ==> Path(Live, c) in fs
  {
    assert StandsAt(fs, before, prepared, stages, c);
  }

  lemma StandingIsSafe(fs: FileSystem, before: FileSystem, prepared: map<Name, Tree>, stages: Stages,
                       components: seq<Name>)
    requires Standing(fs, before, prepared, stages) && forall c :: c in stages ==> c in components
    ensures Safe(fs, before, prepared, components)
  {
  }

  lemma CopyStands(fs: FileSystem, before: FileSystem, prepared: map<Name, Tree>, c: Name, content: Tree)
    requires Standing(fs, before, prepared, map[])
    ensures Standing(fs[Path(New, c) := content], before, prepared[c := content], map[])
  {
    var none: Stages := map[];
    var copied, more := fs[Path(New, c) := content], prepared[c := content];
    forall d: Name ensures StandsAt(copied, before, more, none, d) {
      assert StandsAt(fs, before, prepared, none, d);
    }
  }

  lemma NothingCopied(before: FileSystem)
    requires before == LiveOnly(before)
    ensures Standing(before, before, map[], map[])
  {
    assert forall p: Path :: p in before ==> p in LiveOnly(before) && p.root == Live;
  }

  /** Dropping the transaction directory of an untouched exchange leaves the original directory. */
  lemma UntouchedIsBefore(fs: FileSystem, before: FileSystem, prepared: map<Name, Tree>, stages: Stages)
    requires Standing(fs, before, prepared, stages) && forall c :: c in stages ==> stages[c] == Untouched
    requires before == LiveOnly(before)
    ensures LiveOnly(fs) == before
  {
    assert forall p: Path :: p in before ==> p in LiveOnly(before) && p.root == Live;
    forall p: Path | p.root == Live ensures Same(fs, p, before, p) {
      assert StandsAt(fs, before, prepared, stages, p.name);
      assert p == Path(Live, p.name);
    }
  }

  lemma NothingPrepared(source: map<Name, Tree>, names: seq<Name>)
    ensures Prepared(source, names[..0]) == map[] && Select(source, names[..0]) == []
  {
  }

  lemma SelectNext(source: map<Name, Tree>, names: seq<Name>, i: nat)
    requires i < |names|
    ensures Select(source, names[..i + 1])
      == Select(source, names[..i]) + if Selected(source, names[i]) then [names[i]] else []
    ensures forall c :: c in names[..i + 1] <==> c in names[..i] || c == names[i]
    ensures Prepared(source, names[..i + 1])
      == if names[i] in source then Prepared(source, names[..i])[names[i] := source[names[i]]]
         else Prepared(source, names[..i])
  {
    assert names[..i + 1][..i] == names[..i];
    assert forall c :: c in names[..i + 1] <==> c in names[..i] || c == names[i];
  }
}
