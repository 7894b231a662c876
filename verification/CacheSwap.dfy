/** Swapping in the manager's restored cache and security directories. The
    previous directories are kept under their `pre-bbm-restore` names; removals
    during the rollback ignore errors, a failing rename in it ends the rollback. */
module CacheSwap {
  import opened Attempts

  datatype Tree = Tree(entries: map<string, string>)

  /** Number 0 is the cache directory, number 1 the security directory. */
  datatype Place = Incoming(number: nat) | Target(number: nat) | Previous(number: nat)

  type FileSystem = map<Place, Tree>

  const PAIRS := 2

  datatype Outcome = Swapped | RolledBack | RollbackRaised

  predicate Same(fs: FileSystem, p: Place, before: FileSystem, q: Place) {
    (p in fs <==> q in before) && (p in fs ==> fs[p] == before[q])
  }

  /** The previous content of a directory is still live or under its `pre-bbm-restore` name. */
  predicate Kept(fs: FileSystem, before: FileSystem, i: nat) {
    Target(i) in before ==>
      || (Target(i) in fs && fs[Target(i)] == before[Target(i)])
      || (Previous(i) in fs && fs[Previous(i)] == before[Target(i)])
  }

  predicate AllKept(fs: FileSystem, before: FileSystem) {
    Kept(fs, before, 0) && Kept(fs, before, 1)
  }

  /** The pair is exchanged: the new content is live, the previous one kept aside. */
  predicate Exchanged(fs: FileSystem, before: FileSystem, i: nat) {
    && Same(fs, Target(i), before, Incoming(i)) && Incoming(i) !in fs
    && Same(fs, Previous(i), before, Target(i))
  }

  /** How far pair i has come, from the two facts the rollback goes by. */
  predicate Pair(fs: FileSystem, before: FileSystem, i: nat, moved: bool, placed: bool) {
    && (moved ==> Target(i) in before && Previous(i) in fs && fs[Previous(i)] == before[Target(i)])
    && (placed ==> Target(i) in fs && (moved <==> Target(i) in before))
    && (!placed && moved ==> Target(i) !in fs)
    && (!placed && !moved ==> Same(fs, Target(i), before, Target(i)))
  }

  lemma PairsKeep(fs: FileSystem, before: FileSystem, moved: set<nat>, placed: set<nat>)
    requires forall i :: 0 <= i < PAIRS ==> Pair(fs, before, i, i in moved, i in placed)
    ensures AllKept(fs, before)
  {
    assert Pair(fs, before, 0, 0 in moved, 0 in placed) && Pair(fs, before, 1, 1 in moved, 1 in placed);
  }

  lemma RemovePair(fs: FileSystem, before: FileSystem, i: nat, moved: bool, rest: Tree)
    requires Pair(fs, before, i, moved, true)
    ensures Target(i) in fs && Pair(fs - {Target(i)}, before, i, moved, false)
    ensures Pair(fs[Target(i) := rest], before, i, moved, true)
  {
  }

  lemma PairSlots(fs: FileSystem, before: FileSystem, i: nat, moved: bool, placed: bool)
    requires Pair(fs, before, i, moved, placed)
    ensures placed ==> Target(i) in fs
    ensures moved ==> Previous(i) in fs
    ensures moved && !placed ==>
      Target(i) !in fs && Pair(fs[Target(i) := fs[Previous(i)]] - {Previous(i)}, before, i, false, false)
  {
  }

  lemma AllRestored(fs: FileSystem, before: FileSystem, moved: set<nat>, placed: set<nat>)
    requires forall i :: 0 <= i < PAIRS ==> Pair(fs, before, i, i in moved, i in placed)
    ensures (forall i :: 0 <= i < PAIRS ==> i !in moved && i !in placed)
      ==> Same(fs, Target(0), before, Target(0)) && Same(fs, Target(1), before, Target(1))
  {
    assert Pair(fs, before, 0, 0 in moved, 0 in placed) && Pair(fs, before, 1, 1 in moved, 1 in placed);
  }

  lemma OtherPair(was: FileSystem, fs: FileSystem, before: FileSystem, j: nat, moved: bool, placed: bool)
    requires Same(fs, Target(j), was, Target(j)) && Same(fs, Previous(j), was, Previous(j))
    ensures Pair(was, before, j, moved, placed) ==> Pair(fs, before, j, moved, placed)
  {
  }

  class Directories {
    var files: FileSystem
    var count: nat
    /** Which steps fail, and what part of a tree a failing removal leaves. */
    const fails: nat -> bool
    const remainders: nat -> Tree
    ghost var history: seq<FileSystem>

    constructor (files: FileSystem, fails: nat -> bool, remainders: nat -> Tree)
      ensures this.files == files && this.fails == fails && this.remainders == remainders && count == 0 && history == []
    {
      this.files, this.fails, this.remainders := files, fails, remainders;
      count, history := 0, [];
    }

    method Rename(from: Place, dest: Place) returns (ok: bool)
      requires from in files && dest !in files && from != dest
      modifies this
      ensures ok == !fails(old(count)) && count == old(count) + 1
      ensures files == if ok then old(files)[dest := old(files)[from]] - {from} else old(files)
      ensures history == old(history) + [files]
    {
      ok := !fails(count);
      count := count + 1;
      if ok {
        files := files[dest := files[from]] - {from};
      }
      history := history + [files];
    }

    method Remove(p: Place) returns (ok: bool)
      requires p in files
      modifies this
      ensures ok == !fails(old(count)) && count == old(count) + 1
      ensures files == if ok then old(files) - {p} else old(files)[p := remainders(old(count))]
      ensures history == old(history) + [files]
    {
      ok := !fails(count);
      files := if ok then files - {p} else files[p := remainders(count)];
      count := count + 1;
      history := history + [files];
    }

    /** Exchanges pair i; `moved` and `placed` report the renames that were done. */
    method ExchangePair(i: nat, ghost before: FileSystem) returns (ok: bool, moved: bool, placed: bool)
      requires i < PAIRS && Same(files, Target(i), before, Target(i)) && Same(files, Incoming(i), before, Incoming(i))
      requires Incoming(i) in files && AllKept(files, before)
      modifies this
      ensures forall p: Place :: p.number != i ==> Same(files, p, old(files), p)
      ensures ok ==> placed && Exchanged(files, before, i)
      ensures Pair(files, before, i, moved, placed) && (placed ==> ok)
      ensures old(count) <= count && Failures(fails, old(count), count) == if ok then 0 else 1
      ensures old(history) <= history
      ensures forall k :: |old(history)| <= k < |history| ==> AllKept(history[k], before)
    {
      hide Failures, Pair, Exchanged, AllKept;
      moved, placed := false, false;
      OneAttempt(fails, count);
      Fresh(files, before, i);
      if Previous(i) in files {
        StaleRemoved(files, before, i, if fails(count) then remainders(count) else files[Previous(i)]);
        ok := Remove(Previous(i));
        OneAttempt(fails, old(count));
        if !ok {
          return;
        }
      }
      ghost var r := count;
      if Target(i) in files {
        TargetMoved(files, before, i);
        ok := Rename(Target(i), Previous(i));
        OneAttempt(fails, r);
        FailuresAdd(fails, old(count), r, count);
        if !ok {
          return;
        }
        moved := true;
      }
      r := count;
      IncomingMoved(files, before, i, moved);
      ok := Rename(Incoming(i), Target(i));
      OneAttempt(fails, r);
      FailuresAdd(fails, old(count), r, count);
      placed := ok;
    }

    /** Removes what was installed; a failed removal is ignored. */
    method RemoveInstalled(ghost before: FileSystem, ghost moved: set<nat>, installed: set<nat>)
        returns (ghost left: set<nat>)
      requires forall i :: 0 <= i < PAIRS ==> Pair(files, before, i, i in moved, i in installed)
      modifies this
      ensures forall i :: 0 <= i < PAIRS ==> Pair(files, before, i, i in moved, i in left)
      ensures old(count) <= count
      ensures Failures(fails, old(count), count) == 0 ==> forall i :: 0 <= i < PAIRS ==> i !in left
      ensures old(history) <= history
      ensures forall k :: |old(history)| <= k < |history| ==> AllKept(history[k], before)
    {
      hide Failures, Pair, AllKept;
      OneAttempt(fails, count);
      left := installed;
      var i := PAIRS;
      while i > 0
        invariant 0 <= i <= PAIRS && old(count) <= count
        invariant forall j :: 0 <= j < PAIRS ==> Pair(files, before, j, j in moved, j in left)
        invariant forall j :: 0 <= j < i ==> (j in left <==> j in installed)
        invariant Failures(fails, old(count), count) == 0 ==> forall j :: i <= j < PAIRS ==> j !in left
        invariant old(history) <= history
        invariant forall k :: |old(history)| <= k < |history| ==> AllKept(history[k], before)
      {
        i := i - 1;
        if i in installed {
          ghost var r := count;
          PairSlots(files, before, i, i in moved, true);
          RemovePair(files, before, i, i in moved, if fails(count) then remainders(count) else files[Target(i)]);
          ghost var was := files;
          var removed := Remove(Target(i));
          OneAttempt(fails, r);
          FailuresAdd(fails, old(count), r, count);
          if removed {
            left := left - {i};
          }
          OtherPair(was, files, before, 1 - i, 1 - i in moved, 1 - i in left);
          PairsKeep(files, before, moved, left);
        }
      }
    }

    /** Moves the previous directories back where the target is free, until a rename raises. */
    method RestorePrevious(ghost before: FileSystem, moved: set<nat>, ghost left: set<nat>) returns (ok: bool)
      requires forall i :: 0 <= i < PAIRS ==> Pair(files, before, i, i in moved, i in left)
      modifies this
      ensures old(count) <= count && Failures(fails, old(count), count) == (if ok then 0 else 1)
      ensures ok && (forall i :: 0 <= i < PAIRS ==> i !in left)
        ==> Same(files, Target(0), before, Target(0)) && Same(files, Target(1), before, Target(1))
      ensures AllKept(files, before)
      ensures old(history) <= history
      ensures forall k :: |old(history)| <= k < |history| ==> AllKept(history[k], before)
    {
      hide Failures, Pair, AllKept;
      OneAttempt(fails, count);
      PairsKeep(files, before, moved, left);
      ghost var pending := moved;
      var i := PAIRS;
      ok := true;
      while i > 0
        invariant 0 <= i <= PAIRS && old(count) <= count
        invariant forall j :: 0 <= j < PAIRS ==> Pair(files, before, j, j in pending, j in left)
        invariant forall j :: 0 <= j < i ==> (j in pending <==> j in moved)
        invariant forall j :: i <= j < PAIRS && j in pending ==> j in left
        invariant ok && Failures(fails, old(count), count) == 0
        invariant old(history) <= history
        invariant forall k :: |old(history)| <= k < |history| ==> AllKept(history[k], before)
      {
        i := i - 1;
        PairSlots(files, before, i, i in pending, i in left);
        PairsKeep(files, before, pending, left);
        if i in moved && Previous(i) in files && Target(i) !in files {
          ghost var r := count;
          ghost var was := files;
          ok := Rename(Previous(i), Target(i));
          OneAttempt(fails, r);
          FailuresAdd(fails, old(count), r, count);
          if !ok {
            assert files == was;
            return;
          }
          pending := pending - {i};
          OtherPair(was, files, before, 1 - i, 1 - i in pending, 1 - i in left);
          PairsKeep(files, before, pending, left);
        }
      }
      PairsKeep(files, before, pending, left);
      AllRestored(files, before, pending, left);
    }

    /** Exchanges both pairs. Without a failing step both are exchanged; with exactly one,
        both targets are what they were; and after every step, whatever fails, the
        previous content of both is live or under its `pre-bbm-restore` name. */
    method Swap() returns (outcome: Outcome)
      requires Incoming(0) in files && Incoming(1) in files
      modifies this
      ensures old(count) <= count
      ensures outcome == Swapped <==> Failures(fails, old(count), count) == 0
      ensures outcome == Swapped ==> Exchanged(files, old(files), 0) && Exchanged(files, old(files), 1)
      ensures Failures(fails, old(count), count) == 1 ==>
        && outcome == RolledBack
        && Same(files, Target(0), old(files), Target(0)) && Same(files, Target(1), old(files), Target(1))
      ensures AllKept(files, old(files)) && old(history) <= history
      ensures forall k :: |old(history)| <= k < |history| ==> AllKept(history[k], old(files))
    {
      hide Failures, Pair, AllKept, Exchanged;
      ghost var before := files;
      var moved: set<nat>, installed: set<nat> := {}, {};
      OneAttempt(fails, count);
      NothingMoved(files);
      var i := 0;
      while i < PAIRS
        invariant 0 <= i <= PAIRS && old(count) <= count && Failures(fails, old(count), count) == 0
        invariant forall j :: 0 <= j < PAIRS ==> Pair(files, before, j, j in moved, j in installed)
        invariant forall j :: 0 <= j < i ==> Exchanged(files, before, j)
        invariant forall j :: j in moved || j in installed ==> j < i
        invariant forall j :: i <= j < PAIRS ==>
          Same(files, Target(j), before, Target(j)) && Same(files, Incoming(j), before, Incoming(j))
        invariant AllKept(files, before) && old(history) <= history
        invariant forall k :: |old(history)| <= k < |history| ==> AllKept(history[k], before)
      {
        ghost var was, r := files, count;
        var ok, wasMoved, placed := ExchangePair(i, before);
        FailuresAdd(fails, old(count), r, count);
        moved := if wasMoved then moved + {i} else moved;
        installed := if placed then installed + {i} else installed;
        OtherPair(was, files, before, 1 - i, 1 - i in moved, 1 - i in installed);
        StillExchanged(was, files, before, 1 - i);
        PairsKeep(files, before, moved, installed);
        if !ok {
          r := count;
          ghost var left := RemoveInstalled(before, moved, installed);
          FailuresAdd(fails, old(count), r, count);
          r := count;
          var restored := RestorePrevious(before, moved, left);
          FailuresAdd(fails, old(count), r, count);
          return if restored then RolledBack else RollbackRaised;
        }
        i := i + 1;
      }
      outcome := Swapped;
    }
  }

  lemma Fresh(fs: FileSystem, before: FileSystem, i: nat)
    requires Same(fs, Target(i), before, Target(i))
    ensures Pair(fs, before, i, false, false)
  {
  }

  lemma NothingMoved(fs: FileSystem)
    ensures AllKept(fs, fs) && forall i :: 0 <= i < PAIRS ==> Pair(fs, fs, i, false, false)
  {
  }

  /** Removing a stale previous directory, or a part of it, touches no target. */
  lemma StaleRemoved(fs: FileSystem, before: FileSystem, i: nat, rest: Tree)
    requires i < PAIRS && Same(fs, Target(i), before, Target(i)) && AllKept(fs, before)
    ensures forall after :: after in [fs - {Previous(i)}, fs[Previous(i) := rest]] ==>
      Pair(after, before, i, false, false) && AllKept(after, before)
  {
  }

  lemma TargetMoved(fs: FileSystem, before: FileSystem, i: nat)
    requires i < PAIRS && Same(fs, Target(i), before, Target(i)) && AllKept(fs, before) && Target(i) in fs
    ensures var after := fs[Previous(i) := fs[Target(i)]] - {Target(i)};
      Pair(after, before, i, true, false) && AllKept(after, before)
  {
  }

  lemma IncomingMoved(fs: FileSystem, before: FileSystem, i: nat, moved: bool)
    requires i < PAIRS && AllKept(fs, before) && Pair(fs, before, i, moved, false)
    requires Target(i) !in fs && (Previous(i) in fs ==> moved)
    requires Incoming(i) in fs && Same(fs, Incoming(i), before, Incoming(i))
    ensures var after := fs[Target(i) := fs[Incoming(i)]] - {Incoming(i)};
      Pair(after, before, i, moved, true) && AllKept(after, before) && Exchanged(after, before, i)
  {
  }

  lemma StillExchanged(was: FileSystem, fs: FileSystem, before: FileSystem, j: nat)
    requires forall p: Place :: p.number == j ==> Same(fs, p, was, p)
    ensures Exchanged(was, before, j) ==> Exchanged(fs, before, j)
  {
    assert Same(fs, Target(j), was, Target(j)) && Same(fs, Previous(j), was, Previous(j))
        && Same(fs, Incoming(j), was, Incoming(j));
  }
}
