/** `sqlx migrate run` and `sqlx migrate revert` with target versions, compared with the library. */
module MigrateCli {
  import opened Basics
  import opened Migrations
  import opened Migrator
  import opened MigratorProperties
  import opened UpDown

  ghost function Latest(table: Table): (r: int)
    ensures table.Keys == {} ==> r == 0
    ensures table.Keys != {} ==> IsGreatest(table.Keys, Some(r))
  {
    if table.Keys == {} then 0
    else
      GreatestExists(table.Keys);
      var r :| IsGreatest(table.Keys, Some(r));
      r
  }

  lemma GreatestExists(s: set<int>)
    requires s != {}
    ensures exists r :: IsGreatest(s, Some(r))
  {
    var negated := set x | x in s :: -x;
    var x := Chosen(s);
    assert -x in negated;
    var r := -Least(negated).value;
    forall y | y in s ensures y <= r {
      assert -y in negated;
    }
    assert IsGreatest(s, Some(r));
  }

  /** Why `run` refuses to start, if it does. */
  ghost function RunRefusal<S>(
    migs: seq<Change<S>>, ignoreMissing: bool, target: Option<int>, table: Table): Option<Error> {
    var refused := Refusal(migs, ignoreMissing, table);
    if target.Some? && target.value !in Versions(migs) then Some(VersionNotPresent(target.value))
    else if refused.Some? then refused
    else if target.Some? && target.value < Latest(table) then Some(VersionTooOld(target.value, Latest(table)))
    else None
  }

  ghost function CliRun<S>(migs: seq<Change<S>>, ignoreMissing: bool, target: Option<int>, db: Db<S>): Outcome<S> {
    var refused := RunRefusal(migs, ignoreMissing, target, db.table);
    if refused.Some? then Outcome(db, refused) else RunLoop(migs, db.table, target, db)
  }

  /** The error of `run --dry-run`. */
  ghost function DryRunError<S>(
    migs: seq<Change<S>>, ignoreMissing: bool, target: Option<int>, table: Table): Option<Error> {
    var refused := RunRefusal(migs, ignoreMissing, target, table);
    if refused.Some? then refused else Mismatch(migs, table)
  }

  /** Why `revert` refuses to start, if it does. */
  ghost function RevertRefusal<S>(
    migs: seq<Change<S>>, ignoreMissing: bool, target: Option<int>, table: Table): Option<Error> {
    var refused := Refusal(migs, ignoreMissing, table);
    if target.Some? && target.value != 0 && target.value !in Versions(migs) then Some(VersionNotPresent(target.value))
    else if refused.Some? then refused
    else if target.Some? && target.value > Latest(table) then Some(VersionTooNew(target.value, Latest(table)))
    else None
  }

  /** The loop of `revert`: without a target it stops after one migration. */
  function RevertLoop<S>(migs: seq<Change<S>>, applied: Table, target: Option<int>, db: Db<S>): Outcome<S> {
    if migs == [] then Outcome(db, None)
    else
      var m := migs[|migs| - 1];
      var rest := migs[..|migs| - 1];
      if !m.IsDown() || m.version !in applied then RevertLoop(rest, applied, target, db)
      else
        var skip := target.Some? && m.version <= target.value;
        var o := if skip then Outcome(db, None) else Revert(db, m);
        if o.error.Some? || target.None? then o else RevertLoop(rest, applied, target, o.db)
  }

  ghost function CliRevert<S>(migs: seq<Change<S>>, ignoreMissing: bool, target: Option<int>, db: Db<S>): Outcome<S> {
    var refused := RevertRefusal(migs, ignoreMissing, target, db.table);
    if refused.Some? then Outcome(db, refused) else RevertLoop(migs, db.table, target, db)
  }

  // ------------------------------------------------------------------ the code

  method LatestVersion(table: Table) returns (latest: int)
    ensures latest == Latest(table)
  {
    var _, hi := Bounds(table.Keys);
    latest := if hi.Some? then hi.value else 0;
  }

  method VersionExists<S>(migs: seq<Change<S>>, version: int) returns (found: bool)
    ensures found <==> version in Versions(migs)
  {
    for i := 0 to |migs|
      invariant forall j :: 0 <= j < i ==> migs[j].version != version
    {
      if migs[i].version == version {
        return true;
      }
    }
    return false;
  }

  method RunCommand<S>(db: Database<S>, migs: seq<Change<S>>, dryRun: bool, ignoreMissing: bool, target: Option<int>)
    returns (error: Option<Error>)
    modifies db
    ensures !dryRun ==> Outcome(db.Value(), error) == CliRun(migs, ignoreMissing, target, old(db.Value()))
    ensures dryRun ==> db.Value() == old(db.Value()) && error == DryRunError(migs, ignoreMissing, target, db.table)
  {
    if target.Some? {
      var known := VersionExists(migs, target.value);
      if !known {
        return Some(VersionNotPresent(target.value));
      }
    }
    error := db.Check(migs, ignoreMissing);
    if error.Some? {
      return;
    }
    var latest := LatestVersion(db.table);
    if target.Some? && target.value < latest {
      return Some(VersionTooOld(target.value, latest));
    }
    error := db.ApplyPending(migs, dryRun, target);
  }

  method RevertCommand<S>(db: Database<S>, migs: seq<Change<S>>, dryRun: bool, ignoreMissing: bool, target: Option<int>)
    returns (error: Option<Error>)
    modifies db
    ensures !dryRun ==> Outcome(db.Value(), error) == CliRevert(migs, ignoreMissing, target, old(db.Value()))
    ensures dryRun ==> db.Value() == old(db.Value()) && error == RevertRefusal(migs, ignoreMissing, target, db.table)
  {
    if target.Some? && target.value != 0 {
      var known := VersionExists(migs, target.value);
      if !known {
        return Some(VersionNotPresent(target.value));
      }
    }
    error := db.Check(migs, ignoreMissing);
    if error.Some? {
      return;
    }
    var latest := LatestVersion(db.table);
    if target.Some? && target.value > latest {
      return Some(VersionTooNew(target.value, latest));
    }
    var applied := db.table;
    var i := |migs|;
    assert migs[..i] == migs;
    while i > 0
      invariant 0 <= i <= |migs|
      invariant error.None?
      invariant !dryRun ==>
                RevertLoop(migs[..i], applied, target, db.Value()) == RevertLoop(migs, applied, target, old(db.Value()))
      invariant dryRun ==> db.Value() == old(db.Value())
    {
      i := i - 1;
      var m := migs[i];
      assert migs[..i + 1][..i] == migs[..i];
      if !m.IsDown() || m.version !in applied {
        continue;
      }
      var skip := target.Some? && m.version <= target.value;
      if !dryRun && !skip {
        error := db.RevertMigration(m);
        if error.Some? {
          return;
        }
      }
      if target.None? {
        break;
      }
    }
  }

  // ------------------------------------------------------------------ revert is undo

  /** With a target it accepts, `revert` does exactly what `Migrator::undo` does. */
  lemma RevertIsUndo<S>(migs: seq<Change<S>>, ignoreMissing: bool, target: int, db: Db<S>)
    requires RevertRefusal(migs, ignoreMissing, Some(target), db.table).None?
    ensures CliRevert(migs, ignoreMissing, Some(target), db) == Undo(migs, ignoreMissing, target, db)
  {
    RevertLoopIsUndoLoop(migs, db.table, target, db);
  }

  lemma {:induction false} RevertLoopIsUndoLoop<S>(migs: seq<Change<S>>, applied: Table, target: int, db: Db<S>)
    ensures RevertLoop(migs, applied, Some(target), db) == UndoLoop(migs, applied, target, db)
    decreases |migs|
  {
    if migs != [] {
      var m := migs[|migs| - 1];
      var rest := migs[..|migs| - 1];
      RevertLoopIsUndoLoop(rest, applied, target, db);
      if IsDownAbove(m, applied, target) {
        RevertLoopIsUndoLoop(rest, applied, target, Revert(db, m).db);
      }
    }
  }

  // ------------------------------------------------------------------ revert without a target

  predicate Revertible<S>(m: Change<S>, applied: Table) {
    m.IsDown() && m.version in applied
  }

  /** Nothing to revert. */
  lemma {:induction false} RevertNone<S>(migs: seq<Change<S>>, applied: Table, target: Option<int>, db: Db<S>)
    requires forall i :: 0 <= i < |migs| ==> !Revertible(migs[i], applied)
    ensures RevertLoop(migs, applied, target, db) == Outcome(db, None)
    decreases |migs|
  {
    if migs != [] {
      assert !Revertible(migs[|migs| - 1], applied);
      RevertNone(migs[..|migs| - 1], applied, target, db);
    }
  }

  lemma {:induction false} RevertLast<S>(migs: seq<Change<S>>, applied: Table, db: Db<S>, i: nat)
    requires i < |migs| && Revertible(migs[i], applied) && forall j :: i < j < |migs| ==> !Revertible(migs[j], applied)
    ensures RevertLoop(migs, applied, None, db) == Revert(db, migs[i])
    decreases |migs|
  {
    if i < |migs| - 1 {
      assert !Revertible(migs[|migs| - 1], applied);
      RevertLast(migs[..|migs| - 1], applied, db, i);
    }
  }

  /**
   * Without a target exactly one script runs, the last down script of an applied version: if it
   * succeeds its row goes and the schema is its result, and if it fails nothing changes.
   */
  lemma RevertsOne<S>(migs: seq<Change<S>>, ignoreMissing: bool, db: Db<S>, i: nat)
    requires RevertRefusal(migs, ignoreMissing, None, db.table).None?
    requires i < |migs| && Revertible(migs[i], db.table)
    requires forall j :: i < j < |migs| ==> !Revertible(migs[j], db.table)
    ensures var m := migs[i];
            CliRevert(migs, ignoreMissing, None, db) ==
            match m.script(db.schema)
            case Some(schema) => Outcome(Db(db.table - {m.version}, schema), None)
            case None => Outcome(db, Some(ExecuteMigration(m.version)))
    ensures Sorted(migs) ==>
              forall j :: 0 <= j < |migs| && Revertible(migs[j], db.table) ==> migs[j].version <= migs[i].version
  {
    RevertLast(migs, db.table, db, i);
  }

  lemma NothingToRevert<S>(migs: seq<Change<S>>, ignoreMissing: bool, db: Db<S>)
    requires RevertRefusal(migs, ignoreMissing, None, db.table).None?
    requires forall i :: 0 <= i < |migs| ==> !Revertible(migs[i], db.table)
    ensures CliRevert(migs, ignoreMissing, None, db) == Outcome(db, None)
  {
    RevertNone(migs, db.table, None, db);
  }

  // ------------------------------------------------------------------ which targets are accepted

  /** No applied version is above the target, and 0 counts as applied when nothing is. */
  predicate CoversAll(target: int, table: Table) {
    (table.Keys == {} ==> 0 <= target) && forall v :: v in table ==> v <= target
  }

  /** Some applied version is not below the target, and 0 counts as applied when nothing is. */
  predicate Reaches(target: int, table: Table) {
    if table.Keys == {} then target <= 0 else exists v :: v in table && target <= v
  }

  /** `run` starts if and only if its target is known, the table is accepted, and the target covers what is applied. */
  lemma RunAcceptedIff<S>(migs: seq<Change<S>>, ignoreMissing: bool, target: Option<int>, table: Table)
    ensures RunRefusal(migs, ignoreMissing, target, table).None? <==>
            && Refusal(migs, ignoreMissing, table).None?
            && (target.Some? ==> Known(migs, target.value) && CoversAll(target.value, table))
  {
    if table.Keys != {} && target.Some? && target.value < Latest(table) {
      assert Latest(table) in table;
    }
  }

  /** `revert` starts if and only if its target is 0 or known, the table is accepted, and something reaches it. */
  lemma RevertAcceptedIff<S>(migs: seq<Change<S>>, ignoreMissing: bool, target: Option<int>, table: Table)
    ensures RevertRefusal(migs, ignoreMissing, target, table).None? <==>
            && Refusal(migs, ignoreMissing, table).None?
            && (target.Some? ==> (target.value == 0 || Known(migs, target.value)) && Reaches(target.value, table))
  {
    if table.Keys != {} {
      assert Latest(table) in table;
    }
  }

  predicate IsLatest(table: Table, v: int) {
    v in table && forall u :: u in table ==> u <= v
  }

  /** In which order the reasons are given, and with which versions. */
  lemma RefusalReasons<S>(migs: seq<Change<S>>, ignoreMissing: bool, t: int, table: Table, latest: int)
    ensures !Known(migs, t) ==> RunRefusal(migs, ignoreMissing, Some(t), table) == Some(VersionNotPresent(t))
    ensures !Known(migs, t) && t != 0 ==>
              RevertRefusal(migs, ignoreMissing, Some(t), table) == Some(VersionNotPresent(t))
    ensures Known(migs, t) && Refusal(migs, ignoreMissing, table).Some? ==>
              && RunRefusal(migs, ignoreMissing, Some(t), table) == Refusal(migs, ignoreMissing, table)
              && RevertRefusal(migs, ignoreMissing, Some(t), table) == Refusal(migs, ignoreMissing, table)
    ensures Known(migs, t) && Refusal(migs, ignoreMissing, table).None? && IsLatest(table, latest) ==>
              && (t < latest ==> RunRefusal(migs, ignoreMissing, Some(t), table) == Some(VersionTooOld(t, latest)))
              && (latest < t ==> RevertRefusal(migs, ignoreMissing, Some(t), table) == Some(VersionTooNew(t, latest)))
  {
    if IsLatest(table, latest) {
      assert Latest(table) in table;
      assert Latest(table) == latest;
    }
  }

  // ------------------------------------------------------------------ dry runs

  /**
   * What a dry run foretells: the run succeeds if and only if the dry run reports no error, the
   * versions up to the target that are pending are distinct, and their scripts succeed in order. An
   * error other than a changed migration is the error of the run, which then changes nothing.
   */
  lemma DryRunPredicts<S>(migs: seq<Change<S>>, ignoreMissing: bool, target: Option<int>, db: Db<S>)
    ensures var dry := DryRunError(migs, ignoreMissing, target, db.table);
            var wet := CliRun(migs, ignoreMissing, target, db);
            var pending := Pending(migs, db.table, target);
            && (wet.error.None? <==> dry.None? && DistinctVersions(pending) && After(db.schema, pending).Some?)
            && (dry.Some? && !dry.value.VersionMismatch? ==> wet == Outcome(db, dry))
  {
    MismatchIff(migs, db.table);
    RunSucceedsIff(migs, target, db);
  }

  // ------------------------------------------------------------------ staged runs

  /** The same loop without a list read beforehand: it asks the table each time. */
  function FreshLoop<S>(migs: seq<Change<S>>, target: Option<int>, db: Db<S>): Outcome<S> {
    if migs == [] then Outcome(db, None)
    else
      var m := migs[0];
      if m.IsDown() then FreshLoop(migs[1..], target, db)
      else if m.version in db.table then
        if m.checksum != db.table[m.version].checksum then Outcome(db, Some(VersionMismatch(m.version)))
        else FreshLoop(migs[1..], target, db)
      else if Beyond(target, m.version) then FreshLoop(migs[1..], target, db)
      else
        var o := Apply(db, m);
        if o.error.Some? then o else FreshLoop(migs[1..], target, o.db)
  }

  /** Both tables say the same about every migration that is not a down script. */
  predicate SameRows<S>(migs: seq<Change<S>>, a: Table, b: Table) {
    forall i :: 0 <= i < |migs| && !migs[i].IsDown() ==> SameRow(a, b, migs[i].version)
  }

  /** With distinct pending versions the list read before the loop never goes stale for what is left to do. */
  lemma {:induction false} SnapshotSuffices<S>(migs: seq<Change<S>>, applied: Table, target: Option<int>, db: Db<S>)
    requires DistinctVersions(Pending(migs, applied, None)) && SameRows(migs, applied, db.table)
    ensures RunLoop(migs, applied, target, db) == FreshLoop(migs, target, db)
    decreases |migs|
  {
    if migs != [] {
      var m := migs[0];
      assert m.IsDown() || SameRow(applied, db.table, m.version);
      TailDistinct(migs, applied);
      if m.IsDown() || m.version in applied || Beyond(target, m.version) {
        SnapshotSuffices(migs[1..], applied, target, db);
      } else if Apply(db, m).error.None? {
        StillSame(migs, applied, db.table, Row(m.checksum, true));
        SnapshotSuffices(migs[1..], applied, target, Apply(db, m).db);
      }
    }
  }

  lemma TailDistinct<S>(migs: seq<Change<S>>, applied: Table)
    requires migs != [] && DistinctVersions(Pending(migs, applied, None))
    ensures DistinctVersions(Pending(migs[1..], applied, None))
  {
    var all, rest := Pending(migs, applied, None), Pending(migs[1..], applied, None);
    assert all[|all| - |rest|..] == rest;
  }

  lemma StillSame<S>(migs: seq<Change<S>>, applied: Table, table: Table, row: Row)
    requires migs != [] && DistinctVersions(Pending(migs, applied, None)) && SameRows(migs, applied, table)
    requires !migs[0].IsDown() && migs[0].version !in applied
    ensures SameRows(migs[1..], applied, table[migs[0].version := row])
  {
    var rest := migs[1..];
    forall i | 0 <= i < |rest| && !rest[i].IsDown()
      ensures SameRow(applied, table[migs[0].version := row], rest[i].version)
    {
      assert SameRow(applied, table, migs[i + 1].version);
      HeadIsDistinct(migs, applied, i);
    }
  }

  predicate SameRow(a: Table, b: Table, v: int) {
    (v in a <==> v in b) && (v in a ==> a[v] == b[v])
  }

  lemma HeadIsDistinct<S>(migs: seq<Change<S>>, applied: Table, i: nat)
    requires migs != [] && i < |migs| - 1 && DistinctVersions(Pending(migs, applied, None))
    requires !migs[0].IsDown() && migs[0].version !in applied && !migs[1..][i].IsDown()
    ensures migs[1..][i].version != migs[0].version
  {
    var rest := Pending(migs[1..], applied, None);
    var all := [migs[0]] + rest;
    assert Pending(migs, applied, None) == all;
    if migs[1..][i].version !in applied {
      PendingHas(migs[1..], applied, None, i);
      var j :| 0 <= j < |rest| && rest[j] == migs[1..][i];
      assert all[0].version != all[j + 1].version;
    }
  }

  lemma {:induction false} PendingShrinks<S>(migs: seq<Change<S>>, table: Table, more: Table)
    requires DistinctVersions(Pending(migs, table, None)) && forall v :: v in table ==> v in more
    ensures DistinctVersions(Pending(migs, more, None))
    decreases |migs|
  {
    if migs != [] {
      var rest := migs[1..];
      TailDistinct(migs, table);
      PendingShrinks(rest, table, more);
      if !migs[0].IsDown() && migs[0].version !in more {
        forall m | m in Pending(rest, more, None) ensures m.version != migs[0].version {
          var i :| 0 <= i < |rest| && rest[i] == m;
          HeadIsDistinct(migs, table, i);
        }
      }
    }
  }

  /** Rows are only added, for migrations of the list. */
  predicate Grown<S>(migs: seq<Change<S>>, table: Table, after: Table) {
    && (forall v :: v in table ==> v in after && after[v] == table[v])
    && (forall v :: v in after && v !in table ==> v in Versions(migs) && after[v].success)
  }

  lemma GrownTail<S>(migs: seq<Change<S>>, table: Table, after: Table)
    requires migs != [] && Grown(migs[1..], table, after)
    ensures Grown(migs, table, after)
  {
    assert Versions(migs[1..]) <= Versions(migs) by {
      assert forall i :: 0 <= i < |migs| - 1 ==> migs[1..][i] == migs[i + 1];
    }
  }

  lemma GrownHead<S>(migs: seq<Change<S>>, table: Table, after: Table)
    requires migs != [] && migs[0].version !in table
    requires Grown(migs, table[migs[0].version := Row(migs[0].checksum, true)], after)
    ensures Grown(migs, table, after)
  {
    assert migs[0].version in Versions(migs);
  }

  lemma {:induction false} FreshLoopAdds<S>(migs: seq<Change<S>>, target: Option<int>, db: Db<S>)
    ensures Grown(migs, db.table, FreshLoop(migs, target, db).db.table)
    decreases |migs|
  {
    if migs != [] {
      var m := migs[0];
      if m.IsDown() || m.version in db.table || Beyond(target, m.version) {
        FreshLoopAdds(migs[1..], target, db);
        GrownTail(migs, db.table, FreshLoop(migs[1..], target, db).db.table);
      } else if Apply(db, m).error.None? {
        var db1 := Apply(db, m).db;
        FreshLoopAdds(migs[1..], target, db1);
        GrownTail(migs, db1.table, FreshLoop(migs[1..], target, db1).db.table);
        GrownHead(migs, db.table, FreshLoop(migs[1..], target, db1).db.table);
      }
    }
  }

  lemma {:induction false} BeyondTarget<S>(migs: seq<Change<S>>, target: int, db: Db<S>)
    requires forall i :: 0 <= i < |migs| ==> migs[i].version > target
    ensures FreshLoop(migs, Some(target), db).db == db
    decreases |migs|
  {
    if migs != [] {
      BeyondTarget(migs[1..], target, db);
    }
  }

  /** Stopping at a target first changes neither what an untargeted loop ends with nor its error. */
  lemma {:induction false} StageThenRest<S>(migs: seq<Change<S>>, target: int, db: Db<S>)
    requires Sorted(migs)
    ensures FreshLoop(migs, None, FreshLoop(migs, Some(target), db).db) == FreshLoop(migs, None, db)
    decreases |migs|
  {
    if migs != [] {
      var m := migs[0];
      var stage := FreshLoop(migs, Some(target), db).db;
      if m.version > target {
        BeyondTarget(migs, target, db);
      } else if m.IsDown() {
        StageThenRest(migs[1..], target, db);
      } else if m.version in db.table {
        FreshLoopAdds(migs, Some(target), db);
        if m.checksum == db.table[m.version].checksum {
          StageThenRest(migs[1..], target, db);
        }
      } else if Apply(db, m).error.None? {
        var db1 := Apply(db, m).db;
        StageThenRest(migs[1..], target, db1);
        FreshLoopAdds(migs[1..], Some(target), db1);
        assert m.version in db1.table;
      }
    }
  }

  ghost function Staged<S>(migs: seq<Change<S>>, ignoreMissing: bool, targets: seq<int>, db: Db<S>): Db<S>
    decreases |targets|
  {
    if targets == [] then db
    else Staged(migs, ignoreMissing, targets[1..], CliRun(migs, ignoreMissing, Some(targets[0]), db).db)
  }

  lemma LoopStage<S>(migs: seq<Change<S>>, target: int, db: Db<S>)
    requires Sorted(migs) && DistinctVersions(Pending(migs, db.table, None))
    ensures var stage := RunLoop(migs, db.table, Some(target), db).db;
            && RunLoop(migs, stage.table, None, stage) == RunLoop(migs, db.table, None, db)
            && Grown(migs, db.table, stage.table)
            && DistinctVersions(Pending(migs, stage.table, None))
  {
    var stage := FreshLoop(migs, Some(target), db).db;
    SnapshotSuffices(migs, db.table, Some(target), db);
    SnapshotSuffices(migs, db.table, None, db);
    FreshLoopAdds(migs, Some(target), db);
    PendingShrinks(migs, db.table, stage.table);
    SnapshotSuffices(migs, stage.table, None, stage);
    StageThenRest(migs, target, db);
  }

  lemma OneStage<S>(migs: seq<Change<S>>, ignoreMissing: bool, target: int, db: Db<S>)
    requires Sorted(migs) && DistinctVersions(Pending(migs, db.table, None))
    ensures var stage := CliRun(migs, ignoreMissing, Some(target), db).db;
            && CliRun(migs, ignoreMissing, None, stage) == CliRun(migs, ignoreMissing, None, db)
            && DistinctVersions(Pending(migs, stage.table, None))
  {
    if RunRefusal(migs, ignoreMissing, Some(target), db.table).None? {
      LoopStage(migs, target, db);
      SameRefusal(migs, ignoreMissing, db.table, RunLoop(migs, db.table, Some(target), db).db.table);
    }
  }

  lemma SameRefusal<S>(migs: seq<Change<S>>, ignoreMissing: bool, table: Table, after: Table)
    requires Refusal(migs, ignoreMissing, table).None?
    requires Grown(migs, table, after)
    ensures Refusal(migs, ignoreMissing, after).None?
  {
    forall v | v in after ensures v !in DirtyVersions(after) {
      assert v in table ==> v !in DirtyVersions(table);
    }
    assert DirtyVersions(after) == {};
    if !ignoreMissing {
      forall v | v in after ensures v in Versions(migs) {
        assert v in table ==> v !in table.Keys - Versions(migs);
      }
      assert after.Keys - Versions(migs) == {};
    }
  }

  /** The stages and then a run without a target, compared with the library's single run. */
  ghost predicate StagingAgrees<S>(migs: seq<Change<S>>, ignoreMissing: bool, targets: seq<int>, db: Db<S>) {
    CliRun(migs, ignoreMissing, None, Staged(migs, ignoreMissing, targets, db)) == Run(migs, ignoreMissing, db)
  }

  /**
   * Running through any sequence of targets, accepted or refused, succeeding or failing, and then
   * without a target ends in the same database with the same result as one run without a target.
   */
  lemma {:induction false} StagedRunsAgree<S>(migs: seq<Change<S>>, ignoreMissing: bool, targets: seq<int>, db: Db<S>)
    requires Sorted(migs) && DistinctVersions(Pending(migs, db.table, None))
    ensures StagingAgrees(migs, ignoreMissing, targets, db)
    decreases |targets|
  {
    if targets != [] {
      OneStage(migs, ignoreMissing, targets[0], db);
      StagedRunsAgree(migs, ignoreMissing, targets[1..], CliRun(migs, ignoreMissing, Some(targets[0]), db).db);
    }
  }

  // ------------------------------------------------------------------ two migrations with one version

  ghost predicate ScriptsSucceed<S(!new)>(migs: seq<Change<S>>) {
    forall i, s :: 0 <= i < |migs| ==> migs[i].script(s).Some?
  }

  /** Then only a second migration of the same version can stop the loop, and the first one stays recorded. */
  lemma {:induction false} OnlyDuplicatesStop<S(!new)>(migs: seq<Change<S>>, applied: Table, db: Db<S>)
    requires ScriptsSucceed(migs) && ChecksumsMatch(migs, applied)
    ensures var o := RunLoop(migs, applied, None, db);
            o.error.Some? ==> o.error.value.DuplicateVersion? && o.error.value.version in o.db.table
    decreases |migs|
  {
    if migs != [] {
      OnlyDuplicatesStop(migs[1..], applied, db);
      OnlyDuplicatesStop(migs[1..], applied, Apply(db, migs[0]).db);
    }
  }

  lemma {:induction false} DuplicateIsNew<S>(migs: seq<Change<S>>, applied: Table, target: Option<int>, db: Db<S>)
    ensures var error := RunLoop(migs, applied, target, db).error;
            error.Some? && error.value.DuplicateVersion? ==> error.value.version !in applied
    decreases |migs|
  {
    if migs != [] {
      DuplicateIsNew(migs[1..], applied, target, db);
      DuplicateIsNew(migs[1..], applied, target, Apply(db, migs[0]).db);
    }
  }

  lemma {:induction false} TopTarget<S>(migs: seq<Change<S>>, applied: Table, target: int, db: Db<S>)
    requires forall i :: 0 <= i < |migs| ==> migs[i].version <= target
    ensures RunLoop(migs, applied, Some(target), db) == RunLoop(migs, applied, None, db)
    decreases |migs|
  {
    if migs != [] {
      TopTarget(migs[1..], applied, target, db);
      TopTarget(migs[1..], applied, target, Apply(db, migs[0]).db);
    }
  }

  /** A duplicate fails only once: repeating the run finds the version recorded. */
  lemma DuplicateFailsOnce<S(!new)>(migs: seq<Change<S>>, db: Db<S>)
    requires ScriptsSucceed(migs) && ChecksumsMatch(migs, db.table) && !DistinctVersions(Pending(migs, db.table, None))
    ensures var o := RunLoop(migs, db.table, None, db);
            && o.error.Some? && o.error.value.DuplicateVersion?
            && RunLoop(migs, o.db.table, None, o.db).error != o.error
  {
    var o := RunLoop(migs, db.table, None, db);
    RunSucceedsIff(migs, None, db);
    OnlyDuplicatesStop(migs, db.table, db);
    DuplicateIsNew(migs, o.db.table, None, o.db);
  }

  lemma OneTarget<S>(migs: seq<Change<S>>, ignoreMissing: bool, target: int, db: Db<S>)
    ensures Staged(migs, ignoreMissing, [target], db) == CliRun(migs, ignoreMissing, Some(target), db).db
  {
    assert [target][1..] == [];
  }

  lemma RefusedOrLoop<S>(migs: seq<Change<S>>, ignoreMissing: bool, db: Db<S>)
    ensures var o := CliRun(migs, ignoreMissing, None, db);
            || (o.error.Some? && !o.error.value.DuplicateVersion?)
            || o == RunLoop(migs, db.table, None, db)
  {
  }

  /** One stage that goes all the way repeats the run after it failed. */
  lemma TopStageDisagrees<S(!new)>(migs: seq<Change<S>>, ignoreMissing: bool, top: int, db: Db<S>)
    requires RunRefusal(migs, ignoreMissing, Some(top), db.table).None?
    requires forall i :: 0 <= i < |migs| ==> migs[i].version <= top
    requires ScriptsSucceed(migs) && ChecksumsMatch(migs, db.table) && !DistinctVersions(Pending(migs, db.table, None))
    ensures !StagingAgrees(migs, ignoreMissing, [top], db)
  {
    DuplicateFailsOnce(migs, db);
    TopTarget(migs, db.table, top, db);
    var o := RunLoop(migs, db.table, None, db);
    OneTarget(migs, ignoreMissing, top, db);
    RefusedOrLoop(migs, ignoreMissing, o.db);
  }

  /**
   * With scripts that succeed and a target that covers everything, staging never matters if and only
   * if no two pending migrations share a version.
   */
  lemma StagedRunsAgreeIff<S(!new)>(migs: seq<Change<S>>, ignoreMissing: bool, top: int, db: Db<S>)
    requires Sorted(migs) && ScriptsSucceed(migs) && ChecksumsMatch(migs, db.table)
    requires RunRefusal(migs, ignoreMissing, Some(top), db.table).None?
    requires forall i :: 0 <= i < |migs| ==> migs[i].version <= top
    ensures (forall targets :: StagingAgrees(migs, ignoreMissing, targets, db))
        <==> DistinctVersions(Pending(migs, db.table, None))
  {
    if DistinctVersions(Pending(migs, db.table, None)) {
      forall targets ensures StagingAgrees(migs, ignoreMissing, targets, db) {
        StagedRunsAgree(migs, ignoreMissing, targets, db);
      }
    } else {
      TopStageDisagrees(migs, ignoreMissing, top, db);
    }
  }
}
