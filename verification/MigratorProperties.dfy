/** What every run of the migrator keeps, and what a run followed by `undo` restores. */
module MigratorProperties {
  import opened Basics
  import opened Migrations
  import opened Migrator

  // ------------------------------------------------------------------ reference definitions

  /** The schema after the scripts of `ms`, if all of them succeed. */
  function After<S>(schema: S, ms: seq<Change<S>>): Option<S> {
    if ms == [] then Some(schema)
    else
      var before := After(schema, ms[..|ms| - 1]);
      if before.None? then None else ms[|ms| - 1].script(before.value)
  }

  // ------------------------------------------------------------------ prefixes

  lemma {:induction false} AfterPrepend<S>(schema: S, m: Change<S>, ms: seq<Change<S>>)
    ensures After(schema, [m] + ms) ==
            (var s := m.script(schema); if s.None? then None else After(s.value, ms))
  {
    var all := [m] + ms;
    if ms == [] {
      assert all[..0] == [];
    } else {
      assert all[..|all| - 1] == [m] + ms[..|ms| - 1];
      AfterPrepend(schema, m, ms[..|ms| - 1]);
    }
  }

  /** `after` is what `db` becomes by exactly the migrations `done`, none of which was recorded before. */
  ghost predicate Applied<S>(db: Db<S>, done: seq<Change<S>>, after: Db<S>) {
    && After(db.schema, done) == Some(after.schema)
    && after.table == Record(db.table, done)
    && DistinctVersions(done)
    && forall i :: 0 <= i < |done| ==> done[i].version !in db.table
  }

  lemma AppliedPrepend<S>(db: Db<S>, m: Change<S>, rest: seq<Change<S>>, after: Db<S>)
    requires Apply(db, m).error.None? && Applied(Apply(db, m).db, rest, after)
    ensures Applied(db, [m] + rest, after)
  {
    AfterPrepend(db.schema, m, rest);
    RecordPrepend(db.table, m, rest);
    forall i | 0 <= i < |rest| ensures rest[i].version != m.version && rest[i].version !in db.table {
      assert rest[i].version !in Apply(db, m).db.table;
    }
  }

  lemma PrefixPrepend<S>(db: Db<S>, m: Change<S>, rest: seq<Change<S>>, k: nat, after: Db<S>)
    requires k <= |rest| && Apply(db, m).error.None? && Applied(Apply(db, m).db, rest[..k], after)
    ensures Applied(db, ([m] + rest)[..k + 1], after)
  {
    assert ([m] + rest)[..k + 1] == [m] + rest[..k];
    AppliedPrepend(db, m, rest[..k], after);
  }

  lemma NothingApplied<S>(db: Db<S>, pending: seq<Change<S>>)
    ensures Applied(db, pending[..0], db)
  {
  }

  /** The loop stops at the first migration: it was changed, or it cannot be applied. */
  predicate StopsFirst<S>(migs: seq<Change<S>>, applied: Table, target: Option<int>, db: Db<S>)
    requires migs != []
  {
    var m := migs[0];
    !m.IsDown() &&
    if m.version in applied then m.checksum != applied[m.version].checksum
    else !Beyond(target, m.version) && Apply(db, m).error.Some?
  }

  predicate NotPending<S>(m: Change<S>, applied: Table, target: Option<int>) {
    m.IsDown() || m.version in applied || Beyond(target, m.version)
  }

  lemma StopsAtOnce<S>(migs: seq<Change<S>>, applied: Table, target: Option<int>, db: Db<S>)
    requires migs == [] || StopsFirst(migs, applied, target, db)
    ensures RunLoop(migs, applied, target, db).db == db
    ensures migs != [] ==> RunLoop(migs, applied, target, db).error.Some?
  {
  }

  lemma PassesFirst<S>(migs: seq<Change<S>>, applied: Table, target: Option<int>, db: Db<S>)
    requires migs != [] && !StopsFirst(migs, applied, target, db) && NotPending(migs[0], applied, target)
    ensures Pending(migs, applied, target) == Pending(migs[1..], applied, target)
    ensures RunLoop(migs, applied, target, db) == RunLoop(migs[1..], applied, target, db)
  {
  }

  lemma AppliesFirst<S>(migs: seq<Change<S>>, applied: Table, target: Option<int>, db: Db<S>)
    requires migs != [] && !StopsFirst(migs, applied, target, db) && !NotPending(migs[0], applied, target)
    ensures Apply(db, migs[0]).error.None?
    ensures Pending(migs, applied, target) == [migs[0]] + Pending(migs[1..], applied, target)
    ensures RunLoop(migs, applied, target, db) == RunLoop(migs[1..], applied, target, Apply(db, migs[0]).db)
  {
  }

  /** A changed migration stops every run of the loop. */
  lemma {:induction false} MismatchStops<S>(migs: seq<Change<S>>, applied: Table, target: Option<int>, db: Db<S>)
    ensures Mismatch(migs, applied).Some? ==> RunLoop(migs, applied, target, db).error.Some?
    decreases |migs|
  {
    if migs != [] {
      MismatchStops(migs[1..], applied, target, db);
      MismatchStops(migs[1..], applied, target, Apply(db, migs[0]).db);
    }
  }

  /**
   * Whether a run succeeds or stops at an error, some ascending prefix of the pending migrations has
   * been applied: the schema is that prefix's, and the table is the old one plus that prefix's rows.
   * It succeeds only if nothing is left over.
   */
  lemma {:induction false} RunAppliesPrefix<S>(migs: seq<Change<S>>, applied: Table, target: Option<int>, db: Db<S>)
    returns (n: nat)
    ensures n <= |Pending(migs, applied, target)|
    ensures Applied(db, Pending(migs, applied, target)[..n], RunLoop(migs, applied, target, db).db)
    ensures RunLoop(migs, applied, target, db).error.None? ==> n == |Pending(migs, applied, target)|
    decreases |migs|
  {
    n := 0;
    if migs == [] || StopsFirst(migs, applied, target, db) {
      StopsAtOnce(migs, applied, target, db);
      NothingApplied(db, Pending(migs, applied, target));
    } else if NotPending(migs[0], applied, target) {
      PassesFirst(migs, applied, target, db);
      n := RunAppliesPrefix(migs[1..], applied, target, db);
    } else {
      AppliesFirst(migs, applied, target, db);
      var k := RunAppliesPrefix(migs[1..], applied, target, Apply(db, migs[0]).db);
      n := k + 1;
      PrefixPrepend(db, migs[0], Pending(migs[1..], applied, target), k, RunLoop(migs, applied, target, db).db);
    }
  }

  predicate ChangedWith<S>(m: Change<S>, applied: Table, error: Error) {
    ChecksumDiffers(m, applied) && error == VersionMismatch(m.version)
  }

  /** Why a loop that has applied `done` stops: a changed migration, or the next one cannot be applied. */
  predicate StopsFor<S>(migs: seq<Change<S>>, applied: Table, after: Db<S>, next: seq<Change<S>>, error: Error) {
    || (exists i :: 0 <= i < |migs| && ChangedWith(migs[i], applied, error))
    || (next != [] &&
        var m := next[0];
        if m.script(after.schema).None? then error == ExecuteMigration(m.version)
        else m.version in after.table && error == DuplicateVersion(m.version))
  }

  /** The error is that of the migration at which the loop stopped, and says what was wrong with it. */
  lemma {:induction false} RunStopsFor<S>(migs: seq<Change<S>>, applied: Table, target: Option<int>, db: Db<S>)
    returns (n: nat)
    requires RunLoop(migs, applied, target, db).error.Some?
    ensures n <= |Pending(migs, applied, target)|
    ensures var o := RunLoop(migs, applied, target, db);
            StopsFor(migs, applied, o.db, Pending(migs, applied, target)[n..], o.error.value)
    decreases |migs|
  {
    n := 0;
    if StopsFirst(migs, applied, target, db) {
      FirstStopsFor(migs, applied, target, db);
    } else if NotPending(migs[0], applied, target) {
      PassesFirst(migs, applied, target, db);
      n := RunStopsFor(migs[1..], applied, target, db);
      StopsForTail(migs, applied, RunLoop(migs, applied, target, db), Pending(migs, applied, target)[n..]);
    } else {
      AppliesFirst(migs, applied, target, db);
      var k := RunStopsFor(migs[1..], applied, target, Apply(db, migs[0]).db);
      var rest := Pending(migs[1..], applied, target);
      n := k + 1;
      DropOneMore(migs[0], rest, k);
      StopsForTail(migs, applied, RunLoop(migs, applied, target, db), rest[k..]);
    }
  }

  lemma DropOneMore<S>(m: Change<S>, rest: seq<Change<S>>, k: nat)
    requires k <= |rest|
    ensures ([m] + rest)[k + 1..] == rest[k..]
  {
  }

  lemma FirstStopsFor<S>(migs: seq<Change<S>>, applied: Table, target: Option<int>, db: Db<S>)
    requires migs != [] && StopsFirst(migs, applied, target, db)
    ensures var o := RunLoop(migs, applied, target, db);
            && o.error.Some?
            && StopsFor(migs, applied, o.db, Pending(migs, applied, target)[0..], o.error.value)
  {
    if migs[0].version in applied {
      assert ChangedWith(migs[0], applied, VersionMismatch(migs[0].version));
    } else {
      assert Pending(migs, applied, target)[0..][0] == migs[0];
    }
  }

  lemma StopsForTail<S>(migs: seq<Change<S>>, applied: Table, o: Outcome<S>, next: seq<Change<S>>)
    requires migs != [] && o.error.Some? && StopsFor(migs[1..], applied, o.db, next, o.error.value)
    ensures StopsFor(migs, applied, o.db, next, o.error.value)
  {
    if i :| 0 <= i < |migs| - 1 && ChangedWith(migs[1..][i], applied, o.error.value) {
      assert migs[i + 1] == migs[1..][i];
    }
  }

  /**
   * The loop succeeds if and only if no applied migration was changed, no two pending ones share a
   * version, and the pending scripts succeed one after the other.
   */
  lemma RunSucceedsIff<S>(migs: seq<Change<S>>, target: Option<int>, db: Db<S>)
    ensures RunLoop(migs, db.table, target, db).error.None? <==>
            && ChecksumsMatch(migs, db.table)
            && DistinctVersions(Pending(migs, db.table, target))
            && After(db.schema, Pending(migs, db.table, target)).Some?
  {
    var pending := Pending(migs, db.table, target);
    var n := RunAppliesPrefix(migs, db.table, target, db);
    MismatchIff(migs, db.table);
    MismatchStops(migs, db.table, target, db);
    assert pending[..|pending|] == pending;
    if ChecksumsMatch(migs, db.table) && DistinctVersions(pending) && After(db.schema, pending).Some? {
      RunSucceeds(migs, db.table, target, db);
    }
  }

  /** The scripts succeed in order, and none of the versions is taken. */
  predicate Runnable<S>(db: Db<S>, pending: seq<Change<S>>) {
    && DistinctVersions(pending) && After(db.schema, pending).Some?
    && forall i :: 0 <= i < |pending| ==> pending[i].version !in db.table
  }

  lemma RunnableTail<S>(db: Db<S>, m: Change<S>, rest: seq<Change<S>>)
    requires Runnable(db, [m] + rest)
    ensures Apply(db, m).error.None? && Runnable(Apply(db, m).db, rest)
  {
    var all := [m] + rest;
    assert all[0] == m;
    AfterPrepend(db.schema, m, rest);
    forall i | 0 <= i < |rest| ensures rest[i].version !in db.table && rest[i].version != m.version {
      assert rest[i] == all[i + 1];
    }
    forall i, j | 0 <= i < j < |rest| ensures rest[i].version != rest[j].version {
      assert rest[i] == all[i + 1] && rest[j] == all[j + 1];
    }
  }

  lemma {:induction false} RunSucceeds<S>(migs: seq<Change<S>>, applied: Table, target: Option<int>, db: Db<S>)
    requires Mismatch(migs, applied).None? && Runnable(db, Pending(migs, applied, target))
    ensures RunLoop(migs, applied, target, db).error.None?
    decreases |migs|
  {
    if migs != [] {
      var m := migs[0];
      if m.IsDown() || m.version in applied || Beyond(target, m.version) {
        RunSucceeds(migs[1..], applied, target, db);
      } else {
        RunnableTail(db, m, Pending(migs[1..], applied, target));
        RunSucceeds(migs[1..], applied, target, Apply(db, m).db);
      }
    }
  }

  /** Every migration that is not a down script is recorded with its own checksum. */
  predicate AllRecorded<S>(migs: seq<Change<S>>, table: Table) {
    forall i :: 0 <= i < |migs| && !migs[i].IsDown()
      ==> migs[i].version in table && table[migs[i].version].checksum == migs[i].checksum
  }

  lemma {:induction false} NothingPending<S>(migs: seq<Change<S>>, applied: Table, target: Option<int>, db: Db<S>)
    requires AllRecorded(migs, applied)
    ensures RunLoop(migs, applied, target, db) == Outcome(db, None)
    decreases |migs|
  {
    if migs != [] {
      assert migs[0] in migs;
      NothingPending(migs[1..], applied, target, db);
    }
  }

  /** A successful run applies all of the pending migrations, and leaves a table that the next command accepts. */
  lemma AfterRun<S>(migs: seq<Change<S>>, ignoreMissing: bool, db: Db<S>)
    requires Run(migs, ignoreMissing, db).error.None?
    ensures Applied(db, Pending(migs, db.table, None), Run(migs, ignoreMissing, db).db)
    ensures Refusal(migs, ignoreMissing, Run(migs, ignoreMissing, db).db.table).None?
  {
    var pending := Pending(migs, db.table, None);
    var n := RunAppliesPrefix(migs, db.table, None, db);
    assert pending[..n] == pending;
    StillAccepted(migs, ignoreMissing, db.table, pending);
  }

  lemma RunRecords<S>(migs: seq<Change<S>>, db: Db<S>, after: Db<S>)
    requires ChecksumsMatch(migs, db.table) && Applied(db, Pending(migs, db.table, None), after)
    ensures AllRecorded(migs, after.table)
  {
    var pending := Pending(migs, db.table, None);
    RecordLookup(db.table, pending);
    forall i | 0 <= i < |migs| && !migs[i].IsDown()
      ensures migs[i].version in after.table && after.table[migs[i].version].checksum == migs[i].checksum
    {
      if migs[i].version !in db.table {
        PendingHas(migs, db.table, None, i);
        var j :| 0 <= j < |pending| && pending[j] == migs[i];
      }
    }
  }

  /** After a successful run everything is recorded, and running again succeeds and changes nothing. */
  lemma SecondRunDoesNothing<S>(migs: seq<Change<S>>, ignoreMissing: bool, db: Db<S>)
    requires Run(migs, ignoreMissing, db).error.None?
    ensures var after := Run(migs, ignoreMissing, db).db;
            AllRecorded(migs, after.table) && Run(migs, ignoreMissing, after) == Outcome(after, None)
  {
    var after := Run(migs, ignoreMissing, db).db;
    RunSucceedsIff(migs, None, db);
    AfterRun(migs, ignoreMissing, db);
    RunRecords(migs, db, after);
    NothingPending(migs, after.table, None, after);
  }

  /** Recording migrations of the migrator's own does not make the next run refuse. */
  lemma StillAccepted<S>(migs: seq<Change<S>>, ignoreMissing: bool, table: Table, done: seq<Change<S>>)
    requires Refusal(migs, ignoreMissing, table).None?
    requires DistinctVersions(done) && forall i :: 0 <= i < |done| ==> done[i] in migs && done[i].version !in table
    ensures Refusal(migs, ignoreMissing, Record(table, done)).None?
  {
    var after := Record(table, done);
    RecordKeys(table, done);
    RecordLookup(table, done);
    forall v | v in after ensures after[v].success {
      if v in table {
        assert v !in DirtyVersions(table);
      } else {
        var i :| 0 <= i < |done| && done[i].version == v;
      }
    }
    assert DirtyVersions(after) == {};
    if !ignoreMissing {
      forall v | v in after ensures v in Versions(migs) {
        if v in table {
          assert v !in table.Keys - Versions(migs);
        } else {
          var i :| 0 <= i < |done| && done[i].version == v;
          var j :| 0 <= j < |migs| && migs[j] == done[i];
        }
      }
      assert after.Keys - Versions(migs) == {};
    }
  }
}
