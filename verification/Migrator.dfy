/**
 * `Migrator::run_direct` and `undo`, and the CLI's targeted `run` and `revert`, on a driver whose
 * migrations are transactional (PostgreSQL): a script and its row take effect together or not at all.
 */
module Migrator {
  import opened Basics
  import opened Migrations

  /** A script maps a schema to the next one, or fails. */
  type Script<!S> = S -> Option<S>

  type Change<!S> = Migration<Script<S>>

  datatype Db<S> = Db(table: Table, schema: S)

  datatype Outcome<S> = Outcome(db: Db<S>, error: Option<Error>)

  // ------------------------------------------------------------------ one migration

  /** `apply`: the script, then the INSERT, in one transaction. */
  function Apply<S>(db: Db<S>, m: Change<S>): Outcome<S> {
    var next := m.script(db.schema);
    if next.None? then Outcome(db, Some(ExecuteMigration(m.version)))
    else if m.version in db.table then Outcome(db, Some(DuplicateVersion(m.version)))
    else Outcome(Db(db.table[m.version := Row(m.checksum, true)], next.value), None)
  }

  /** `revert`: the script, then the DELETE, in one transaction. */
  function Revert<S>(db: Db<S>, m: Change<S>): Outcome<S> {
    var next := m.script(db.schema);
    if next.None? then Outcome(db, Some(ExecuteMigration(m.version)))
    else Outcome(Db(db.table - {m.version}, next.value), None)
  }

  // ------------------------------------------------------------------ the loops

  /** The loop of `run`: `applied` is the list read before it, `target` is the CLI's. */
  function RunLoop<S>(migs: seq<Change<S>>, applied: Table, target: Option<int>, db: Db<S>): Outcome<S> {
    if migs == [] then Outcome(db, None)
    else
      var m := migs[0];
      if m.IsDown() then RunLoop(migs[1..], applied, target, db)
      else if m.version in applied then
        if m.checksum != applied[m.version].checksum then Outcome(db, Some(VersionMismatch(m.version)))
        else RunLoop(migs[1..], applied, target, db)
      else if Beyond(target, m.version) then RunLoop(migs[1..], applied, target, db)
      else
        var o := Apply(db, m);
        if o.error.Some? then o else RunLoop(migs[1..], applied, target, o.db)
  }

  /** The loop of `undo`, over the list in reverse. */
  function UndoLoop<S>(migs: seq<Change<S>>, applied: Table, target: int, db: Db<S>): Outcome<S> {
    if migs == [] then Outcome(db, None)
    else
      var m := migs[|migs| - 1];
      var rest := migs[..|migs| - 1];
      if !m.IsDown() || m.version !in applied || m.version <= target then UndoLoop(rest, applied, target, db)
      else
        var o := Revert(db, m);
        if o.error.Some? then o else UndoLoop(rest, applied, target, o.db)
  }

  ghost function Run<S>(migs: seq<Change<S>>, ignoreMissing: bool, db: Db<S>): Outcome<S> {
    var refused := Refusal(migs, ignoreMissing, db.table);
    if refused.Some? then Outcome(db, refused) else RunLoop(migs, db.table, None, db)
  }

  ghost function Undo<S>(migs: seq<Change<S>>, ignoreMissing: bool, target: int, db: Db<S>): Outcome<S> {
    var refused := Refusal(migs, ignoreMissing, db.table);
    if refused.Some? then Outcome(db, refused) else UndoLoop(migs, db.table, target, db)
  }

  // ------------------------------------------------------------------ the code

  class Database<S> {
    var table: Table
    var schema: S

    constructor (table: Table, schema: S)
      ensures Value() == Db(table, schema)
    {
      this.table, this.schema := table, schema;
    }

    ghost function Value(): Db<S>
      reads this
    {
      Db(table, schema)
    }

    method ApplyMigration(m: Change<S>) returns (error: Option<Error>)
      modifies this
      ensures Outcome(Value(), error) == Apply(old(Value()), m)
    {
      var next := m.script(schema);
      if next.None? {
        return Some(ExecuteMigration(m.version));
      }
      if m.version in table {
        return Some(DuplicateVersion(m.version));
      }
      schema, table := next.value, table[m.version := Row(m.checksum, true)];
      return None;
    }

    method RevertMigration(m: Change<S>) returns (error: Option<Error>)
      modifies this
      ensures Outcome(Value(), error) == Revert(old(Value()), m)
    {
      var next := m.script(schema);
      if next.None? {
        return Some(ExecuteMigration(m.version));
      }
      schema, table := next.value, table - {m.version};
      return None;
    }

    method Check(migs: seq<Change<S>>, ignoreMissing: bool) returns (error: Option<Error>)
      ensures error == Refusal(migs, ignoreMissing, table)
    {
      var dirty := DirtyVersion(table);
      if dirty.Some? {
        return Some(Dirty(dirty.value));
      }
      var missing := ValidateApplied(table, migs, ignoreMissing);
      return if missing.Some? then Some(VersionMissing(missing.value)) else None;
    }

    /** The loop shared by `run_direct` (no target, never dry) and the CLI's `run`. */
    method ApplyPending(migs: seq<Change<S>>, dryRun: bool, target: Option<int>) returns (error: Option<Error>)
      modifies this
      ensures !dryRun ==> Outcome(Value(), error) == RunLoop(migs, old(table), target, old(Value()))
      ensures dryRun ==> Value() == old(Value()) && error == Mismatch(migs, table)
    {
      var applied := table;
      for i := 0 to |migs|
        invariant !dryRun ==>
                  RunLoop(migs[i..], applied, target, Value()) == RunLoop(migs, applied, target, old(Value()))
        invariant dryRun ==> Value() == old(Value()) && Mismatch(migs[i..], applied) == Mismatch(migs, applied)
      {
        var m := migs[i];
        assert migs[i..][0] == m && migs[i..][1..] == migs[i + 1..];
        if m.IsDown() {
          continue;
        }
        if m.version in applied {
          if m.checksum != applied[m.version].checksum {
            return Some(VersionMismatch(m.version));
          }
        } else if !dryRun && !Beyond(target, m.version) {
          error := ApplyMigration(m);
          if error.Some? {
            return;
          }
        }
      }
      return None;
    }

    /** `Migrator::run_direct` */
    method RunDirect(migs: seq<Change<S>>, ignoreMissing: bool) returns (error: Option<Error>)
      modifies this
      ensures Outcome(Value(), error) == Run(migs, ignoreMissing, old(Value()))
    {
      error := Check(migs, ignoreMissing);
      if error.None? {
        error := ApplyPending(migs, false, None);
      }
    }

    /** `Migrator::undo` */
    method UndoTo(migs: seq<Change<S>>, ignoreMissing: bool, target: int) returns (error: Option<Error>)
      modifies this
      ensures Outcome(Value(), error) == Undo(migs, ignoreMissing, target, old(Value()))
    {
      error := Check(migs, ignoreMissing);
      if error.Some? {
        return;
      }
      var applied := table;
      var i := |migs|;
      assert migs[..i] == migs;
      while i > 0
        invariant 0 <= i <= |migs|
        invariant UndoLoop(migs[..i], applied, target, Value()) == UndoLoop(migs, applied, target, old(Value()))
      {
        i := i - 1;
        var m := migs[i];
        assert migs[..i + 1][..i] == migs[..i];
        if m.IsDown() && m.version in applied && m.version > target {
          error := RevertMigration(m);
          if error.Some? {
            return;
          }
        }
      }
      return None;
    }
  }
}
