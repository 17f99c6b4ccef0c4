/**
 * The MySQL driver's `apply` and `revert`. Data definition commits implicitly, so a migration cannot
 * be one transaction: a row is first written with `success = FALSE` and only finished at the end.
 * The process may die, or a statement fail, between any two steps of the server.
 */
module MySqlMigrate {
  import opened Basics
  import opened Migrations

  /** A data definition statement commits the open transaction before it takes effect. */
  datatype Statement = Ddl | Dml

  type Change = Migration<seq<Statement>>

  /** Statement `index` of a script of `len` statements took effect. */
  datatype Event = Event(version: int, up: bool, index: nat, len: nat)

  /** The migrations table, and every script statement that took effect, oldest first. */
  datatype Db = Db(table: Table, log: seq<Event>)

  function Events(m: Change, n: nat): (es: seq<Event>)
    ensures |es| == n
    ensures forall i :: 0 <= i < n ==> es[i] == Event(m.version, !m.IsDown(), i, |m.script|)
  {
    seq(n, i requires 0 <= i < n => Event(m.version, !m.IsDown(), i, |m.script|))
  }

  // ------------------------------------------------------------------ steps of the server

  function ScriptSteps(script: seq<Statement>): nat {
    if script == [] then 0
    else ScriptSteps(script[..|script| - 1]) + if script[|script| - 1].Ddl? then 2 else 1
  }

  /** INSERT, the script, UPDATE, COMMIT, and the execution time. */
  function ApplySteps(m: Change): nat {
    ScriptSteps(m.script) + 4
  }

  /** UPDATE, the script, DELETE and COMMIT. */
  function RevertSteps(m: Change): nat {
    ScriptSteps(m.script) + 3
  }

  function Sum(steps: Change -> nat, ms: seq<Change>): nat {
    if ms == [] then 0 else steps(ms[0]) + Sum(steps, ms[1..])
  }

  lemma {:induction false} SumSplit(steps: Change -> nat, a: seq<Change>, b: seq<Change>)
    ensures Sum(steps, a + b) == Sum(steps, a) + Sum(steps, b)
    decreases |a|
  {
    if a == [] {
      assert a + b == b;
    } else {
      assert (a + b)[1..] == a[1..] + b;
      SumSplit(steps, a[1..], b);
    }
  }

  // ------------------------------------------------------------------ what one migration may leave behind

  function Applied(db: Db, m: Change): Db {
    Db(db.table[m.version := Row(m.checksum, true)], db.log + Events(m, |m.script|))
  }

  function Reverted(db: Db, m: Change): Db {
    Db(db.table - {m.version}, db.log + Events(m, |m.script|))
  }

  predicate OthersKept(table: Table, after: Table, v: int) {
    table - {v} == after - {v}
  }

  /** `apply` can succeed, given time. */
  predicate Appliable(db: Db, m: Change) {
    m.version !in db.table && m.script != []
  }

  /**
   * `apply` stopped with `n` statements of the script durable: a durable statement has a durable row,
   * and that row does not say success.
   */
  predicate ApplyStops(db: Db, after: Db, m: Change, n: nat) {
    var v := m.version;
    && n <= |m.script| && after.log == db.log + Events(m, n) && OthersKept(db.table, after.table, v)
    && if v in db.table then after == db
       else if v !in after.table then n == 0
       else after.table[v] == Row(m.checksum, false)
  }

  /** `left` of `budget` steps remain. The last one, for the execution time, may be all that is missing. */
  predicate ApplyEnds(db: Db, after: Db, m: Change, n: nat, done: bool, budget: nat, left: nat) {
    if done then Appliable(db, m) && budget == left + ApplySteps(m) && after == Applied(db, m)
    else
      && !(Appliable(db, m) && budget >= ApplySteps(m))
      && (ApplyStops(db, after, m, n) || (Appliable(db, m) && after == Applied(db, m)))
  }

  /**
   * `revert` stopped with `n` statements of the script durable: while the version is recorded as a
   * success none is, and the row is still there unless it was not there before.
   */
  predicate RevertStops(db: Db, after: Db, m: Change, n: nat) {
    var v := m.version;
    && n <= |m.script| && after.log == db.log + Events(m, n) && OthersKept(db.table, after.table, v)
    && if v !in db.table then v !in after.table
       else after == db || (v in after.table && after.table[v] == Row(db.table[v].checksum, false))
  }

  predicate RevertEnds(db: Db, after: Db, m: Change, n: nat, done: bool, budget: nat, left: nat) {
    if done then m.script != [] && budget == left + RevertSteps(m) && after == Reverted(db, m)
    else
      && !(m.script != [] && budget >= RevertSteps(m))
      && (RevertStops(db, after, m, n) || (m.script != [] && after == Reverted(db, m)))
  }

  // ------------------------------------------------------------------ what a command may leave behind

  predicate NoneEmpty(ms: seq<Change>) {
    forall i :: 0 <= i < |ms| ==> ms[i].script != []
  }

  function Scripts(ms: seq<Change>): seq<Event> {
    if ms == [] then [] else Scripts(ms[..|ms| - 1]) + Events(ms[|ms| - 1], |ms[|ms| - 1].script|)
  }

  /** All of `ms` applied, first to last. */
  function AppliedAll(db: Db, ms: seq<Change>): Db {
    Db(Record(db.table, ms), db.log + Scripts(ms))
  }

  /** The migrations `done` are complete, and their steps are used up. */
  predicate Reached(start: Db, budget: nat, done: seq<Change>, now: Db, left: nat) {
    && now == AppliedAll(start, done) && DistinctVersions(done) && NoneEmpty(done)
    && budget == left + Sum(ApplySteps, done)
  }

  /**
   * The run stops at migration `i`: what was pending before it is complete and nothing before it was
   * changed, and it was changed itself or its `apply` ended without success.
   */
  predicate StopsAt(db: Db, after: Db, migs: seq<Change>, budget: nat, i: nat, n: nat, why: Option<Error>) {
    && i < |migs| && !migs[i].IsDown() && Mismatch(migs[..i], db.table).None?
    && var done := Pending(migs[..i], db.table, None);
       var before := AppliedAll(db, done);
       && budget >= Sum(ApplySteps, done) && DistinctVersions(done) && NoneEmpty(done)
       && if migs[i].version in db.table
          then
            && migs[i].checksum != db.table[migs[i].version].checksum
            && why == Some(VersionMismatch(migs[i].version)) && after == before
          else why.None? && ApplyEnds(before, after, migs[i], n, false, budget - Sum(ApplySteps, done), 0)
  }

  datatype Result = Finished | Refused(error: Error) | Stopped(why: Option<Error>)

  /** A run has all it takes: nothing changed, distinct versions, no empty script, and time. */
  predicate CanFinish(db: Db, migs: seq<Change>, budget: nat) {
    var pending := Pending(migs, db.table, None);
    && ChecksumsMatch(migs, db.table) && DistinctVersions(pending) && NoneEmpty(pending)
    && budget >= Sum(ApplySteps, pending)
  }

  /**
   * How the loop of a run ends: it finishes exactly when it can, with all pending migrations
   * complete; otherwise it stops at the first migration that was changed or could not be applied.
   */
  ghost predicate LoopEnds(db: Db, after: Db, migs: seq<Change>, budget: nat, result: Result) {
    match result
    case Refused(_) => false
    case Finished => CanFinish(db, migs, budget) && after == AppliedAll(db, Pending(migs, db.table, None))
    case Stopped(why) => !CanFinish(db, migs, budget) && exists i, n :: StopsAt(db, after, migs, budget, i, n, why)
  }

  /** How `run_direct` ends: it is refused exactly when the table is, and then leaves it alone. */
  ghost predicate RunEnds(db: Db, after: Db, migs: seq<Change>, ignoreMissing: bool, budget: nat, result: Result) {
    var refusal := Refusal(migs, ignoreMissing, db.table);
    if refusal.Some? then result == Refused(refusal.value) && after == db
    else LoopEnds(db, after, migs, budget, result)
  }

  function Backwards(ds: seq<Change>): seq<Event> {
    if ds == [] then [] else Backwards(ds[1..]) + Events(ds[0], |ds[0].script|)
  }

  /** All of `ds` reverted, last to first. */
  function RevertedAll(db: Db, ds: seq<Change>): Db {
    Db(db.table - Versions(ds), db.log + Backwards(ds))
  }

  predicate Returned(start: Db, budget: nat, done: seq<Change>, now: Db, left: nat) {
    now == RevertedAll(start, done) && NoneEmpty(done) && budget == left + Sum(RevertSteps, done)
  }

  /** The down scripts after `k` are complete, and `revert` of this one ended without success. */
  predicate TurnsAt(db: Db, after: Db, downs: seq<Change>, budget: nat, k: nat, n: nat) {
    && k < |downs| && budget >= Sum(RevertSteps, downs[k + 1..])
    && var before, left := RevertedAll(db, downs[k + 1..]), budget - Sum(RevertSteps, downs[k + 1..]);
       Returned(db, budget, downs[k + 1..], before, left) && RevertEnds(before, after, downs[k], n, false, left, 0)
  }

  predicate CanUndo(downs: seq<Change>, budget: nat) {
    NoneEmpty(downs) && budget >= Sum(RevertSteps, downs)
  }

  ghost predicate BackEnds(db: Db, after: Db, downs: seq<Change>, budget: nat, result: Result) {
    match result
    case Refused(_) => false
    case Finished => CanUndo(downs, budget) && after == RevertedAll(db, downs)
    case Stopped(why) => !CanUndo(downs, budget) && why.None? && exists k, n :: TurnsAt(db, after, downs, budget, k, n)
  }

  /** How `undo` ends. */
  ghost predicate UndoEnds(
    db: Db, after: Db, migs: seq<Change>, ignoreMissing: bool, target: int, budget: nat, result: Result)
  {
    var refusal := Refusal(migs, ignoreMissing, db.table);
    if refusal.Some? then result == Refused(refusal.value) && after == db
    else BackEnds(db, after, Downs(migs, db.table, target), budget, result)
  }

  // ------------------------------------------------------------------ the code

  /** A connection to a server that stops for good when `budget` steps are used up. */
  class Session {
    var durable: Db
    var work: Db
    var inTx: bool
    var budget: nat

    ghost predicate Settled()
      reads this
    {
      !inTx && work == durable
    }

    constructor (db: Db, budget: nat)
      ensures Settled() && durable == db && this.budget == budget
    {
      durable, work, inTx, this.budget := db, db, false, budget;
    }

    /** The connection is lost, or the dropped transaction is rolled back. */
    method Lose()
      modifies this
      ensures Settled() && durable == old(durable) && budget == old(budget)
    {
      work, inTx := durable, false;
    }

    /** One step of the server: a change to the working state, durable at once outside a transaction. */
    method Change(next: Db) returns (alive: bool)
      requires !inTx ==> work == durable
      modifies this
      ensures alive == (old(budget) > 0)
      ensures alive ==>
                && work == next && inTx == old(inTx) && durable == (if inTx then old(durable) else next)
                && budget == old(budget) - 1
      ensures !alive ==> Settled() && durable == old(durable)
    {
      alive := budget > 0;
      if alive {
        budget := budget - 1;
        work := next;
        if !inTx {
          durable := next;
        }
      } else {
        Lose();
      }
    }

    /** COMMIT, and the commit implied by data definition. */
    method CommitWork() returns (alive: bool)
      requires !inTx ==> work == durable
      modifies this
      ensures alive == (old(budget) > 0)
      ensures alive ==> Settled() && durable == old(work) && budget == old(budget) - 1
      ensures !alive ==> Settled() && durable == old(durable)
    {
      alive := budget > 0;
      if alive {
        budget := budget - 1;
        durable, inTx := work, false;
      } else {
        Lose();
      }
    }

    /** Runs the script statement by statement; an empty script is an error. */
    method RunScript(m: Change) returns (alive: bool, ghost n: nat)
      requires !inTx ==> work == durable
      modifies this
      ensures alive <==> m.script != [] && old(budget) >= ScriptSteps(m.script)
      ensures n <= |m.script|
      ensures alive ==>
                && n == |m.script| && budget == old(budget) - ScriptSteps(m.script)
                && work == Db(old(work).table, old(work).log + Events(m, n))
                && durable == if inTx then old(durable) else work
      ensures !alive ==>
                && Settled()
                && if durable == old(durable) then n == 0
                   else durable == Db(old(work).table, old(work).log + Events(m, n))
    {
      n := 0;
      if m.script == [] {
        Lose();
        return false, 0;
      }
      assert old(work).log + Events(m, 0) == old(work).log;
      for i := 0 to |m.script|
        invariant n == i && old(budget) == budget + ScriptSteps(m.script[..i])
        invariant work == Db(old(work).table, old(work).log + Events(m, i))
        invariant durable == if inTx then old(durable) else work
      {
        StepsMore(m.script, i);
        if m.script[i].Ddl? {
          alive := CommitWork();
          if !alive {
            n := if durable == old(durable) then 0 else n;
            return;
          }
        }
        OneMore(old(work).log, m, i);
        alive := Change(Db(work.table, work.log + [Event(m.version, !m.IsDown(), i, |m.script|)]));
        if !alive {
          n := if durable == old(durable) then 0 else n;
          return;
        }
        n := n + 1;
      }
      assert m.script[..|m.script|] == m.script;
      alive := true;
    }

    /** `apply` */
    method Apply(m: Change) returns (done: bool, ghost n: nat)
      requires Settled()
      modifies this
      ensures Settled()
      ensures ApplyEnds(old(durable), durable, m, n, done, old(budget), budget)
    {
      var v := m.version;
      n := 0;
      assert durable.log + Events(m, 0) == durable.log;
      inTx := true;
      if v in work.table {
        Lose();
        return false, 0;
      }
      done := Change(Db(work.table[v := Row(m.checksum, false)], work.log));
      if !done {
        return;
      }
      done, n := RunScript(m);
      if !done {
        return;
      }
      done := Change(Db(work.table[v := Row(m.checksum, true)], work.log));
      if !done {
        n := if durable == old(durable) then 0 else n;
        return;
      }
      done := CommitWork();
      if !done {
        n := if durable == old(durable) then 0 else n;
        return;
      }
      // recording the execution time may fail as well
      done := Change(work);
    }

    /** `revert` */
    method Revert(m: Change) returns (done: bool, ghost n: nat)
      requires Settled()
      modifies this
      ensures Settled()
      ensures RevertEnds(old(durable), durable, m, n, done, old(budget), budget)
    {
      var v := m.version;
      n := 0;
      assert durable.log + Events(m, 0) == durable.log;
      inTx := true;
      var marked := if v in work.table then work.table[v := Row(work.table[v].checksum, false)] else work.table;
      done := Change(Db(marked, work.log));
      if !done {
        return;
      }
      done, n := RunScript(m);
      if !done {
        return;
      }
      done := Change(Db(work.table - {v}, work.log));
      if !done {
        n := if durable == old(durable) then 0 else n;
        return;
      }
      done := CommitWork();
      if !done {
        n := if durable == old(durable) then 0 else n;
      }
    }

    method Check(migs: seq<Change>, ignoreMissing: bool) returns (error: Option<Error>)
      ensures error == Refusal(migs, ignoreMissing, durable.table)
    {
      var dirty := DirtyVersion(durable.table);
      if dirty.Some? {
        return Some(Dirty(dirty.value));
      }
      var missing := ValidateApplied(durable.table, migs, ignoreMissing);
      return if missing.Some? then Some(VersionMissing(missing.value)) else None;
    }

    /** `Migrator::run_direct` */
    method RunDirect(migs: seq<Change>, ignoreMissing: bool) returns (result: Result)
      requires Settled()
      modifies this
      ensures Settled()
      ensures RunEnds(old(durable), durable, migs, ignoreMissing, old(budget), result)
    {
      var error := Check(migs, ignoreMissing);
      if error.Some? {
        return Refused(error.value);
      }
      result := ApplyPending(migs);
    }

    /** The loop of `run_direct`. */
    method ApplyPending(migs: seq<Change>) returns (result: Result)
      requires Settled()
      modifies this
      ensures Settled()
      ensures LoopEnds(old(durable), durable, migs, old(budget), result)
    {
      var applied := durable.table;
      for i := 0 to |migs|
        invariant Settled() && RunAt(old(durable), old(budget), migs, i, durable, budget)
      {
        var m := migs[i];
        if m.IsDown() {
          Skip(old(durable), old(budget), migs, i, durable, budget);
          continue;
        }
        if m.version in applied {
          if m.checksum != applied[m.version].checksum {
            Changed(old(durable), old(budget), migs, i, durable, budget);
            return Stopped(Some(VersionMismatch(m.version)));
          }
          Skip(old(durable), old(budget), migs, i, durable, budget);
        } else {
          ghost var before, left := durable, budget;
          var ok, n := Apply(m);
          if !ok {
            Failed(old(durable), old(budget), migs, i, before, left, durable, n);
            return Stopped(None);
          }
          Advanced(old(durable), old(budget), migs, i, before, left);
        }
      }
      AtTheEnd(old(durable), old(budget), migs, durable, budget);
      return Finished;
    }

    /** `Migrator::undo` */
    method Undo(migs: seq<Change>, ignoreMissing: bool, target: int) returns (result: Result)
      requires Settled()
      modifies this
      ensures Settled()
      ensures UndoEnds(old(durable), durable, migs, ignoreMissing, target, old(budget), result)
    {
      var error := Check(migs, ignoreMissing);
      if error.Some? {
        return Refused(error.value);
      }
      result := RevertAbove(migs, target);
    }

    /** The loop of `undo`. */
    method RevertAbove(migs: seq<Change>, target: int) returns (result: Result)
      requires Settled()
      modifies this
      ensures Settled()
      ensures BackEnds(old(durable), durable, Downs(migs, old(durable).table, target), old(budget), result)
    {
      var applied := durable.table;
      ghost var done: seq<Change> := [];
      var i := |migs|;
      assert migs[..i] == migs;
      while i > 0
        invariant 0 <= i <= |migs|
        invariant Settled() && BackAt(old(durable), old(budget), migs, target, i, done, durable, budget)
      {
        i := i - 1;
        var m := migs[i];
        if m.IsDown() && m.version in applied && m.version > target {
          ghost var before, left := durable, budget;
          var ok, n := Revert(m);
          if !ok {
            FailedBack(old(durable), old(budget), migs, target, i, done, before, left, durable, n);
            return Stopped(None);
          }
          AdvancedBack(old(durable), old(budget), migs, target, i, done, before, left);
          done := [m] + done;
        } else {
          SkipBack(old(durable), old(budget), migs, target, i, done, durable, budget);
        }
      }
      AtTheStart(old(durable), old(budget), migs, target, done, durable, budget);
      return Finished;
    }
  }

  lemma StepsMore(script: seq<Statement>, i: nat)
    requires i < |script|
    ensures ScriptSteps(script[..i + 1]) == ScriptSteps(script[..i]) + (if script[i].Ddl? then 2 else 1)
    ensures ScriptSteps(script[..i + 1]) <= ScriptSteps(script)
    decreases |script| - i
  {
    assert script[..i + 1][..i] == script[..i];
    if i + 1 < |script| {
      StepsMore(script, i + 1);
    } else {
      assert script[..i + 1] == script;
    }
  }

  lemma OneMore(log: seq<Event>, m: Change, i: nat)
    ensures log + Events(m, i + 1) == log + Events(m, i) + [Event(m.version, !m.IsDown(), i, |m.script|)]
  {
    assert Events(m, i + 1) == Events(m, i) + [Event(m.version, !m.IsDown(), i, |m.script|)];
  }

  // ------------------------------------------------------------------ the loop of a run

  lemma AppliedNext(db: Db, ms: seq<Change>, m: Change)
    ensures AppliedAll(db, ms + [m]) == Applied(AppliedAll(db, ms), m)
  {
    assert (ms + [m])[..|ms|] == ms;
    assert db.log + Scripts(ms) + Events(m, |m.script|) == db.log + (Scripts(ms) + Events(m, |m.script|));
  }

  lemma ReachedNext(start: Db, budget: nat, done: seq<Change>, now: Db, left: nat, m: Change)
    requires Reached(start, budget, done, now, left) && Appliable(now, m) && left >= ApplySteps(m)
    ensures Reached(start, budget, done + [m], Applied(now, m), left - ApplySteps(m))
  {
    AppliedNext(start, done, m);
    SumSplit(ApplySteps, done, [m]);
    RecordKeys(start.table, done);
    forall i | 0 <= i < |done| ensures done[i].version != m.version {
      assert done[i].version in Versions(done);
    }
  }

  /** An `apply` that failed means that the run could not have finished. */
  lemma CannotFinish(start: Db, budget: nat, done: seq<Change>, now: Db, left: nat, m: Change, rest: seq<Change>)
    requires Reached(start, budget, done, now, left) && m.version !in start.table
    requires !(Appliable(now, m) && left >= ApplySteps(m))
    ensures !(DistinctVersions(done + [m] + rest) && NoneEmpty(done + [m] + rest)
              && budget >= Sum(ApplySteps, done + [m] + rest))
  {
    var all := done + [m] + rest;
    SumSplit(ApplySteps, done + [m], rest);
    SumSplit(ApplySteps, done, [m]);
    if m.script != [] && m.version in now.table {
      NotDistinct(start, done, m, rest);
    }
    assert all[|done|] == m;
  }

  lemma NotDistinct(start: Db, done: seq<Change>, m: Change, rest: seq<Change>)
    requires m.version !in start.table && m.version in Record(start.table, done)
    ensures !DistinctVersions(done + [m] + rest)
  {
    RecordKeys(start.table, done);
    var i :| 0 <= i < |done| && done[i].version == m.version;
    var all := done + [m] + rest;
    assert all[i] == done[i] && all[|done|] == m;
  }

  /** Before migration `i`: what was pending before it is complete, and nothing was changed so far. */
  predicate RunAt(start: Db, budget: nat, migs: seq<Change>, i: nat, now: Db, left: nat) {
    && i <= |migs| && Reached(start, budget, Pending(migs[..i], start.table, None), now, left)
    && Mismatch(migs[..i], start.table).None?
  }

  lemma {:induction false} PendingSplit(a: seq<Change>, b: seq<Change>, table: Table)
    ensures Pending(a + b, table, None) == Pending(a, table, None) + Pending(b, table, None)
    decreases |a|
  {
    if a == [] {
      assert a + b == b;
    } else {
      assert (a + b)[1..] == a[1..] + b;
      PendingSplit(a[1..], b, table);
    }
  }

  lemma {:induction false} MismatchSplit(a: seq<Change>, b: seq<Change>, table: Table)
    ensures Mismatch(a + b, table) == if Mismatch(a, table).Some? then Mismatch(a, table) else Mismatch(b, table)
    decreases |a|
  {
    if a == [] {
      assert a + b == b;
    } else {
      assert (a + b)[1..] == a[1..] + b;
      MismatchSplit(a[1..], b, table);
    }
  }

  /** What one more migration adds to the pending ones. */
  lemma PendingNext(migs: seq<Change>, i: nat, table: Table)
    requires i < |migs|
    ensures migs[i].IsDown() || migs[i].version in table ==>
              Pending(migs[..i + 1], table, None) == Pending(migs[..i], table, None)
    ensures !migs[i].IsDown() && migs[i].version !in table ==>
              Pending(migs[..i + 1], table, None) == Pending(migs[..i], table, None) + [migs[i]]
  {
    assert migs[..i + 1] == migs[..i] + [migs[i]];
    PendingSplit(migs[..i], [migs[i]], table);
    assert Pending(migs[..i], table, None) + [] == Pending(migs[..i], table, None);
  }

  lemma MismatchNext(migs: seq<Change>, i: nat, table: Table)
    requires i < |migs| && Mismatch(migs[..i], table).None?
    requires migs[i].IsDown() || migs[i].version !in table || migs[i].checksum == table[migs[i].version].checksum
    ensures Mismatch(migs[..i + 1], table).None?
  {
    assert migs[..i + 1] == migs[..i] + [migs[i]];
    MismatchSplit(migs[..i], [migs[i]], table);
  }

  lemma Skip(start: Db, budget: nat, migs: seq<Change>, i: nat, now: Db, left: nat)
    requires RunAt(start, budget, migs, i, now, left) && i < |migs|
    requires migs[i].IsDown()
             || (migs[i].version in start.table && migs[i].checksum == start.table[migs[i].version].checksum)
    ensures RunAt(start, budget, migs, i + 1, now, left)
  {
    PendingNext(migs, i, start.table);
    MismatchNext(migs, i, start.table);
  }

  lemma Advanced(start: Db, budget: nat, migs: seq<Change>, i: nat, now: Db, left: nat)
    requires RunAt(start, budget, migs, i, now, left) && i < |migs|
    requires !migs[i].IsDown() && migs[i].version !in start.table
    requires Appliable(now, migs[i]) && left >= ApplySteps(migs[i])
    ensures RunAt(start, budget, migs, i + 1, Applied(now, migs[i]), left - ApplySteps(migs[i]))
  {
    PendingNext(migs, i, start.table);
    MismatchNext(migs, i, start.table);
    ReachedNext(start, budget, Pending(migs[..i], start.table, None), now, left, migs[i]);
  }

  lemma Changed(start: Db, budget: nat, migs: seq<Change>, i: nat, now: Db, left: nat)
    requires RunAt(start, budget, migs, i, now, left) && i < |migs| && !migs[i].IsDown()
    requires migs[i].version in start.table && migs[i].checksum != start.table[migs[i].version].checksum
    ensures LoopEnds(start, now, migs, budget, Stopped(Some(VersionMismatch(migs[i].version))))
  {
    assert StopsAt(start, now, migs, budget, i, 0, Some(VersionMismatch(migs[i].version)));
    assert migs[i] in migs;
  }

  /** The pending migrations before, at and after the one at `i`. */
  lemma PendingAround(migs: seq<Change>, i: nat, table: Table)
    requires i < |migs| && !migs[i].IsDown() && migs[i].version !in table
    ensures Pending(migs, table, None)
         == Pending(migs[..i], table, None) + [migs[i]] + Pending(migs[i + 1..], table, None)
  {
    PendingNext(migs, i, table);
    assert migs == migs[..i + 1] + migs[i + 1..];
    PendingSplit(migs[..i + 1], migs[i + 1..], table);
  }

  lemma CannotFinishAt(start: Db, budget: nat, migs: seq<Change>, i: nat, now: Db, left: nat)
    requires RunAt(start, budget, migs, i, now, left) && i < |migs|
    requires !migs[i].IsDown() && migs[i].version !in start.table
    requires !(Appliable(now, migs[i]) && left >= ApplySteps(migs[i]))
    ensures !CanFinish(start, migs, budget)
  {
    PendingAround(migs, i, start.table);
    var done, rest := Pending(migs[..i], start.table, None), Pending(migs[i + 1..], start.table, None);
    CannotFinish(start, budget, done, now, left, migs[i], rest);
  }

  lemma FailedStops(start: Db, budget: nat, migs: seq<Change>, i: nat, now: Db, left: nat, after: Db, n: nat)
    requires RunAt(start, budget, migs, i, now, left) && i < |migs|
    requires !migs[i].IsDown() && migs[i].version !in start.table
    requires ApplyEnds(now, after, migs[i], n, false, left, 0)
    ensures StopsAt(start, after, migs, budget, i, n, None)
  {
  }

  lemma Failed(start: Db, budget: nat, migs: seq<Change>, i: nat, now: Db, left: nat, after: Db, n: nat)
    requires RunAt(start, budget, migs, i, now, left) && i < |migs|
    requires !migs[i].IsDown() && migs[i].version !in start.table
    requires ApplyEnds(now, after, migs[i], n, false, left, 0)
    ensures LoopEnds(start, after, migs, budget, Stopped(None))
  {
    FailedStops(start, budget, migs, i, now, left, after, n);
    CannotFinishAt(start, budget, migs, i, now, left);
  }

  lemma AtTheEnd(start: Db, budget: nat, migs: seq<Change>, now: Db, left: nat)
    requires RunAt(start, budget, migs, |migs|, now, left)
    ensures LoopEnds(start, now, migs, budget, Finished)
  {
    MismatchIff(migs, start.table);
    assert migs[..|migs|] == migs;
  }

  // ------------------------------------------------------------------ the loop of an undo

  lemma DownsNext(migs: seq<Change>, i: nat, applied: Table, target: int, done: seq<Change>)
    requires i < |migs|
    ensures Downs(migs[..i + 1], applied, target) + done
         == Downs(migs[..i], applied, target) + if IsDownAbove(migs[i], applied, target) then [migs[i]] + done else done
  {
    assert migs[..i + 1][..i] == migs[..i];
  }

  lemma RevertedNext(db: Db, m: Change, ds: seq<Change>)
    ensures RevertedAll(db, [m] + ds) == Reverted(RevertedAll(db, ds), m)
  {
    assert ([m] + ds)[1..] == ds;
    assert db.log + Backwards(ds) + Events(m, |m.script|) == db.log + (Backwards(ds) + Events(m, |m.script|));
    assert Versions([m] + ds) == Versions(ds) + {m.version} by {
      assert ([m] + ds)[0] == m;
      assert forall i :: 0 <= i < |ds| ==> ([m] + ds)[i + 1] == ds[i];
    }
  }

  lemma ReturnedNext(start: Db, budget: nat, m: Change, done: seq<Change>, now: Db, left: nat)
    requires Returned(start, budget, done, now, left) && m.script != [] && left >= RevertSteps(m)
    ensures Returned(start, budget, [m] + done, Reverted(now, m), left - RevertSteps(m))
  {
    RevertedNext(start, m, done);
    assert ([m] + done)[1..] == done;
  }

  /** A `revert` that failed means that the undo could not have finished. */
  lemma TurnedHere(
    start: Db, budget: nat, rest: seq<Change>, m: Change, done: seq<Change>, now: Db, left: nat, after: Db, n: nat)
    requires Returned(start, budget, done, now, left) && RevertEnds(now, after, m, n, false, left, 0)
    ensures BackEnds(start, after, rest + ([m] + done), budget, Stopped(None))
  {
    var all := rest + ([m] + done);
    assert all[|rest|] == m && all[|rest| + 1..] == done;
    assert TurnsAt(start, after, all, budget, |rest|, n);
    SumSplit(RevertSteps, rest, [m] + done);
    assert ([m] + done)[1..] == done;
  }

  predicate BackAt(
    start: Db, budget: nat, migs: seq<Change>, target: int, i: nat, done: seq<Change>, now: Db, left: nat) {
    && i <= |migs| && Returned(start, budget, done, now, left)
    && Downs(migs, start.table, target) == Downs(migs[..i], start.table, target) + done
  }

  lemma SkipBack(start: Db, budget: nat, migs: seq<Change>, target: int, i: nat, done: seq<Change>, now: Db, left: nat)
    requires i < |migs| && BackAt(start, budget, migs, target, i + 1, done, now, left)
    requires !IsDownAbove(migs[i], start.table, target)
    ensures BackAt(start, budget, migs, target, i, done, now, left)
  {
    DownsNext(migs, i, start.table, target, done);
  }

  lemma AdvancedBack(
    start: Db, budget: nat, migs: seq<Change>, target: int, i: nat, done: seq<Change>, now: Db, left: nat)
    requires i < |migs| && BackAt(start, budget, migs, target, i + 1, done, now, left)
    requires IsDownAbove(migs[i], start.table, target) && migs[i].script != [] && left >= RevertSteps(migs[i])
    ensures BackAt(start, budget, migs, target, i, [migs[i]] + done, Reverted(now, migs[i]),
        left - RevertSteps(migs[i]))
  {
    DownsNext(migs, i, start.table, target, done);
    ReturnedNext(start, budget, migs[i], done, now, left);
  }

  lemma FailedBack(
    start: Db, budget: nat, migs: seq<Change>, target: int, i: nat, done: seq<Change>, now: Db, left: nat,
    after: Db, n: nat)
    requires i < |migs| && BackAt(start, budget, migs, target, i + 1, done, now, left)
    requires IsDownAbove(migs[i], start.table, target) && RevertEnds(now, after, migs[i], n, false, left, 0)
    ensures BackEnds(start, after, Downs(migs, start.table, target), budget, Stopped(None))
  {
    DownsNext(migs, i, start.table, target, done);
    TurnedHere(start, budget, Downs(migs[..i], start.table, target), migs[i], done, now, left, after, n);
  }

  lemma AtTheStart(start: Db, budget: nat, migs: seq<Change>, target: int, done: seq<Change>, now: Db, left: nat)
    requires BackAt(start, budget, migs, target, 0, done, now, left)
    ensures BackEnds(start, now, Downs(migs, start.table, target), budget, Finished)
  {
    assert Downs(migs[..0], start.table, target) + done == done;
  }
}
