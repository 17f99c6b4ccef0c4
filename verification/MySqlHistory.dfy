/**
 * What any number of MySQL sessions, each ending anywhere, do to the statements that took effect: the
 * table always tells where each version stands, and nothing is repeated without a revert in between.
 */
module MySqlHistory {
  import opened Basics
  import opened Migrations
  import opened MySqlMigrate

  // ------------------------------------------------------------------ the history of one version

  /** Where a version stands according to the statements that took effect. */
  datatype Status = Clean | Upping(len: nat, n: nat) | Upped | Downing(len: nat, n: nat) | Broken

  /** After `n` of `len` statements of an up script. */
  function AfterUp(len: nat, n: nat): Status {
    if n == len then Upped else Upping(len, n)
  }

  function AfterDown(len: nat, n: nat): Status {
    if n == len then Clean else Downing(len, n)
  }

  function Advance(s: Status, e: Event): Status {
    match s
    case Clean => if e.up && e.index == 0 && e.len > 0 then AfterUp(e.len, 1) else Broken
    case Upping(len, n) => if e.up && e.index == n && e.len == len then AfterUp(len, n + 1) else Broken
    case Upped => if !e.up && e.index == 0 && e.len > 0 then AfterDown(e.len, 1) else Broken
    case Downing(len, n) => if !e.up && e.index == n && e.len == len then AfterDown(len, n + 1) else Broken
    case Broken => Broken
  }

  /** `Broken` when a statement was repeated, skipped or run out of turn. */
  function StatusOf(log: seq<Event>, v: int): Status {
    if log == [] then Clean
    else
      var s := StatusOf(log[..|log| - 1], v);
      if log[|log| - 1].version == v then Advance(s, log[|log| - 1]) else s
  }

  /** What the row of a version says about the statements that took effect. */
  predicate Consistent(db: Db, v: int) {
    var s := StatusOf(db.log, v);
    if v !in db.table then s.Clean?
    else if db.table[v].success then s.Upped?
    else !s.Broken?
  }

  ghost predicate Kept(db: Db) {
    forall v :: Consistent(db, v)
  }

  lemma {:induction false} StatusAppend(log: seq<Event>, m: Change, n: nat, v: int)
    requires n <= |m.script|
    ensures v != m.version ==> StatusOf(log + Events(m, n), v) == StatusOf(log, v)
    ensures v == m.version && n == 0 ==> StatusOf(log + Events(m, n), v) == StatusOf(log, v)
    ensures v == m.version && n > 0 && !m.IsDown() && StatusOf(log, v).Clean? ==>
              StatusOf(log + Events(m, n), v) == AfterUp(|m.script|, n)
    ensures v == m.version && n > 0 && m.IsDown() && StatusOf(log, v).Upped? ==>
              StatusOf(log + Events(m, n), v) == AfterDown(|m.script|, n)
    ensures v == m.version && n > 0 && m.IsDown() && StatusOf(log, v).Clean? ==>
              StatusOf(log + Events(m, n), v).Broken?
    decreases n
  {
    var all := log + Events(m, n);
    if n == 0 {
      assert all == log;
    } else {
      assert all[..|all| - 1] == log + Events(m, n - 1);
      StatusAppend(log, m, n - 1, v);
    }
  }

  lemma {:induction false} BrokenStays(log: seq<Event>, more: seq<Event>, v: int)
    requires StatusOf(log, v).Broken?
    ensures StatusOf(log + more, v).Broken?
    decreases |more|
  {
    var all := log + more;
    if more == [] {
      assert all == log;
    } else {
      assert all[..|all| - 1] == log + more[..|more| - 1];
      BrokenStays(log, more[..|more| - 1], v);
    }
  }

  lemma RowKept(table: Table, after: Table, v: int, w: int)
    requires OthersKept(table, after, v) && w != v
    ensures w in table <==> w in after
    ensures w in table ==> after[w] == table[w]
  {
    assert w in table <==> w in table - {v};
    assert w in after <==> w in after - {v};
    if w in table {
      assert table[w] == (table - {v})[w] == (after - {v})[w] == after[w];
    }
  }

  // ------------------------------------------------------------------ a run

  lemma ApplyStopsKeeps(db: Db, after: Db, m: Change, n: nat)
    requires Kept(db) && !m.IsDown() && ApplyStops(db, after, m, n)
    ensures Kept(after)
  {
    forall v ensures Consistent(after, v) {
      assert Consistent(db, v);
      StatusAppend(db.log, m, n, v);
      if v != m.version {
        RowKept(db.table, after.table, m.version, v);
      }
    }
  }

  lemma AppliedKeeps(db: Db, m: Change)
    requires Kept(db) && !m.IsDown() && Appliable(db, m)
    ensures Kept(Applied(db, m))
  {
    forall v ensures Consistent(Applied(db, m), v) {
      assert Consistent(db, v);
      StatusAppend(db.log, m, |m.script|, v);
    }
  }

  /** Every way that `apply` can end keeps the history. */
  lemma ApplyKeeps(db: Db, after: Db, m: Change, n: nat, done: bool, budget: nat, left: nat)
    requires Kept(db) && !m.IsDown() && ApplyEnds(db, after, m, n, done, budget, left)
    ensures Kept(after)
  {
    if ApplyStops(db, after, m, n) {
      ApplyStopsKeeps(db, after, m, n);
    } else {
      AppliedKeeps(db, m);
    }
  }

  lemma {:induction false} AppliedAllKeeps(db: Db, ms: seq<Change>)
    requires Kept(db) && DistinctVersions(ms) && NoneEmpty(ms)
    requires forall m :: m in ms ==> !m.IsDown() && m.version !in db.table
    ensures Kept(AppliedAll(db, ms))
    decreases |ms|
  {
    if ms == [] {
      assert AppliedAll(db, ms) == db;
    } else {
      var init, m := ms[..|ms| - 1], ms[|ms| - 1];
      assert ms == init + [m];
      AppliedAllKeeps(db, init);
      AppliedNext(db, init, m);
      RecordKeys(db.table, init);
      AppliedKeeps(AppliedAll(db, init), m);
    }
  }

  lemma StopsKeeps(db: Db, after: Db, migs: seq<Change>, budget: nat, i: nat, n: nat, why: Option<Error>)
    requires Kept(db) && StopsAt(db, after, migs, budget, i, n, why)
    ensures Kept(after)
  {
    var done := Pending(migs[..i], db.table, None);
    AppliedAllKeeps(db, done);
    if why.None? {
      ApplyKeeps(AppliedAll(db, done), after, migs[i], n, false, budget - Sum(ApplySteps, done), 0);
    }
  }

  /** Wherever a run stops, the table still tells where each version stands. */
  lemma RunKeeps(db: Db, after: Db, migs: seq<Change>, ignoreMissing: bool, budget: nat, result: Result)
    requires Kept(db) && RunEnds(db, after, migs, ignoreMissing, budget, result)
    ensures Kept(after)
  {
    var pending := Pending(migs, db.table, None);
    if result.Finished? {
      AppliedAllKeeps(db, pending);
    } else if result.Stopped? {
      var i, n :| StopsAt(db, after, migs, budget, i, n, result.why);
      StopsKeeps(db, after, migs, budget, i, n, result.why);
    }
  }

  // ------------------------------------------------------------------ an undo

  predicate AllSuccessful(table: Table) {
    forall v :: v in table ==> table[v].success
  }

  lemma RevertStopsKeeps(db: Db, after: Db, m: Change, n: nat)
    requires Kept(db) && m.IsDown() && RevertStops(db, after, m, n)
    requires m.version in db.table && db.table[m.version].success
    ensures Kept(after)
  {
    forall v ensures Consistent(after, v) {
      assert Consistent(db, v);
      StatusAppend(db.log, m, n, v);
      if v != m.version {
        RowKept(db.table, after.table, m.version, v);
      }
    }
  }

  /** Running a down script to its end keeps the history if and only if its version is recorded. */
  lemma RevertedKeepsIff(db: Db, m: Change)
    requires Kept(db) && m.IsDown() && m.script != [] && AllSuccessful(db.table)
    ensures m.version in db.table ==> Kept(Reverted(db, m))
    ensures m.version !in db.table ==> StatusOf(Reverted(db, m).log, m.version).Broken?
  {
    forall v ensures m.version in db.table ==> Consistent(Reverted(db, m), v) {
      assert Consistent(db, v);
      StatusAppend(db.log, m, |m.script|, v);
    }
    assert Consistent(db, m.version);
    StatusAppend(db.log, m, |m.script|, m.version);
  }

  /** So does every way that `revert` can end once a statement took effect, if and only if its version was recorded. */
  lemma RevertKeepsIff(db: Db, after: Db, m: Change, n: nat, done: bool, budget: nat, left: nat)
    requires Kept(db) && m.IsDown() && AllSuccessful(db.table) && RevertEnds(db, after, m, n, done, budget, left)
    requires after.log != db.log
    ensures Kept(after) <==> m.version in db.table
  {
    var v := m.version;
    if !done && RevertStops(db, after, m, n) {
      assert n == 0 ==> db.log + Events(m, n) == db.log;
      if v in db.table {
        RevertStopsKeeps(db, after, m, n);
      } else {
        assert Consistent(db, v);
        StatusAppend(db.log, m, n, v);
        assert !Consistent(after, v);
      }
    } else {
      RevertedKeepsIff(db, m);
      assert v !in db.table ==> !Consistent(after, v);
    }
  }

  lemma HeadVersion(ds: seq<Change>)
    requires ds != []
    ensures DistinctVersions(ds) <==> DistinctVersions(ds[1..]) && ds[0].version !in Versions(ds[1..])
  {
    if ds[0].version in Versions(ds[1..]) {
      var i :| 0 <= i < |ds| - 1 && ds[1..][i].version == ds[0].version;
      assert ds[i + 1].version == ds[0].version;
    }
    if DistinctVersions(ds[1..]) && ds[0].version !in Versions(ds[1..]) {
      forall i, j | 0 <= i < j < |ds| ensures ds[i].version != ds[j].version {
        assert ds[j] == ds[1..][j - 1] && ds[j].version in Versions(ds[1..]);
        assert i > 0 ==> ds[i] == ds[1..][i - 1];
      }
    }
  }

  /** Reverting recorded versions keeps the history if they are distinct; otherwise one is broken for good. */
  lemma {:induction false} RevertedAllKeepsIff(db: Db, ds: seq<Change>)
    requires Kept(db) && AllSuccessful(db.table) && NoneEmpty(ds)
    requires forall d :: d in ds ==> d.IsDown() && d.version in db.table
    ensures DistinctVersions(ds) ==> Kept(RevertedAll(db, ds))
    ensures !DistinctVersions(ds) ==> exists v :: StatusOf(RevertedAll(db, ds).log, v).Broken?
    decreases |ds|
  {
    if ds == [] {
      assert RevertedAll(db, ds) == db;
    } else {
      var m, rest := ds[0], ds[1..];
      assert ds == [m] + rest;
      RevertedAllKeepsIff(db, rest);
      RevertedNext(db, m, rest);
      HeadVersion(ds);
      var before := RevertedAll(db, rest);
      if DistinctVersions(rest) {
        RevertedKeepsIff(before, m);
      } else {
        var v :| StatusOf(before.log, v).Broken?;
        BrokenStays(before.log, Events(m, |m.script|), v);
      }
    }
  }

  lemma DistinctTail(ds: seq<Change>, k: nat)
    requires DistinctVersions(ds) && k < |ds|
    ensures DistinctVersions(ds[k + 1..]) && ds[k].version !in Versions(ds[k + 1..])
  {
  }

  lemma TurnsKeeps(db: Db, after: Db, downs: seq<Change>, budget: nat, k: nat, n: nat)
    requires Kept(db) && AllSuccessful(db.table) && DistinctVersions(downs) && TurnsAt(db, after, downs, budget, k, n)
    requires forall d :: d in downs ==> d.IsDown() && d.version in db.table
    ensures Kept(after)
  {
    var rest := downs[k + 1..];
    var before := RevertedAll(db, rest);
    RevertedAllKeepsIff(db, rest);
    DistinctTail(downs, k);
    assert downs[k] in downs;
    if RevertStops(before, after, downs[k], n) {
      RevertStopsKeeps(before, after, downs[k], n);
    } else {
      RevertedKeepsIff(before, downs[k]);
    }
  }

  lemma AcceptedIsSuccessful(migs: seq<Change>, ignoreMissing: bool, table: Table)
    requires Refusal(migs, ignoreMissing, table).None?
    ensures AllSuccessful(table)
  {
    forall v | v in table ensures table[v].success {
      assert v !in DirtyVersions(table);
    }
  }

  /** Wherever an undo stops, if no version that it reverts has two down scripts. */
  lemma UndoKeeps(db: Db, after: Db, migs: seq<Change>, ignoreMissing: bool, target: int, budget: nat, result: Result)
    requires Kept(db) && UndoEnds(db, after, migs, ignoreMissing, target, budget, result)
    requires DistinctVersions(Downs(migs, db.table, target))
    ensures Kept(after)
  {
    var downs := Downs(migs, db.table, target);
    if !result.Refused? {
      AcceptedIsSuccessful(migs, ignoreMissing, db.table);
      if result.Finished? {
        RevertedAllKeepsIff(db, downs);
      } else {
        var k, n :| TurnsAt(db, after, downs, budget, k, n);
        TurnsKeeps(db, after, downs, budget, k, n);
      }
    }
  }

  /** An undo that finishes keeps the history if and only if no version that it reverts has two down scripts. */
  lemma UndoKeepsIff(db: Db, after: Db, migs: seq<Change>, ignoreMissing: bool, target: int, budget: nat)
    requires Kept(db) && UndoEnds(db, after, migs, ignoreMissing, target, budget, Finished)
    ensures Kept(after) <==> DistinctVersions(Downs(migs, db.table, target))
    ensures !Kept(after) ==> exists v :: StatusOf(after.log, v).Broken?
  {
    AcceptedIsSuccessful(migs, ignoreMissing, db.table);
    RevertedAllKeepsIff(db, Downs(migs, db.table, target));
    if v :| StatusOf(after.log, v).Broken? {
      assert !Consistent(after, v);
    }
  }

  // ------------------------------------------------------------------ nothing is repeated

  /** After statement `k` of a script, and until a statement the other way, the version is past `k`. */
  predicate Past(s: Status, up: bool, k: nat) {
    s.Broken? || if up then s.Upped? || (s.Upping? && s.n > k) else s.Clean? || (s.Downing? && s.n > k)
  }

  lemma {:induction false} StaysPast(log: seq<Event>, v: int, i: nat, j: nat)
    requires i < j <= |log| && log[i].version == v
    requires forall l :: i < l < j && log[l].version == v ==> log[l].up == log[i].up
    ensures Past(StatusOf(log[..j], v), log[i].up, log[i].index)
    decreases j
  {
    assert log[..j][..j - 1] == log[..j - 1];
    if i < j - 1 {
      StaysPast(log, v, i, j - 1);
    }
  }

  predicate SameStatement(a: Event, b: Event) {
    a.up == b.up && a.version == b.version && a.index == b.index
  }

  predicate OtherWay(a: Event, b: Event) {
    a.up != b.up && a.version == b.version
  }

  /**
   * A statement of an up script takes effect twice only if a down statement of its version did in
   * between, and the other way round.
   */
  predicate NoRepeats(log: seq<Event>) {
    forall i, j :: 0 <= i < j < |log| && SameStatement(log[i], log[j]) ==>
      exists l :: i < l < j && OtherWay(log[i], log[l])
  }

  lemma RepeatNeedsReturn(db: Db, i: nat, j: nat)
    requires Kept(db) && i < j < |db.log| && SameStatement(db.log[i], db.log[j])
    ensures exists l :: i < l < j && OtherWay(db.log[i], db.log[l])
  {
    var v := db.log[i].version;
    assert Consistent(db, v);
    if forall l :: i < l < j ==> !OtherWay(db.log[i], db.log[l]) {
      assert forall l :: i < l < j && db.log[l].version == v ==> !OtherWay(db.log[i], db.log[l]);
      StaysPast(db.log, v, i, j);
      assert db.log[..j + 1][..j] == db.log[..j];
      assert db.log[..j + 1] + db.log[j + 1..] == db.log;
      BrokenStays(db.log[..j + 1], db.log[j + 1..], v);
    }
  }

  lemma KeptHasNoRepeats(db: Db)
    requires Kept(db)
    ensures NoRepeats(db.log)
  {
    forall i, j | 0 <= i < j < |db.log| && SameStatement(db.log[i], db.log[j])
      ensures exists l :: i < l < j && OtherWay(db.log[i], db.log[l])
    {
      RepeatNeedsReturn(db, i, j);
    }
  }

  // ------------------------------------------------------------------ any number of sessions

  datatype Job = Job(migs: seq<Change>, ignoreMissing: bool, undoTo: Option<int>, budget: nat)

  ghost predicate JobEnds(db: Db, after: Db, job: Job, result: Result) {
    if job.undoTo.None? then RunEnds(db, after, job.migs, job.ignoreMissing, job.budget, result)
    else UndoEnds(db, after, job.migs, job.ignoreMissing, job.undoTo.value, job.budget, result)
  }

  /** No version that the job is about to revert has two down scripts. */
  predicate Safe(db: Db, job: Job) {
    job.undoTo.None? || DistinctVersions(Downs(job.migs, db.table, job.undoTo.value))
  }

  /** The database before, between and after the jobs. */
  ghost predicate IsTrace(dbs: seq<Db>, jobs: seq<Job>, results: seq<Result>) {
    && |dbs| == |jobs| + 1 && |results| == |jobs|
    && forall i :: 0 <= i < |jobs| ==> IsStep(dbs, jobs, results, i)
  }

  ghost predicate IsStep(dbs: seq<Db>, jobs: seq<Job>, results: seq<Result>, i: nat)
    requires |dbs| == |jobs| + 1 && |results| == |jobs| && i < |jobs|
  {
    JobEnds(dbs[i], dbs[i + 1], jobs[i], results[i])
  }

  lemma AppliedExtends(db: Db, after: Db, m: Change, n: nat)
    requires ApplyStops(db, after, m, n) || after == Applied(db, m)
    ensures db.log <= after.log
  {
  }

  lemma StopsExtends(db: Db, after: Db, migs: seq<Change>, budget: nat, i: nat, n: nat, why: Option<Error>)
    requires StopsAt(db, after, migs, budget, i, n, why)
    ensures db.log <= after.log
  {
    var before := AppliedAll(db, Pending(migs[..i], db.table, None));
    if why.None? {
      AppliedExtends(before, after, migs[i], n);
      assert before.log <= after.log;
    }
  }

  lemma RunExtends(db: Db, after: Db, migs: seq<Change>, ignoreMissing: bool, budget: nat, result: Result)
    requires RunEnds(db, after, migs, ignoreMissing, budget, result)
    ensures db.log <= after.log
  {
    if result.Stopped? {
      var i, n :| StopsAt(db, after, migs, budget, i, n, result.why);
      StopsExtends(db, after, migs, budget, i, n, result.why);
    }
  }

  lemma TurnsExtends(db: Db, after: Db, downs: seq<Change>, budget: nat, k: nat, n: nat)
    requires TurnsAt(db, after, downs, budget, k, n)
    ensures db.log <= after.log
  {
    var before := RevertedAll(db, downs[k + 1..]);
    assert before.log <= after.log;
  }

  lemma UndoExtends(db: Db, after: Db, migs: seq<Change>, ignoreMissing: bool, target: int, budget: nat, result: Result)
    requires UndoEnds(db, after, migs, ignoreMissing, target, budget, result)
    ensures db.log <= after.log
  {
    if result.Stopped? {
      var k, n :| TurnsAt(db, after, Downs(migs, db.table, target), budget, k, n);
      TurnsExtends(db, after, Downs(migs, db.table, target), budget, k, n);
    }
  }

  /** A job only adds to the history, and does nothing to a dirty database. */
  lemma JobExtends(db: Db, after: Db, job: Job, result: Result)
    requires JobEnds(db, after, job, result)
    ensures db.log <= after.log
    ensures DirtyVersions(db.table) != {} ==> after == db && result.Refused? && result.error.Dirty?
  {
    if job.undoTo.None? {
      RunExtends(db, after, job.migs, job.ignoreMissing, job.budget, result);
    } else {
      UndoExtends(db, after, job.migs, job.ignoreMissing, job.undoTo.value, job.budget, result);
    }
  }

  lemma JobKeeps(db: Db, after: Db, job: Job, result: Result)
    requires Kept(db) && JobEnds(db, after, job, result) && Safe(db, job)
    ensures Kept(after)
  {
    if job.undoTo.None? {
      RunKeeps(db, after, job.migs, job.ignoreMissing, job.budget, result);
    } else {
      UndoKeeps(db, after, job.migs, job.ignoreMissing, job.undoTo.value, job.budget, result);
    }
  }

  lemma {:induction false} HistoryGrows(dbs: seq<Db>, jobs: seq<Job>, results: seq<Result>, i: nat, j: nat)
    requires IsTrace(dbs, jobs, results) && i <= j <= |jobs|
    ensures dbs[i].log <= dbs[j].log
    ensures DirtyVersions(dbs[i].table) != {} ==> dbs[j] == dbs[i]
    decreases j
  {
    if i < j {
      HistoryGrows(dbs, jobs, results, i, j - 1);
      assert IsStep(dbs, jobs, results, j - 1);
      JobExtends(dbs[j - 1], dbs[j], jobs[j - 1], results[j - 1]);
    }
  }

  /** Whatever crashed where, table and history agree, and nothing was repeated without a revert in between. */
  lemma {:induction false} TraceKeeps(dbs: seq<Db>, jobs: seq<Job>, results: seq<Result>, j: nat)
    requires IsTrace(dbs, jobs, results) && j <= |jobs| && Kept(dbs[0])
    requires forall i :: 0 <= i < j ==> Safe(dbs[i], jobs[i])
    ensures Kept(dbs[j]) && NoRepeats(dbs[j].log)
    decreases j
  {
    if j > 0 {
      TraceKeeps(dbs, jobs, results, j - 1);
      assert IsStep(dbs, jobs, results, j - 1);
      JobKeeps(dbs[j - 1], dbs[j], jobs[j - 1], results[j - 1]);
    }
    KeptHasNoRepeats(dbs[j]);
  }

  /** A finished undo that was not safe breaks the history for good. */
  lemma UnsafeBreaks(dbs: seq<Db>, jobs: seq<Job>, results: seq<Result>, i: nat, j: nat)
    requires IsTrace(dbs, jobs, results) && i < j <= |jobs| && Kept(dbs[i])
    requires results[i].Finished? && !Safe(dbs[i], jobs[i])
    ensures !Kept(dbs[j])
  {
    assert IsStep(dbs, jobs, results, i);
    var job := jobs[i];
    UndoKeepsIff(dbs[i], dbs[i + 1], job.migs, job.ignoreMissing, job.undoTo.value, job.budget);
    var v :| StatusOf(dbs[i + 1].log, v).Broken?;
    HistoryGrows(dbs, jobs, results, i + 1, j);
    var more := dbs[j].log[|dbs[i + 1].log|..];
    assert dbs[i + 1].log + more == dbs[j].log;
    BrokenStays(dbs[i + 1].log, more, v);
    assert !Consistent(dbs[j], v);
  }

  /** Sessions one after the other (the lock admits one at a time), each ending wherever it ends. */
  method Sessions(start: Db, jobs: seq<Job>) returns (end: Db, results: seq<Result>, ghost dbs: seq<Db>)
    ensures IsTrace(dbs, jobs, results) && dbs[0] == start && dbs[|jobs|] == end
    ensures start.log <= end.log
    ensures Kept(start) && (forall i :: 0 <= i < |jobs| ==> Safe(dbs[i], jobs[i])) ==> Kept(end) && NoRepeats(end.log)
    ensures DirtyVersions(start.table) != {} ==> end == start
  {
    end, results, dbs := start, [], [start];
    for i := 0 to |jobs|
      invariant |results| == i && |dbs| == i + 1 && dbs[0] == start && dbs[i] == end
      invariant IsTrace(dbs, jobs[..i], results)
    {
      var session := new Session(end, jobs[i].budget);
      var result;
      if jobs[i].undoTo.None? {
        result := session.RunDirect(jobs[i].migs, jobs[i].ignoreMissing);
      } else {
        result := session.Undo(jobs[i].migs, jobs[i].ignoreMissing, jobs[i].undoTo.value);
      }
      TraceNext(dbs, jobs, results, i, session.durable, result);
      end, results, dbs := session.durable, results + [result], dbs + [session.durable];
    }
    assert jobs[..|jobs|] == jobs;
    HistoryGrows(dbs, jobs, results, 0, |jobs|);
    if Kept(start) && forall i :: 0 <= i < |jobs| ==> Safe(dbs[i], jobs[i]) {
      TraceKeeps(dbs, jobs, results, |jobs|);
    }
  }

  lemma TraceNext(dbs: seq<Db>, jobs: seq<Job>, results: seq<Result>, i: nat, after: Db, result: Result)
    requires i < |jobs| && IsTrace(dbs, jobs[..i], results) && JobEnds(dbs[i], after, jobs[i], result)
    ensures IsTrace(dbs + [after], jobs[..i + 1], results + [result])
  {
    var dbs1, jobs1, results1 := dbs + [after], jobs[..i + 1], results + [result];
    forall j | 0 <= j < i + 1 ensures IsStep(dbs1, jobs1, results1, j) {
      if j < i {
        assert IsStep(dbs, jobs[..i], results, j);
      }
    }
  }
}
