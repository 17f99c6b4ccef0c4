/** A successful run followed by `undo` restores the schema and the table: ups ascend, downs descend. */
module UpDown {
  import opened Basics
  import opened Migrations
  import opened Migrator
  import opened MigratorProperties

  /** `resolve_blocking` sorts by version. */
  predicate Sorted<S>(ms: seq<Change<S>>) {
    forall i, j :: 0 <= i < j < |ms| ==> ms[i].version <= ms[j].version
  }

  function RevertAll<S>(db: Db<S>, ds: seq<Change<S>>): Outcome<S>
    decreases |ds|
  {
    if ds == [] then Outcome(db, None)
    else
      var o := Revert(db, ds[|ds| - 1]);
      if o.error.Some? then o else RevertAll(o.db, ds[..|ds| - 1])
  }

  lemma {:induction false} UndoReverts<S>(migs: seq<Change<S>>, applied: Table, target: int, db: Db<S>)
    ensures UndoLoop(migs, applied, target, db) == RevertAll(db, Downs(migs, applied, target))
    decreases |migs|
  {
    if migs != [] {
      var m := migs[|migs| - 1];
      var rest := migs[..|migs| - 1];
      if IsDownAbove(m, applied, target) {
        var ds := Downs(rest, applied, target) + [m];
        assert ds[..|ds| - 1] == Downs(rest, applied, target);
        UndoReverts(rest, applied, target, Revert(db, m).db);
      } else {
        UndoReverts(rest, applied, target, db);
      }
    }
  }

  /** The schema after the scripts of `ds`, run last to first, if all of them succeed. */
  function AfterDowns<S>(schema: S, ds: seq<Change<S>>): Option<S> {
    if ds == [] then Some(schema)
    else
      var before := AfterDowns(schema, ds[1..]);
      if before.None? then None else ds[0].script(before.value)
  }

  /** The scripts from `k` on were run and their rows are gone, each together, and no others. */
  ghost predicate RevertedFrom<S>(db: Db<S>, ds: seq<Change<S>>, k: nat, after: Db<S>) {
    && k <= |ds| && AfterDowns(db.schema, ds[k..]) == Some(after.schema)
    && after.table == db.table - Versions(ds[k..])
  }

  lemma RevertedOneMore<S>(db: Db<S>, ds: seq<Change<S>>, k: nat, now: Db<S>)
    requires 0 < k && RevertedFrom(db, ds, k, now) && ds[k - 1].script(now.schema).Some?
    ensures RevertedFrom(db, ds, k - 1, Revert(now, ds[k - 1]).db)
  {
    var tail := ds[k - 1..];
    assert tail[0] == ds[k - 1] && tail[1..] == ds[k..];
    assert Versions(tail) == Versions(ds[k..]) + {ds[k - 1].version} by {
      assert forall i :: 0 <= i < |ds[k..]| ==> ds[k..][i] == tail[i + 1];
    }
  }

  /** Everything was reverted, or script `n - 1` is the next and failed. */
  predicate StoppedBefore<S>(ds: seq<Change<S>>, n: nat, o: Outcome<S>) {
    && n <= |ds| && (o.error.None? <==> n == 0)
    && (n > 0 ==>
          && ds[n - 1].script(o.db.schema).None?
          && o.error == Some(ExecuteMigration(ds[n - 1].version)))
  }

  lemma RevertsNext<S>(ds: seq<Change<S>>, k: nat, now: Db<S>)
    requires 0 < k <= |ds|
    ensures RevertAll(now, ds[..k]) ==
            if ds[k - 1].script(now.schema).None? then Outcome(now, Some(ExecuteMigration(ds[k - 1].version)))
            else RevertAll(Revert(now, ds[k - 1]).db, ds[..k - 1])
  {
    assert ds[..k][..k - 1] == ds[..k - 1];
  }

  /** From where the scripts after `k` were reverted, the rest of the loop. */
  lemma {:induction false} RevertsSuffixFrom<S>(db: Db<S>, ds: seq<Change<S>>, k: nat, now: Db<S>) returns (n: nat)
    requires RevertedFrom(db, ds, k, now)
    ensures n <= k && RevertedFrom(db, ds, n, RevertAll(now, ds[..k]).db)
    ensures StoppedBefore(ds, n, RevertAll(now, ds[..k]))
    decreases k
  {
    n := k;
    if k > 0 {
      RevertsNext(ds, k, now);
      if ds[k - 1].script(now.schema).Some? {
        RevertedOneMore(db, ds, k, now);
        n := RevertsSuffixFrom(db, ds, k - 1, Revert(now, ds[k - 1]).db);
      }
    }
  }

  /**
   * However an undo that is not refused ends, exactly a suffix of the selected down scripts was run,
   * last to first, each together with the removal of its row; it succeeds if and only if that is all
   * of them, and otherwise reports the script that failed.
   */
  lemma UndoRevertsSuffix<S>(migs: seq<Change<S>>, ignoreMissing: bool, target: int, db: Db<S>) returns (n: nat)
    requires Refusal(migs, ignoreMissing, db.table).None?
    ensures var downs := Downs(migs, db.table, target);
            var o := Undo(migs, ignoreMissing, target, db);
            && n <= |downs| && RevertedFrom(db, downs, n, o.db)
            && (o.error.None? <==> n == 0)
            && (n > 0 ==>
                  && downs[n - 1].script(o.db.schema).None?
                  && o.error == Some(ExecuteMigration(downs[n - 1].version)))
  {
    var downs := Downs(migs, db.table, target);
    UndoReverts(migs, db.table, target, db);
    assert downs[|downs|..] == [] && downs[..|downs|] == downs;
    n := RevertsSuffixFrom(db, downs, |downs|, db);
  }

  // ------------------------------------------------------------------ both lists ascend

  lemma SortedPrepend<S>(m: Change<S>, ms: seq<Change<S>>)
    requires Sorted(ms) && forall x :: x in ms ==> m.version <= x.version
    ensures Sorted([m] + ms)
  {
  }

  lemma {:induction false} PendingSorted<S>(migs: seq<Change<S>>, applied: Table)
    requires Sorted(migs)
    ensures Sorted(Pending(migs, applied, None))
    decreases |migs|
  {
    if migs != [] {
      PendingSorted(migs[1..], applied);
      var rest := Pending(migs[1..], applied, None);
      forall m | m in rest ensures migs[0].version <= m.version {
        var i :| 0 <= i < |migs[1..]| && migs[1..][i] == m;
      }
      SortedPrepend(migs[0], rest);
    }
  }

  lemma {:induction false} DownsSorted<S>(migs: seq<Change<S>>, applied: Table, target: int)
    requires Sorted(migs)
    ensures Sorted(Downs(migs, applied, target))
    decreases |migs|
  {
    if migs != [] {
      var init := migs[..|migs| - 1];
      DownsSorted(init, applied, target);
      forall m | m in Downs(init, applied, target) ensures m.version <= migs[|migs| - 1].version {
        var i :| 0 <= i < |init| && init[i] == m;
      }
    }
  }

  // ------------------------------------------------------------------ undoing

  ghost predicate Inverts<S(!new)>(up: Change<S>, down: Change<S>) {
    forall s :: up.script(s).Some? ==> down.script(up.script(s).value) == Some(s)
  }

  predicate IsDownOf<S>(d: Change<S>, m: Change<S>) {
    d.IsDown() && d.version == m.version
  }

  /** `m` has exactly one down script, and it inverts `m`. */
  ghost predicate Undoable<S(!new)>(migs: seq<Change<S>>, m: Change<S>) {
    exists j ::
      && 0 <= j < |migs| && IsDownOf(migs[j], m) && Inverts(m, migs[j])
      && forall i :: 0 <= i < |migs| && IsDownOf(migs[i], m) ==> i == j
  }

  lemma {:induction false} DownsDistinct<S(!new)>(
    migs: seq<Change<S>>, n: nat, applied: Table, target: int, ups: seq<Change<S>>)
    requires n <= |migs|
    requires forall v :: v in applied && v > target ==> v in Versions(ups)
    requires forall m :: m in ups ==> Undoable(migs, m)
    ensures DistinctVersions(Downs(migs[..n], applied, target))
    decreases n
  {
    if n > 0 {
      DownsDistinct(migs, n - 1, applied, target, ups);
      assert migs[..n][..n - 1] == migs[..n - 1];
      var d := migs[n - 1];
      if IsDownAbove(d, applied, target) {
        var k :| 0 <= k < |ups| && ups[k].version == d.version;
        assert Undoable(migs, ups[k]);
        forall m | m in Downs(migs[..n - 1], applied, target) ensures m.version != d.version {
          var i :| 0 <= i < n - 1 && migs[i] == m;
          assert IsDownOf(migs[n - 1], ups[k]);
          assert IsDownOf(migs[i], ups[k]) ==> m.version == d.version;
        }
      }
    }
  }

  lemma RevertLast<S(!new)>(db: Db<S>, ups: seq<Change<S>>, down: Change<S>, after: Db<S>) returns (before: Db<S>)
    requires Applied(db, ups, after) && ups != []
    requires down.version == ups[|ups| - 1].version && Inverts(ups[|ups| - 1], down)
    ensures Applied(db, ups[..|ups| - 1], before)
    ensures Revert(after, down) == Outcome(before, None)
  {
    var init := ups[..|ups| - 1];
    before := Db(Record(db.table, init), After(db.schema, init).value);
    RecordLast(db.table, ups);
  }

  lemma RecordLast<S>(table: Table, ups: seq<Change<S>>)
    requires ups != [] && DistinctVersions(ups) && ups[|ups| - 1].version !in table
    ensures Record(table, ups) - {ups[|ups| - 1].version} == Record(table, ups[..|ups| - 1])
  {
    var init, v := ups[..|ups| - 1], ups[|ups| - 1].version;
    RecordKeys(table, init);
    assert v !in Record(table, init);
  }

  /** The k-th down script is the inverse of the k-th up script. */
  ghost predicate Mirrors<S(!new)>(ups: seq<Change<S>>, downs: seq<Change<S>>) {
    && |downs| == |ups|
    && forall i :: 0 <= i < |ups| ==> ups[i].version == downs[i].version && Inverts(ups[i], downs[i])
  }

  lemma {:induction false} RevertAllRestores<S(!new)>(
    db: Db<S>, ups: seq<Change<S>>, downs: seq<Change<S>>, after: Db<S>)
    requires Applied(db, ups, after) && Mirrors(ups, downs)
    ensures RevertAll(after, downs) == Outcome(db, None)
    decreases |ups|
  {
    if ups != [] {
      var last := |ups| - 1;
      var before := RevertLast(db, ups, downs[last], after);
      RevertAllRestores(db, ups[..last], downs[..last], before);
    }
  }

  /** The target separates what was applied from `ups`, which can all be undone. */
  ghost predicate Separates<S(!new)>(migs: seq<Change<S>>, table: Table, target: int, ups: seq<Change<S>>) {
    && (forall v :: v in table ==> v <= target)
    && (forall m :: m in ups ==> m.version > target && Undoable(migs, m))
  }

  lemma UpHasDown<S(!new)>(migs: seq<Change<S>>, target: int, table: Table, ups: seq<Change<S>>, after: Table, i: nat)
    requires after.Keys == table.Keys + Versions(ups) && Separates(migs, table, target, ups) && i < |ups|
    ensures ups[i].version in VersionList(Downs(migs, after, target))
  {
    assert ups[i] in ups && ups[i].version in Versions(ups);
    var j :| 0 <= j < |migs| && IsDownOf(migs[j], ups[i]);
    DownsHas(migs, after, target, j);
    var downs := Downs(migs, after, target);
    var k :| 0 <= k < |downs| && downs[k] == migs[j];
    assert VersionList(downs)[k] == ups[i].version;
  }

  lemma DownHasUp<S(!new)>(
    migs: seq<Change<S>>, target: int, table: Table, ups: seq<Change<S>>, after: Table, d: Change<S>)
    requires after.Keys == table.Keys + Versions(ups) && Separates(migs, table, target, ups)
    requires IsDownAbove(d, after, target)
    ensures d.version in VersionList(ups)
  {
    var i :| 0 <= i < |ups| && ups[i].version == d.version;
    assert VersionList(ups)[i] == d.version;
  }

  /** The versions to undo are the versions that the run applied. */
  lemma SameVersions<S(!new)>(migs: seq<Change<S>>, target: int, table: Table, ups: seq<Change<S>>, after: Table)
    requires after.Keys == table.Keys + Versions(ups) && Separates(migs, table, target, ups)
    ensures forall v :: v in VersionList(ups) <==> v in VersionList(Downs(migs, after, target))
  {
    var downs := Downs(migs, after, target);
    forall v | v in VersionList(ups) ensures v in VersionList(downs) {
      var i :| 0 <= i < |ups| && VersionList(ups)[i] == v;
      UpHasDown(migs, target, table, ups, after, i);
    }
    forall v | v in VersionList(downs) ensures v in VersionList(ups) {
      var k :| 0 <= k < |downs| && VersionList(downs)[k] == v;
      assert downs[k] in downs;
      DownHasUp(migs, target, table, ups, after, downs[k]);
    }
  }

  /** What there is to undo mirrors what the run applied. */
  lemma Paired<S(!new)>(migs: seq<Change<S>>, target: int, table: Table, ups: seq<Change<S>>, after: Table)
    requires Sorted(migs) && Sorted(ups) && DistinctVersions(ups)
    requires after.Keys == table.Keys + Versions(ups) && Separates(migs, table, target, ups)
    ensures Mirrors(ups, Downs(migs, after, target))
  {
    var downs := Downs(migs, after, target);
    DownsSorted(migs, after, target);
    assert migs[..|migs|] == migs;
    DownsDistinct(migs, |migs|, after, target, ups);
    SameVersions(migs, target, table, ups, after);
    SameAscending(VersionList(ups), VersionList(downs));
    forall i | 0 <= i < |ups| ensures ups[i].version == downs[i].version && Inverts(ups[i], downs[i]) {
      assert VersionList(ups)[i] == VersionList(downs)[i];
      assert Undoable(migs, ups[i]) && downs[i] in downs;
      var j :| 0 <= j < |migs| && migs[j] == downs[i];
      assert IsDownOf(migs[j], ups[i]);
    }
  }

  /**
   * When the target separates what was applied from what is pending, and each pending migration has
   * exactly one down script and it inverts the up script, `undo(target)` after a successful run
   * restores the database, table and schema.
   */
  lemma UndoRestores<S(!new)>(migs: seq<Change<S>>, ignoreMissing: bool, target: int, db: Db<S>)
    requires Sorted(migs) && Run(migs, ignoreMissing, db).error.None?
    requires Separates(migs, db.table, target, Pending(migs, db.table, None))
    ensures Undo(migs, ignoreMissing, target, Run(migs, ignoreMissing, db).db) == Outcome(db, None)
  {
    var after := Run(migs, ignoreMissing, db).db;
    var ups := Pending(migs, db.table, None);
    AfterRun(migs, ignoreMissing, db);
    RecordKeys(db.table, ups);
    PendingSorted(migs, db.table);
    Paired(migs, target, db.table, ups, after.table);
    RevertAllRestores(db, ups, Downs(migs, after.table, target), after);
    UndoReverts(migs, after.table, target, after);
  }
}
