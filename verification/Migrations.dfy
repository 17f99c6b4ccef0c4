/** Migrations, the `_sqlx_migrations` table, and the queries that every driver runs against it. */
module Migrations {
  import opened Basics

  /** `MigrationType` */
  datatype Kind = Simple | ReversibleUp | ReversibleDown

  /** SHA-384 of a script: only ever compared. */
  type Checksum = string

  datatype Migration<+T> = Migration(version: int, kind: Kind, checksum: Checksum, script: T) {
    predicate IsDown() {
      kind.ReversibleDown?
    }
  }

  datatype Row = Row(checksum: Checksum, success: bool)

  /** The `_sqlx_migrations` table; `version` is its primary key. */
  type Table = map<int, Row>

  datatype Error =
    | Dirty(version: int)
    | VersionMissing(version: int)
    | VersionMismatch(version: int)
    | ExecuteMigration(version: int)
    | DuplicateVersion(version: int)
    | VersionNotPresent(version: int)
    | VersionTooOld(version: int, latest: int)
    | VersionTooNew(version: int, latest: int)

  // ------------------------------------------------------------------ least and greatest

  ghost predicate IsLeast(s: set<int>, r: Option<int>) {
    if r.None? then s == {} else r.value in s && forall x :: x in s ==> r.value <= x
  }

  ghost predicate IsGreatest(s: set<int>, r: Option<int>) {
    if r.None? then s == {} else r.value in s && forall x :: x in s ==> x <= r.value
  }

  /** Reads the versions one by one, in any order. */
  method Bounds(s: set<int>) returns (lo: Option<int>, hi: Option<int>)
    ensures IsLeast(s, lo) && IsGreatest(s, hi)
  {
    lo, hi := None, None;
    var rest := s;
    while rest != {}
      invariant rest <= s
      invariant IsLeast(s - rest, lo) && IsGreatest(s - rest, hi)
      decreases rest
    {
      var x := Pick(rest);
      assert s - (rest - {x}) == (s - rest) + {x};
      rest := rest - {x};
      lo := if lo.None? || x < lo.value then Some(x) else lo;
      hi := if hi.None? || x > hi.value then Some(x) else hi;
    }
    assert s - rest == s;
  }

  lemma {:induction false} LeastExists(s: set<int>)
    requires s != {}
    ensures exists r :: IsLeast(s, r) && r.Some?
    decreases |s|
  {
    var x := Chosen(s);
    var rest := s - {x};
    assert s == rest + {x};
    if rest == {} {
      assert IsLeast(s, Some(x));
    } else {
      LeastExists(rest);
      var r :| IsLeast(rest, r) && r.Some?;
      assert IsLeast(s, Some(if r.value < x then r.value else x));
    }
  }

  ghost function Least(s: set<int>): (r: Option<int>)
    ensures IsLeast(s, r)
  {
    if s == {} then None
    else
      LeastExists(s);
      var r :| IsLeast(s, r);
      r
  }

  lemma LeastUnique(s: set<int>, r: Option<int>)
    requires IsLeast(s, r)
    ensures r == Least(s)
  {
    if r.Some? {
      assert r.value <= Least(s).value && Least(s).value <= r.value;
    }
  }

  // ------------------------------------------------------------------ the queries

  function DirtyVersions(table: Table): set<int> {
    set v | v in table && !table[v].success
  }

  /** SELECT version ... WHERE success = false ORDER BY version LIMIT 1 */
  method DirtyVersion(table: Table) returns (r: Option<int>)
    ensures r == Least(DirtyVersions(table))
  {
    var lo, _ := Bounds(DirtyVersions(table));
    r := lo;
    LeastUnique(DirtyVersions(table), r);
  }

  function Versions<T>(migs: seq<Migration<T>>): set<int> {
    set i | 0 <= i < |migs| :: migs[i].version
  }

  /** The first applied version, in ascending order, that the migrator does not know. */
  ghost function Missing<T>(table: Table, migs: seq<Migration<T>>, ignoreMissing: bool): Option<int> {
    if ignoreMissing then None else Least(table.Keys - Versions(migs))
  }

  /** `validate_applied_migrations`: walks the applied versions in ascending order. */
  method ValidateApplied<T>(table: Table, migs: seq<Migration<T>>, ignoreMissing: bool) returns (r: Option<int>)
    ensures r == Missing(table, migs, ignoreMissing)
  {
    if ignoreMissing {
      return None;
    }
    var known := Versions(migs);
    var rest := table.Keys;
    while rest != {}
      invariant rest <= table.Keys && table.Keys - rest <= known
      invariant forall x, y :: x in rest && y in table.Keys - rest ==> y < x
      decreases rest
    {
      var lo, _ := Bounds(rest);
      if lo.value !in known {
        assert forall y :: y in table.Keys - known ==> y in rest;
        LeastUnique(table.Keys - known, lo);
        return lo;
      }
      assert table.Keys - (rest - {lo.value}) == (table.Keys - rest) + {lo.value};
      rest := rest - {lo.value};
    }
    assert table.Keys - known == {};
    return None;
  }

  /** The checks that both commands make before their loop. */
  ghost function Refusal<T>(migs: seq<Migration<T>>, ignoreMissing: bool, table: Table): Option<Error> {
    var dirty := Least(DirtyVersions(table));
    var missing := Missing(table, migs, ignoreMissing);
    if dirty.Some? then Some(Dirty(dirty.value))
    else if missing.Some? then Some(VersionMissing(missing.value))
    else None
  }

  /**
   * A table is accepted if and only if every row is successful and, unless missing ones are ignored,
   * every applied version is known.
   */
  lemma AcceptedIff<T>(migs: seq<Migration<T>>, ignoreMissing: bool, table: Table)
    ensures Refusal(migs, ignoreMissing, table).None? <==>
            && (forall v :: v in table ==> table[v].success)
            && (ignoreMissing || forall v :: v in table ==> Known(migs, v))
  {
    DirtyIff(table);
    if DirtyVersions(table) == {} {
      UnknownIff(migs, table);
    }
  }

  predicate Known<T>(migs: seq<Migration<T>>, v: int) {
    exists i :: 0 <= i < |migs| && migs[i].version == v
  }

  lemma DirtyIff(table: Table)
    ensures DirtyVersions(table) == {} <==> forall v :: v in table ==> table[v].success
  {
    var dirty := DirtyVersions(table);
    if dirty == {} {
      forall v | v in table ensures table[v].success {
        assert v !in dirty;
      }
    } else {
      var v := Chosen(dirty);
      assert v in table && !table[v].success;
    }
  }

  lemma UnknownIff<T>(migs: seq<Migration<T>>, table: Table)
    ensures table.Keys - Versions(migs) == {} <==> forall v :: v in table ==> Known(migs, v)
  {
    var unknown := table.Keys - Versions(migs);
    if unknown == {} {
      forall v | v in table ensures Known(migs, v) {
        assert v !in unknown;
      }
    } else {
      var v := Chosen(unknown);
      assert v in table && v !in Versions(migs) && !Known(migs, v);
    }
  }

  /** The least version that is not successful is reported. */
  lemma DirtyRefusal<T>(migs: seq<Migration<T>>, ignoreMissing: bool, table: Table, v: int)
    ensures Refusal(migs, ignoreMissing, table) == Some(Dirty(v)) <==>
            v in table && !table[v].success && forall u :: u in table && u < v ==> table[u].success
  {
    var dirty := DirtyVersions(table);
    if v in table && !table[v].success && forall u :: u in table && u < v ==> table[u].success {
      LeastUnique(dirty, Some(v));
    }
    if Refusal(migs, ignoreMissing, table) == Some(Dirty(v)) {
      forall u | u in table && u < v ensures table[u].success {
        assert u !in dirty;
      }
    }
  }

  /** Otherwise, unless missing ones are ignored, the least version that is not known. */
  lemma MissingRefusal<T>(migs: seq<Migration<T>>, ignoreMissing: bool, table: Table, v: int)
    ensures Refusal(migs, ignoreMissing, table) == Some(VersionMissing(v)) <==>
            && (forall u :: u in table ==> table[u].success) && !ignoreMissing
            && v in table && !Known(migs, v) && forall u :: u in table && u < v ==> Known(migs, u)
  {
    DirtyIff(table);
    var unknown := table.Keys - Versions(migs);
    if !ignoreMissing && v in table && !Known(migs, v) && forall u :: u in table && u < v ==> Known(migs, u) {
      LeastUnique(unknown, Some(v));
    }
    if Refusal(migs, ignoreMissing, table) == Some(VersionMissing(v)) {
      forall u | u in table && u < v ensures Known(migs, u) {
        assert u !in unknown;
      }
    }
  }

  // ------------------------------------------------------------------ what there is to do

  predicate Beyond(target: Option<int>, version: int) {
    target.Some? && version > target.value
  }

  /** The migrations a run has to apply, in the migrator's order. */
  function Pending<T>(migs: seq<Migration<T>>, applied: Table, target: Option<int>): (r: seq<Migration<T>>)
    ensures forall m :: m in r ==> m in migs && !m.IsDown() && m.version !in applied && !Beyond(target, m.version)
  {
    if migs == [] then []
    else if migs[0].IsDown() || migs[0].version in applied || Beyond(target, migs[0].version)
    then Pending(migs[1..], applied, target)
    else [migs[0]] + Pending(migs[1..], applied, target)
  }

  predicate IsDownAbove<T>(m: Migration<T>, applied: Table, target: int) {
    m.IsDown() && m.version in applied && m.version > target
  }

  /** The down scripts that `undo` runs, in the migrator's order (it runs them last to first). */
  function Downs<T>(migs: seq<Migration<T>>, applied: Table, target: int): (r: seq<Migration<T>>)
    ensures forall m :: m in r ==> m in migs && IsDownAbove(m, applied, target)
  {
    if migs == [] then []
    else
      var m := migs[|migs| - 1];
      var rest := Downs(migs[..|migs| - 1], applied, target);
      if IsDownAbove(m, applied, target) then rest + [m] else rest
  }

  /** The first applied migration that was changed since. */
  function Mismatch<T>(migs: seq<Migration<T>>, applied: Table): Option<Error> {
    if migs == [] then None
    else
      var m := migs[0];
      if !m.IsDown() && m.version in applied && m.checksum != applied[m.version].checksum
      then Some(VersionMismatch(m.version))
      else Mismatch(migs[1..], applied)
  }

  /** Every applied migration still has the checksum it was applied with. */
  predicate ChecksumsMatch<T>(migs: seq<Migration<T>>, applied: Table) {
    forall i :: 0 <= i < |migs| && !migs[i].IsDown() && migs[i].version in applied
      ==> migs[i].checksum == applied[migs[i].version].checksum
  }

  predicate DistinctVersions<T>(ms: seq<Migration<T>>) {
    forall i, j :: 0 <= i < j < |ms| ==> ms[i].version != ms[j].version
  }

  /** The rows of `ms`, each with its own checksum. */
  function Record<T>(table: Table, ms: seq<Migration<T>>): Table {
    if ms == [] then table
    else
      var m := ms[|ms| - 1];
      Record(table, ms[..|ms| - 1])[m.version := Row(m.checksum, true)]
  }

  lemma {:induction false} MismatchIff<T>(migs: seq<Migration<T>>, applied: Table)
    ensures Mismatch(migs, applied).None? <==> ChecksumsMatch(migs, applied)
    ensures Mismatch(migs, applied).Some? ==> Mismatch(migs, applied).value.VersionMismatch?
    decreases |migs|
  {
    if migs != [] {
      MismatchIff(migs[1..], applied);
      assert ChecksumsMatch(migs, applied) ==> ChecksumsMatch(migs[1..], applied);
    }
  }

  predicate ChecksumDiffers<T>(m: Migration<T>, applied: Table) {
    !m.IsDown() && m.version in applied && m.checksum != applied[m.version].checksum
  }

  /** The first migration that was changed is the one that is reported. */
  lemma {:induction false} MismatchIsFirst<T>(migs: seq<Migration<T>>, applied: Table, i: nat)
    requires i < |migs| && ChecksumDiffers(migs[i], applied)
    requires forall j :: 0 <= j < i ==> !ChecksumDiffers(migs[j], applied)
    ensures Mismatch(migs, applied) == Some(VersionMismatch(migs[i].version))
    decreases |migs|
  {
    if i > 0 {
      assert !ChecksumDiffers(migs[0], applied);
      MismatchIsFirst(migs[1..], applied, i - 1);
    }
  }

  lemma {:induction false} PendingHas<T>(migs: seq<Migration<T>>, applied: Table, target: Option<int>, i: nat)
    requires i < |migs| && !migs[i].IsDown() && migs[i].version !in applied && !Beyond(target, migs[i].version)
    ensures migs[i] in Pending(migs, applied, target)
    decreases |migs|
  {
    if i > 0 {
      PendingHas(migs[1..], applied, target, i - 1);
    }
  }

  lemma {:induction false} DownsHas<T>(migs: seq<Migration<T>>, applied: Table, target: int, i: nat)
    requires i < |migs| && IsDownAbove(migs[i], applied, target)
    ensures migs[i] in Downs(migs, applied, target)
    decreases |migs|
  {
    if i < |migs| - 1 {
      DownsHas(migs[..|migs| - 1], applied, target, i);
    }
  }

  lemma {:induction false} RecordKeys<T>(table: Table, ms: seq<Migration<T>>)
    ensures Record(table, ms).Keys == table.Keys + Versions(ms)
  {
    if ms != [] {
      var init := ms[..|ms| - 1];
      RecordKeys(table, init);
      assert Versions(ms) == Versions(init) + {ms[|ms| - 1].version};
    }
  }

  lemma {:induction false} RecordPrepend<T>(table: Table, m: Migration<T>, ms: seq<Migration<T>>)
    ensures Record(table, [m] + ms) == Record(table[m.version := Row(m.checksum, true)], ms)
  {
    var all := [m] + ms;
    if ms == [] {
      assert all[..0] == [];
    } else {
      assert all[..|all| - 1] == [m] + ms[..|ms| - 1];
      RecordPrepend(table, m, ms[..|ms| - 1]);
    }
  }

  /** The versions, in order. */
  function VersionList<T>(ms: seq<Migration<T>>): (vs: seq<int>)
    ensures |vs| == |ms| && forall i :: 0 <= i < |ms| ==> vs[i] == ms[i].version
  {
    seq(|ms|, i requires 0 <= i < |ms| => ms[i].version)
  }

  /** Which rows a run leaves behind. */
  lemma {:induction false} RecordLookup<T>(table: Table, ms: seq<Migration<T>>)
    requires DistinctVersions(ms) && forall i :: 0 <= i < |ms| ==> ms[i].version !in table
    ensures forall v :: v in table ==> v in Record(table, ms) && Record(table, ms)[v] == table[v]
    ensures forall i :: 0 <= i < |ms| ==>
              ms[i].version in Record(table, ms) && Record(table, ms)[ms[i].version] == Row(ms[i].checksum, true)
  {
    if ms != [] {
      RecordLookup(table, ms[..|ms| - 1]);
    }
  }
}
