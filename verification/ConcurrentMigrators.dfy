/**
 * Any number of `run_direct` calls with locking against one PostgreSQL database, interleaved at every
 * await point. A lost connection frees its advisory lock and forgets its open transaction; an error
 * leaves the lock held until the connection closes.
 */
module ConcurrentMigrators {
  import opened Basics
  import opened Migrations

  type Id = int

  type Change = Migration<()>

  datatype Tx = NoTx | Scripted | Inserted

  /** `seen` is the list that was read, and `own` what the client has applied since. */
  datatype Phase =
    | Waiting
    | Locked
    | Checked
    | Working(seen: Table, own: Table, next: nat, tx: Tx)
    | Finished(seen: Table, own: Table)
    | Failed(seen: Table, own: Table)
    | Stopped
    | Unlocked
    | Closed

  datatype Client = Client(migs: seq<Change>, ignoreMissing: bool, phase: Phase)

  /** `effects` lists the versions whose script has taken effect, in order of commit. */
  datatype World = World(table: Table, effects: seq<int>, lock: Option<Id>, clients: map<Id, Client>)

  datatype Action = Join(migs: seq<Change>, ignoreMissing: bool) | Proceed(fails: bool) | Lose

  function To(w: World, id: Id, phase: Phase): World
    requires id in w.clients
  {
    w.(clients := w.clients[id := w.clients[id].(phase := phase)])
  }

  function Next(w: World, id: Id, a: Action): World {
    match a
    case Join(migs, ignoreMissing) =>
      if id in w.clients then w
      else w.(clients := w.clients[id := Client(migs, ignoreMissing, Waiting)])
    case Lose =>
      if id !in w.clients then w
      else To(w, id, Closed).(lock := if w.lock == Some(id) then None else w.lock)
    case Proceed(fails) =>
      if id !in w.clients then w else Advance(w, id, fails)
  }

  /** The next step of `run_direct` for one client; `fails` is an error of the step itself. */
  function Advance(w: World, id: Id, fails: bool): World
    requires id in w.clients
  {
    var c := w.clients[id];
    match c.phase
    case Waiting =>
      if fails then To(w, id, Unlocked)
      else if w.lock.Some? then w
      else To(w, id, Locked).(lock := Some(id))
    case Locked =>
      To(w, id, if fails || DirtyVersions(w.table) != {} then Stopped else Checked)
    case Checked =>
      var missing := !c.ignoreMissing && w.table.Keys - Versions(c.migs) != {};
      To(w, id, if fails || missing then Stopped else Working(w.table, map[], 0, NoTx))
    case Working(seen, own, next, tx) =>
      if next >= |c.migs| then To(w, id, Finished(seen, own)) else Loop(w, id, fails)
    case Finished(seen, own) =>
      if fails then To(w, id, Failed(seen, own)) else To(w, id, Unlocked).(lock := None)
    case _ => w
  }

  /** One step of the loop body: skip, compare, or `apply` (script, INSERT, COMMIT). */
  function Loop(w: World, id: Id, fails: bool): World
    requires id in w.clients && w.clients[id].phase.Working? && w.clients[id].phase.next < |w.clients[id].migs|
  {
    var p := w.clients[id].phase;
    var m := w.clients[id].migs[p.next];
    var failed := Failed(p.seen, p.own);
    if p.tx.NoTx? then
      if m.IsDown() then To(w, id, p.(next := p.next + 1))
      else if m.version in p.seen then
        To(w, id, if m.checksum == p.seen[m.version].checksum then p.(next := p.next + 1) else failed)
      else To(w, id, if fails then failed else p.(tx := Scripted))
    else if p.tx.Scripted? then
      To(w, id, if fails || m.version in w.table then failed else p.(tx := Inserted))
    else if fails then To(w, id, failed)
    else
      var row := Row(m.checksum, true);
      To(w, id, p.(own := p.own[m.version := row], next := p.next + 1, tx := NoTx))
      .(table := w.table[m.version := row], effects := w.effects + [m.version])
  }

  function Play(w: World, run: seq<(Id, Action)>): World
    decreases |run|
  {
    if run == [] then w else Play(Next(w, run[0].0, run[0].1), run[1..])
  }

  // ------------------------------------------------------------------ the invariant

  predicate Critical(p: Phase) {
    p.Locked? || p.Checked? || HasRead(p) || p.Stopped?
  }

  /** The client is between lock and unlock. */
  predicate Holds(w: World, id: Id) {
    id in w.clients && Critical(w.clients[id].phase)
  }

  predicate HasRead(p: Phase) {
    p.Working? || p.Finished? || p.Failed?
  }

  predicate Distinct(vs: seq<int>) {
    forall i, j :: 0 <= i < j < |vs| ==> vs[i] != vs[j]
  }

  /** The first `n` migrations that are not down scripts are in the table with their own checksums. */
  predicate RecordedUpTo(migs: seq<Change>, n: nat, table: Table) {
    forall i :: 0 <= i < n && i < |migs| && !migs[i].IsDown() ==>
      migs[i].version in table && table[migs[i].version].checksum == migs[i].checksum
  }

  /** What the phase of a client says about the table. */
  predicate PhaseOk(c: Client, table: Table) {
    var p := c.phase;
    && (HasRead(p) ==> p.seen.Keys !! p.own.Keys && table == p.seen + p.own)
    && (p.Working? ==>
          && p.next <= |c.migs| && RecordedUpTo(c.migs, p.next, table)
          && (!p.tx.NoTx? ==> p.next < |c.migs| && !c.migs[p.next].IsDown() && c.migs[p.next].version !in p.seen)
          && (p.tx.Inserted? ==> c.migs[p.next].version !in table))
    && (p.Finished? ==> RecordedUpTo(c.migs, |c.migs|, table))
  }

  predicate ClientOk(w: World, id: Id)
    requires id in w.clients
  {
    (w.lock == Some(id) <==> Critical(w.clients[id].phase)) && PhaseOk(w.clients[id], w.table)
  }

  ghost predicate Inv(start: Table, w: World) {
    && (forall id :: id in w.clients ==> ClientOk(w, id))
    && (w.lock.Some? ==> w.lock.value in w.clients)
    && Distinct(w.effects)
    && (forall v :: v in start ==> v in w.table && w.table[v] == start[v])
    && (forall v :: v in w.table && v !in start <==> v in w.effects)
  }

  /** A step that changes only one client and keeps the table. */
  lemma QuietStep(start: Table, w: World, w1: World, id: Id)
    requires Inv(start, w) && id in w1.clients
    requires w1.table == w.table && w1.effects == w.effects
    requires w1.clients - {id} == w.clients - {id}
    requires w1.lock == w.lock || ((w.lock == Some(id) || w.lock.None?) && (w1.lock == Some(id) || w1.lock.None?))
    requires ClientOk(w1, id)
    ensures Inv(start, w1)
  {
    forall c | c in w1.clients && c != id ensures ClientOk(w1, c) {
      assert c in w1.clients - {id};
      assert w1.clients[c] == (w1.clients - {id})[c] == (w.clients - {id})[c] == w.clients[c];
      assert ClientOk(w, c);
    }
    if w1.lock.Some? && w1.lock.value != id {
      assert w1.lock.value in w.clients - {id};
    }
  }

  /** The lock holder moves on to a phase that fits the table. */
  lemma MoveKeeps(start: Table, w: World, id: Id, phase: Phase)
    requires Inv(start, w) && id in w.clients && w.lock == Some(id)
    requires Critical(phase) && PhaseOk(w.clients[id].(phase := phase), w.table)
    ensures Inv(start, To(w, id, phase))
  {
    var w1 := To(w, id, phase);
    assert w1.clients - {id} == w.clients - {id};
    QuietStep(start, w, w1, id);
  }

  /** One more migration took effect. */
  lemma EffectsMore(start: Table, table: Table, effects: seq<int>, v: int, row: Row)
    requires Distinct(effects) && v !in table
    requires forall x :: x in start ==> x in table && table[x] == start[x]
    requires forall x :: x in table && x !in start <==> x in effects
    ensures Distinct(effects + [v])
    ensures forall x :: x in start ==> x in table[v := row] && table[v := row][x] == start[x]
    ensures forall x :: x in table[v := row] && x !in start <==> x in effects + [v]
  {
    assert v !in effects;
  }

  lemma CommittedOk(c: Client, table: Table)
    requires PhaseOk(c, table) && c.phase.Working? && c.phase.tx.Inserted?
    ensures var p, m := c.phase, c.migs[c.phase.next];
            var row := Row(m.checksum, true);
            PhaseOk(c.(phase := p.(own := p.own[m.version := row], next := p.next + 1, tx := NoTx)),
                table[m.version := row])
  {
    var p, m := c.phase, c.migs[c.phase.next];
    var row := Row(m.checksum, true);
    assert table[m.version := row] == p.seen + p.own[m.version := row];
  }

  lemma CommitStep(start: Table, w: World, id: Id)
    requires Inv(start, w) && id in w.clients
    requires w.clients[id].phase.Working? && w.clients[id].phase.tx.Inserted?
    ensures Inv(start, Next(w, id, Proceed(false)))
  {
    assert ClientOk(w, id);
    CommittedOk(w.clients[id], w.table);
    var w1 := Next(w, id, Proceed(false));
    var m := w.clients[id].migs[w.clients[id].phase.next];
    EffectsMore(start, w.table, w.effects, m.version, Row(m.checksum, true));
    forall c | c in w1.clients ensures ClientOk(w1, c) {
      assert ClientOk(w, c);
    }
  }

  lemma LoopPhaseOk(w: World, id: Id, fails: bool)
    requires id in w.clients && PhaseOk(w.clients[id], w.table) && w.clients[id].phase.Working?
    requires w.clients[id].phase.next < |w.clients[id].migs|
    requires fails || !w.clients[id].phase.tx.Inserted?
    ensures var c1 := Loop(w, id, fails).clients[id];
            && Loop(w, id, fails) == To(w, id, c1.phase)
            && c1 == w.clients[id].(phase := c1.phase)
            && HasRead(c1.phase) && PhaseOk(c1, w.table)
  {
  }

  lemma LoopKeeps(start: Table, w: World, id: Id, fails: bool)
    requires Inv(start, w) && id in w.clients && w.clients[id].phase.Working?
    requires w.clients[id].phase.next < |w.clients[id].migs|
    requires fails || !w.clients[id].phase.tx.Inserted?
    ensures Inv(start, Loop(w, id, fails))
  {
    assert ClientOk(w, id);
    LoopPhaseOk(w, id, fails);
    MoveKeeps(start, w, id, Loop(w, id, fails).clients[id].phase);
  }

  lemma AdvanceKeeps(start: Table, w: World, id: Id, fails: bool)
    requires Inv(start, w) && id in w.clients && !w.clients[id].phase.Working?
    ensures Inv(start, Advance(w, id, fails))
  {
    assert ClientOk(w, id);
    var w1 := Advance(w, id, fails);
    if w1 != w {
      assert w1.clients - {id} == w.clients - {id};
      QuietStep(start, w, w1, id);
    }
  }

  lemma StepKeeps(start: Table, w: World, id: Id, a: Action)
    requires Inv(start, w)
    ensures Inv(start, Next(w, id, a))
  {
    var w1 := Next(w, id, a);
    if a.Proceed? && id in w.clients {
      var c := w.clients[id];
      if !c.phase.Working? {
        AdvanceKeeps(start, w, id, a.fails);
      } else if c.phase.next < |c.migs| {
        if !a.fails && c.phase.tx.Inserted? {
          CommitStep(start, w, id);
        } else {
          LoopKeeps(start, w, id, a.fails);
        }
      } else {
        assert ClientOk(w, id);
        assert w1.clients - {id} == w.clients - {id};
        QuietStep(start, w, w1, id);
      }
    } else if w1 != w {
      assert id in w.clients ==> ClientOk(w, id);
      assert w1.clients - {id} == w.clients - {id};
      QuietStep(start, w, w1, id);
    }
  }

  ghost function Init(table: Table): World {
    World(table, [], None, map[])
  }

  lemma {:induction false} RunKeeps(start: Table, w: World, run: seq<(Id, Action)>)
    requires Inv(start, w)
    ensures Inv(start, Play(w, run))
    decreases |run|
  {
    if run != [] {
      StepKeeps(start, w, run[0].0, run[0].1);
      RunKeeps(start, Next(w, run[0].0, run[0].1), run[1..]);
    }
  }

  /**
   * In every state that any interleaving can reach: no migration has taken effect twice, the table
   * is the initial one plus exactly the migrations that took effect, and at most one client is
   * between lock and unlock; from reading the list until it unlocks, whether it fails or not, that list
   * plus its own migrations is the table, and when it is done everything it had to apply is recorded.
   */
  lemma AtMostOnce(start: Table, run: seq<(Id, Action)>)
    ensures var w := Play(Init(start), run);
            && Distinct(w.effects)
            && (forall v :: v in w.table <==> v in start || v in w.effects)
            && (forall v :: v in start ==> v !in w.effects && w.table[v] == start[v])
            && (forall a, b :: Holds(w, a) && Holds(w, b) ==> a == b)
            && (forall id :: id in w.clients && HasRead(w.clients[id].phase) ==>
                  w.table == w.clients[id].phase.seen + w.clients[id].phase.own)
            && (forall id :: id in w.clients && w.clients[id].phase.Finished? ==>
                  RecordedUpTo(w.clients[id].migs, |w.clients[id].migs|, w.table))
  {
    RunKeeps(start, Init(start), run);
    var w := Play(Init(start), run);
    forall a, b | Holds(w, a) && Holds(w, b)
      ensures a == b
    {
      assert ClientOk(w, a) && ClientOk(w, b);
    }
    forall id | id in w.clients ensures ClientOk(w, id) {
    }
  }

  /** The INSERT of a working client meets an existing row only if the client itself has written it. */
  lemma NoForeignConflict(start: Table, run: seq<(Id, Action)>, id: Id)
    requires var w := Play(Init(start), run);
             && id in w.clients && w.clients[id].phase.Working? && w.clients[id].phase.tx.Scripted?
    ensures var w := Play(Init(start), run);
            var p := w.clients[id].phase;
            && p.next < |w.clients[id].migs|
            && var v := w.clients[id].migs[p.next].version;
               v in w.table ==> v in p.own
  {
    RunKeeps(start, Init(start), run);
    assert ClientOk(Play(Init(start), run), id);
  }

  // ------------------------------------------------------------------ progress

  /** `k` steps of one client, none of which fails. */
  function Alone(id: Id, k: nat): seq<(Id, Action)> {
    if k == 0 then [] else [(id, Proceed(false))] + Alone(id, k - 1)
  }

  /** `ws` are the worlds on the way from `w` to `w1`, by steps of the client that do not fail. */
  ghost predicate Leads(w: World, id: Id, ws: seq<World>, w1: World) {
    ws != [] && ws[0] == w && ws[|ws| - 1] == w1 && forall i :: 0 <= i < |ws| - 1 ==> IsStep(ws, id, i)
  }

  ghost predicate IsStep(ws: seq<World>, id: Id, i: int)
    requires 0 <= i < |ws| - 1
  {
    ws[i + 1] == Next(ws[i], id, Proceed(false))
  }

  lemma LeadsOn(w: World, id: Id, ws: seq<World>, w1: World, vs: seq<World>, w2: World)
    requires Leads(w, id, ws, w1) && Leads(w1, id, vs, w2)
    ensures Leads(w, id, ws + vs[1..], w2)
  {
    var all, n := ws + vs[1..], |ws| - 1;
    forall i | 0 <= i < |all| - 1 ensures IsStep(all, id, i) {
      if i < n {
        assert IsStep(ws, id, i);
      } else {
        assert IsStep(vs, id, i - n);
        assert all[i] == vs[i - n] && all[i + 1] == vs[i - n + 1];
      }
    }
  }

  lemma {:induction false} LeadsIsPlay(w: World, id: Id, ws: seq<World>, w1: World)
    requires Leads(w, id, ws, w1)
    ensures Play(w, Alone(id, |ws| - 1)) == w1
    decreases |ws|
  {
    if |ws| > 1 {
      assert IsStep(ws, id, 0);
      var rest := ws[1..];
      forall i | 0 <= i < |rest| - 1 ensures IsStep(rest, id, i) {
        assert IsStep(ws, id, i + 1);
      }
      LeadsIsPlay(rest[0], id, rest, w1);
      assert Alone(id, |ws| - 1)[1..] == Alone(id, |rest| - 1);
    }
  }

  /** The next two and three steps. */
  lemma LeadsThree(w: World, id: Id)
    ensures var w1 := Next(w, id, Proceed(false));
            var w2 := Next(w1, id, Proceed(false));
            var w3 := Next(w2, id, Proceed(false));
            Leads(w, id, [w, w1], w1) && Leads(w, id, [w, w1, w2], w2) && Leads(w, id, [w, w1, w2, w3], w3)
  {
  }

  /** The client works on migration `next`, with no transaction open. */
  predicate WorksAt(w: World, id: Id, migs: seq<Change>, seen: Table, own: Table, next: nat) {
    && id in w.clients && w.clients[id].migs == migs && next <= |migs|
    && w.clients[id].phase == Working(seen, own, next, NoTx)
  }

  /** Nothing else has changed. */
  predicate OnlyClient(w: World, w1: World, id: Id) {
    w1.lock == w.lock && w1.clients - {id} == w.clients - {id}
  }

  /** A down script and a migration that was applied before are passed over in one step. */
  lemma PassesOver(w: World, id: Id, migs: seq<Change>, seen: Table, own: Table, next: nat)
    returns (ws: seq<World>, w1: World)
    requires WorksAt(w, id, migs, seen, own, next) && next < |migs|
    requires migs[next].IsDown() || (migs[next].version in seen && !ChecksumDiffers(migs[next], seen))
    ensures Leads(w, id, ws, w1)
    ensures WorksAt(w1, id, migs, seen, own, next + 1) && OnlyClient(w, w1, id)
    ensures w1.table == w.table && w1.effects == w.effects
  {
    w1 := Next(w, id, Proceed(false));
    ws := [w, w1];
  }

  /** A pending migration takes effect in three steps: script, INSERT, COMMIT. */
  lemma TakesEffect(w: World, id: Id, migs: seq<Change>, seen: Table, own: Table, next: nat)
    returns (ws: seq<World>, w1: World)
    requires WorksAt(w, id, migs, seen, own, next) && next < |migs|
    requires !migs[next].IsDown() && migs[next].version !in seen && migs[next].version !in w.table
    ensures Leads(w, id, ws, w1)
    ensures var row := Row(migs[next].checksum, true);
            && WorksAt(w1, id, migs, seen, own[migs[next].version := row], next + 1) && OnlyClient(w, w1, id)
            && w1.table == w.table[migs[next].version := row] && w1.effects == w.effects + [migs[next].version]
  {
    LeadsThree(w, id);
    var v1 := Next(w, id, Proceed(false));
    var v2 := Next(v1, id, Proceed(false));
    w1 := Next(v2, id, Proceed(false));
    ws := [w, v1, v2, w1];
  }

  /** What is left to do can be done. */
  predicate CanGoOn(rest: seq<Change>, seen: Table, table: Table) {
    var pending := Pending(rest, seen, None);
    && Mismatch(rest, seen).None? && DistinctVersions(pending)
    && forall i :: 0 <= i < |pending| ==> pending[i].version !in table
  }

  lemma GoOnAfterPass(rest: seq<Change>, seen: Table, table: Table)
    requires rest != [] && CanGoOn(rest, seen, table) && (rest[0].IsDown() || rest[0].version in seen)
    ensures CanGoOn(rest[1..], seen, table) && Pending(rest, seen, None) == Pending(rest[1..], seen, None)
    ensures rest[0].IsDown() || !ChecksumDiffers(rest[0], seen)
  {
  }

  lemma GoOnAfterEffect(rest: seq<Change>, seen: Table, table: Table, row: Row)
    requires rest != [] && CanGoOn(rest, seen, table) && !rest[0].IsDown() && rest[0].version !in seen
    ensures rest[0].version !in table && CanGoOn(rest[1..], seen, table[rest[0].version := row])
    ensures Pending(rest, seen, None) == [rest[0]] + Pending(rest[1..], seen, None)
  {
    var all, tail := Pending(rest, seen, None), Pending(rest[1..], seen, None);
    assert all == [rest[0]] + tail && all[0] == rest[0];
    forall i | 0 <= i < |tail| ensures tail[i].version !in table && tail[i].version != rest[0].version {
      assert tail[i] == all[i + 1];
    }
    assert DistinctVersions(tail) by {
      assert forall i :: 0 <= i < |tail| ==> tail[i] == all[i + 1];
    }
  }

  /** What the loop has done once it is through. */
  predicate WentThrough(w: World, w1: World, id: Id, migs: seq<Change>, seen: Table, own: Table, pending: seq<Change>) {
    && WorksAt(w1, id, migs, seen, own, |migs|) && OnlyClient(w, w1, id)
    && w1.table == Record(w.table, pending) && w1.effects == w.effects + VersionList(pending)
  }

  lemma WentOneMore(
    w: World, w1: World, w2: World, id: Id, migs: seq<Change>, seen: Table, own: Table, m: Change, tail: seq<Change>)
    requires WentThrough(w1, w2, id, migs, seen, own, tail) && OnlyClient(w, w1, id)
    requires w1.table == w.table[m.version := Row(m.checksum, true)] && w1.effects == w.effects + [m.version]
    ensures WentThrough(w, w2, id, migs, seen, own, [m] + tail)
  {
    RecordPrepend(w.table, m, tail);
    assert VersionList([m] + tail) == [m.version] + VersionList(tail);
  }

  lemma WentNowhere(w: World, id: Id, migs: seq<Change>, seen: Table, own: Table)
    requires WorksAt(w, id, migs, seen, own, |migs|)
    ensures Leads(w, id, [w], w) && WentThrough(w, w, id, migs, seen, own, [])
  {
    assert VersionList<()>([]) == [];
  }

  lemma WentAfterPass(
    w: World, w1: World, w2: World, id: Id, migs: seq<Change>, seen: Table, own: Table, pending: seq<Change>)
    requires WentThrough(w1, w2, id, migs, seen, own, pending) && OnlyClient(w, w1, id)
    requires w1.table == w.table && w1.effects == w.effects
    ensures WentThrough(w, w2, id, migs, seen, own, pending)
  {
  }

  lemma PassStep(w: World, id: Id, migs: seq<Change>, seen: Table, own: Table, next: nat)
    returns (ws: seq<World>, w1: World)
    requires WorksAt(w, id, migs, seen, own, next) && next < |migs| && CanGoOn(migs[next..], seen, w.table)
    requires migs[next].IsDown() || migs[next].version in seen
    ensures Leads(w, id, ws, w1) && WorksAt(w1, id, migs, seen, own, next + 1) && OnlyClient(w, w1, id)
    ensures w1.table == w.table && w1.effects == w.effects && CanGoOn(migs[next + 1..], seen, w1.table)
    ensures Pending(migs[next..], seen, None) == Pending(migs[next + 1..], seen, None)
  {
    assert migs[next..][0] == migs[next] && migs[next..][1..] == migs[next + 1..];
    GoOnAfterPass(migs[next..], seen, w.table);
    ws, w1 := PassesOver(w, id, migs, seen, own, next);
  }

  lemma EffectStep(w: World, id: Id, migs: seq<Change>, seen: Table, own: Table, next: nat)
    returns (ws: seq<World>, w1: World, own1: Table)
    requires WorksAt(w, id, migs, seen, own, next) && next < |migs| && CanGoOn(migs[next..], seen, w.table)
    requires !migs[next].IsDown() && migs[next].version !in seen
    ensures Leads(w, id, ws, w1) && WorksAt(w1, id, migs, seen, own1, next + 1) && OnlyClient(w, w1, id)
    ensures w1.table == w.table[migs[next].version := Row(migs[next].checksum, true)]
    ensures w1.effects == w.effects + [migs[next].version] && CanGoOn(migs[next + 1..], seen, w1.table)
    ensures Pending(migs[next..], seen, None) == [migs[next]] + Pending(migs[next + 1..], seen, None)
  {
    assert migs[next..][0] == migs[next] && migs[next..][1..] == migs[next + 1..];
    var row := Row(migs[next].checksum, true);
    GoOnAfterEffect(migs[next..], seen, w.table, row);
    ws, w1 := TakesEffect(w, id, migs, seen, own, next);
    own1 := own[migs[next].version := row];
  }

  /** Left alone, a client applies exactly what is pending, in order. */
  lemma {:induction false} LoopGoesThrough(w: World, id: Id, migs: seq<Change>, seen: Table, own: Table, next: nat)
    returns (ws: seq<World>, own2: Table, w2: World)
    requires WorksAt(w, id, migs, seen, own, next) && CanGoOn(migs[next..], seen, w.table)
    ensures Leads(w, id, ws, w2)
    ensures WentThrough(w, w2, id, migs, seen, own2, Pending(migs[next..], seen, None))
    decreases |migs| - next
  {
    if next == |migs| {
      WentNowhere(w, id, migs, seen, own);
      ws, own2, w2 := [w], own, w;
    } else if migs[next].IsDown() || migs[next].version in seen {
      var us, w1 := PassStep(w, id, migs, seen, own, next);
      var vs;
      vs, own2, w2 := LoopGoesThrough(w1, id, migs, seen, own, next + 1);
      LeadsOn(w, id, us, w1, vs, w2);
      WentAfterPass(w, w1, w2, id, migs, seen, own2, Pending(migs[next + 1..], seen, None));
      ws := us + vs[1..];
    } else {
      var us, w1, own1 := EffectStep(w, id, migs, seen, own, next);
      var vs;
      vs, own2, w2 := LoopGoesThrough(w1, id, migs, seen, own1, next + 1);
      LeadsOn(w, id, us, w1, vs, w2);
      WentOneMore(w, w1, w2, id, migs, seen, own2, migs[next], Pending(migs[next + 1..], seen, None));
      ws := us + vs[1..];
    }
  }

  /** Lock, check and read the list. */
  lemma GetsToWork(w: World, id: Id) returns (ws: seq<World>, w1: World)
    requires id in w.clients && w.clients[id].phase.Waiting? && w.lock.None?
    requires Refusal(w.clients[id].migs, w.clients[id].ignoreMissing, w.table).None?
    ensures Leads(w, id, ws, w1) && WorksAt(w1, id, w.clients[id].migs, w.table, map[], 0)
    ensures w1.table == w.table && w1.effects == w.effects
    ensures w1.lock == Some(id) && w1.clients - {id} == w.clients - {id}
  {
    LeadsThree(w, id);
    var v1 := Next(w, id, Proceed(false));
    var v2 := Next(v1, id, Proceed(false));
    w1 := Next(v2, id, Proceed(false));
    ws := [w, v1, v2, w1];
  }

  /** Leave the loop and unlock. */
  lemma GetsAway(w: World, id: Id, migs: seq<Change>, seen: Table, own: Table) returns (ws: seq<World>, w1: World)
    requires WorksAt(w, id, migs, seen, own, |migs|)
    ensures Leads(w, id, ws, w1) && id in w1.clients && w1.clients[id].phase.Unlocked? && w1.lock.None?
    ensures w1.table == w.table && w1.effects == w.effects && w1.clients - {id} == w.clients - {id}
  {
    LeadsThree(w, id);
    var v1 := Next(w, id, Proceed(false));
    w1 := Next(v1, id, Proceed(false));
    ws := [w, v1, w1];
  }

  /**
   * A waiting client that finds the lock free, a table that is accepted, no changed migration and
   * distinct pending versions gets through: exactly the pending migrations take effect, in order, the
   * table is the old one with their rows, and the lock is free again.
   */
  lemma GetsThrough(w: World, id: Id) returns (k: nat, w3: World)
    requires id in w.clients && w.clients[id].phase.Waiting? && w.lock.None?
    requires Refusal(w.clients[id].migs, w.clients[id].ignoreMissing, w.table).None?
    requires ChecksumsMatch(w.clients[id].migs, w.table)
    requires DistinctVersions(Pending(w.clients[id].migs, w.table, None))
    ensures Play(w, Alone(id, k)) == w3
    ensures id in w3.clients && w3.clients[id].phase.Unlocked? && w3.lock.None?
    ensures w3.effects == w.effects + VersionList(Pending(w.clients[id].migs, w.table, None))
    ensures w3.table == Record(w.table, Pending(w.clients[id].migs, w.table, None))
    ensures w3.clients - {id} == w.clients - {id}
  {
    var migs := w.clients[id].migs;
    var us, w1 := GetsToWork(w, id);
    MismatchIff(migs, w.table);
    assert migs[0..] == migs;
    var vs, own, w2 := LoopGoesThrough(w1, id, migs, w.table, map[], 0);
    var xs;
    xs, w3 := GetsAway(w2, id, migs, w.table, own);
    LeadsOn(w, id, us, w1, vs, w2);
    LeadsOn(w, id, us + vs[1..], w2, xs, w3);
    LeadsIsPlay(w, id, us + vs[1..] + xs[1..], w3);
    k := |us + vs[1..] + xs[1..]| - 1;
  }

  // ------------------------------------------------------------------ why a client stops

  predicate HasStopped(p: Phase) {
    p.Stopped? || p.Failed?
  }

  /** What is wrong for a client at its next step. */
  predicate Breaks(w: World, id: Id, fails: bool)
    requires id in w.clients
  {
    var c := w.clients[id];
    match c.phase
    case Locked => fails || exists v :: v in w.table && !w.table[v].success
    case Checked => fails || (!c.ignoreMissing && exists v :: v in w.table && !Known(c.migs, v))
    case Working(seen, own, next, tx) =>
      next < |c.migs| &&
      var m := c.migs[next];
      (if tx.NoTx? then ChecksumDiffers(m, seen) || (fails && !m.IsDown() && m.version !in seen)
       else fails || (tx.Scripted? && m.version in own))
    case Finished(_, _) => fails
    case _ => false
  }

  /**
   * A client stops if and only if its step fails, the table is dirty or has an unknown version, a
   * migration was changed, or the client has itself applied another migration of that version.
   */
  lemma StopsIff(start: Table, w: World, id: Id, fails: bool)
    requires Inv(start, w) && id in w.clients && !HasStopped(w.clients[id].phase)
    ensures id in Next(w, id, Proceed(fails)).clients
    ensures HasStopped(Next(w, id, Proceed(fails)).clients[id].phase) <==> Breaks(w, id, fails)
  {
    assert ClientOk(w, id);
    DirtyIff(w.table);
    UnknownIff(w.clients[id].migs, w.table);
  }
}
