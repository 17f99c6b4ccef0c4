/**
 * Nested transactions. A client that knows only an integer depth turns begin, commit and rollback
 * into BEGIN, SAVEPOINT, RELEASE and ROLLBACK TO; the server keeps a list of named savepoints in
 * which `ROLLBACK TO` leaves its own savepoint behind. The theorems say that the pair still behaves
 * like a stack of snapshots, that a dropped transaction (whose rollback is only queued) is
 * indistinguishable from a rolled back one, and where this stops being true.
 */
module Savepoints {
  import opened Basics

  /** The writes in effect, oldest first. Any interpretation of the writes factors through this list. */
  type Data = seq<int>

  // ------------------------------------------------------------------ the statements

  /** Savepoints are named by `N`: by number here, by text on the wire (see `SavepointTexts`). */
  datatype SqlOf<N> =
    | Begin
    | CustomBegin(opens: bool)
    | Savepoint(n: N)
    | Commit
    | Release(n: N)
    | Rollback
    | RollbackTo(n: N)

  type Sql = SqlOf<nat>

  /** `begin_ansi_transaction_sql` */
  function BeginSql(depth: nat): Sql {
    if depth == 0 then Begin else Savepoint(depth)
  }

  /** `commit_ansi_transaction_sql` */
  function CommitSql(depth: nat): Sql
    requires depth > 0
  {
    if depth == 1 then Commit else Release(depth - 1)
  }

  /** `rollback_ansi_transaction_sql` */
  function RollbackSql(depth: nat): Sql
    requires depth > 0
  {
    if depth == 1 then Rollback else RollbackTo(depth - 1)
  }

  // ------------------------------------------------------------------ the server

  /**
   * PostgreSQL shadows a savepoint of the same name, and any error inside a transaction block aborts
   * the block until it is rolled back. MySQL replaces a savepoint of the same name. Its manual says
   * that RELEASE removes the named savepoint, its implementation removes the later ones too: both
   * readings are covered.
   */
  datatype Dialect = Postgres | MySql(releaseDropsLater: bool)

  datatype PointOf<N> = Point(name: N, data: Data)

  datatype ServerOf<N> = Server(inTx: bool, aborted: bool, durable: Data, data: Data, points: seq<PointOf<N>>)

  type Point = PointOf<nat>
  type Server = ServerOf<nat>

  /** Index of the last savepoint called `n`, or -1. */
  function LastIndex<N(==)>(points: seq<PointOf<N>>, n: N): (i: int)
    ensures -1 <= i < |points|
    ensures i >= 0 ==> points[i].name == n
  {
    if points == [] then -1
    else if points[|points| - 1].name == n then |points| - 1
    else LastIndex(points[..|points| - 1], n)
  }

  function Without<N(==)>(points: seq<PointOf<N>>, n: N): seq<PointOf<N>> {
    if points == [] then []
    else
      var rest := Without(points[..|points| - 1], n);
      if points[|points| - 1].name == n then rest else rest + [points[|points| - 1]]
  }

  function Fail<N>(d: Dialect, s: ServerOf<N>): ServerOf<N> {
    s.(aborted := s.aborted || (d.Postgres? && s.inTx))
  }

  function Outside<N>(data: Data): ServerOf<N> {
    Server(false, false, data, data, [])
  }

  /** One transaction-control statement: the new server state and whether the server accepted it. */
  function Exec<N(==)>(d: Dialect, s: ServerOf<N>, q: SqlOf<N>): (ServerOf<N>, bool) {
    match q
    case Begin => ExecBegin(d, s)
    case CustomBegin(opens) => if opens then ExecBegin(d, s) else (s, true)
    case Savepoint(n) =>
      if s.aborted || (d.Postgres? && !s.inTx) then (Fail(d, s), false)
      else if !s.inTx then (s, true)
      else
        var kept := if d.Postgres? then s.points else Without(s.points, n);
        (s.(points := kept + [Point(n, s.data)]), true)
    case Commit =>
      if s.inTx then (Outside(if s.aborted then s.durable else s.data), true) else (s, true)
    case Release(n) =>
      var i := LastIndex(s.points, n);
      if s.aborted || !s.inTx || i < 0 then (Fail(d, s), false)
      else
        var later := if d.MySql? && !d.releaseDropsLater then s.points[i + 1..] else [];
        (s.(points := s.points[..i] + later), true)
    case Rollback => if s.inTx then (Outside(s.durable), true) else (s, true)
    case RollbackTo(n) =>
      var i := LastIndex(s.points, n);
      if !s.inTx || i < 0 then (Fail(d, s), false)
      else (s.(aborted := false, data := s.points[i].data, points := s.points[..i + 1]), true)
  }

  function ExecBegin<N>(d: Dialect, s: ServerOf<N>): (ServerOf<N>, bool) {
    if !s.inTx then (Server(true, false, s.data, s.data, []), true)
    else if d.Postgres? then (s, !s.aborted)
    else (Server(true, false, s.data, s.data, []), true)
  }

  /** A user statement that writes `w`, or fails when `works` is false. */
  function ExecWrite<N>(d: Dialect, s: ServerOf<N>, w: int, works: bool): (ServerOf<N>, bool) {
    if s.aborted then (s, false)
    else if !works then (Fail(d, s), false)
    else if s.inTx then (s.(data := s.data + [w]), true)
    else (Outside(s.data + [w]), true)
  }

  // ------------------------------------------------------------------ the client

  /**
   * `queue` holds the statements written to the connection but not yet sent, and `unread` the replies,
   * accepted or not, that were left unread when reading stopped at an error.
   */
  datatype Client = Client(depth: nat, queue: seq<Sql>, unread: seq<bool>, server: Server)

  /** Runs `queue` first to last; the flag says whether every statement was accepted. */
  function ExecAll(d: Dialect, s: Server, queue: seq<Sql>): (Server, bool) {
    if queue == [] then (s, true)
    else
      var (s1, ok1) := ExecAll(d, s, queue[..|queue| - 1]);
      var (s2, ok2) := Exec(d, s1, queue[|queue| - 1]);
      (s2, ok1 && ok2)
  }

  /** The server's reply to each statement of the queue. */
  function Replies(d: Dialect, s: Server, queue: seq<Sql>): (rs: seq<bool>) {
    if queue == [] then []
    else
      var init := queue[..|queue| - 1];
      Replies(d, s, init) + [Exec(d, ExecAll(d, s, init).0, queue[|queue| - 1]).1]
  }

  /** Reading stops at the first error; what comes after it stays unread. */
  function ReadReplies(rs: seq<bool>): (seq<bool>, bool) {
    if rs == [] then ([], true) else if rs[0] then ReadReplies(rs[1..]) else (rs[1..], false)
  }

  /** `wait_until_ready`, which every statement awaits first: sends the whole queue, then reads replies. */
  function Flush(d: Dialect, c: Client): (Client, bool) {
    var (rest, ok) := ReadReplies(c.unread + Replies(d, c.server, c.queue));
    (Client(c.depth, [], rest, ExecAll(d, c.server, c.queue).0), ok)
  }

  function Send(d: Dialect, c: Client, q: Sql): (Client, bool) {
    var (c1, flushed) := Flush(d, c);
    if !flushed then (c1, false)
    else
      var (s, ok) := Exec(d, c1.server, q);
      (c1.(server := s), ok)
  }

  function BeginStep(d: Dialect, c: Client, custom: Option<bool>): (Client, bool) {
    if custom.Some? && c.depth > 0 then (c, false)
    else
      var q := if custom.Some? then CustomBegin(custom.value) else BeginSql(c.depth);
      var (c1, ok) := Send(d, c, q);
      if ok && c1.server.inTx && !c1.server.aborted then (c1.(depth := c1.depth + 1), true)
      // the PostgreSQL driver holds a guard that rolls back the current depth
      else if d.Postgres? then (StartRollback(c1), false)
      else (c1, false)
  }

  function CommitStep(d: Dialect, c: Client): (Client, bool) {
    if c.depth == 0 then (c, true)
    else
      var (c1, ok) := Send(d, c, CommitSql(c.depth));
      if ok then (c1.(depth := c.depth - 1), true) else (c1, false)
  }

  function RollbackStep(d: Dialect, c: Client): (Client, bool) {
    if c.depth == 0 then (c, true)
    else
      var (c1, ok) := Send(d, c, RollbackSql(c.depth));
      if ok then (c1.(depth := c.depth - 1), true) else (c1, false)
  }

  function StartRollback(c: Client): Client {
    if c.depth == 0 then c
    else c.(queue := c.queue + [RollbackSql(c.depth)], depth := c.depth - 1)
  }

  function WriteStep(d: Dialect, c: Client, w: int, works: bool): (Client, bool) {
    var (c1, flushed) := Flush(d, c);
    if !flushed then (c1, false)
    else
      var (s, ok) := ExecWrite(d, c1.server, w, works);
      (c1.(server := s), ok)
  }

  /** Ending a `Transaction` consumes it, so one that could not be ended is still open and is dropped. */
  function OrDrop(r: (Client, bool)): (Client, bool) {
    if r.1 then r else (StartRollback(r.0), false)
  }

  // ------------------------------------------------------------------ runs

  datatype Op =
    | OpBegin(custom: Option<bool>)
    | OpWrite(w: int, works: bool)
    | OpCommit
    | OpRollback
    | OpDrop

  /** What the caller sees: success, and after a statement the data it left visible. */
  datatype Outcome = Outcome(ok: bool, seen: Data)

  function Step(d: Dialect, c: Client, op: Op): (Client, Outcome) {
    match op
    case OpBegin(custom) => var (c1, ok) := BeginStep(d, c, custom); (c1, Outcome(ok, []))
    case OpWrite(w, works) => var (c1, ok) := WriteStep(d, c, w, works); (c1, Outcome(ok, c1.server.data))
    case OpCommit => var (c1, ok) := OrDrop(CommitStep(d, c)); (c1, Outcome(ok, []))
    case OpRollback => var (c1, ok) := OrDrop(RollbackStep(d, c)); (c1, Outcome(ok, []))
    case OpDrop => (StartRollback(c), Outcome(true, []))
  }

  function Run(d: Dialect, c: Client, ops: seq<Op>): (r: (Client, seq<Outcome>))
    ensures |r.1| == |ops|
    decreases |ops|
  {
    if ops == [] then (c, [])
    else
      var (c1, o) := Step(d, c, ops[0]);
      var (c2, os) := Run(d, c1, ops[1..]);
      (c2, [o] + os)
  }

  // ------------------------------------------------------------------ the specification: a stack

  /** `marks[k]` is the data as it was when the transaction at depth `k + 1` began. */
  datatype Stack = Stack(marks: seq<Data>, data: Data, aborted: bool)

  function Undo(a: Stack): Stack
    requires a.marks != []
  {
    Stack(a.marks[..|a.marks| - 1], a.marks[|a.marks| - 1], false)
  }

  /**
   * What the caller's program may do next. Only an open `Transaction` can be ended, and a transaction
   * is not nested into one that a failed statement has aborted (see `NestedBeginKeepsDepthIff`).
   */
  predicate Allowed(a: Stack, op: Op) {
    match op
    case OpBegin(custom) => custom.None? ==> !a.aborted
    case OpWrite(_, _) => true
    case _ => a.marks != []
  }

  function StackStep(d: Dialect, a: Stack, op: Op): (Stack, Outcome)
    requires Allowed(a, op)
  {
    match op
    case OpBegin(custom) =>
      if (custom.Some? && a.marks != []) || custom == Some(false) then (a, Outcome(false, []))
      else (Stack(a.marks + [a.data], a.data, false), Outcome(true, []))
    case OpWrite(w, works) =>
      if a.aborted then (a, Outcome(false, a.data))
      else if !works then (a.(aborted := d.Postgres? && a.marks != []), Outcome(false, a.data))
      else (a.(data := a.data + [w]), Outcome(true, a.data + [w]))
    case OpCommit =>
      // COMMIT of an aborted PostgreSQL block succeeds, and rolls back
      if a.aborted then (Undo(a), Outcome(|a.marks| == 1, []))
      else (a.(marks := a.marks[..|a.marks| - 1]), Outcome(true, []))
    case OpRollback => (Undo(a), Outcome(true, []))
    case OpDrop => (Undo(a), Outcome(true, []))
  }

  predicate AllAllowed(d: Dialect, a: Stack, ops: seq<Op>)
    decreases |ops|
  {
    ops == [] || (Allowed(a, ops[0]) && AllAllowed(d, StackStep(d, a, ops[0]).0, ops[1..]))
  }

  function StackRun(d: Dialect, a: Stack, ops: seq<Op>): (Stack, seq<Outcome>)
    requires AllAllowed(d, a, ops)
    decreases |ops|
  {
    if ops == [] then (a, [])
    else
      var (a1, o) := StackStep(d, a, ops[0]);
      var (a2, os) := StackRun(d, a1, ops[1..]);
      (a2, [o] + os)
  }

  // ------------------------------------------------------------------ the invariant

  /**
   * Reading the savepoints from the newest: stale ones have names above `m`, then comes the live
   * savepoint `m` holding `marks[m]`, and below it the same for `m - 1`.
   */
  predicate Live(points: seq<Point>, marks: seq<Data>, m: nat)
    requires m < |marks|
    decreases |points|
  {
    m == 0 ||
    (points != [] &&
     var p := points[|points| - 1];
     var rest := points[..|points| - 1];
     if p.name > m then Live(rest, marks, m)
     else p.name == m && p.data == marks[m] && Live(rest, marks, m - 1))
  }

  lemma {:induction false} LiveWeaken(points: seq<Point>, marks: seq<Data>, m: nat)
    requires 0 < m < |marks| && Live(points, marks, m)
    ensures Live(points, marks, m - 1)
    decreases |points|
  {
    if points[|points| - 1].name > m {
      LiveWeaken(points[..|points| - 1], marks, m);
    }
  }

  /** ROLLBACK TO and RELEASE find the live savepoint; everything after it is stale. */
  lemma {:induction false} LiveFind(points: seq<Point>, marks: seq<Data>, m: nat)
    requires 0 < m < |marks| && Live(points, marks, m)
    ensures var i := LastIndex(points, m);
            && i >= 0 && points[i].data == marks[m]
            && Live(points[..i], marks, m - 1)
            && Live(points[..i + 1], marks, m)
            && forall j :: i < j < |points| ==> points[j].name > m
    decreases |points|
  {
    var last := |points| - 1;
    if points[last].name > m {
      LiveFind(points[..last], marks, m);
      var i := LastIndex(points[..last], m);
      assert points[..last][..i] == points[..i];
      assert points[..last][..i + 1] == points[..i + 1];
    } else {
      assert points[..last + 1] == points;
    }
  }

  lemma {:induction false} LiveStale(points: seq<Point>, later: seq<Point>, marks: seq<Data>, m: nat)
    requires m < |marks| && Live(points, marks, m)
    requires forall j :: 0 <= j < |later| ==> later[j].name > m
    ensures Live(points + later, marks, m)
    decreases |later|
  {
    if later == [] {
      assert points + later == points;
    } else {
      var all := points + later;
      assert all[..|all| - 1] == points + later[..|later| - 1];
      LiveStale(points, later[..|later| - 1], marks, m);
    }
  }

  lemma {:induction false} LiveWithout(points: seq<Point>, marks: seq<Data>, m: nat, n: nat)
    requires m < n && m < |marks| && Live(points, marks, m)
    ensures Live(Without(points, n), marks, m)
    decreases |points|
  {
    if m > 0 {
      var p := points[|points| - 1];
      var rest := points[..|points| - 1];
      LiveWithout(rest, marks, if p.name > m then m else m - 1, n);
      if p.name != n {
        assert (Without(rest, n) + [p])[..|Without(rest, n)|] == Without(rest, n);
      }
    }
  }

  lemma {:induction false} LiveMarks(points: seq<Point>, marks: seq<Data>, other: seq<Data>, m: nat)
    requires m < |marks| && m < |other| && marks[..m + 1] == other[..m + 1]
    requires Live(points, marks, m)
    ensures Live(points, other, m)
    decreases |points|
  {
    if m > 0 {
      var rest := points[..|points| - 1];
      assert marks[m] == marks[..m + 1][m] == other[..m + 1][m];
      if points[|points| - 1].name > m {
        LiveMarks(rest, marks, other, m);
      } else {
        assert marks[..m] == marks[..m + 1][..m] == other[..m + 1][..m] == other[..m];
        LiveMarks(rest, marks, other, m - 1);
      }
    }
  }

  /** A server with nothing queued that represents the stack `a`. */
  predicate Represents(s: Server, a: Stack) {
    && s.data == a.data && s.aborted == a.aborted && s.inTx == (a.marks != [])
    && if a.marks == [] then s == Outside(a.data)
       else s.durable == a.marks[0] && Live(s.points, a.marks, |a.marks| - 1)
  }

  /** The depth counts the open transactions, and sending the queue will bring the server to `a`. */
  predicate Simulates(d: Dialect, c: Client, a: Stack) {
    var (s, ok) := ExecAll(d, c.server, c.queue);
    && c.depth == |a.marks| && c.unread == [] && ok && Represents(s, a)
    && forall i :: 0 <= i < |c.queue| ==> c.queue[i].Rollback? || c.queue[i].RollbackTo?
  }

  // ------------------------------------------------------------------ each statement keeps it

  /** A new savepoint shadows or replaces the stale ones of its name. */
  lemma SavepointKeeps(points: seq<Point>, marks: seq<Data>, data: Data, replace: bool)
    requires var m := |marks|; m > 0 && Live(points, marks, m - 1)
    ensures var m := |marks|;
            var kept := if replace then Without(points, m) else points;
            Live(kept + [Point(m, data)], marks + [data], m)
  {
    var m := |marks|;
    var kept := if replace then Without(points, m) else points;
    if replace {
      LiveWithout(points, marks, m - 1, m);
    }
    assert marks[..m] == (marks + [data])[..m];
    LiveMarks(kept, marks, marks + [data], m - 1);
    assert (kept + [Point(m, data)])[..|kept|] == kept;
  }

  /** One more mark. */
  lemma PushRepresents(s: Server, a: Stack, points: seq<Point>)
    requires Represents(s, a) && a.marks != [] && !a.aborted && Live(points, a.marks + [a.data], |a.marks|)
    ensures Represents(s.(points := points), Stack(a.marks + [a.data], a.data, false))
  {
  }

  lemma ExecSavepointIs<N>(d: Dialect, s: ServerOf<N>, n: N)
    requires s.inTx && !s.aborted
    ensures var kept := if d.Postgres? then s.points else Without(s.points, n);
            Exec(d, s, Savepoint(n)) == (s.(points := kept + [Point(n, s.data)]), true)
  {
  }

  lemma ExecBeginSql(d: Dialect, s: Server, a: Stack)
    requires Represents(s, a) && !a.aborted
    ensures var (s1, ok) := Exec(d, s, BeginSql(|a.marks|));
            ok && s1.inTx && !s1.aborted && Represents(s1, Stack(a.marks + [a.data], a.data, false))
  {
    var m := |a.marks|;
    if m > 0 {
      var kept := if d.MySql? then Without(s.points, m) else s.points;
      SavepointKeeps(s.points, a.marks, a.data, d.MySql?);
      PushRepresents(s, a, kept + [Point(m, a.data)]);
      ExecSavepointIs(d, s, m);
    }
  }

  /** Releasing the live savepoint `m` leaves the ones below it live. */
  lemma ReleaseKeeps(points: seq<Point>, marks: seq<Data>, m: nat, dropLater: bool)
    requires 0 < m == |marks| - 1 && Live(points, marks, m)
    ensures var i := LastIndex(points, m);
            i >= 0 && Live(points[..i] + (if dropLater then [] else points[i + 1..]), marks[..m], m - 1)
  {
    LiveFind(points, marks, m);
    var i := LastIndex(points, m);
    assert marks[..m] == marks[..m][..m];
    LiveMarks(points[..i], marks, marks[..m], m - 1);
    LiveStale(points[..i], if dropLater then [] else points[i + 1..], marks[..m], m - 1);
  }

  lemma ExecCommitSql(d: Dialect, s: Server, a: Stack)
    requires Represents(s, a) && a.marks != []
    ensures var (s1, ok) := Exec(d, s, CommitSql(|a.marks|));
            && ok == (!a.aborted || |a.marks| == 1)
            && Represents(s1, if !ok then a
                              else if a.aborted then Undo(a)
                              else a.(marks := a.marks[..|a.marks| - 1]))
  {
    if |a.marks| > 1 && !a.aborted {
      ExecRelease(d, s, a);
    }
  }

  /** Other savepoints and one mark less. */
  lemma PopRepresents(s: Server, a: Stack, points: seq<Point>)
    requires Represents(s, a) && |a.marks| > 1 && Live(points, a.marks[..|a.marks| - 1], |a.marks| - 2)
    ensures Represents(s.(points := points), a.(marks := a.marks[..|a.marks| - 1]))
  {
  }

  /** What RELEASE leaves of the savepoints. */
  function Released<N(==)>(d: Dialect, points: seq<PointOf<N>>, n: N): seq<PointOf<N>>
    requires LastIndex(points, n) >= 0
  {
    var i := LastIndex(points, n);
    points[..i] + if d.MySql? && !d.releaseDropsLater then points[i + 1..] else []
  }

  lemma ExecRelease(d: Dialect, s: Server, a: Stack)
    requires Represents(s, a) && |a.marks| > 1 && !a.aborted
    ensures var (s1, ok) := Exec(d, s, Release(|a.marks| - 1));
            ok && Represents(s1, a.(marks := a.marks[..|a.marks| - 1]))
  {
    var m := |a.marks| - 1;
    ReleaseKeeps(s.points, a.marks, m, !(d.MySql? && !d.releaseDropsLater));
    PopRepresents(s, a, Released(d, s.points, m));
    ExecReleaseIs(d, s, m);
  }

  lemma ExecReleaseIs<N>(d: Dialect, s: ServerOf<N>, n: N)
    requires s.inTx && !s.aborted && LastIndex(s.points, n) >= 0
    ensures Exec(d, s, Release(n)) == (s.(points := Released(d, s.points, n)), true)
  {
  }

  lemma ExecRollbackSql(d: Dialect, s: Server, a: Stack)
    requires Represents(s, a) && a.marks != []
    ensures var (s1, ok) := Exec(d, s, RollbackSql(|a.marks|));
            ok && Represents(s1, Undo(a))
  {
    var m := |a.marks| - 1;
    if m > 0 {
      LiveFind(s.points, a.marks, m);
      var i := LastIndex(s.points, m);
      LiveWeaken(s.points[..i + 1], a.marks, m);
      assert a.marks[..m] == a.marks[..m][..m];
      LiveMarks(s.points[..i + 1], a.marks, a.marks[..m], m - 1);
    }
  }

  /** Queueing a statement and sending it later is the same as sending it after the queue now. */
  lemma ExecAllAppend(d: Dialect, s: Server, queue: seq<Sql>, q: Sql)
    ensures var (s1, ok1) := ExecAll(d, s, queue);
            var (s2, ok2) := Exec(d, s1, q);
            ExecAll(d, s, queue + [q]) == (s2, ok1 && ok2)
  {
    assert (queue + [q])[..|queue|] == queue;
  }

  lemma {:induction false} RepliesAccepted(d: Dialect, s: Server, queue: seq<Sql>)
    requires ExecAll(d, s, queue).1
    ensures forall i :: 0 <= i < |Replies(d, s, queue)| ==> Replies(d, s, queue)[i]
    decreases |queue|
  {
    if queue != [] {
      RepliesAccepted(d, s, queue[..|queue| - 1]);
    }
  }

  lemma {:induction false} AllRead(rs: seq<bool>)
    requires forall i :: 0 <= i < |rs| ==> rs[i]
    ensures ReadReplies(rs) == ([], true)
  {
    if rs != [] {
      AllRead(rs[1..]);
    }
  }

  /** When every queued statement is accepted, nothing is left to send or to read. */
  lemma FlushAccepted(d: Dialect, c: Client)
    requires c.unread == [] && ExecAll(d, c.server, c.queue).1
    ensures Flush(d, c) == (Client(c.depth, [], [], ExecAll(d, c.server, c.queue).0), true)
  {
    RepliesAccepted(d, c.server, c.queue);
    assert c.unread + Replies(d, c.server, c.queue) == Replies(d, c.server, c.queue);
    AllRead(Replies(d, c.server, c.queue));
  }

  lemma StartRollbackSimulates(d: Dialect, c: Client, a: Stack)
    requires Simulates(d, c, a) && a.marks != []
    ensures Simulates(d, StartRollback(c), Undo(a))
  {
    ExecAllAppend(d, c.server, c.queue, RollbackSql(c.depth));
    ExecRollbackSql(d, ExecAll(d, c.server, c.queue).0, a);
  }

  /** A connection with nothing queued and nothing unread. */
  function Idle(depth: nat, s: Server): Client {
    Client(depth, [], [], s)
  }

  lemma IdleSimulates(d: Dialect, s: Server, a: Stack)
    requires Represents(s, a)
    ensures Simulates(d, Idle(|a.marks|, s), a)
  {
  }

  /** Before a statement is sent, everything queued has been accepted. */
  lemma Ready(d: Dialect, c: Client, a: Stack)
    requires Simulates(d, c, a)
    ensures var s := ExecAll(d, c.server, c.queue).0;
            Flush(d, c) == (Idle(|a.marks|, s), true) && Represents(s, a)
  {
    FlushAccepted(d, c);
  }

  lemma BeginRefines(d: Dialect, c: Client, a: Stack, custom: Option<bool>)
    requires Simulates(d, c, a) && Allowed(a, OpBegin(custom))
    ensures Step(d, c, OpBegin(custom)).1 == StackStep(d, a, OpBegin(custom)).1
    ensures Simulates(d, Step(d, c, OpBegin(custom)).0, StackStep(d, a, OpBegin(custom)).0)
  {
    if custom.None? || a.marks == [] {
      Ready(d, c, a);
      var s := Flush(d, c).0.server;
      var begun := Stack(a.marks + [a.data], a.data, false);
      if custom == Some(false) {
        IdleSimulates(d, s, a);
      } else {
        ExecBeginSql(d, s, a);
        IdleSimulates(d, Exec(d, s, BeginSql(|a.marks|)).0, begun);
      }
    }
  }

  lemma CommitRefines(d: Dialect, c: Client, a: Stack)
    requires Simulates(d, c, a) && a.marks != []
    ensures Step(d, c, OpCommit).1 == StackStep(d, a, OpCommit).1
    ensures Simulates(d, Step(d, c, OpCommit).0, StackStep(d, a, OpCommit).0)
  {
    Ready(d, c, a);
    var s := Flush(d, c).0.server;
    ExecCommitSql(d, s, a);
    var (s1, ok) := Exec(d, s, CommitSql(|a.marks|));
    if ok {
      IdleSimulates(d, s1, StackStep(d, a, OpCommit).0);
    } else {
      IdleSimulates(d, s1, a);
      StartRollbackSimulates(d, Idle(|a.marks|, s1), a);
    }
  }

  lemma RollbackRefines(d: Dialect, c: Client, a: Stack)
    requires Simulates(d, c, a) && a.marks != []
    ensures Step(d, c, OpRollback).1 == StackStep(d, a, OpRollback).1
    ensures Simulates(d, Step(d, c, OpRollback).0, Undo(a))
  {
    Ready(d, c, a);
    var s := Flush(d, c).0.server;
    ExecRollbackSql(d, s, a);
    IdleSimulates(d, Exec(d, s, RollbackSql(|a.marks|)).0, Undo(a));
  }

  lemma ExecWriteRefines(d: Dialect, s: Server, a: Stack, w: int, works: bool)
    requires Represents(s, a)
    ensures var (s1, ok) := ExecWrite(d, s, w, works);
            var (a1, o) := StackStep(d, a, OpWrite(w, works));
            Represents(s1, a1) && o == Outcome(ok, s1.data)
  {
  }

  lemma WriteRefines(d: Dialect, c: Client, a: Stack, w: int, works: bool)
    requires Simulates(d, c, a)
    ensures Step(d, c, OpWrite(w, works)).1 == StackStep(d, a, OpWrite(w, works)).1
    ensures Simulates(d, Step(d, c, OpWrite(w, works)).0, StackStep(d, a, OpWrite(w, works)).0)
  {
    Ready(d, c, a);
    var s := Flush(d, c).0.server;
    ExecWriteRefines(d, s, a, w, works);
    IdleSimulates(d, ExecWrite(d, s, w, works).0, StackStep(d, a, OpWrite(w, works)).0);
  }

  /** Every operation of the client matches the same operation on the stack, with the same outcome. */
  lemma StepRefines(d: Dialect, c: Client, a: Stack, op: Op)
    requires Simulates(d, c, a) && Allowed(a, op)
    ensures Step(d, c, op).1 == StackStep(d, a, op).1
    ensures Simulates(d, Step(d, c, op).0, StackStep(d, a, op).0)
  {
    match op
    case OpBegin(custom) => BeginRefines(d, c, a, custom);
    case OpWrite(w, works) => WriteRefines(d, c, a, w, works);
    case OpCommit => CommitRefines(d, c, a);
    case OpRollback => RollbackRefines(d, c, a);
    case OpDrop => StartRollbackSimulates(d, c, a);
  }

  /** However a transaction ends (commit, failed commit, rollback or drop), the depth goes down by exactly one. */
  lemma EndLowersDepthOnce(d: Dialect, c: Client, a: Stack, op: Op)
    requires Simulates(d, c, a) && a.marks != []
    requires op.OpCommit? || op.OpRollback? || op.OpDrop?
    ensures Step(d, c, op).0.depth == c.depth - 1
  {
    StepRefines(d, c, a, op);
  }

  /** Refinement over whole runs, on every dialect. */
  lemma {:induction false} RunRefines(d: Dialect, c: Client, a: Stack, ops: seq<Op>)
    requires Simulates(d, c, a) && AllAllowed(d, a, ops)
    ensures Run(d, c, ops).1 == StackRun(d, a, ops).1
    ensures Simulates(d, Run(d, c, ops).0, StackRun(d, a, ops).0)
    decreases |ops|
  {
    if ops != [] {
      StepRefines(d, c, a, ops[0]);
      RunRefines(d, Step(d, c, ops[0]).0, StackStep(d, a, ops[0]).0, ops[1..]);
    }
  }

  /** A new connection represents the empty stack. */
  lemma ConnectSimulates(d: Dialect, data: Data)
    ensures Simulates(d, Client(0, [], [], Outside(data)), Stack([], data, false))
  {
  }

  // ------------------------------------------------------------------ drops

  function Awaited(op: Op): Op {
    if op.OpDrop? then OpRollback else op
  }

  function AllAwaited(ops: seq<Op>): seq<Op> {
    seq(|ops|, i requires 0 <= i < |ops| => Awaited(ops[i]))
  }

  lemma {:induction false} AwaitedStackRun(d: Dialect, a: Stack, ops: seq<Op>)
    requires AllAllowed(d, a, ops)
    ensures AllAllowed(d, a, AllAwaited(ops))
    ensures StackRun(d, a, AllAwaited(ops)) == StackRun(d, a, ops)
    decreases |ops|
  {
    if ops != [] {
      AwaitedStackRun(d, StackStep(d, a, ops[0]).0, ops[1..]);
      assert AllAwaited(ops)[1..] == AllAwaited(ops[1..]);
    }
  }

  /**
   * A run that drops transactions shows the caller exactly what the run that awaits their rollback
   * shows, and the two end in connections with the same depth, visible data and durable data.
   */
  lemma DropsAreRollbacks(d: Dialect, c: Client, a: Stack, ops: seq<Op>)
    requires Simulates(d, c, a) && AllAllowed(d, a, ops)
    ensures Run(d, c, ops).1 == Run(d, c, AllAwaited(ops)).1
    ensures var (c1, _) := Flush(d, Run(d, c, ops).0);
            var (c2, _) := Flush(d, Run(d, c, AllAwaited(ops)).0);
            c1.depth == c2.depth && c1.server.data == c2.server.data && c1.server.durable == c2.server.durable
  {
    AwaitedStackRun(d, a, ops);
    RunRefines(d, c, a, ops);
    RunRefines(d, c, a, AllAwaited(ops));
  }

  // ------------------------------------------------------------------ atomicity

  /** `ops` never ends a transaction at depth `m` or below. */
  predicate Inside(d: Dialect, a: Stack, ops: seq<Op>, m: nat)
    decreases |ops|
  {
    && |a.marks| >= m
    && (ops == [] || (Allowed(a, ops[0]) && Inside(d, StackStep(d, a, ops[0]).0, ops[1..], m)))
  }

  lemma {:induction false} InsideKeepsMarks(d: Dialect, a: Stack, ops: seq<Op>, m: nat)
    requires Inside(d, a, ops, m)
    ensures AllAllowed(d, a, ops)
    ensures |StackRun(d, a, ops).0.marks| >= m
    ensures StackRun(d, a, ops).0.marks[..m] == a.marks[..m]
    decreases |ops|
  {
    if ops != [] {
      var a1 := StackStep(d, a, ops[0]).0;
      assert a1.marks[..m] == a.marks[..m];
      InsideKeepsMarks(d, a1, ops[1..], m);
    }
  }

  lemma {:induction false} StackRunAppend(d: Dialect, a: Stack, ops: seq<Op>, op: Op)
    requires AllAllowed(d, a, ops) && Allowed(StackRun(d, a, ops).0, op)
    ensures AllAllowed(d, a, ops + [op])
    ensures StackRun(d, a, ops + [op]).0 == StackStep(d, StackRun(d, a, ops).0, op).0
    decreases |ops|
  {
    if ops == [] {
      assert ops + [op] == [op];
    } else {
      assert (ops + [op])[1..] == ops[1..] + [op];
      StackRunAppend(d, StackStep(d, a, ops[0]).0, ops[1..], op);
    }
  }

  /** On the stack: begin, anything nested, then rollback or drop changes nothing. */
  lemma BracketRestores(d: Dialect, a: Stack, body: seq<Op>, end: Op)
    requires !a.aborted && Bracketed(d, a, body) && (end.OpRollback? || end.OpDrop?)
    ensures var ops := [OpBegin(None)] + (body + [end]);
            AllAllowed(d, a, ops) && StackRun(d, a, ops).0 == a
  {
    var a1 := StackStep(d, a, OpBegin(None)).0;
    var a2 := StackRun(d, a1, body).0;
    InsideKeepsMarks(d, a1, body, |a1.marks|);
    assert a2.marks == a2.marks[..|a1.marks|] == a1.marks;
    assert a1.marks[..|a.marks|] == a.marks;
    StackRunAppend(d, a1, body, end);
    StackRunPrepend(d, a, OpBegin(None), body + [end]);
  }

  lemma StackRunPrepend(d: Dialect, a: Stack, op: Op, ops: seq<Op>)
    requires Allowed(a, op) && AllAllowed(d, StackStep(d, a, op).0, ops)
    ensures AllAllowed(d, a, [op] + ops) && StackRun(d, a, [op] + ops).0 == StackRun(d, StackStep(d, a, op).0, ops).0
  {
    assert ([op] + ops)[1..] == ops;
  }

  /** `body` fits between a begin and its end: what it begins it ends, and no more. */
  predicate Bracketed(d: Dialect, a: Stack, body: seq<Op>)
    requires !a.aborted
  {
    var a1 := StackStep(d, a, OpBegin(None)).0;
    Inside(d, a1, body, |a1.marks|) && AllAllowed(d, a1, body) && |StackRun(d, a1, body).0.marks| == |a1.marks|
  }

  /**
   * Rolling back or dropping a transaction undoes everything since its begin, whatever was nested in
   * it, and leaves the connection as if the transaction had never been.
   */
  lemma RollbackUndoesEverything(d: Dialect, c: Client, a: Stack, body: seq<Op>, end: Op)
    requires Simulates(d, c, a) && !a.aborted && Bracketed(d, a, body)
    requires end.OpRollback? || end.OpDrop?
    ensures Simulates(d, Run(d, c, [OpBegin(None)] + (body + [end])).0, a)
  {
    BracketRestores(d, a, body, end);
    RunRefines(d, c, a, [OpBegin(None)] + (body + [end]));
  }

  lemma {:induction false} RollbacksKeepDurable(d: Dialect, s: Server, queue: seq<Sql>)
    requires forall i :: 0 <= i < |queue| ==> queue[i].Rollback? || queue[i].RollbackTo?
    ensures ExecAll(d, s, queue).0.durable == s.durable
  {
    if queue != [] {
      RollbacksKeepDurable(d, s, queue[..|queue| - 1]);
    }
  }

  /**
   * What a crash leaves, at any point of any run and with any rollbacks still unsent: the data as it
   * was when the outermost open transaction began, or all of it when none is open.
   */
  lemma CrashKeepsCommitted(d: Dialect, c: Client, a: Stack, ops: seq<Op>)
    requires Simulates(d, c, a) && AllAllowed(d, a, ops)
    ensures var b := StackRun(d, a, ops).0;
            Run(d, c, ops).0.server.durable == if b.marks == [] then b.data else b.marks[0]
  {
    RunRefines(d, c, a, ops);
    var c1 := Run(d, c, ops).0;
    RollbacksKeepDurable(d, c1.server, c1.queue);
  }

  // ------------------------------------------------------------------ replies and errors

  /** Each reply is the server's answer to that statement in its turn. */
  lemma {:induction false} ReplyAt(d: Dialect, s: Server, queue: seq<Sql>, i: nat)
    requires i < |queue|
    ensures |Replies(d, s, queue)| == |queue|
    ensures Replies(d, s, queue)[i] == Exec(d, ExecAll(d, s, queue[..i]).0, queue[i]).1
    decreases |queue|
  {
    var init := queue[..|queue| - 1];
    if i < |init| {
      ReplyAt(d, s, init, i);
      assert init[..i] == queue[..i];
    } else {
      RepliesLength(d, s, init);
    }
  }

  lemma {:induction false} RepliesLength(d: Dialect, s: Server, queue: seq<Sql>)
    ensures |Replies(d, s, queue)| == |queue|
    decreases |queue|
  {
    if queue != [] {
      RepliesLength(d, s, queue[..|queue| - 1]);
    }
  }

  predicate FirstError(rs: seq<bool>, i: int) {
    0 <= i < |rs| && !rs[i] && forall j :: 0 <= j < i ==> rs[j]
  }

  /** Reading succeeds if there is no error; otherwise exactly what follows the first one stays unread. */
  lemma {:induction false} ReadUpToError(rs: seq<bool>)
    ensures ReadReplies(rs).1 <==> forall i :: 0 <= i < |rs| ==> rs[i]
    ensures ReadReplies(rs).1 ==> ReadReplies(rs).0 == []
    ensures !ReadReplies(rs).1 ==> exists i :: FirstError(rs, i) && ReadReplies(rs).0 == rs[i + 1..]
  {
    if rs != [] {
      ReadUpToError(rs[1..]);
      if rs[0] && !ReadReplies(rs[1..]).1 {
        var tail := rs[1..];
        var i :| FirstError(tail, i) && ReadReplies(tail).0 == tail[i + 1..];
        assert FirstError(rs, i + 1) && rs[i + 2..] == tail[i + 1..];
      } else if !rs[0] {
        assert FirstError(rs, 0);
      }
    }
  }

  /**
   * Waiting sends everything queued whatever the replies are. After an error among them the statement
   * that waited is not sent, and the caller sees the error.
   */
  lemma NotSentAfterError(d: Dialect, c: Client, q: Sql, w: int, works: bool)
    ensures var (c1, ok) := Flush(d, c);
            && c1.depth == c.depth && c1.queue == [] && c1.server == ExecAll(d, c.server, c.queue).0
            && (!ok ==> Send(d, c, q) == (c1, false) && WriteStep(d, c, w, works) == (c1, false))
            && (ok ==> Send(d, c, q).0.server == Exec(d, c1.server, q).0
                       && WriteStep(d, c, w, works).0.server == ExecWrite(d, c1.server, w, works).0)
  {
  }

  /** Ending without an open transaction sends nothing and succeeds. */
  lemma NothingToEnd(d: Dialect, c: Client)
    requires c.depth == 0
    ensures CommitStep(d, c) == (c, true) && RollbackStep(d, c) == (c, true) && StartRollback(c) == c
  {
  }

  /** A begin that fails, for any reason, leaves the depth alone on MySQL and lowers it on PostgreSQL. */
  lemma FailedBeginDepth(d: Dialect, c: Client, custom: Option<bool>)
    ensures var (c1, ok) := BeginStep(d, c, custom);
            c1.depth == if ok then c.depth + 1
                        else if d.MySql? || c.depth == 0 || custom.Some? then c.depth
                        else c.depth - 1
  {
  }

  // ------------------------------------------------------------------ where it fails

  /**
   * Beginning inside an open PostgreSQL transaction leaves the depth equal to the number of open
   * transactions exactly when no failed statement has aborted the block: otherwise the guard of the
   * failed begin also gives up the enclosing depth.
   */
  lemma NestedBeginKeepsDepthIff(c: Client, a: Stack)
    requires Simulates(Postgres, c, a) && a.marks != []
    ensures var (c1, ok) := BeginStep(Postgres, c, None);
            c1.depth == |a.marks| + (if ok then 1 else 0) <==> !a.aborted
  {
    Ready(Postgres, c, a);
    if !a.aborted {
      ExecBeginSql(Postgres, Flush(Postgres, c).0.server, a);
    }
  }

  function Drops(k: nat): seq<Op> {
    if k == 0 then [] else [OpDrop] + Drops(k - 1)
  }

  function DropTimes(c: Client, k: nat): Client
    decreases k
  {
    if k == 0 then c else DropTimes(StartRollback(c), k - 1)
  }

  /** The stack without its `k` innermost transactions. */
  function UndoTimes(a: Stack, k: nat): Stack
    requires k <= |a.marks|
  {
    if k == 0 then a else Stack(a.marks[..|a.marks| - k], a.marks[|a.marks| - k], false)
  }

  lemma {:induction false} DropsUndo(c: Client, a: Stack, k: nat)
    requires Simulates(Postgres, c, a) && k <= |a.marks|
    ensures Simulates(Postgres, DropTimes(c, k), UndoTimes(a, k))
    decreases k
  {
    if k > 0 {
      StartRollbackSimulates(Postgres, c, a);
      DropsUndo(StartRollback(c), Undo(a), k - 1);
      UndoOnceMore(a, k);
    }
  }

  lemma UndoOnceMore(a: Stack, k: nat)
    requires 0 < k <= |a.marks|
    ensures UndoTimes(Undo(a), k - 1) == UndoTimes(a, k)
  {
    assert a.marks[..|a.marks| - 1][..|a.marks| - k] == a.marks[..|a.marks| - k];
  }

  lemma {:induction false} RunDrops(c: Client, k: nat)
    ensures var (after, outcomes) := Run(Postgres, c, Drops(k) + [OpCommit]);
            |outcomes| == k + 1 && (after, outcomes[k]) == Step(Postgres, DropTimes(c, k), OpCommit)
    decreases k
  {
    var ops := Drops(k) + [OpCommit];
    if k == 0 {
      assert ops == [OpCommit] && ops[1..] == [];
    } else {
      assert ops[0] == OpDrop && ops[1..] == Drops(k - 1) + [OpCommit];
      RunDrops(StartRollback(c), k - 1);
    }
  }

  /** Dropping the `k` innermost transactions and committing what is left, if anything is. */
  lemma DropsThenCommit(c: Client, a: Stack, k: nat)
    requires Simulates(Postgres, c, a) && 0 < k <= |a.marks|
    ensures var n := |a.marks| - k;
            var (after, outcomes) := Run(Postgres, c, Drops(k) + [OpCommit]);
            && |outcomes| == k + 1 && outcomes[k].ok
            && Simulates(Postgres, after, Stack(Outer(a.marks[..n]), a.marks[n], false))
  {
    RunDrops(c, k);
    DropsUndo(c, a, k);
    CommitOrNothing(DropTimes(c, k), UndoTimes(a, k));
  }

  /** Without the innermost, if there is one. */
  function Outer(marks: seq<Data>): seq<Data> {
    if marks == [] then [] else marks[..|marks| - 1]
  }

  /** A commit without an open transaction does nothing. */
  lemma CommitOrNothing(c: Client, a: Stack)
    requires Simulates(Postgres, c, a) && !a.aborted
    ensures var (after, o) := Step(Postgres, c, OpCommit);
            o.ok && Simulates(Postgres, after, Stack(Outer(a.marks), a.data, false))
  {
    if a.marks != [] {
      CommitRefines(Postgres, c, a);
    }
  }

  /**
   * Any number of transactions are open, one inside the other, and a statement has failed. Dropping
   * all but the outermost and committing that one keeps what it wrote before the second began. With a
   * failed begin in between, the commit still reports success, and everything that the outermost
   * transaction wrote is gone.
   */
  lemma FailedNestedBeginLosesCommit(c: Client, a: Stack)
    requires Simulates(Postgres, c, a) && a.aborted && |a.marks| >= 2
    ensures var inner := |a.marks| - 1;
            var (kept, shown) := Run(Postgres, c, Drops(inner) + [OpCommit]);
            |shown| == inner + 1 && shown[inner].ok && Simulates(Postgres, kept, Stack([], a.marks[1], false))
    ensures var inner := |a.marks| - 1;
            var (begun, refused) := Step(Postgres, c, OpBegin(None));
            var (lost, shown) := Run(Postgres, begun, Drops(inner) + [OpCommit]);
            && !refused.ok
            && |shown| == inner + 1 && shown[inner].ok && Simulates(Postgres, lost, Stack([], a.marks[0], false))
  {
    var inner := |a.marks| - 1;
    DropsThenCommit(c, a, inner);
    var (c1, _) := Flush(Postgres, c);
    assert Step(Postgres, c, OpBegin(None)).0 == StartRollback(c1);
    StartRollbackSimulates(Postgres, c1, a);
    DropsThenCommit(StartRollback(c1), Undo(a), inner);
  }
}
