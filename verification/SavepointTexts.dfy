/**
 * The statements as the drivers write them. A server that reads the texts and knows savepoints by
 * their names goes through the same states as the server of `Savepoints`, which knows their numbers.
 */
module SavepointTexts {
  import opened Basics
  import opened Decimal
  import opened Savepoints

  // ------------------------------------------------------------------ writing

  function SavepointName(n: nat): string {
    "_sqlx_savepoint_" + ToText(n)
  }

  /** What the three `*_ansi_transaction_sql` functions write. */
  function Text(q: Sql): string
    requires !q.CustomBegin?
  {
    match q
    case Begin => "BEGIN"
    case Savepoint(n) => "SAVEPOINT " + SavepointName(n)
    case Commit => "COMMIT"
    case Release(n) => "RELEASE SAVEPOINT " + SavepointName(n)
    case Rollback => "ROLLBACK"
    case RollbackTo(n) => "ROLLBACK TO SAVEPOINT " + SavepointName(n)
  }

  // ------------------------------------------------------------------ reading

  /** The text after the keywords, if it starts with them. */
  function Rest(text: string, keywords: string): Option<string> {
    if keywords <= text then Some(text[|keywords|..]) else None
  }

  /** How a server takes a text; what follows the keywords is the name of a savepoint, whatever it is. */
  function Read(text: string): Option<SqlOf<string>> {
    if text == "BEGIN" then Some(Begin)
    else if text == "COMMIT" then Some(Commit)
    else if text == "ROLLBACK" then Some(Rollback)
    else if Rest(text, "SAVEPOINT ").Some? then Some(Savepoint(Rest(text, "SAVEPOINT ").value))
    else if Rest(text, "RELEASE SAVEPOINT ").Some? then Some(Release(Rest(text, "RELEASE SAVEPOINT ").value))
    else if Rest(text, "ROLLBACK TO SAVEPOINT ").Some? then Some(RollbackTo(Rest(text, "ROLLBACK TO SAVEPOINT ").value))
    else None
  }

  lemma RestOf(keywords: string, name: string)
    ensures Rest(keywords + name, keywords) == Some(name)
  {
    assert (keywords + name)[..|keywords|] == keywords;
  }

  lemma ReadSavepoint(name: string)
    ensures Read("SAVEPOINT " + name) == Some(Savepoint(name))
  {
    var text := "SAVEPOINT " + name;
    assert text[0] == 'S';
    RestOf("SAVEPOINT ", name);
  }

  lemma ReadRelease(name: string)
    ensures Read("RELEASE SAVEPOINT " + name) == Some(Release(name))
  {
    var text := "RELEASE SAVEPOINT " + name;
    assert text[0] == 'R' && text[1] == 'E';
    RestOf("RELEASE SAVEPOINT ", name);
  }

  lemma ReadRollbackTo(name: string)
    ensures Read("ROLLBACK TO SAVEPOINT " + name) == Some(RollbackTo(name))
  {
    var text := "ROLLBACK TO SAVEPOINT " + name;
    assert text[0] == 'R' && text[1] == 'O' && |text| > 8;
    RestOf("ROLLBACK TO SAVEPOINT ", name);
  }

  // ------------------------------------------------------------------ names for numbers

  /** The same statement about the savepoint of that name. */
  function Named(q: Sql): SqlOf<string>
    requires !q.CustomBegin?
  {
    match q
    case Begin => Begin
    case Savepoint(n) => Savepoint(SavepointName(n))
    case Commit => Commit
    case Release(n) => Release(SavepointName(n))
    case Rollback => Rollback
    case RollbackTo(n) => RollbackTo(SavepointName(n))
  }

  /**
   * The three statements about savepoint `n` name the same savepoint: the fixed prefix and digits
   * whose value is `n`. Different numbers have different names.
   */
  lemma NameOfNumber(n: nat, m: nat)
    ensures var digits := SavepointName(n)[16..];
            && SavepointName(n)[..16] == "_sqlx_savepoint_"
            && (forall i :: 0 <= i < |digits| ==> IsDigit(digits[i])) && Value(digits) == n
    ensures SavepointName(n) == SavepointName(m) <==> n == m
  {
    assert SavepointName(n)[16..] == ToText(n) && SavepointName(m)[16..] == ToText(m);
    ValueOfText(0, n);
    assert Zeros(0) + ToText(n) == ToText(n);
    Decimal.TextInjective(n, m);
  }

  /** Reading what was written gives the statement with its savepoint's name. */
  lemma ReadText(q: Sql)
    requires !q.CustomBegin?
    ensures Read(Text(q)) == Some(Named(q))
  {
    match q
    case Savepoint(n) => ReadSavepoint(SavepointName(n));
    case Release(n) => ReadRelease(SavepointName(n));
    case RollbackTo(n) => ReadRollbackTo(SavepointName(n));
    case _ =>
  }

  /** The statement can be recovered from its text. */
  lemma TextInjective(p: Sql, q: Sql)
    requires !p.CustomBegin? && !q.CustomBegin?
    ensures Text(p) == Text(q) <==> p == q
  {
    ReadText(p);
    ReadText(q);
    if (p.Savepoint? && q.Savepoint?) || (p.Release? && q.Release?) || (p.RollbackTo? && q.RollbackTo?) {
      NameOfNumber(p.n, q.n);
    }
  }

  // ------------------------------------------------------------------ a server that reads texts

  function NamedPoints(points: seq<Point>): (r: seq<PointOf<string>>)
    ensures |r| == |points|
    ensures forall i :: 0 <= i < |r| ==> r[i] == Point(SavepointName(points[i].name), points[i].data)
  {
    seq(|points|, i requires 0 <= i < |points| => Point(SavepointName(points[i].name), points[i].data))
  }

  function NamedServer(s: Server): ServerOf<string> {
    Server(s.inTx, s.aborted, s.durable, s.data, NamedPoints(s.points))
  }

  /** A text that is not understood is an error. */
  function ExecText(d: Dialect, s: ServerOf<string>, text: string): (ServerOf<string>, bool) {
    var q := Read(text);
    if q.None? then (Fail(d, s), false) else Exec(d, s, q.value)
  }

  lemma {:induction false} NamedLastIndex(points: seq<Point>, n: nat)
    ensures LastIndex(NamedPoints(points), SavepointName(n)) == LastIndex(points, n)
    decreases |points|
  {
    if points != [] {
      var init := points[..|points| - 1];
      assert NamedPoints(points)[..|points| - 1] == NamedPoints(init);
      NameOfNumber(points[|points| - 1].name, n);
      NamedLastIndex(init, n);
    }
  }

  lemma {:induction false} NamedWithout(points: seq<Point>, n: nat)
    ensures Without(NamedPoints(points), SavepointName(n)) == NamedPoints(Without(points, n))
    decreases |points|
  {
    if points != [] {
      var init, last := points[..|points| - 1], points[|points| - 1];
      assert NamedPoints(points)[..|points| - 1] == NamedPoints(init);
      NameOfNumber(last.name, n);
      NamedWithout(init, n);
      NamedAppend(Without(init, n), last);
    }
  }

  lemma NamedAppend(points: seq<Point>, p: Point)
    ensures NamedPoints(points + [p]) == NamedPoints(points) + [Point(SavepointName(p.name), p.data)]
  {
  }

  lemma NamedFront(points: seq<Point>, i: nat)
    requires i <= |points|
    ensures NamedPoints(points[..i]) == NamedPoints(points)[..i]
  {
  }

  lemma NamedBack(points: seq<Point>, i: nat)
    requires i <= |points|
    ensures NamedPoints(points[i..]) == NamedPoints(points)[i..]
  {
  }

  lemma NamedConcat(a: seq<Point>, b: seq<Point>)
    ensures NamedPoints(a + b) == NamedPoints(a) + NamedPoints(b)
  {
  }

  lemma SavepointNamed(d: Dialect, s: Server, n: nat)
    ensures Exec(d, NamedServer(s), Savepoint(SavepointName(n)))
         == (NamedServer(Exec(d, s, Savepoint(n)).0), Exec(d, s, Savepoint(n)).1)
  {
    NamedWithout(s.points, n);
    NamedAppend(if d.Postgres? then s.points else Without(s.points, n), Point(n, s.data));
  }

  lemma ReleaseNamed(d: Dialect, s: Server, n: nat)
    ensures Exec(d, NamedServer(s), Release(SavepointName(n)))
         == (NamedServer(Exec(d, s, Release(n)).0), Exec(d, s, Release(n)).1)
  {
    NamedLastIndex(s.points, n);
    if s.inTx && !s.aborted && LastIndex(s.points, n) >= 0 {
      ExecReleaseIs(d, s, n);
      ExecReleaseIs(d, NamedServer(s), SavepointName(n));
      ReleasedNamed(d, s.points, n);
    }
  }

  lemma ReleasedNamed(d: Dialect, points: seq<Point>, n: nat)
    requires LastIndex(points, n) >= 0
    ensures LastIndex(NamedPoints(points), SavepointName(n)) >= 0
    ensures Released(d, NamedPoints(points), SavepointName(n)) == NamedPoints(Released(d, points, n))
  {
    NamedLastIndex(points, n);
    var i := LastIndex(points, n);
    var later := if d.MySql? && !d.releaseDropsLater then points[i + 1..] else [];
    NamedFront(points, i);
    NamedBack(points, i + 1);
    NamedConcat(points[..i], later);
    assert NamedPoints([]) == [];
  }

  lemma RollbackToNamed(d: Dialect, s: Server, n: nat)
    ensures Exec(d, NamedServer(s), RollbackTo(SavepointName(n)))
         == (NamedServer(Exec(d, s, RollbackTo(n)).0), Exec(d, s, RollbackTo(n)).1)
  {
    NamedLastIndex(s.points, n);
    if s.inTx && LastIndex(s.points, n) >= 0 {
      var i := LastIndex(s.points, n);
      NamedFront(s.points, i + 1);
      assert NamedPoints(s.points)[i].data == s.points[i].data;
    }
  }

  lemma OthersNamed(d: Dialect, s: Server, q: Sql)
    requires q.Begin? || q.Commit? || q.Rollback?
    ensures Exec(d, NamedServer(s), Named(q)) == (NamedServer(Exec(d, s, q).0), Exec(d, s, q).1)
  {
    assert NamedPoints([]) == [];
  }

  lemma ExecNamed(d: Dialect, s: Server, q: Sql)
    requires !q.CustomBegin?
    ensures Exec(d, NamedServer(s), Named(q)) == (NamedServer(Exec(d, s, q).0), Exec(d, s, q).1)
  {
    match q
    case Savepoint(n) => SavepointNamed(d, s, n);
    case Release(n) => ReleaseNamed(d, s, n);
    case RollbackTo(n) => RollbackToNamed(d, s, n);
    case _ => OthersNamed(d, s, q);
  }

  /** The server that reads the text of a statement makes the same step, with the same reply. */
  lemma TextRefines(d: Dialect, s: Server, q: Sql)
    requires !q.CustomBegin?
    ensures ExecText(d, NamedServer(s), Text(q)) == (NamedServer(Exec(d, s, q).0), Exec(d, s, q).1)
  {
    ReadText(q);
    ExecNamed(d, s, q);
  }

  function Texts(queue: seq<Sql>): (r: seq<string>)
    requires forall i :: 0 <= i < |queue| ==> !queue[i].CustomBegin?
    ensures |r| == |queue| && forall i :: 0 <= i < |r| ==> r[i] == Text(queue[i])
  {
    seq(|queue|, i requires 0 <= i < |queue| => Text(queue[i]))
  }

  function ExecTexts(d: Dialect, s: ServerOf<string>, texts: seq<string>): (ServerOf<string>, bool) {
    if texts == [] then (s, true)
    else
      var (s1, ok1) := ExecTexts(d, s, texts[..|texts| - 1]);
      var (s2, ok2) := ExecText(d, s1, texts[|texts| - 1]);
      (s2, ok1 && ok2)
  }

  /** The same for everything that is queued on a connection. */
  lemma {:induction false} QueueRefines(d: Dialect, s: Server, queue: seq<Sql>)
    requires forall i :: 0 <= i < |queue| ==> !queue[i].CustomBegin?
    ensures ExecTexts(d, NamedServer(s), Texts(queue))
         == (NamedServer(ExecAll(d, s, queue).0), ExecAll(d, s, queue).1)
    decreases |queue|
  {
    if queue != [] {
      var init := queue[..|queue| - 1];
      assert Texts(queue)[..|queue| - 1] == Texts(init);
      QueueRefines(d, s, init);
      TextRefines(d, ExecAll(d, s, init).0, queue[|queue| - 1]);
    }
  }

  lemma WriteNamed(d: Dialect, s: Server, w: int, works: bool)
    ensures ExecWrite(d, NamedServer(s), w, works)
         == (NamedServer(ExecWrite(d, s, w, works).0), ExecWrite(d, s, w, works).1)
  {
  }
}
