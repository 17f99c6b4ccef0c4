/** `QueryBuilder` on PostgreSQL: the query text and its arguments grow together. */
module QueryBuilder {
  import opened Basics
  import opened Decimal

  /** What was pushed: SQL text, or a bound value that is represented by a placeholder. */
  datatype Frag<V> = Sql(text: string) | Bind(value: V)

  /** The bound values, in the order of the placeholders. */
  function Values<V>(frags: seq<Frag<V>>): seq<V> {
    if frags == [] then []
    else Values(frags[..|frags| - 1]) + if frags[|frags| - 1].Bind? then [frags[|frags| - 1].value] else []
  }

  function Placeholder(k: nat): string {
    "$" + ToText(k)
  }

  /** The text of the fragments, placeholders numbered from 1. */
  function Render<V>(frags: seq<Frag<V>>): string {
    if frags == [] then ""
    else
      var before := frags[..|frags| - 1];
      var last := frags[|frags| - 1];
      Render(before) + if last.Sql? then last.text else Placeholder(|Values(before)| + 1)
  }

  lemma {:induction false} Append<V>(a: seq<Frag<V>>, b: seq<Frag<V>>)
    ensures Values(a + b) == Values(a) + Values(b)
    ensures Render(a) <= Render(a + b)
    decreases |b|
  {
    if b == [] {
      assert a + b == a;
    } else {
      assert (a + b)[..|a + b| - 1] == a + b[..|b| - 1];
      Append(a, b[..|b| - 1]);
    }
  }

  lemma BindLast<V>(before: seq<Frag<V>>, value: V)
    ensures Values(before + [Bind(value)]) == Values(before) + [value]
    ensures Render(before + [Bind(value)]) == Render(before) + Placeholder(|Values(before)| + 1)
  {
    assert (before + [Bind(value)])[..|before|] == before;
  }

  lemma PlaceholderDigits(k: nat) returns (digits: string)
    ensures Placeholder(k) == "$" + digits && (forall i :: 0 <= i < |digits| ==> IsDigit(digits[i]))
    ensures Value(digits) == k && (k > 0 ==> digits != [] && digits[0] != '0')
  {
    digits := ToText(k);
    ValueOfText(0, k);
    assert Zeros(0) + ToText(k) == ToText(k);
    if k > 0 {
      NoLeadingZero(k);
    }
  }

  /**
   * The k-th placeholder of the query is `$` and the digits of k, and the k-th argument is the value
   * that was bound there, whatever was pushed before and after it.
   */
  lemma PlaceholderNamesValue<V>(before: seq<Frag<V>>, value: V, after: seq<Frag<V>>) returns (digits: string)
    ensures var frags := before + [Bind(value)] + after;
            var k := |Values(before)| + 1;
            && (forall i :: 0 <= i < |digits| ==> IsDigit(digits[i])) && Value(digits) == k
            && Render(before) + ("$" + digits) <= Render(frags)
            && k <= |Values(frags)| && Values(frags)[k - 1] == value
  {
    BindLast(before, value);
    Append(before + [Bind(value)], after);
    digits := PlaceholderDigits(|Values(before)| + 1);
  }

  /** The lists one after the other with `sep` in between. */
  function Join<V>(sep: string, lists: seq<seq<Frag<V>>>): seq<Frag<V>> {
    if lists == [] then []
    else if |lists| == 1 then lists[0]
    else Join(sep, lists[..|lists| - 1]) + [Sql(sep)] + lists[|lists| - 1]
  }

  lemma JoinMore<V>(sep: string, lists: seq<seq<Frag<V>>>, last: seq<Frag<V>>)
    ensures Join(sep, lists + [last]) == Join(sep, lists) + (if lists == [] then [] else [Sql(sep)]) + last
  {
    assert (lists + [last])[..|lists|] == lists;
  }

  /** The separator is pushed before every list but the first. */
  lemma JoinStep<V>(start: seq<Frag<V>>, sep: string, lists: seq<seq<Frag<V>>>, i: nat)
    requires i < |lists|
    ensures start + Join(sep, lists[..i + 1])
         == start + Join(sep, lists[..i]) + (if i > 0 then [Sql(sep)] else []) + lists[i]
  {
    assert lists[..i + 1] == lists[..i] + [lists[i]];
    JoinMore(sep, lists[..i], lists[i]);
  }

  function Singles<V>(cells: seq<Frag<V>>): (r: seq<seq<Frag<V>>>)
    ensures |r| == |cells| && forall i :: 0 <= i < |r| ==> r[i] == [cells[i]]
  {
    seq(|cells|, i requires 0 <= i < |cells| => [cells[i]])
  }

  /** `(a, b, c)` */
  function Tuple<V>(cells: seq<Frag<V>>): seq<Frag<V>> {
    [Sql("(")] + Join(", ", Singles(cells)) + [Sql(")")]
  }

  function Tuples<V>(rows: seq<seq<Frag<V>>>): (r: seq<seq<Frag<V>>>)
    ensures |r| == |rows| && forall i :: 0 <= i < |r| ==> r[i] == Tuple(rows[i])
  {
    seq(|rows|, i requires 0 <= i < |rows| => Tuple(rows[i]))
  }

  /** The values of the lists, one list after the other. */
  function AllValues<V>(lists: seq<seq<Frag<V>>>): seq<V> {
    if lists == [] then [] else AllValues(lists[..|lists| - 1]) + Values(lists[|lists| - 1])
  }

  lemma AllValuesMore<V>(lists: seq<seq<Frag<V>>>, last: seq<Frag<V>>)
    ensures AllValues(lists + [last]) == AllValues(lists) + Values(last)
  {
    assert (lists + [last])[..|lists|] == lists;
  }

  lemma {:induction false} JoinValues<V>(sep: string, lists: seq<seq<Frag<V>>>)
    ensures Values(Join(sep, lists)) == AllValues(lists)
    decreases |lists|
  {
    if lists != [] {
      var init, last := lists[..|lists| - 1], lists[|lists| - 1];
      assert lists == init + [last];
      JoinValues(sep, init);
      JoinMore(sep, init, last);
      var front := if init == [] then [] else [Sql(sep)];
      NoValues<V>(sep);
      Append(Join(sep, init), front);
      Append(Join(sep, init) + front, last);
    }
  }

  lemma NoValues<V>(sql: string)
    ensures Values<V>([Sql(sql)]) == []
  {
    var frags: seq<Frag<V>> := [Sql(sql)];
    assert frags[..0] == [];
  }

  lemma {:induction false} SinglesValues<V>(cells: seq<Frag<V>>)
    ensures AllValues(Singles(cells)) == Values(cells)
    decreases |cells|
  {
    if cells != [] {
      var init, last := cells[..|cells| - 1], [cells[|cells| - 1]];
      SinglesValues(init);
      assert Singles(cells) == Singles(init) + [last];
      AllValuesMore(Singles(init), last);
      Append(init, last);
      assert cells == init + last;
    }
  }

  lemma TupleValues<V>(cells: seq<Frag<V>>)
    ensures Values(Tuple(cells)) == Values(cells)
  {
    var body := Join(", ", Singles(cells));
    JoinValues(", ", Singles(cells));
    SinglesValues(cells);
    NoValues<V>("(");
    NoValues<V>(")");
    Append([Sql("(")], body);
    Append([Sql("(")] + body, [Sql(")")]);
  }

  /** The arguments of `push_values` are the bound cells, row by row: separators and parentheses add none. */
  lemma RowByRow<V>(rows: seq<seq<Frag<V>>>)
    ensures Values(Join(", ", Tuples(rows))) == AllValues(rows)
  {
    JoinValues(", ", Tuples(rows));
    TuplesValues(rows);
  }

  lemma {:induction false} TuplesValues<V>(rows: seq<seq<Frag<V>>>)
    ensures AllValues(Tuples(rows)) == AllValues(rows)
    decreases |rows|
  {
    if rows != [] {
      var init := rows[..|rows| - 1];
      assert Tuples(rows)[..|rows| - 1] == Tuples(init);
      TuplesValues(init);
      TupleValues(rows[|rows| - 1]);
    }
  }

  // ------------------------------------------------------------------ where everything stands

  /** SQL text is in the query as it was pushed, right after what was pushed before it. */
  lemma SqlIsThere<V>(before: seq<Frag<V>>, sql: string, after: seq<Frag<V>>)
    ensures Render(before) + sql <= Render(before + [Sql(sql)] + after)
    ensures after == [] ==> Render(before + [Sql(sql)] + after) == Render(before) + sql
  {
    assert (before + [Sql(sql)])[..|before|] == before;
    Append(before + [Sql(sql)], after);
    assert after == [] ==> before + [Sql(sql)] + after == before + [Sql(sql)];
  }

  /** Where list `i` starts: after the lists before it, and a separator after each of these. */
  function Start<V>(lists: seq<seq<Frag<V>>>, i: nat): nat
    requires i <= |lists|
  {
    if i == 0 then 0 else Start(lists, i - 1) + |lists[i - 1]| + 1
  }

  lemma {:induction false} StartPrefix<V>(lists: seq<seq<Frag<V>>>, k: nat, i: nat)
    requires i <= k <= |lists|
    ensures Start(lists[..k], i) == Start(lists, i)
    decreases i
  {
    if i > 0 {
      StartPrefix(lists, k, i - 1);
    }
  }

  lemma {:induction false} JoinLength<V>(sep: string, lists: seq<seq<Frag<V>>>)
    ensures lists == [] ==> Join(sep, lists) == []
    ensures lists != [] ==> |Join(sep, lists)| + 1 == Start(lists, |lists|)
    decreases |lists|
  {
    if lists != [] {
      var k := |lists| - 1;
      JoinLength(sep, lists[..k]);
      StartPrefix(lists, k, k);
    }
  }

  ghost predicate StandsAt<V>(whole: seq<Frag<V>>, part: seq<Frag<V>>, at: nat) {
    at + |part| <= |whole| && whole[at..at + |part|] == part
  }

  lemma StandsInFront<V>(a: seq<Frag<V>>, b: seq<Frag<V>>, part: seq<Frag<V>>, at: nat)
    requires StandsAt(a, part, at)
    ensures StandsAt(a + b, part, at)
  {
    assert (a + b)[at..at + |part|] == a[at..at + |part|];
  }

  lemma StandsLast<V>(a: seq<Frag<V>>, part: seq<Frag<V>>)
    ensures StandsAt(a + part, part, |a|)
  {
  }

  /** In the join each list stands at its place, with the separator right before every list but the first. */
  lemma {:induction false} JoinAt<V>(sep: string, lists: seq<seq<Frag<V>>>, i: nat)
    requires i < |lists|
    ensures StandsAt(Join(sep, lists), lists[i], Start(lists, i))
    ensures i > 0 ==> StandsAt(Join(sep, lists), [Sql(sep)], Start(lists, i) - 1)
    decreases |lists|
  {
    var k := |lists| - 1;
    var more := if k == 0 then [] else [Sql(sep)];
    assert lists == lists[..k] + [lists[k]];
    JoinMore(sep, lists[..k], lists[k]);
    if i < k {
      JoinAt(sep, lists[..k], i);
      StartPrefix(lists, k, i);
      InFrontOfBoth(Join(sep, lists[..k]), more, lists[k], lists[i], Start(lists, i));
      if i > 0 {
        InFrontOfBoth(Join(sep, lists[..k]), more, lists[k], [Sql(sep)], Start(lists, i) - 1);
      }
    } else {
      JoinLength(sep, lists[..k]);
      StartPrefix(lists, k, k);
      StandsLast(Join(sep, lists[..k]) + more, lists[k]);
      StandsLast(Join(sep, lists[..k]), more);
      StandsInFront(Join(sep, lists[..k]) + more, lists[k], more, |Join(sep, lists[..k])|);
    }
  }

  lemma InFrontOfBoth<V>(a: seq<Frag<V>>, b: seq<Frag<V>>, c: seq<Frag<V>>, part: seq<Frag<V>>, at: nat)
    requires StandsAt(a, part, at)
    ensures StandsAt(a + b + c, part, at)
  {
    StandsInFront(a, b, part, at);
    StandsInFront(a + b, c, part, at);
  }

  lemma {:induction false} SinglesStart<V>(cells: seq<Frag<V>>, i: nat)
    requires i <= |cells|
    ensures Start(Singles(cells), i) == 2 * i
    decreases i
  {
    if i > 0 {
      SinglesStart(cells, i - 1);
    }
  }

  lemma TupleLength<V>(cells: seq<Frag<V>>)
    ensures |Tuple(cells)| == (if cells == [] then 2 else 2 * |cells| + 1)
  {
    JoinLength(", ", Singles(cells));
    SinglesStart(cells, |cells|);
  }

  /** A row is `(`, the cells with `, ` between one and the next, and `)`. */
  lemma TupleIs<V>(cells: seq<Frag<V>>, i: nat)
    ensures var t := Tuple(cells);
            && |t| == (if cells == [] then 2 else 2 * |cells| + 1)
            && t[0] == Sql("(") && t[|t| - 1] == Sql(")")
            && (i < |cells| ==> t[2 * i + 1] == cells[i])
            && (0 < i < |cells| ==> t[2 * i] == Sql(", "))
  {
    TupleLength(cells);
    if i < |cells| {
      TupleCell(cells, i);
    }
  }

  lemma TupleCell<V>(cells: seq<Frag<V>>, i: nat)
    requires i < |cells|
    ensures |Tuple(cells)| > 2 * i + 1 && Tuple(cells)[2 * i + 1] == cells[i]
    ensures i > 0 ==> Tuple(cells)[2 * i] == Sql(", ")
  {
    var body := Join(", ", Singles(cells));
    SinglesStart(cells, i);
    JoinAt(", ", Singles(cells), i);
    assert body[2 * i..2 * i + 1] == [cells[i]];
    assert body[2 * i] == cells[i];
    if i > 0 {
      assert body[2 * i - 1..2 * i] == [Sql(", ")];
      assert body[2 * i - 1] == Sql(", ");
    }
  }

  lemma Reassociate<V>(a: seq<Frag<V>>, b: seq<Frag<V>>, c: seq<Frag<V>>, d: seq<Frag<V>>)
    ensures a + b + c + d == a + (b + c + d)
  {
  }

  // ------------------------------------------------------------------ the code

  class Builder<V> {
    var query: string
    var arguments: Option<seq<V>>
    const initLen: nat
    ghost const init: string
    ghost var frags: seq<Frag<V>>

    /** The text and the arguments both follow from what was pushed. */
    ghost predicate Valid()
      reads this
    {
      && initLen == |init|
      && frags != [] && frags[0] == Sql(init)
      && query == Render(frags)
      && (arguments.Some? ==> arguments.value == Values(frags))
    }

    constructor (init: string)
      ensures Valid() && this.init == init && frags == [Sql(init)]
      ensures query == init && arguments == Some([])
    {
      query, initLen, arguments := init, |init|, Some([]);
      this.init, frags := init, [Sql(init)];
      new;
      assert frags[..0] == [];
    }

    method Push(sql: string)
      requires Valid() && arguments.Some?
      modifies this
      ensures Valid() && arguments.Some? && frags == old(frags) + [Sql(sql)]
    {
      query := query + sql;
      frags := frags + [Sql(sql)];
      assert frags[..|frags| - 1] == old(frags);
    }

    /** `push_bind`: `add` counts the argument, then `format_placeholder` writes the count. */
    method PushBind(value: V)
      requires Valid() && arguments.Some?
      modifies this
      ensures Valid() && arguments.Some? && frags == old(frags) + [Bind(value)]
    {
      arguments := Some(arguments.value + [value]);
      query := query + Placeholder(|arguments.value|);
      frags := frags + [Bind(value)];
      assert frags[..|frags| - 1] == old(frags);
    }

    /** Writes separator and text in one call, as `Separated::push` does. */
    method PushBoth(separator: string, sql: string)
      requires Valid() && arguments.Some?
      modifies this
      ensures Valid() && arguments.Some? && frags == old(frags) + [Sql(separator)] + [Sql(sql)]
    {
      query := query + (separator + sql);
      frags := frags + [Sql(separator)] + [Sql(sql)];
      assert frags[..|frags| - 1] == old(frags) + [Sql(separator)];
      assert frags[..|frags| - 1][..|old(frags)|] == old(frags);
    }

    /** One row: what the caller's closure does with its own `Separated`. */
    method PushRow(cells: seq<Frag<V>>)
      requires Valid() && arguments.Some?
      modifies this
      ensures Valid() && arguments.Some? && frags == old(frags) + Join(", ", Singles(cells))
    {
      var separated := new Separated(this, ", ");
      ghost var start, lists := frags, Singles(cells);
      for i := 0 to |cells|
        invariant Valid() && arguments.Some?
        invariant separated.pushSeparator == (i > 0)
        invariant frags == start + Join(", ", lists[..i])
      {
        JoinStep(start, ", ", lists, i);
        separated.PushFrag(cells[i]);
      }
      assert lists[..|cells|] == lists;
    }

    /** The loop that `push_values` and `push_tuples` share. */
    method PushRows(separated: Separated<V>, rows: seq<seq<Frag<V>>>)
      requires Valid() && arguments.Some?
      requires separated.builder == this && separated.separator == ", " && !separated.pushSeparator
      modifies this, separated
      ensures Valid() && arguments.Some? && frags == old(frags) + Join(", ", Tuples(rows))
    {
      ghost var start, lists := frags, Tuples(rows);
      for i := 0 to |rows|
        invariant Valid() && arguments.Some?
        invariant separated.pushSeparator == (i > 0)
        invariant frags == start + Join(", ", lists[..i])
      {
        JoinStep(start, ", ", lists, i);
        PushTuple(separated, rows[i]);
      }
      assert lists[..|rows|] == lists;
    }

    method PushTuple(separated: Separated<V>, row: seq<Frag<V>>)
      requires Valid() && arguments.Some?
      requires separated.builder == this && separated.separator == ", "
      modifies this, separated
      ensures Valid() && arguments.Some? && separated.pushSeparator
      ensures frags == old(frags) + (if old(separated.pushSeparator) then [Sql(", ")] else []) + Tuple(row)
    {
      ghost var before := frags + if separated.pushSeparator then [Sql(", ")] else [];
      separated.PushFrag(Sql("("));
      PushRow(row);
      Push(")");
      Reassociate(before, [Sql("(")], Join(", ", Singles(row)), [Sql(")")]);
    }

    /** `push_values`: exactly the nested comma-join of the rows. */
    method PushValues(rows: seq<seq<Frag<V>>>)
      requires Valid() && arguments.Some?
      modifies this
      ensures Valid() && arguments.Some? && frags == old(frags) + [Sql("VALUES ")] + Join(", ", Tuples(rows))
    {
      Push("VALUES ");
      var separated := new Separated(this, ", ");
      PushRows(separated, rows);
    }

    /** `push_tuples` */
    method PushTuples(rows: seq<seq<Frag<V>>>)
      requires Valid() && arguments.Some?
      modifies this
      ensures Valid() && arguments.Some?
      ensures frags == old(frags) + [Sql(" (")] + Join(", ", Tuples(rows)) + [Sql(") ")]
    {
      Push(" (");
      var separated := new Separated(this, ", ");
      PushRows(separated, rows);
      Push(") ");
    }

    /** `build` hands the arguments over; the builder must be reset before it is used again. */
    method Build() returns (sql: string, values: seq<V>)
      requires Valid() && arguments.Some?
      modifies this`arguments
      ensures Valid() && arguments.None?
      ensures sql == Render(frags) && values == Values(frags)
    {
      sql, values := query, arguments.value;
      arguments := None;
    }

    /** `reset`: after any run, built or not, the state of `new(init)`. */
    method Reset()
      requires Valid()
      modifies this
      ensures Valid() && frags == [Sql(init)] && query == init && arguments == Some([])
    {
      assert frags == frags[..1] + frags[1..];
      assert frags[..1][..0] == [];
      assert Render(frags[..1]) == init;
      Append(frags[..1], frags[1..]);
      assert frags[..1] == [Sql(init)];
      query := query[..initLen];
      arguments := Some([]);
      frags := [Sql(init)];
    }
  }

  class Separated<V> {
    const builder: Builder<V>
    const separator: string
    var pushSeparator: bool

    constructor (builder: Builder<V>, separator: string)
      ensures this.builder == builder && this.separator == separator && !pushSeparator
    {
      this.builder, this.separator, pushSeparator := builder, separator, false;
    }

    method PushFrag(frag: Frag<V>)
      requires builder.Valid() && builder.arguments.Some?
      modifies this, builder
      ensures builder.Valid() && builder.arguments.Some? && pushSeparator
      ensures builder.frags == old(builder.frags) + (if old(pushSeparator) then [Sql(separator)] else []) + [frag]
    {
      match frag
      case Sql(text) => PushSql(text);
      case Bind(value) => PushValue(value);
    }

    /** `Separated::push` */
    method PushSql(sql: string)
      requires builder.Valid() && builder.arguments.Some?
      modifies this, builder
      ensures builder.Valid() && builder.arguments.Some? && pushSeparator
      ensures builder.frags == old(builder.frags) + (if old(pushSeparator) then [Sql(separator)] else []) + [Sql(sql)]
    {
      if pushSeparator {
        builder.PushBoth(separator, sql);
      } else {
        builder.Push(sql);
        pushSeparator := true;
      }
    }

    /** `Separated::push_bind` */
    method PushValue(value: V)
      requires builder.Valid() && builder.arguments.Some?
      modifies this, builder
      ensures builder.Valid() && builder.arguments.Some? && pushSeparator
      ensures builder.frags
           == old(builder.frags) + (if old(pushSeparator) then [Sql(separator)] else []) + [Bind(value)]
    {
      if pushSeparator {
        builder.Push(separator);
      }
      builder.PushBind(value);
      pushSeparator := true;
    }
  }
}
