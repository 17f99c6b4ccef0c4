/** The order in which a test fixture inserts its tables: a memoised depth-first search, then a sort. */
module ForeignKeys {
  import opened Basics

  type Name = string

  /** The referenced tables, in whatever order the hash map iterates. */
  datatype Table = Table(name: Name, refs: seq<Name>)

  type Tables = map<Name, Table>

  predicate WellKeyed(tables: Tables) {
    forall n :: n in tables ==> tables[n].name == n
  }

  // ------------------------------------------------------------------ what the search decides

  /** Each table of the chain references the next. */
  predicate Chain(tables: Tables, p: seq<Name>) {
    && p != []
    && (forall i :: 0 <= i < |p| ==> p[i] in tables)
    && (forall i :: 0 <= i < |p| - 1 ==> p[i + 1] in tables[p[i]].refs)
  }

  ghost predicate HasCycle(tables: Tables) {
    exists p :: Chain(tables, p) && |p| >= 2 && p[0] == p[|p| - 1]
  }

  predicate HasDangling(tables: Tables) {
    exists n :: n in tables && exists i :: 0 <= i < |tables[n].refs| && tables[n].refs[i] !in tables
  }

  /** `d` is the length of the longest foreign-key chain that starts at `n`. */
  ghost predicate LongestChain(tables: Tables, n: Name, d: nat) {
    && (exists p :: Chain(tables, p) && p[0] == n && |p| == d)
    && (forall p :: Chain(tables, p) && p[0] == n ==> |p| <= d)
  }

  /** One more than the deepest referenced table. */
  predicate DepthOk(tables: Tables, depths: map<Name, nat>, n: Name)
    requires n in tables && n in depths
  {
    var refs := tables[n].refs;
    && depths[n] >= 1
    && (forall i :: 0 <= i < |refs| ==> refs[i] in depths && depths[refs[i]] < depths[n])
    && (depths[n] == 1 || exists i :: 0 <= i < |refs| && refs[i] in depths && depths[refs[i]] == depths[n] - 1)
  }

  predicate Computed(tables: Tables, depths: map<Name, nat>) {
    && depths.Keys <= tables.Keys
    && forall n {:trigger DepthOk(tables, depths, n)} :: n in depths ==> DepthOk(tables, depths, n)
  }

  lemma {:induction false} ChainBounded(tables: Tables, depths: map<Name, nat>, p: seq<Name>)
    requires Computed(tables, depths) && Chain(tables, p) && p[0] in depths
    ensures |p| <= depths[p[0]]
    ensures |p| >= 2 ==> p[|p| - 1] in depths && depths[p[|p| - 1]] < depths[p[0]]
    decreases |p|
  {
    assert DepthOk(tables, depths, p[0]);
    if |p| >= 2 {
      assert p[1] in tables[p[0]].refs;
      ChainBounded(tables, depths, p[1..]);
    }
  }

  lemma {:induction false} ChainReached(tables: Tables, depths: map<Name, nat>, n: Name) returns (p: seq<Name>)
    requires Computed(tables, depths) && n in depths
    ensures Chain(tables, p) && p[0] == n && |p| == depths[n]
    decreases depths[n]
  {
    assert DepthOk(tables, depths, n);
    p := [n];
    if depths[n] > 1 {
      var refs := tables[n].refs;
      var i :| 0 <= i < |refs| && refs[i] in depths && depths[refs[i]] == depths[n] - 1;
      var rest := ChainReached(tables, depths, refs[i]);
      p := [n] + rest;
    }
  }

  lemma DepthIsLongestChain(tables: Tables, depths: map<Name, nat>, n: Name)
    requires Computed(tables, depths) && n in depths
    ensures LongestChain(tables, n, depths[n])
  {
    var p := ChainReached(tables, depths, n);
    forall q | Chain(tables, q) && q[0] == n ensures |q| <= depths[n] {
      ChainBounded(tables, depths, q);
    }
  }

  lemma AllComputedMeansNoFlaw(tables: Tables, depths: map<Name, nat>)
    requires Computed(tables, depths) && depths.Keys == tables.Keys
    ensures !HasCycle(tables) && !HasDangling(tables)
  {
    forall n, i | n in tables && 0 <= i < |tables[n].refs| ensures tables[n].refs[i] in tables {
      assert DepthOk(tables, depths, n);
    }
    forall p | Chain(tables, p) && |p| >= 2 ensures p[0] != p[|p| - 1] {
      ChainBounded(tables, depths, p);
    }
  }

  // ------------------------------------------------------------------ the search

  /** The tables being visited, outermost first; each references the next, and the last one references `n`. */
  predicate OnPath(tables: Tables, path: seq<Name>, n: Name) {
    path == [] || (Chain(tables, path) && n in tables[path[|path| - 1]].refs)
  }

  lemma ClosingThePath(tables: Tables, path: seq<Name>, n: Name, i: nat)
    requires OnPath(tables, path, n) && i < |path| && path[i] == n
    ensures HasCycle(tables)
  {
    assert Chain(tables, path[i..] + [n]);
  }

  lemma Extend(tables: Tables, path: seq<Name>, n: Name, ref: Name)
    requires OnPath(tables, path, n) && n in tables && ref in tables[n].refs
    ensures OnPath(tables, path + [n], ref)
  {
  }

  /** What was visited and not finished is exactly what is still being visited. */
  predicate Progress(tables: Tables, depths: map<Name, nat>, visited: set<Name>, path: seq<Name>) {
    && Computed(tables, depths)
    && visited <= tables.Keys
    && (forall n :: n in path ==> n in visited && n !in depths)
    && (forall n :: n in visited ==> n in depths || n in path)
  }

  predicate Extends(before: map<Name, nat>, after: map<Name, nat>) {
    forall n :: n in before ==> n in after && after[n] == before[n]
  }

  /** `deepest` is the greatest depth among the first `i` references, or 0. */
  predicate Deepest(refs: seq<Name>, i: nat, depths: map<Name, nat>, deepest: nat)
    requires i <= |refs|
  {
    && (forall j :: 0 <= j < i ==> refs[j] in depths && depths[refs[j]] <= deepest)
    && (deepest == 0 || exists j :: 0 <= j < i && refs[j] in depths && depths[refs[j]] == deepest)
  }

  lemma DeepestStep(refs: seq<Name>, i: nat, before: map<Name, nat>, after: map<Name, nat>, deepest: nat)
    requires i < |refs| && Deepest(refs, i, before, deepest) && Extends(before, after) && refs[i] in after
    ensures Deepest(refs, i + 1, after, if after[refs[i]] > deepest then after[refs[i]] else deepest)
  {
  }

  /** A table that was visited but not finished is still being visited. */
  lemma Revisited(tables: Tables, depths: map<Name, nat>, visited: set<Name>, path: seq<Name>, n: Name)
    requires Progress(tables, depths, visited, path) && OnPath(tables, path, n) && n in visited && n !in depths
    ensures HasCycle(tables)
  {
    var i :| 0 <= i < |path| && path[i] == n;
    ClosingThePath(tables, path, n, i);
  }

  lemma Enter(tables: Tables, depths: map<Name, nat>, visited: set<Name>, path: seq<Name>, n: Name)
    requires Progress(tables, depths, visited, path) && n in tables && n !in depths && n !in visited
    ensures Progress(tables, depths, visited + {n}, path + [n]) && n !in path
    ensures tables.Keys - (visited + {n}) < tables.Keys - visited
  {
    assert n in tables.Keys - visited;
  }

  /** The depth of a table is recorded once all its references have theirs. */
  lemma Leave(tables: Tables, depths: map<Name, nat>, visited: set<Name>, path: seq<Name>, n: Name, deepest: nat)
    requires Progress(tables, depths, visited, path + [n]) && n in tables && n !in path
    requires Deepest(tables[n].refs, |tables[n].refs|, depths, deepest)
    ensures Progress(tables, depths[n := deepest + 1], visited, path) && Extends(depths, depths[n := deepest + 1])
  {
    assert n in path + [n];
    var after := depths[n := deepest + 1];
    forall m | m in after ensures DepthOk(tables, after, m) {
      if m != n {
        assert DepthOk(tables, depths, m);
      }
    }
    forall m | m in path ensures m in visited && m !in after {
      assert m in path + [n];
    }
  }

  /** The search went on: nothing that was recorded or visited is lost. */
  predicate Advanced(
    tables: Tables, depths0: map<Name, nat>, visited0: set<Name>, depths: map<Name, nat>, visited: set<Name>,
    path: seq<Name>)
  {
    Progress(tables, depths, visited, path) && visited0 <= visited && Extends(depths0, depths)
  }

  /** From entering `n` to leaving it. */
  lemma Finish(
    tables: Tables, depths0: map<Name, nat>, visited0: set<Name>, depths: map<Name, nat>, visited: set<Name>,
    path: seq<Name>, n: Name, deepest: nat)
    requires Advanced(tables, depths0, visited0 + {n}, depths, visited, path + [n]) && n in tables && n !in path
    requires Deepest(tables[n].refs, |tables[n].refs|, depths, deepest)
    ensures Advanced(tables, depths0, visited0, depths[n := deepest + 1], visited, path)
  {
    Leave(tables, depths, visited, path, n, deepest);
  }

  class Search {
    var depths: map<Name, nat>
    var visited: set<Name>

    constructor ()
      ensures depths == map[] && visited == {}
    {
      depths, visited := map[], {};
    }

    /** `foreign_key_depth`: None stands for its error. */
    method Visit(tables: Tables, table: Table, ghost path: seq<Name>) returns (r: Option<nat>)
      requires WellKeyed(tables) && table.name in tables && tables[table.name] == table
      requires Progress(tables, depths, visited, path) && OnPath(tables, path, table.name)
      modifies this
      ensures r.Some? ==>
                && Advanced(tables, old(depths), old(visited), depths, visited, path)
                && table.name in depths && depths[table.name] == r.value
      ensures r.None? ==> HasCycle(tables) || HasDangling(tables)
      decreases tables.Keys - visited
    {
      if table.name in depths {
        return Some(depths[table.name]);
      }
      if table.name in visited {
        Revisited(tables, depths, visited, path, table.name);
        return None;
      }
      Enter(tables, depths, visited, path, table.name);
      visited := visited + {table.name};
      var refdepth := 0;
      for i := 0 to |table.refs|
        invariant Advanced(tables, old(depths), old(visited) + {table.name}, depths, visited, path + [table.name])
        invariant Deepest(table.refs, i, depths, refdepth)
      {
        if table.refs[i] !in tables {
          return None;
        }
        Extend(tables, path, table.name, table.refs[i]);
        ghost var before := depths;
        var d := Visit(tables, tables[table.refs[i]], path + [table.name]);
        if d.None? {
          return None;
        }
        DeepestStep(table.refs, i, before, depths, refdepth);
        refdepth := if d.value > refdepth then d.value else refdepth;
      }
      Finish(tables, old(depths), old(visited), depths, visited, path, table.name, refdepth);
      depths := depths[table.name := refdepth + 1];
      return Some(refdepth + 1);
    }
  }

  // ------------------------------------------------------------------ the order

  predicate SortedByDepth(order: seq<Name>, depths: map<Name, nat>)
    requires forall n :: n in order ==> n in depths
  {
    forall i, j :: 0 <= i < j < |order| ==> depths[order[i]] <= depths[order[j]]
  }

  predicate Distinct(order: seq<Name>) {
    forall i, j :: 0 <= i < j < |order| ==> order[i] != order[j]
  }

  lemma InsertDistinct(order: seq<Name>, n: Name, k: nat)
    requires k <= |order| && n !in order && Distinct(order)
    ensures Distinct(InsertAt(order, n, k))
  {
    var after := InsertAt(order, n, k);
    forall i, j | 0 <= i < j < |after| ensures after[i] != after[j] {
      assert i != k ==> after[i] in order;
      assert j != k ==> after[j] in order;
    }
  }

  /** The depths of the tables, in the same order. */
  function DepthsOf(order: seq<Name>, depths: map<Name, nat>): (ds: seq<nat>)
    requires forall n :: n in order ==> n in depths
    ensures |ds| == |order| && forall i :: 0 <= i < |ds| ==> ds[i] == depths[order[i]]
  {
    seq(|order|, i requires 0 <= i < |order| => assert order[i] in order; depths[order[i]])
  }

  lemma InsertSorted(ds: seq<nat>, d: nat, k: nat)
    requires k <= |ds| && (forall i, j :: 0 <= i < j < |ds| ==> ds[i] <= ds[j])
    requires (forall j :: k <= j < |ds| ==> ds[j] > d) && (k > 0 ==> ds[k - 1] <= d)
    ensures var after := InsertAt(ds, d, k); forall i, j :: 0 <= i < j < |after| ==> after[i] <= after[j]
  {
    assert forall i :: 0 <= i < k ==> ds[i] <= d;
  }

  lemma InsertKeeps(order: seq<Name>, n: Name, k: nat, depths: map<Name, nat>)
    requires k <= |order| && n in depths && n !in order && (forall m :: m in order ==> m in depths)
    requires SortedByDepth(order, depths) && Distinct(order)
    requires forall j :: k <= j < |order| ==> depths[order[j]] > depths[n]
    requires k > 0 ==> depths[order[k - 1]] <= depths[n]
    ensures forall m :: m in InsertAt(order, n, k) <==> m in order || m == n
    ensures SortedByDepth(InsertAt(order, n, k), depths) && Distinct(InsertAt(order, n, k))
  {
    InsertMembers(order, n, k);
    InsertDistinct(order, n, k);
    InsertSortedByDepth(order, n, k, depths);
  }

  lemma InsertSortedByDepth(order: seq<Name>, n: Name, k: nat, depths: map<Name, nat>)
    requires k <= |order| && n in depths && (forall m :: m in order ==> m in depths)
    requires forall m :: m in InsertAt(order, n, k) ==> m in depths
    requires SortedByDepth(order, depths)
    requires forall j :: k <= j < |order| ==> depths[order[j]] > depths[n]
    requires k > 0 ==> depths[order[k - 1]] <= depths[n]
    ensures SortedByDepth(InsertAt(order, n, k), depths)
  {
    InsertSorted(DepthsOf(order, depths), depths[n], k);
    DepthsInsert(order, n, k, depths);
    SameDepths(InsertAt(order, n, k), depths);
  }

  lemma DepthsInsert(order: seq<Name>, n: Name, k: nat, depths: map<Name, nat>)
    requires k <= |order| && n in depths && (forall m :: m in order ==> m in depths)
    requires forall m :: m in InsertAt(order, n, k) ==> m in depths
    ensures DepthsOf(InsertAt(order, n, k), depths) == InsertAt(DepthsOf(order, depths), depths[n], k)
  {
  }

  lemma SameDepths(order: seq<Name>, depths: map<Name, nat>)
    requires forall m :: m in order ==> m in depths
    ensures SortedByDepth(order, depths) <==>
            var ds := DepthsOf(order, depths); forall i, j :: 0 <= i < j < |ds| ==> ds[i] <= ds[j]
  {
  }

  /** `sort_by_key` over the keys of the map, in any initial order. */
  method SortByDepth(depths: map<Name, nat>) returns (order: seq<Name>)
    ensures forall n :: n in order <==> n in depths
    ensures SortedByDepth(order, depths) && Distinct(order)
  {
    order := [];
    var rest := depths.Keys;
    while rest != {}
      invariant rest <= depths.Keys
      invariant forall n :: n in order <==> n in depths && n !in rest
      invariant SortedByDepth(order, depths) && Distinct(order)
      decreases rest
    {
      var n := Pick(rest);
      var k := |order|;
      while k > 0 && depths[order[k - 1]] > depths[n]
        invariant 0 <= k <= |order|
        invariant forall j :: k <= j < |order| ==> depths[order[j]] > depths[n]
      {
        k := k - 1;
      }
      InsertKeeps(order, n, k, depths);
      order := InsertAt(order, n, k);
      rest := rest - {n};
    }
  }

  /** Every table once, after all the tables it references. */
  ghost predicate InsertOrder(tables: Tables, order: seq<Name>) {
    && Distinct(order)
    && (forall n :: n in order <==> n in tables)
    && forall i, j :: 0 <= i < |order| && 0 <= j < |order| && References(tables, order[i], order[j]) ==> j < i
  }

  predicate References(tables: Tables, n: Name, ref: Name) {
    n in tables && ref in tables[n].refs
  }

  /**
   * `calculate_visit_order` fails exactly on a foreign-key cycle or a reference to no table; otherwise
   * every table is inserted once, in the order of the longest chain that starts at it, and so after
   * everything it references.
   */
  method VisitOrder(tables: Tables) returns (order: Option<seq<Name>>, ghost depths: map<Name, nat>)
    requires WellKeyed(tables)
    ensures order.None? <==> HasCycle(tables) || HasDangling(tables)
    ensures order.Some? ==>
              && InsertOrder(tables, order.value)
              && depths.Keys == tables.Keys && SortedByDepth(order.value, depths)
              && forall n :: n in tables ==> LongestChain(tables, n, depths[n])
  {
    var search := new Search();
    var rest := tables.Keys;
    while rest != {}
      invariant rest <= tables.Keys
      invariant Progress(tables, search.depths, search.visited, [])
      invariant search.visited == {}
      invariant tables.Keys - rest <= search.depths.Keys
      decreases rest
    {
      var n := Pick(rest);
      var d := search.Visit(tables, tables[n], []);
      if d.None? {
        return None, map[];
      }
      search.visited := {};
      assert tables.Keys - (rest - {n}) == (tables.Keys - rest) + {n};
      rest := rest - {n};
    }
    assert tables.Keys - rest == tables.Keys;
    AllComputedMeansNoFlaw(tables, search.depths);
    var names := SortByDepth(search.depths);
    OrderFollows(tables, search.depths, names);
    forall n | n in tables ensures LongestChain(tables, n, search.depths[n]) {
      DepthIsLongestChain(tables, search.depths, n);
    }
    return Some(names), search.depths;
  }

  lemma OrderFollows(tables: Tables, depths: map<Name, nat>, order: seq<Name>)
    requires Computed(tables, depths) && depths.Keys == tables.Keys
    requires (forall n :: n in order <==> n in depths) && SortedByDepth(order, depths) && Distinct(order)
    ensures InsertOrder(tables, order)
  {
    forall i, j | 0 <= i < |order| && 0 <= j < |order| && References(tables, order[i], order[j]) ensures j < i {
      assert order[i] in order && order[j] in order;
      RefIsShallower(tables, depths, order[i], order[j]);
    }
  }

  lemma RefIsShallower(tables: Tables, depths: map<Name, nat>, n: Name, ref: Name)
    requires Computed(tables, depths) && n in depths && ref in tables[n].refs
    ensures ref in depths && depths[ref] < depths[n]
  {
    assert DepthOk(tables, depths, n);
  }
}
