/** Which packages `cargo sqlx prepare` must recompile: everything that depends on `sqlx-macros`. */
module Dependents {
  import opened Basics

  type Id = string

  /** A node of the resolved dependency graph. */
  datatype Node = Node(id: Id, deps: seq<Id>)

  datatype Package = Package(name: string, srcPaths: seq<string>)

  type Reverse = map<Id, set<Id>>

  // ------------------------------------------------------------------ what is meant

  predicate DependsOn(nodes: seq<Node>, x: Id, d: Id) {
    exists i :: 0 <= i < |nodes| && nodes[i].id == x && d in nodes[i].deps
  }

  /** A chain in which each package depends on the one before it. */
  predicate Chain(nodes: seq<Node>, p: seq<Id>) {
    forall i :: 0 <= i < |p| - 1 ==> DependsOn(nodes, p[i + 1], p[i])
  }

  /** `x` depends on `id`, directly or through others. */
  ghost predicate Dependent(nodes: seq<Node>, x: Id, id: Id) {
    exists p :: |p| >= 2 && p[0] == id && p[|p| - 1] == x && Chain(nodes, p)
  }

  function Immediate(rev: Reverse, id: Id): set<Id> {
    if id in rev then rev[id] else {}
  }

  /** `rev` is the graph of `nodes` with every edge reversed. */
  ghost predicate Transpose(nodes: seq<Node>, rev: Reverse) {
    forall d, x :: x in Immediate(rev, d) <==> DependsOn(nodes, x, d)
  }

  // ------------------------------------------------------------------ building the reverse graph

  /** The nested loops of `Metadata::from_str`. */
  method ReverseDeps(nodes: seq<Node>) returns (rev: Reverse)
    ensures Transpose(nodes, rev)
  {
    rev := map[];
    for i := 0 to |nodes|
      invariant Transpose(nodes[..i], rev)
    {
      var node := nodes[i];
      assert nodes[..i + 1] == nodes[..i] + [node];
      for j := 0 to |node.deps|
        invariant forall d, x :: x in Immediate(rev, d) <==>
                    DependsOn(nodes[..i], x, d) || (x == node.id && d in node.deps[..j])
      {
        rev := rev[node.deps[j] := Immediate(rev, node.deps[j]) + {node.id}];
        assert node.deps[..j + 1] == node.deps[..j] + [node.deps[j]];
      }
      assert node.deps[..|node.deps|] == node.deps;
      forall d, x ensures DependsOn(nodes[..i + 1], x, d)
          <==> DependsOn(nodes[..i], x, d) || (x == node.id && d in node.deps) {
        DependsOnAppend(nodes[..i], node, x, d);
      }
    }
    assert nodes[..|nodes|] == nodes;
  }

  lemma DependsOnAppend(nodes: seq<Node>, node: Node, x: Id, d: Id)
    ensures DependsOn(nodes + [node], x, d) <==> DependsOn(nodes, x, d) || (x == node.id && d in node.deps)
  {
    var all := nodes + [node];
    if DependsOn(nodes, x, d) {
      var i :| 0 <= i < |nodes| && nodes[i].id == x && d in nodes[i].deps;
      assert all[i] == nodes[i];
    }
    if x == node.id && d in node.deps {
      assert all[|nodes|] == node;
    }
  }

  // ------------------------------------------------------------------ the search

  /** Everything that is the dependent of something. */
  function AllIds(rev: Reverse): set<Id> {
    set d, x | d in rev && x in rev[d] :: x
  }

  /** `found` contains what is reached in one step from each of `xs`. */
  predicate ClosedOn(rev: Reverse, xs: set<Id>, found: set<Id>) {
    forall x :: x in xs ==> Immediate(rev, x) <= found
  }

  lemma Further(nodes: seq<Node>, rev: Reverse, id: Id, x: Id, y: Id)
    requires Transpose(nodes, rev) && (x == id || Dependent(nodes, x, id)) && y in Immediate(rev, x)
    ensures Dependent(nodes, y, id)
  {
    if x == id {
      assert Chain(nodes, [id, y]);
    } else {
      var p :| |p| >= 2 && p[0] == id && p[|p| - 1] == x && Chain(nodes, p);
      assert Chain(nodes, p + [y]);
    }
  }

  lemma Through(nodes: seq<Node>, rev: Reverse, id: Id, x: Id, y: Id)
    requires Transpose(nodes, rev) && x in Immediate(rev, id) && Dependent(nodes, y, x)
    ensures Dependent(nodes, y, id)
  {
    var p :| |p| >= 2 && p[0] == x && p[|p| - 1] == y && Chain(nodes, p);
    var q := [id] + p;
    forall i | 0 <= i < |q| - 1 ensures DependsOn(nodes, q[i + 1], q[i]) {
      assert i > 0 ==> DependsOn(nodes, p[i - 1 + 1], p[i - 1]);
    }
    assert Chain(nodes, q);
  }

  /** A set closed under one step contains the end of every chain that enters it. */
  lemma {:induction false} ClosedContains(nodes: seq<Node>, rev: Reverse, id: Id, found: set<Id>, p: seq<Id>)
    requires Transpose(nodes, rev) && ClosedOn(rev, found + {id}, found)
    requires |p| >= 2 && p[0] == id && Chain(nodes, p)
    ensures p[|p| - 1] in found
    decreases |p|
  {
    var n := |p| - 1;
    assert DependsOn(nodes, p[n - 1 + 1], p[n - 1]);
    if n > 1 {
      ClosedContains(nodes, rev, id, found, p[..n]);
    }
    assert p[n - 1] in found + {id};
  }

  class Collector {
    var dependents: set<Id>

    constructor ()
      ensures dependents == {}
    {
      dependents := {};
    }

    /** `all_dependents_of_helper`: terminates on cyclic graphs because it only descends into new members. */
    method Collect(ghost nodes: seq<Node>, rev: Reverse, id: Id)
      requires Transpose(nodes, rev)
      modifies this
      ensures old(dependents) <= dependents
      ensures forall x :: x in dependents - old(dependents) ==> Dependent(nodes, x, id)
      ensures ClosedOn(rev, dependents - old(dependents) + {id}, dependents)
      decreases AllIds(rev) - dependents
    {
      var rest := Immediate(rev, id);
      while rest != {}
        invariant rest <= Immediate(rev, id) <= rest + dependents
        invariant old(dependents) <= dependents
        invariant forall x :: x in dependents - old(dependents) ==> Dependent(nodes, x, id)
        invariant ClosedOn(rev, dependents - old(dependents), dependents)
        decreases rest
      {
        var next := Pick(rest);
        rest := rest - {next};
        if next !in dependents {
          ghost var before := dependents;
          dependents := dependents + {next};
          Further(nodes, rev, id, id, next);
          assert next in AllIds(rev);
          Collect(nodes, rev, next);
          forall x | x in dependents - old(dependents) ensures Dependent(nodes, x, id) {
            if x !in before && x != next {
              Through(nodes, rev, id, next, x);
            }
          }
        }
      }
    }
  }

  /** `all_dependents_of`: exactly the packages that reach `id` by one or more dependencies. */
  method AllDependentsOf(ghost nodes: seq<Node>, rev: Reverse, id: Id) returns (found: set<Id>)
    requires Transpose(nodes, rev)
    ensures forall x :: x in found <==> Dependent(nodes, x, id)
  {
    var collector := new Collector();
    collector.Collect(nodes, rev, id);
    found := collector.dependents;
    assert found - {} == found;
    forall x | Dependent(nodes, x, id) ensures x in found {
      var p :| |p| >= 2 && p[0] == id && p[|p| - 1] == x && Chain(nodes, p);
      ClosedContains(nodes, rev, id, found, p);
    }
  }

  // ------------------------------------------------------------------ the action

  /** `id` depends on some package called `sqlx-macros`. */
  ghost predicate UsesMacros(nodes: seq<Node>, packages: map<Id, Package>, id: Id) {
    exists m :: m in packages && packages[m].name == "sqlx-macros" && Dependent(nodes, id, m)
  }

  /** Everything that depends on some package called `sqlx-macros`. */
  method MacroDependents(ghost nodes: seq<Node>, rev: Reverse, packages: map<Id, Package>) returns (dependents: set<Id>)
    requires Transpose(nodes, rev)
    ensures forall x :: x in dependents <==> UsesMacros(nodes, packages, x)
  {
    dependents := {};
    var ids := set m | m in packages && packages[m].name == "sqlx-macros";
    var rest := ids;
    while rest != {}
      invariant rest <= ids
      invariant forall x :: x in dependents <==> exists m :: m in ids && m !in rest && Dependent(nodes, x, m)
      decreases rest
    {
      var m := Pick(rest);
      var more := AllDependentsOf(nodes, rev, m);
      dependents := dependents + more;
      rest := rest - {m};
    }
  }

  /** A source file of a workspace package among `ids`. */
  ghost predicate Touched(packages: map<Id, Package>, workspace: seq<Id>, ids: set<Id>, f: string) {
    exists id :: id in ids && id in workspace && id in packages && f in packages[id].srcPaths
  }

  /** The name of a package among `ids` that is outside the workspace and not `sqlx` itself. */
  ghost predicate Cleaned(packages: map<Id, Package>, workspace: seq<Id>, ids: set<Id>, n: string) {
    n != "sqlx" && exists id :: id in ids && id !in workspace && id in packages && packages[id].name == n
  }

  lemma TouchedMore(packages: map<Id, Package>, workspace: seq<Id>, ids: set<Id>, id: Id, f: string)
    ensures Touched(packages, workspace, ids + {id}, f) <==>
            Touched(packages, workspace, ids, f) || (id in workspace && id in packages && f in packages[id].srcPaths)
  {
    if Touched(packages, workspace, ids, f) {
      var x :| x in ids && x in workspace && x in packages && f in packages[x].srcPaths;
      assert x in ids + {id};
    }
    if id in workspace && id in packages && f in packages[id].srcPaths {
      assert id in ids + {id};
    }
  }

  lemma CleanedMore(packages: map<Id, Package>, workspace: seq<Id>, ids: set<Id>, id: Id, n: string)
    ensures Cleaned(packages, workspace, ids + {id}, n) <==>
            || Cleaned(packages, workspace, ids, n)
            || (n != "sqlx" && id !in workspace && id in packages && packages[id].name == n)
  {
    if Cleaned(packages, workspace, ids, n) {
      var x :| x in ids && x !in workspace && x in packages && packages[x].name == n;
      assert x in ids + {id};
    }
    if n != "sqlx" && id !in workspace && id in packages && packages[id].name == n {
      assert id in ids + {id};
    }
  }

  method Classify(packages: map<Id, Package>, workspace: seq<Id>, dependents: set<Id>, all: bool)
    returns (touch: seq<string>, clean: seq<string>)
    ensures forall f :: f in touch <==> Touched(packages, workspace, dependents, f)
    ensures forall n :: n in clean <==> all && Cleaned(packages, workspace, dependents, n)
  {
    touch, clean := [], [];
    var rest := dependents;
    while rest != {}
      invariant rest <= dependents
      invariant forall f :: f in touch <==> Touched(packages, workspace, dependents - rest, f)
      invariant forall n :: n in clean <==> all && Cleaned(packages, workspace, dependents - rest, n)
      decreases rest
    {
      var id := Pick(rest);
      ghost var seen, next := dependents - rest, dependents - (rest - {id});
      assert next == seen + {id};
      forall f
        ensures Touched(packages, workspace, next, f) <==>
                Touched(packages, workspace, seen, f)
                    || (id in workspace && id in packages && f in packages[id].srcPaths)
      {
        TouchedMore(packages, workspace, seen, id, f);
      }
      forall n
        ensures Cleaned(packages, workspace, next, n) <==>
                || Cleaned(packages, workspace, seen, n)
                || (n != "sqlx" && id !in workspace && id in packages && packages[id].name == n)
      {
        CleanedMore(packages, workspace, seen, id, n);
      }
      if id in packages {
        if id in workspace {
          touch := touch + packages[id].srcPaths;
        } else if all && packages[id].name != "sqlx" {
          clean := clean + [packages[id].name];
        }
      }
      rest := rest - {id};
    }
    assert dependents - rest == dependents;
  }

  /**
   * `minimal_project_recompile_action`: a source file is touched exactly when it belongs to a
   * workspace package that depends on `sqlx-macros`; a package is cleaned exactly when `all` is set,
   * it is outside the workspace, depends on `sqlx-macros`, and is not `sqlx` itself.
   */
  method RecompileAction(
    ghost nodes: seq<Node>, rev: Reverse, packages: map<Id, Package>, workspace: seq<Id>, all: bool)
    returns (touch: seq<string>, clean: seq<string>)
    requires Transpose(nodes, rev)
    ensures forall f :: f in touch <==>
              exists id :: id in workspace && id in packages && f in packages[id].srcPaths
                  && UsesMacros(nodes, packages, id)
    ensures forall n :: n in clean <==>
              all && n != "sqlx" &&
              exists id :: id !in workspace && id in packages && packages[id].name == n
                  && UsesMacros(nodes, packages, id)
  {
    var dependents := MacroDependents(nodes, rev, packages);
    touch, clean := Classify(packages, workspace, dependents, all);
  }
}
