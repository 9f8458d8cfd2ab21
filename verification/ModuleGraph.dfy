/** Module dependency graphs, and the searches over them that assume they are acyclic. */
module ModuleGraph {

  type ModId = nat

  /** The direct dependencies of every module; a module is an index. */
  type Graph = seq<seq<ModId>>

  ghost predicate ValidGraph(g: Graph) {
    forall m, d :: 0 <= m < |g| && d in g[m] ==> d < |g|
  }

  /** `p` leads from its first module to its last, each needing the next. */
  ghost predicate Chain(g: Graph, p: seq<ModId>)
    decreases |p|
  {
    && p != [] && p[0] < |g|
    && (|p| == 1 || (p[1] in g[p[0]] && Chain(g, p[1..])))
  }

  /** `b` is a dependency of `a`, direct or not. */
  ghost predicate DependsOn(g: Graph, a: ModId, b: ModId) {
    exists p :: |p| > 1 && Chain(g, p) && p[0] == a && p[|p|-1] == b
  }

  ghost predicate Acyclic(g: Graph) {
    ValidGraph(g) && forall m :: 0 <= m < |g| ==> !DependsOn(g, m, m)
  }

  lemma DirectDependency(g: Graph, a: ModId, d: ModId)
    requires ValidGraph(g) && a < |g| && d in g[a]
    ensures DependsOn(g, a, d)
  {
    var p := [a, d];
    assert p[1..] == [d] && Chain(g, [d]);
    assert Chain(g, p) && |p| > 1 && p[0] == a && p[|p|-1] == d;
  }

  /** A dependency is a direct dependency or one of a direct dependency. */
  lemma DependencyStep(g: Graph, a: ModId, b: ModId) returns (d: ModId)
    requires ValidGraph(g) && DependsOn(g, a, b)
    ensures a < |g| && d in g[a] && (d == b || DependsOn(g, d, b))
  {
    var p :| |p| > 1 && Chain(g, p) && p[0] == a && p[|p|-1] == b;
    d := p[1];
    if |p| > 2 {
      var q := p[1..];
      assert Chain(g, q) && q[0] == d && q[|q|-1] == b;
    }
  }

  lemma ThroughDirect(g: Graph, a: ModId, d: ModId, b: ModId)
    requires ValidGraph(g) && a < |g| && d in g[a] && DependsOn(g, d, b)
    ensures DependsOn(g, a, b)
  {
    var p :| |p| > 1 && Chain(g, p) && p[0] == d && p[|p|-1] == b;
    var q := [a] + p;
    assert q[1..] == p && q[1] == d;
    assert Chain(g, q) && |q| > 1 && q[0] == a && q[|q|-1] == b;
  }

  lemma {:induction false} ChainInRange(g: Graph, p: seq<ModId>)
    requires ValidGraph(g) && Chain(g, p)
    ensures p[|p|-1] < |g|
    decreases |p|
  {
    if |p| == 1 {
    } else {
      ChainInRange(g, p[1..]);
    }
  }

  // ---------------------------------------------------------------- a measure for the searches

  ghost function Below(g: Graph, m: ModId): set<ModId> {
    set x: ModId | 0 <= x < |g| && DependsOn(g, m, x)
  }

  /** How many modules `m` depends on. */
  ghost function Rank(g: Graph, m: ModId): nat { |Below(g, m)| }

  lemma ProperSubset(a: set<ModId>, b: set<ModId>, x: ModId)
    requires a <= b && x in b && x !in a
    ensures |a| < |b|
  {
    CardinalityMonotone(a, b - {x});
  }

  lemma {:induction false} CardinalityMonotone(a: set<ModId>, b: set<ModId>)
    requires a <= b
    ensures |a| <= |b|
  {
    if a == {} {
    } else {
      var x :| x in a;
      CardinalityMonotone(a - {x}, b - {x});
    }
  }

  lemma RankDrops(g: Graph, m: ModId, d: ModId)
    requires Acyclic(g) && m < |g| && d in g[m]
    ensures d < |g| && Rank(g, d) < Rank(g, m)
  {
    DirectDependency(g, m, d);
    forall x | x in Below(g, d) ensures x in Below(g, m) {
      ThroughDirect(g, m, d, x);
    }
    ProperSubset(Below(g, d), Below(g, m), d);
  }

  /** All modules of `ms` are in the graph and rank below `bound`. */
  ghost predicate Within(g: Graph, ms: seq<ModId>, bound: nat) {
    forall k :: 0 <= k < |ms| ==> ms[k] < |g| && Rank(g, ms[k]) < bound
  }

  lemma RanksDrop(g: Graph, m: ModId)
    requires Acyclic(g) && m < |g|
    ensures Within(g, g[m], Rank(g, m))
  {
    forall k | 0 <= k < |g[m]| ensures g[m][k] < |g| && Rank(g, g[m][k]) < Rank(g, m) {
      RankDrops(g, m, g[m][k]);
    }
  }

  ghost predicate InGraph(g: Graph, ms: seq<ModId>) {
    forall k :: 0 <= k < |ms| ==> ms[k] < |g|
  }

  /** A rank above those of all given modules. */
  ghost function RankBound(g: Graph, ms: seq<ModId>): (r: nat)
    requires InGraph(g, ms)
    ensures Within(g, ms, r)
  {
    if ms == [] then 0
    else
      var r := RankBound(g, ms[..|ms|-1]);
      var n := Rank(g, ms[|ms|-1]);
      assert forall k :: 0 <= k < |ms| - 1 ==> ms[k] == ms[..|ms|-1][k];
      if n < r then r else n + 1
  }

  // ---------------------------------------------------------------- reachability

  /** `exists_in_deps`: depth-first, without marking what was visited. */
  method ExistsInDeps(g: Graph, deps: seq<ModId>, target: ModId, ghost bound: nat) returns (found: bool)
    requires Acyclic(g) && Within(g, deps, bound)
    ensures found <==> target in deps || exists d :: d in deps && DependsOn(g, d, target)
    decreases bound
  {
    for i := 0 to |deps|
      invariant forall k :: 0 <= k < i ==> deps[k] != target && !DependsOn(g, deps[k], target)
    {
      var dep := deps[i];
      assert dep in deps;
      if dep == target {
        return true;
      }
      RanksDrop(g, dep);
      if g[dep] != [] {
        var inner := ExistsInDeps(g, g[dep], target, Rank(g, dep));
        if inner {
          if target in g[dep] {
            DirectDependency(g, dep, target);
          } else {
            ghost var d :| d in g[dep] && DependsOn(g, d, target);
            ThroughDirect(g, dep, d, target);
          }
          return true;
        }
      }
      ghost var reached := DependsOn(g, dep, target);
      if reached {
        ghost var d := DependencyStep(g, dep, target);
        assert false;
      }
    }
    return false;
  }
}
