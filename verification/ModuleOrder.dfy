/** The two linearisations of a module graph: all dependencies, and the direct ones only. */
module ModuleOrder {
  import opened ModuleGraph

  // ---------------------------------------------------------------- the order in which modules are met

  /** Every visit of a depth-first walk that marks nothing, a module after its dependencies. */
  ghost function Visits(g: Graph, m: ModId): seq<ModId>
    requires Acyclic(g) && m < |g|
    decreases Rank(g, m), 1, 0
  {
    RanksDrop(g, m);
    VisitsOfAll(g, g[m], Rank(g, m)) + [m]
  }

  ghost function VisitsOfAll(g: Graph, ms: seq<ModId>, bound: nat): seq<ModId>
    requires Acyclic(g) && Within(g, ms, bound)
    decreases bound, 0, |ms|
  {
    if ms == [] then [] else VisitsOfAll(g, ms[..|ms|-1], bound) + Visits(g, ms[|ms|-1])
  }

  lemma VisitsStep(g: Graph, ms: seq<ModId>, i: nat, bound: nat)
    requires Acyclic(g) && Within(g, ms, bound) && i < |ms|
    ensures Within(g, ms[..i + 1], bound) && Within(g, ms[..i], bound)
    ensures VisitsOfAll(g, ms[..i + 1], bound) == VisitsOfAll(g, ms[..i], bound) + Visits(g, ms[i])
  {
    assert ms[..i + 1][..i] == ms[..i];
  }

  /** `out`, and then what `s` meets for the first time. */
  ghost function FirstMet(out: seq<ModId>, s: seq<ModId>): seq<ModId> {
    if s == [] then out
    else
      var r := FirstMet(out, s[..|s|-1]);
      if s[|s|-1] in r then r else r + [s[|s|-1]]
  }

  ghost function Only(s: seq<ModId>, keep: set<ModId>): seq<ModId> {
    if s == [] then []
    else Only(s[..|s|-1], keep) + if s[|s|-1] in keep then [s[|s|-1]] else []
  }

  lemma {:induction false} FirstMetConcat(out: seq<ModId>, a: seq<ModId>, b: seq<ModId>)
    ensures FirstMet(out, a + b) == FirstMet(FirstMet(out, a), b)
  {
    if b == [] {
      assert a + b == a;
    } else {
      assert (a + b)[..|a + b| - 1] == a + b[..|b|-1];
      FirstMetConcat(out, a, b[..|b|-1]);
    }
  }

  lemma {:induction false} OnlyConcat(a: seq<ModId>, b: seq<ModId>, keep: set<ModId>)
    ensures Only(a + b, keep) == Only(a, keep) + Only(b, keep)
  {
    if b == [] {
      assert a + b == a;
    } else {
      assert (a + b)[..|a + b| - 1] == a + b[..|b|-1];
      OnlyConcat(a, b[..|b|-1], keep);
    }
  }

  // ---------------------------------------------------------------- all dependencies

  class Flattening {
    var imported: map<ModId, bool>
    var flatMap: seq<ModId>

    ghost predicate Valid()
      reads this
    { forall m :: m in imported <==> m in flatMap }

    constructor ()
      ensures Valid() && flatMap == []
    {
      imported, flatMap := map[], [];
    }

    method RecursiveDedupe(g: Graph, file: ModId)
      requires Valid() && Acyclic(g) && file < |g|
      modifies this
      ensures Valid() && flatMap == FirstMet(old(flatMap), Visits(g, file))
      decreases Rank(g, file)
    {
      RanksDrop(g, file);
      ghost var deps, bound := g[file], Rank(g, file);
      for i := 0 to |g[file]|
        invariant Valid()
        invariant flatMap == FirstMet(old(flatMap), VisitsOfAll(g, deps[..i], bound))
      {
        ghost var before := flatMap;
        RecursiveDedupe(g, g[file][i]);
        VisitsStep(g, deps, i, bound);
        FirstMetConcat(old(flatMap), VisitsOfAll(g, deps[..i], bound), Visits(g, deps[i]));
      }
      assert deps[..|deps|] == deps;
      FirstMetConcat(old(flatMap), VisitsOfAll(g, deps, bound), [file]);
      assert [file][..0] == [];
      assert FirstMet(flatMap, [file]) == if file in flatMap then flatMap else flatMap + [file];
      if file !in imported {
        imported := imported[file := true];
        flatMap := flatMap + [file];
      }
    }
  }

  method FlattenDedupeSorted(g: Graph, modules: seq<ModId>) returns (sorted: seq<ModId>)
    requires Acyclic(g) && InGraph(g, modules)
    ensures sorted == FirstMet([], VisitsOfAll(g, modules, RankBound(g, modules)))
  {
    var f := new Flattening();
    ghost var bound := RankBound(g, modules);
    for i := 0 to |modules|
      invariant f.Valid() && f.flatMap == FirstMet([], VisitsOfAll(g, modules[..i], bound))
    {
      f.RecursiveDedupe(g, modules[i]);
      VisitsStep(g, modules, i, bound);
      FirstMetConcat([], VisitsOfAll(g, modules[..i], bound), Visits(g, modules[i]));
    }
    assert modules[..|modules|] == modules;
    sorted := f.flatMap;
  }

  // ---------------------------------------------------------------- direct dependencies only

  lemma ShallowStep(g: Graph, ms: seq<ModId>, i: nat, bound: nat, done: seq<ModId>, keep: set<ModId>)
    requires Acyclic(g) && Within(g, ms, bound) && i < |ms|
    ensures Within(g, ms[..i + 1], bound) && Within(g, ms[..i], bound)
    ensures FirstMet(done, Only(VisitsOfAll(g, ms[..i + 1], bound), keep))
            == FirstMet(FirstMet(done, Only(VisitsOfAll(g, ms[..i], bound), keep)), Only(Visits(g, ms[i]), keep))
  {
    VisitsStep(g, ms, i, bound);
    OnlyConcat(VisitsOfAll(g, ms[..i], bound), Visits(g, ms[i]), keep);
    FirstMetConcat(done, Only(VisitsOfAll(g, ms[..i], bound), keep), Only(Visits(g, ms[i]), keep));
  }

  lemma ShallowLast(g: Graph, m: ModId, done: seq<ModId>, keep: set<ModId>)
    requires Acyclic(g) && m < |g| && Within(g, g[m], Rank(g, m))
    ensures var r := FirstMet(done, Only(VisitsOfAll(g, g[m], Rank(g, m)), keep));
            FirstMet(done, Only(Visits(g, m), keep)) == if m in keep && m !in r then r + [m] else r
  {
    var v := VisitsOfAll(g, g[m], Rank(g, m));
    OnlyConcat(v, [m], keep);
    FirstMetConcat(done, Only(v, keep), Only([m], keep));
    assert [m][..0] == [];
  }

  class ShallowSorting {
    var modsMap: map<ModId, bool>
    var outMods: seq<ModId>

    /** `done` is what this run has put out after `prefix`. */
    ghost predicate Valid(prefix: seq<ModId>, done: seq<ModId>, direct: set<ModId>)
      reads this
    {
      && outMods == prefix + done && modsMap.Keys == direct
      && forall m :: m in direct ==> (modsMap[m] <==> m !in done)
    }

    constructor (out: seq<ModId>)
      ensures outMods == out && modsMap == map[]
    {
      outMods, modsMap := out, map[];
    }

    method Visit(g: Graph, mod: ModId, ghost prefix: seq<ModId>, ghost done: seq<ModId>, ghost direct: set<ModId>)
      requires Valid(prefix, done, direct) && Acyclic(g) && mod < |g|
      modifies this
      ensures Valid(prefix, FirstMet(done, Only(Visits(g, mod), direct)), direct)
      decreases Rank(g, mod)
    {
      RanksDrop(g, mod);
      hide FirstMet, Only, Visits;
      ghost var deps, bound := g[mod], Rank(g, mod);
      ghost var now := done;
      for i := 0 to |g[mod]|
        invariant Valid(prefix, now, direct)
        invariant now == FirstMet(done, Only(VisitsOfAll(g, deps[..i], bound), direct))
      {
        Visit(g, g[mod][i], prefix, now, direct);
        ShallowStep(g, deps, i, bound, done, direct);
        now := FirstMet(now, Only(Visits(g, deps[i]), direct));
      }
      assert deps[..|deps|] == deps;
      ShallowLast(g, mod, done, direct);
      PutOut(mod, prefix, now, direct);
    }

    method PutOut(mod: ModId, ghost prefix: seq<ModId>, ghost done: seq<ModId>, ghost direct: set<ModId>)
      requires Valid(prefix, done, direct)
      modifies this
      ensures Valid(prefix, if mod in direct && mod !in done then done + [mod] else done, direct)
    {
      if mod in modsMap && modsMap[mod] {
        outMods := outMods + [mod];
        modsMap := modsMap[mod := false];
      }
    }

    method ShallowDedupeSorted(g: Graph, deps: seq<ModId>)
      requires Acyclic(g) && InGraph(g, deps) && modsMap == map[]
      modifies this
      ensures outMods == old(outMods)
              + FirstMet([], Only(VisitsOfAll(g, deps, RankBound(g, deps)), set m | m in deps))
    {
      ghost var prefix, direct, bound := outMods, (set m | m in deps), RankBound(g, deps);
      for i := 0 to |deps|
        invariant outMods == prefix && modsMap.Keys == (set m | m in deps[..i])
        invariant forall m :: m in modsMap ==> modsMap[m]
      {
        modsMap := modsMap[deps[i] := true];
      }
      ghost var now := [];
      for i := 0 to |deps|
        invariant Valid(prefix, now, direct)
        invariant now == FirstMet([], Only(VisitsOfAll(g, deps[..i], bound), direct))
      {
        Visit(g, deps[i], prefix, now, direct);
        ShallowStep(g, deps, i, bound, [], direct);
        now := FirstMet(now, Only(Visits(g, deps[i]), direct));
      }
      assert deps[..|deps|] == deps;
    }
  }

  // ---------------------------------------------------------------- what the two orders have in common

  lemma {:induction false} OnlyMembers(s: seq<ModId>, keep: set<ModId>)
    ensures forall m :: m in Only(s, keep) <==> m in s && m in keep
  {
    if s == [] {
    } else {
      OnlyMembers(s[..|s|-1], keep);
    }
  }

  lemma {:induction false} FirstMetMembers(out: seq<ModId>, s: seq<ModId>)
    ensures forall m :: m in FirstMet(out, s) <==> m in out || m in s
  {
    if s == [] {
    } else {
      FirstMetMembers(out, s[..|s|-1]);
    }
  }

  lemma OnlyLast(s: seq<ModId>, last: ModId, keep: set<ModId>)
    ensures Only(s + [last], keep) == if last in keep then Only(s, keep) + [last] else Only(s, keep)
  {
    assert (s + [last])[..|s|] == s;
    assert Only(s, keep) + [] == Only(s, keep);
  }

  lemma FirstMetLast(out: seq<ModId>, s: seq<ModId>, last: ModId)
    ensures var r := FirstMet(out, s); FirstMet(out, s + [last]) == if last in r then r else r + [last]
  {
    assert (s + [last])[..|s|] == s;
  }

  lemma {:induction false} OnlyFirstMet(s: seq<ModId>, keep: set<ModId>)
    ensures Only(FirstMet([], s), keep) == FirstMet([], Only(s, keep))
  {
    if s != [] {
      hide Only, FirstMet;
      var init, last := s[..|s|-1], s[|s|-1];
      var r := FirstMet([], init);
      assert s == init + [last];
      OnlyFirstMet(init, keep);
      OnlyMembers(r, keep);
      OnlyLast(init, last, keep);
      OnlyLast(r, last, keep);
      FirstMetLast([], init, last);
      FirstMetLast([], Only(init, keep), last);
    } else {
      assert FirstMet([], s) == [];
    }
  }

  /** What `shallow_dedupe_sorted` puts out is what `flatten_dedupe_sorted` puts out, without the modules
      that are no direct dependencies. */
  lemma ShallowIsFilteredFlat(g: Graph, deps: seq<ModId>, direct: set<ModId>)
    requires Acyclic(g) && InGraph(g, deps)
    ensures var all := VisitsOfAll(g, deps, RankBound(g, deps));
            FirstMet([], Only(all, direct)) == Only(FirstMet([], all), direct)
  {
    OnlyFirstMet(VisitsOfAll(g, deps, RankBound(g, deps)), direct);
  }

  ghost predicate Distinct(s: seq<ModId>) {
    forall i, j :: 0 <= i < j < |s| ==> s[i] != s[j]
  }

  lemma {:induction false} FirstMetDistinct(out: seq<ModId>, s: seq<ModId>)
    requires Distinct(out)
    ensures Distinct(FirstMet(out, s))
  {
    if s == [] {
    } else {
      FirstMetDistinct(out, s[..|s|-1]);
    }
  }

  /** Everything a listed module depends on is listed before it. */
  ghost predicate DependenciesFirst(g: Graph, s: seq<ModId>) {
    forall i, b :: 0 <= i < |s| && DependsOn(g, s[i], b) ==> b in s[..i]
  }

  /** Every module of `keep` that a listed module depends on is listed before it. */
  ghost predicate KeptDependenciesFirst(g: Graph, s: seq<ModId>, keep: set<ModId>) {
    forall i, b :: 0 <= i < |s| && b in keep && DependsOn(g, s[i], b) ==> b in s[..i]
  }

  ghost predicate DirectFirst(g: Graph, s: seq<ModId>)
    requires InGraph(g, s)
  {
    forall i, d :: 0 <= i < |s| && d in g[s[i]] ==> d in s[..i]
  }

  lemma {:induction false} VisitsAreDirectFirst(g: Graph, m: ModId)
    requires Acyclic(g) && m < |g|
    ensures InGraph(g, Visits(g, m)) && DirectFirst(g, Visits(g, m)) && m in Visits(g, m)
    decreases Rank(g, m), 1, 0
  {
    RanksDrop(g, m);
    AllVisitsAreDirectFirst(g, g[m], Rank(g, m));
    var v := VisitsOfAll(g, g[m], Rank(g, m));
    forall i, d | 0 <= i < |v + [m]| && d in g[(v + [m])[i]] ensures d in (v + [m])[..i] {
      assert (v + [m])[..i] == v[..i];
    }
  }

  lemma {:induction false} AllVisitsAreDirectFirst(g: Graph, ms: seq<ModId>, bound: nat)
    requires Acyclic(g) && Within(g, ms, bound)
    ensures var v := VisitsOfAll(g, ms, bound);
            InGraph(g, v) && DirectFirst(g, v) && forall m :: m in ms ==> m in v
    decreases bound, 0, |ms|
  {
    if ms == [] {
    } else {
      var init, last := ms[..|ms|-1], ms[|ms|-1];
      AllVisitsAreDirectFirst(g, init, bound);
      VisitsAreDirectFirst(g, last);
      var v, w := VisitsOfAll(g, init, bound), Visits(g, last);
      DirectFirstConcat(g, v, w);
      assert ms == init + [last];
    }
  }

  lemma DirectFirstConcat(g: Graph, v: seq<ModId>, w: seq<ModId>)
    requires InGraph(g, v) && InGraph(g, w) && DirectFirst(g, v) && DirectFirst(g, w)
    ensures InGraph(g, v + w) && DirectFirst(g, v + w)
  {
    forall i, d | 0 <= i < |v + w| && d in g[(v + w)[i]] ensures d in (v + w)[..i] {
      if i < |v| {
        assert (v + w)[..i] == v[..i];
      } else {
        assert (v + w)[..i] == v + w[..i - |v|];
      }
    }
  }

  lemma {:induction false} DirectFirstIsTransitive(g: Graph, s: seq<ModId>, i: nat, b: ModId)
    requires ValidGraph(g) && InGraph(g, s) && DirectFirst(g, s) && i < |s| && DependsOn(g, s[i], b)
    ensures b in s[..i]
    decreases i
  {
    var d := DependencyStep(g, s[i], b);
    assert d in s[..i];
    if d == b {
    } else {
      var j :| 0 <= j < i && s[j] == d;
      DirectFirstIsTransitive(g, s, j, b);
      assert s[..j] <= s[..i];
    }
  }

  lemma OrderOfInit(g: Graph, init: seq<ModId>, last: ModId)
    requires DependenciesFirst(g, init + [last])
    ensures DependenciesFirst(g, init)
    ensures forall b :: DependsOn(g, last, b) ==> b in init
  {
    var s := init + [last];
    assert s[..|init|] == init && s[|init|] == last;
    forall i, b | 0 <= i < |init| && DependsOn(g, init[i], b) ensures b in init[..i] {
      assert init[i] == s[i] && init[..i] == s[..i];
    }
  }

  lemma OrderWithLast(g: Graph, r: seq<ModId>, last: ModId, keep: set<ModId>)
    requires KeptDependenciesFirst(g, r, keep)
    requires forall b :: b in keep && DependsOn(g, last, b) ==> b in r
    ensures KeptDependenciesFirst(g, r + [last], keep)
  {
    forall i, b | 0 <= i < |r + [last]| && b in keep && DependsOn(g, (r + [last])[i], b)
      ensures b in (r + [last])[..i]
    {
      assert (r + [last])[..i] == r[..i];
    }
  }

  lemma {:induction false} FirstMetKeepsOrder(g: Graph, s: seq<ModId>)
    requires DependenciesFirst(g, s)
    ensures DependenciesFirst(g, FirstMet([], s))
  {
    if s == [] {
    } else {
      var init, last := s[..|s|-1], s[|s|-1];
      assert s == init + [last];
      OrderOfInit(g, init, last);
      FirstMetKeepsOrder(g, init);
      FirstMetMembers([], init);
      var r := FirstMet([], init);
      forall i, b | 0 <= i < |r + [last]| && DependsOn(g, (r + [last])[i], b) ensures b in (r + [last])[..i] {
        assert (r + [last])[..i] == r[..i];
      }
    }
  }

  lemma {:induction false} OnlyKeepsOrder(g: Graph, s: seq<ModId>, keep: set<ModId>)
    requires DependenciesFirst(g, s)
    ensures KeptDependenciesFirst(g, Only(s, keep), keep)
  {
    if s == [] {
    } else {
      var init, last := s[..|s|-1], s[|s|-1];
      assert s == init + [last];
      OrderOfInit(g, init, last);
      OnlyKeepsOrder(g, init, keep);
      OnlyMembers(init, keep);
      OnlyLast(init, last, keep);
      hide Only;
      if last in keep {
        OrderWithLast(g, Only(init, keep), last, keep);
      }
    }
  }

  /** The order of `flatten_dedupe_sorted`: the given modules and all they depend on, once each, every
      module after everything it depends on. */
  lemma FlatOrder(g: Graph, modules: seq<ModId>)
    requires Acyclic(g) && InGraph(g, modules)
    ensures var flat := FirstMet([], VisitsOfAll(g, modules, RankBound(g, modules)));
            && Distinct(flat)
            && (forall m :: m in flat <==> m in modules || exists r :: r in modules && DependsOn(g, r, m))
            && DependenciesFirst(g, flat)
  {
    var bound := RankBound(g, modules);
    var all := VisitsOfAll(g, modules, bound);
    AllVisitsAreDirectFirst(g, modules, bound);
    forall i, b | 0 <= i < |all| && DependsOn(g, all[i], b) ensures b in all[..i] {
      DirectFirstIsTransitive(g, all, i, b);
    }
    FirstMetKeepsOrder(g, all);
    FirstMetDistinct([], all);
    FirstMetMembers([], all);
    AllVisited(g, modules, bound);
  }

  lemma {:induction false} AllVisited(g: Graph, ms: seq<ModId>, bound: nat)
    requires Acyclic(g) && Within(g, ms, bound)
    ensures forall m :: m in VisitsOfAll(g, ms, bound) <==> m in ms || exists r :: r in ms && DependsOn(g, r, m)
    decreases bound, 0, |ms|
  {
    if ms == [] {
    } else {
      var init, last := ms[..|ms|-1], ms[|ms|-1];
      AllVisited(g, init, bound);
      Visited(g, last);
      assert ms == init + [last];
    }
  }

  lemma {:induction false} Visited(g: Graph, m: ModId)
    requires Acyclic(g) && m < |g|
    ensures forall x :: x in Visits(g, m) <==> x == m || DependsOn(g, m, x)
    decreases Rank(g, m), 1, 0
  {
    RanksDrop(g, m);
    AllVisited(g, g[m], Rank(g, m));
    forall x ensures x in Visits(g, m) <==> x == m || DependsOn(g, m, x) {
      if x in g[m] {
        DirectDependency(g, m, x);
      } else if r :| r in g[m] && DependsOn(g, r, x) {
        ThroughDirect(g, m, r, x);
      } else if DependsOn(g, m, x) {
        var d := DependencyStep(g, m, x);
      }
    }
  }

  // ---------------------------------------------------------------- which of two modules comes first

  /** The modules of `s` that are not in `out`, in their order. */
  ghost function New(s: seq<ModId>, out: seq<ModId>): seq<ModId> {
    if s == [] then [] else New(s[..|s|-1], out) + if s[|s|-1] in out then [] else [s[|s|-1]]
  }

  /** The result of `flatten_dedupe_sorted`. */
  ghost function Flattened(g: Graph, modules: seq<ModId>): seq<ModId>
    requires Acyclic(g) && InGraph(g, modules)
  {
    FirstMet([], VisitsOfAll(g, modules, RankBound(g, modules)))
  }

  lemma {:induction false} FirstMetIsNew(out: seq<ModId>, s: seq<ModId>)
    ensures FirstMet(out, s) == out + New(FirstMet([], s), out)
  {
    FirstMetMembers([], s);
    if s == [] {
    } else {
      var before, last := s[..|s|-1], s[|s|-1];
      FirstMetIsNew(out, before);
      FirstMetMembers([], before);
      FirstMetMembers(out, before);
      var q := FirstMet([], before);
      assert (q + [last])[..|q|] == q;
    }
  }

  /** The bound is there for the walk to end. */
  lemma {:induction false} BoundsAlike(g: Graph, ms: seq<ModId>, a: nat, b: nat)
    requires Acyclic(g) && Within(g, ms, a) && Within(g, ms, b)
    ensures VisitsOfAll(g, ms, a) == VisitsOfAll(g, ms, b)
    decreases |ms|
  {
    if ms == [] {
    } else {
      BoundsAlike(g, ms[..|ms|-1], a, b);
    }
  }

  /** The modules are put out in the order of the lists: first those that the modules given first need, and
      behind them what a further one adds; and for one module what its dependencies need, in the order of
      their list, and then the module.  With the empty list this determines the order for every graph. */
  lemma FlatLaw(g: Graph, modules: seq<ModId>, m: ModId)
    requires Acyclic(g) && InGraph(g, modules) && m < |g|
    ensures InGraph(g, modules + [m]) && InGraph(g, [m]) && InGraph(g, g[m])
    ensures Flattened(g, []) == []
    ensures Flattened(g, modules + [m])
            == Flattened(g, modules) + New(Flattened(g, [m]), Flattened(g, modules))
    ensures Flattened(g, [m]) == Flattened(g, g[m]) + [m]
  {
    RanksDrop(g, m);
    var more := modules + [m];
    assert more[..|modules|] == modules && [m][..0] == [];
    BoundsAlike(g, modules, RankBound(g, modules), RankBound(g, more));
    FirstMetConcat([], VisitsOfAll(g, modules, RankBound(g, more)), Visits(g, m));
    FirstMetIsNew(Flattened(g, modules), Visits(g, m));
    assert VisitsOfAll(g, [m], RankBound(g, [m])) == Visits(g, m);
    FlatOne(g, m);
  }

  lemma FlatOne(g: Graph, m: ModId)
    requires Acyclic(g) && m < |g| && InGraph(g, g[m])
    ensures FirstMet([], Visits(g, m)) == Flattened(g, g[m]) + [m]
  {
    RanksDrop(g, m);
    BoundsAlike(g, g[m], Rank(g, m), RankBound(g, g[m]));
    FirstMetConcat([], VisitsOfAll(g, g[m], Rank(g, m)), [m]);
    assert [m][..0] == [];
    AllVisited(g, g[m], Rank(g, m));
    FirstMetMembers([], VisitsOfAll(g, g[m], Rank(g, m)));
    if m in g[m] {
      DirectDependency(g, m, m);
    } else if r :| r in g[m] && DependsOn(g, r, m) {
      ThroughDirect(g, m, r, m);
    }
  }

  /** The order of `shallow_dedupe_sorted`: the direct dependencies, once each, every one after the other
      direct dependencies it needs, directly or not. */
  lemma ShallowOrder(g: Graph, deps: seq<ModId>, direct: set<ModId>)
    requires Acyclic(g) && InGraph(g, deps) && direct == set m | m in deps
    ensures var out := FirstMet([], Only(VisitsOfAll(g, deps, RankBound(g, deps)), direct));
            && Distinct(out)
            && (forall m :: m in out <==> m in deps)
            && KeptDependenciesFirst(g, out, direct)
  {
    hide FirstMet, Only, VisitsOfAll, RankBound;
    var flat := FirstMet([], VisitsOfAll(g, deps, RankBound(g, deps)));
    FlatOrder(g, deps);
    ShallowIsFilteredFlat(g, deps, direct);
    OnlyMembers(flat, direct);
    OnlyKeepsOrder(g, flat, direct);
    FirstMetDistinct([], Only(VisitsOfAll(g, deps, RankBound(g, deps)), direct));
  }
}
