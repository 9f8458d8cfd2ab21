/** Dirty modules of the language server: what makes them dirty, who has to be processed again, and the
    pass that resolves the dependencies of a module. */
module ModuleResolution {
  import opened ModuleGraph
  import opened ModuleOrder

  type Path = string

  class Workspace {
    const g: Graph
    /** The dirty files of every module that ever had one. */
    var dirtyFiles: map<ModId, set<Path>>
    /** The modules whose symbols have been resolved at least once. */
    var resolvedOnce: set<ModId>
    var dirtyModules: set<ModId>
    /** The modules whose signatures were resolved, in order. */
    ghost var resolutions: seq<ModId>

    constructor (g: Graph)
      ensures this.g == g && dirtyModules == {} && resolvedOnce == {} && resolutions == [] && Valid()
    {
      this.g := g;
      dirtyFiles, resolvedOnce, dirtyModules, resolutions := map[], {}, {}, [];
    }

    function DirtyFiles(m: ModId): set<Path>
      reads this
    { if m in dirtyFiles then dirtyFiles[m] else {} }

    /** A module is listed as dirty exactly if it has a dirty file. */
    ghost predicate Valid()
      reads this
    { forall m :: m in dirtyModules <==> DirtyFiles(m) != {} }

    predicate CompletelyResolved(m: ModId)
      reads this
    { m in resolvedOnce && DirtyFiles(m) == {} }

    /** The one dirty file replaces any other the module had. */
    method MakeModuleDirty(m: ModId, file: Path)
      requires Valid()
      modifies this
      ensures Valid() && DirtyFiles(m) == {file} && dirtyModules == old(dirtyModules) + {m}
      ensures forall x :: x != m ==> DirtyFiles(x) == old(DirtyFiles(x))
      ensures resolvedOnce == old(resolvedOnce) && resolutions == old(resolutions)
    {
      dirtyFiles := dirtyFiles[m := {file}];
      dirtyModules := dirtyModules + {m};
    }

    method UnmakeModuleDirty(m: ModId)
      requires Valid()
      modifies this
      ensures Valid() && DirtyFiles(m) == {} && dirtyModules == old(dirtyModules) - {m}
      ensures forall x :: x != m ==> DirtyFiles(x) == old(DirtyFiles(x))
      ensures resolvedOnce == old(resolvedOnce) + {m} && resolutions == old(resolutions)
    {
      resolvedOnce := resolvedOnce + {m};
      dirtyFiles := dirtyFiles[m := {}];
      dirtyModules := dirtyModules - {m};
    }

    /** Resolving the signatures of a module ends with the module clean. */
    method SymResModSig(m: ModId)
      requires Valid()
      modifies this
      ensures Valid() && DirtyFiles(m) == {} && dirtyModules == old(dirtyModules) - {m}
      ensures forall x :: x != m ==> DirtyFiles(x) == old(DirtyFiles(x))
      ensures resolvedOnce == old(resolvedOnce) + {m} && resolutions == old(resolutions) + [m]
    {
      UnmakeModuleDirty(m);
      resolutions := resolutions + [m];
    }

    // ---------------------------------------------------------------- the resolution pass

    /** Where in `flat` the pass starts to resolve: at the first module not completely resolved, or at
        once when the flag is already set. */
    ghost function PassStart(flat: seq<ModId>, flag: bool): (k: nat)
      reads this
      ensures k <= |flat|
      ensures forall i :: 0 <= i < k ==> flat[i] in resolvedOnce && DirtyFiles(flat[i]) == {}
      ensures flag ==> k == 0
      ensures !flag && k < |flat| ==> flat[k] !in resolvedOnce || DirtyFiles(flat[k]) != {}
    {
      PassStartFrom(flat, flag, 0)
    }

    ghost function PassStartFrom(flat: seq<ModId>, flag: bool, i: nat): (k: nat)
      requires i <= |flat|
      reads this
      ensures i <= k <= |flat|
      ensures forall j :: i <= j < k ==> CompletelyResolved(flat[j])
      ensures flag ==> k == i
      ensures !flag && k < |flat| ==> !CompletelyResolved(flat[k])
      decreases |flat| - i
    {
      if i == |flat| || flag || !CompletelyResolved(flat[i]) then i else PassStartFrom(flat, flag, i + 1)
    }

    /** Everything from the starting point on is resolved, in order; what lies before it was resolved
        already.  The flag tells whether anything was, or was to be, resolved. */
    method SymResModDepsSeq(m: ModId, isDepsBeingResolved: bool) returns (flag: bool)
      requires Valid() && Acyclic(g) && m < |g|
      modifies this
      ensures Valid()
      ensures var flat := Flat(g, m); var k := old(PassStart(flat, isDepsBeingResolved));
              resolutions == old(resolutions) + flat[k..] && flag == (isDepsBeingResolved || k < |flat|)
      ensures forall x :: DependsOn(g, m, x) ==> x in resolvedOnce && DirtyFiles(x) == {} && x !in dirtyModules
      ensures forall x :: DependsOn(g, m, x) && (x !in old(resolvedOnce) || old(DirtyFiles(x)) != {})
                ==> flag && x in resolutions[|old(resolutions)|..]
      ensures forall x :: !DependsOn(g, m, x) ==> DirtyFiles(x) == old(DirtyFiles(x))
      ensures forall x :: !DependsOn(g, m, x) ==> (x in resolvedOnce <==> x in old(resolvedOnce))
    {
      RanksDrop(g, m);
      var flattened := FlattenDedupeSorted(g, g[m]);
      FlatMembers(g, m);
      hide FirstMet, VisitsOfAll, RankBound;
      flag := ResolveListed(flattened, isDepsBeingResolved);
    }

    /** The loop of the pass. */
    method ResolveListed(flattened: seq<ModId>, isDepsBeingResolved: bool) returns (flag: bool)
      requires Valid()
      modifies this
      ensures Valid()
      ensures var k := old(PassStart(flattened, isDepsBeingResolved));
              resolutions == old(resolutions) + flattened[k..] && flag == (isDepsBeingResolved || k < |flattened|)
      ensures forall x :: x in flattened ==> x in resolvedOnce && DirtyFiles(x) == {}
      ensures forall x :: x in flattened && (x !in old(resolvedOnce) || old(DirtyFiles(x)) != {})
                ==> flag && x in resolutions[|old(resolutions)|..]
      ensures forall x :: x !in flattened ==> DirtyFiles(x) == old(DirtyFiles(x))
      ensures forall x :: x !in flattened ==> (x in resolvedOnce <==> x in old(resolvedOnce))
    {
      flag := isDepsBeingResolved;
      ghost var k := PassStart(flattened, flag);
      ghost var done := [];
      for i := 0 to |flattened|
        invariant Valid()
        invariant flag == (isDepsBeingResolved || k < i)
        invariant done == if i <= k then [] else flattened[k..i]
        invariant ResolvedSoFar(old(resolutions), done)
        invariant forall x :: x !in done ==> DirtyFiles(x) == old(DirtyFiles(x))
        invariant forall x :: x !in done ==> (x in resolvedOnce <==> x in old(resolvedOnce))
      {
        var mod := flattened[i];
        if !flag && !CompletelyResolved(mod) {
          flag := true;
        }
        if flag {
          SymResModSig(mod);
          done := done + [mod];
        }
      }
      assert done == flattened[k..];
      assert flattened == flattened[..k] + flattened[k..];
    }

    ghost predicate ResolvedSoFar(before: seq<ModId>, done: seq<ModId>)
      reads this
    {
      resolutions == before + done && forall x :: x in done ==> CompletelyResolved(x)
    }

    // ---------------------------------------------------------------- who has to be processed

    /** The walk over the dirty modules, in whatever order the set yields them. */
    method ShouldProcessFile(path: Path, m: ModId) returns (should: bool)
      requires Valid() && Acyclic(g) && m < |g|
      ensures should <==> (m in dirtyModules && exists f :: f in DirtyFiles(m) && f != path)
                          || exists d :: d in dirtyModules && DependsOn(g, m, d)
    {
      if dirtyModules == {} {
        return false;
      }
      RanksDrop(g, m);
      var rest := dirtyModules;
      while rest != {}
        invariant rest <= dirtyModules
        invariant forall d :: d in dirtyModules - rest ==> !DependsOn(g, m, d)
        invariant m in dirtyModules - rest ==> forall f :: f in DirtyFiles(m) ==> f == path
        decreases rest
      {
        var dirtyMod :| dirtyMod in rest;
        if dirtyMod == m {
          var files := DirtyFiles(m);
          if |files| == 1 {
            var f :| f in files;
            OnlyElement(files, f);
            if f == path {
              if |dirtyModules| == 1 {
                OnlyElement(dirtyModules, m);
                return false;
              }
            } else {
              return true;
            }
          } else if |files| > 1 {
            AnotherElement(files, path);
            return true;
          }
        } else {
          var found := ExistsInDeps(g, g[m], dirtyMod, Rank(g, m));
          DependsThroughDirect(g, m, dirtyMod);
          if found {
            return true;
          }
        }
        rest := rest - {dirtyMod};
      }
      return false;
    }
  }

  /** All dependencies of `m`, in the order of `flatten_dedupe_sorted`. */
  ghost function Flat(g: Graph, m: ModId): seq<ModId>
    requires Acyclic(g) && m < |g|
  {
    RanksDrop(g, m);
    Flattened(g, g[m])
  }

  lemma FlatMembers(g: Graph, m: ModId)
    requires Acyclic(g) && m < |g|
    ensures forall x :: x in Flat(g, m) <==> DependsOn(g, m, x)
    ensures DependenciesFirst(g, Flat(g, m)) && Distinct(Flat(g, m))
  {
    RanksDrop(g, m);
    FlatOrder(g, g[m]);
    forall x ensures x in Flat(g, m) <==> DependsOn(g, m, x) {
      DependsThroughDirect(g, m, x);
    }
  }

  /** What stands before an element of a tail stands before it in the tail, or before the tail. */
  lemma BeforeInTail(flat: seq<ModId>, k: nat, i: nat, b: ModId)
    requires k + i < |flat| && b in flat[..k + i]
    ensures b in flat[k..][..i] || b in flat[..k]
  {
    assert flat[..k + i] == flat[..k] + flat[k..][..i];
  }

  lemma DependentBehind(g: Graph, flat: seq<ModId>, i: nat, a: ModId)
    requires DependenciesFirst(g, flat) && Distinct(flat) && i < |flat|
    requires a in flat && DependsOn(g, a, flat[i])
    ensures a in flat[i + 1..]
  {
    hide DependsOn;
    var j :| 0 <= j < |flat| && flat[j] == a;
    assert flat[i] in flat[..j];
    var l :| 0 <= l < j && flat[l] == flat[i];
    assert l == i;
    assert flat[i + 1..][j - i - 1] == a;
  }

  /** `done` is what the pass for `m` resolves when it starts at `k`.  When a module is resolved, each of
      its dependencies has been resolved or lies before the starting point; every listed module that
      depends on it is resolved again, later; and no module is resolved twice. */
  lemma ResolvedInOrder(g: Graph, m: ModId, k: nat, done: seq<ModId>, i: nat)
    requires Acyclic(g) && m < |g| && k <= |Flat(g, m)| && done == Flat(g, m)[k..] && i < |done|
    ensures forall b :: DependsOn(g, done[i], b) ==> b in done[..i] || b in Flat(g, m)[..k]
    ensures forall a :: DependsOn(g, m, a) && DependsOn(g, a, done[i]) ==> a in done[i + 1..]
    ensures done[i] !in done[..i] && done[i] !in Flat(g, m)[..k]
  {
    FlatMembers(g, m);
    var flat := Flat(g, m);
    hide Flat, DependsOn;
    assert done[i] == flat[k + i];
    forall b | DependsOn(g, done[i], b) ensures b in done[..i] || b in flat[..k] {
      BeforeInTail(flat, k, i, b);
    }
    forall a | DependsOn(g, m, a) && DependsOn(g, a, done[i]) ensures a in done[i + 1..] {
      DependentBehind(g, flat, k + i, a);
      assert done[i + 1..] == flat[k + i + 1..];
    }
  }

  lemma OnlyElement<T>(s: set<T>, x: T)
    requires |s| == 1 && x in s
    ensures s == {x}
  {
    assert |s - {x}| == 0;
  }

  lemma AnotherElement(s: set<Path>, x: Path)
    requires |s| > 1
    ensures exists f :: f in s && f != x
  {
    assert |s - {x}| >= |s| - 1;
    var f :| f in s - {x};
  }

  lemma DependsThroughDirect(g: Graph, m: ModId, x: ModId)
    requires Acyclic(g) && m < |g|
    ensures DependsOn(g, m, x) <==> x in g[m] || exists d :: d in g[m] && DependsOn(g, d, x)
  {
    if x in g[m] {
      DirectDependency(g, m, x);
    } else if d :| d in g[m] && DependsOn(g, d, x) {
      ThroughDirect(g, m, d, x);
    } else if DependsOn(g, m, x) {
      var d := DependencyStep(g, m, x);
    }
  }
}
