/** The concurrent recursive import of the lab processor: pool tasks claim files in a cache guarded by a
    mutex, push one task for every file they were first to claim, and count down `outstanding`; the
    decrement that reads 1 fulfils the completion promise.

    Every agent (the caller and each pool task) is deterministic on its own, so a run is a schedule: the
    sequence of the agents that take the next step.  A step is one access to shared state: a lookup and
    insert under the import mutex, an atomic operation on the counter, one push to the pool, or one
    `set_value` on the promise. */
module ConcurrentImport {

  type FileId = nat

  /** What reading, parsing and resolving the imports of a file comes to. */
  datatype Outcome = ReadFailed | ImportsUnresolved | Imported(imports: seq<FileId>)

  /** The outcome of every file; a file id is an index.  Cycles are allowed. */
  type Graph = seq<Outcome>

  ghost predicate ClosedGraph(g: Graph) {
    forall f, x :: 0 <= f < |g| && g[f].Imported? && x in g[f].imports ==> x < |g|
  }

  // ---------------------------------------------------------------- the shared counters

  /** The fields of `ConcurrentParsingState`; `fulfilled` counts the calls of `set_value`. */
  datatype Counters = Counters(outstanding: int, fulfilled: nat, hasErrors: bool) {
    function Pushed(): Counters { this.(outstanding := outstanding + 1) }
    function Subtracted(): Counters { this.(outstanding := outstanding - 1) }
    function Fulfilled(): Counters { this.(fulfilled := fulfilled + 1) }
    function Failed(): Counters { this.(hasErrors := true) }
  }

  class ConcurrentParsingState {
    var outstanding: int
    var fulfilled: nat
    var hasErrors: bool

    function Value(): Counters
      reads this
    { Counters(outstanding, fulfilled, hasErrors) }

    constructor ()
      ensures Value() == Counters(0, 0, false)
    {
      outstanding, fulfilled, hasErrors := 0, 0, false;
    }

    method PushedTask()
      modifies this
      ensures Value() == old(Value()).Pushed()
    {
      outstanding := outstanding + 1;
    }

    /** The decrement and the conditional `set_value`; other agents may run between the two, which the
        step system below allows by giving each its own step. */
    method DoneTask()
      modifies this
      ensures Value() == if old(outstanding) == 1 then old(Value()).Subtracted().Fulfilled()
                                                  else old(Value()).Subtracted()
    {
      var before := outstanding;
      outstanding := outstanding - 1;
      if before == 1 {
        fulfilled := fulfilled + 1;
      }
    }

    method SetHasErrors()
      modifies this
      ensures Value() == old(Value()).Failed()
    {
      hasErrors := true;
    }
  }

  // ---------------------------------------------------------------- the step system

  /** Where an agent stands.  `Importing` is the head of the loop over the files still to be looked at;
      `Claimed` has inserted `file` into the cache but not yet counted its task; `Counted` has counted
      it but not yet pushed it; `Fulfilling` has read 1 in `fetch_sub` and will call `set_value`. */
  datatype Phase =
    | Queued
    | Importing(todo: seq<FileId>)
    | Claimed(file: FileId, todo: seq<FileId>)
    | Counted(file: FileId, todo: seq<FileId>)
    | Finishing
    | Fulfilling
    | Finished

  datatype Agent = Caller(phase: Phase) | Task(id: FileId, phase: Phase)

  datatype State = State(agents: seq<Agent>, cache: set<FileId>, ctr: Counters)

  /** `cached` are the files the cache holds before the import.  `held` says whether the caller keeps a
      count of its own while it pushes the root files and gives it back through `done_task` at the end. */
  datatype Config = Config(g: Graph, roots: seq<FileId>, cached: set<FileId>, held: bool)

  ghost predicate ValidConfig(c: Config) {
    ClosedGraph(c.g) && forall r :: r in c.roots ==> r < |c.g|
  }

  function Init(c: Config): State {
    State([Caller(Importing(c.roots))], c.cached, Counters(if c.held then 1 else 0, 0, false))
  }

  datatype Effect = Effect(phase: Phase, cache: set<FileId>, ctr: Counters, spawned: seq<Agent>)

  /** The next step of one agent. */
  function Act(c: Config, a: Agent, cache: set<FileId>, ctr: Counters): Effect
    requires InRange(c, a)
  {
    match a.phase
    case Queued =>
      if a.Task? && c.g[a.id].Imported? then Effect(Importing(c.g[a.id].imports), cache, ctr, [])
      else Effect(Finishing, cache, ctr.Failed(), [])
    case Importing(todo) =>
      if todo == [] then
        Effect(if a.Task? || c.held then Finishing else Finished, cache, ctr, [])
      else if todo[0] in cache then
        Effect(Importing(todo[1..]), cache, ctr, [])
      else
        Effect(Claimed(todo[0], todo[1..]), cache + {todo[0]}, ctr, [])
    case Claimed(f, rest) => Effect(Counted(f, rest), cache, ctr.Pushed(), [])
    case Counted(f, rest) => Effect(Importing(rest), cache, ctr, [Task(f, Queued)])
    case Finishing =>
      Effect(if ctr.outstanding == 1 then Fulfilling else Finished, cache, ctr.Subtracted(), [])
    case Fulfilling => Effect(Finished, cache, ctr.Fulfilled(), [])
    case Finished => Effect(Finished, cache, ctr, [])
  }

  ghost predicate InRange(c: Config, a: Agent) { a.Task? ==> a.id < |c.g| }

  ghost predicate IdsInRange(c: Config, s: State) {
    forall i :: 0 <= i < |s.agents| ==> InRange(c, s.agents[i])
  }

  ghost predicate Enabled(s: State, i: nat) {
    i < |s.agents| && !s.agents[i].phase.Finished?
  }

  ghost function Next(c: Config, s: State, i: nat): State
    requires IdsInRange(c, s) && Enabled(s, i)
  {
    var e := Act(c, s.agents[i], s.cache, s.ctr);
    State(s.agents[i := s.agents[i].(phase := e.phase)] + e.spawned, e.cache, e.ctr)
  }

  /** `t` is the state after the agents named by `schedule` took their steps, in that order. */
  ghost predicate Runs(c: Config, s: State, schedule: seq<nat>, t: State)
    decreases |schedule|
  {
    if schedule == [] then s == t
    else IdsInRange(c, s) && Enabled(s, schedule[0]) && Runs(c, Next(c, s, schedule[0]), schedule[1..], t)
  }

  ghost predicate Quiescent(s: State) {
    forall i :: 0 <= i < |s.agents| ==> s.agents[i].phase.Finished?
  }

  // ---------------------------------------------------------------- weighted sums over agents

  ghost function Sum(agents: seq<Agent>, w: Agent -> nat): nat {
    if agents == [] then 0 else Sum(agents[..|agents|-1], w) + w(agents[|agents|-1])
  }

  lemma {:induction false} SumUpdate(agents: seq<Agent>, i: nat, a: Agent, w: Agent -> nat)
    requires i < |agents|
    ensures Sum(agents[i := a], w) == Sum(agents, w) - w(agents[i]) + w(a)
  {
    var n := |agents| - 1;
    if i == n {
      assert agents[i := a][..n] == agents[..n];
    } else {
      assert agents[i := a][..n] == agents[..n][i := a];
      SumUpdate(agents[..n], i, a, w);
    }
  }

  lemma SumAppend(agents: seq<Agent>, more: seq<Agent>, w: Agent -> nat)
    requires |more| <= 1
    ensures Sum(agents + more, w) == Sum(agents, w) + if more == [] then 0 else w(more[0])
  {
    if more == [] {
      assert agents + more == agents;
    } else {
      assert (agents + more)[..|agents|] == agents;
    }
  }

  lemma {:induction false} SumPart(agents: seq<Agent>, i: nat, w: Agent -> nat)
    requires i < |agents|
    ensures w(agents[i]) <= Sum(agents, w)
  {
    if i == |agents| - 1 {
    } else {
      SumPart(agents[..|agents|-1], i, w);
    }
  }

  lemma {:induction false} SumTwoParts(agents: seq<Agent>, i: nat, j: nat, w: Agent -> nat)
    requires i < j < |agents|
    ensures w(agents[i]) + w(agents[j]) <= Sum(agents, w)
  {
    if j == |agents| - 1 {
      SumPart(agents[..j], i, w);
    } else {
      SumTwoParts(agents[..|agents|-1], i, j, w);
    }
  }

  lemma {:induction false} SumZero(agents: seq<Agent>, w: Agent -> nat)
    requires forall i :: 0 <= i < |agents| ==> w(agents[i]) == 0
    ensures Sum(agents, w) == 0
  {
    if agents == [] {
    } else {
      SumZero(agents[..|agents|-1], w);
    }
  }

  /** How a step changes any weighted sum. */
  lemma SumStep(c: Config, s: State, i: nat, w: Agent -> nat)
    requires IdsInRange(c, s) && Enabled(s, i)
    ensures var e := Act(c, s.agents[i], s.cache, s.ctr);
            Sum(Next(c, s, i).agents, w)
            == Sum(s.agents, w) - w(s.agents[i]) + w(s.agents[i].(phase := e.phase))
               + if e.spawned == [] then 0 else w(e.spawned[0])
  {
    var e := Act(c, s.agents[i], s.cache, s.ctr);
    var a := s.agents[i].(phase := e.phase);
    SumUpdate(s.agents, i, a, w);
    SumAppend(s.agents[i := a], e.spawned, w);
  }

  // ---------------------------------------------------------------- the weights

  function Bit(b: bool): nat { if b then 1 else 0 }

  ghost predicate Holds(a: Agent, f: FileId) {
    (a.phase.Claimed? || a.phase.Counted?) && a.phase.file == f
  }

  /** Who stands for file `f`: its task, or the agent about to push its task. */
  ghost function OwnerWeight(f: FileId): Agent -> nat {
    (a: Agent) => Bit(a.Task? && a.id == f) + Bit(Holds(a, f))
  }

  /** Counted and not yet done: the tasks before their `fetch_sub`, a task counted but not yet pushed,
      and the count the caller holds. */
  ghost function CountWeight(held: bool): Agent -> nat {
    (a: Agent) => Bit((a.Task? || held) && !a.phase.Fulfilling? && !a.phase.Finished?)
                  + Bit(a.phase.Counted?)
  }

  ghost function FulfilWeight(): Agent -> nat { (a: Agent) => Bit(a.phase.Fulfilling?) }

  /** Steps left for a task on `f`, if everything it imports is already claimed. */
  ghost function Cost(g: Graph, f: FileId): nat {
    if f < |g| && g[f].Imported? then |g[f].imports| + 4 else 4
  }

  ghost function StepsLeft(g: Graph, a: Agent): nat {
    match a.phase
    case Queued => if a.Task? then Cost(g, a.id) else 4
    case Importing(todo) => |todo| + 3
    case Claimed(f, rest) => |rest| + 5 + Cost(g, f)
    case Counted(f, rest) => |rest| + 4 + Cost(g, f)
    case Finishing => 2
    case Fulfilling => 1
    case Finished => 0
  }

  ghost function StepWeight(g: Graph): Agent -> nat {
    (a: Agent) => StepsLeft(g, a)
  }

  /** Steps still to be paid for by files below `n` that nobody has claimed. */
  ghost function Unclaimed(g: Graph, cache: set<FileId>, n: nat): nat {
    if n == 0 then 0
    else Unclaimed(g, cache, n - 1) + if n - 1 in cache then 0 else Cost(g, n - 1) + 2
  }

  lemma {:induction false} UnclaimedDrops(g: Graph, cache: set<FileId>, f: FileId, n: nat)
    requires f !in cache
    ensures Unclaimed(g, cache + {f}, n) == Unclaimed(g, cache, n) - if f < n then Cost(g, f) + 2 else 0
  {
    if n == 0 {
    } else {
      UnclaimedDrops(g, cache, f, n - 1);
    }
  }

  ghost function Potential(c: Config, s: State): nat {
    Unclaimed(c.g, s.cache, |c.g|) + Sum(s.agents, StepWeight(c.g))
  }

  // ---------------------------------------------------------------- reachability and the invariant

  ghost predicate Imports(g: Graph, f: FileId) {
    f < |g| && g[f].Imported?
  }

  ghost predicate Link(g: Graph, p: seq<FileId>, k: nat)
    requires 0 < k < |p|
  {
    Imports(g, p[k-1]) && p[k] in g[p[k-1]].imports
  }

  /** A chain of files the cache did not hold before. */
  ghost predicate ImportPath(c: Config, p: seq<FileId>) {
    && p != []
    && (forall k :: 0 <= k < |p| ==> p[k] < |c.g| && p[k] !in c.cached)
    && (forall k :: 0 < k < |p| ==> Link(c.g, p, k))
  }

  /** `f` is a root, or is imported along a chain of files that imported successfully, none of them
      cached before. */
  ghost predicate Reachable(c: Config, f: FileId) {
    exists p :: ImportPath(c, p) && p[0] in c.roots && p[|p|-1] == f
  }

  lemma ReachableRoot(c: Config, f: FileId)
    requires ValidConfig(c) && f in c.roots && f !in c.cached
    ensures Reachable(c, f)
  {
    var p := [f];
    assert ImportPath(c, p) && p[0] in c.roots && p[|p|-1] == f;
  }

  lemma ReachableStep(c: Config, f: FileId, x: FileId)
    requires ValidConfig(c) && Reachable(c, f) && Imports(c.g, f) && x in c.g[f].imports && x !in c.cached
    ensures Reachable(c, x)
  {
    var p :| ImportPath(c, p) && p[0] in c.roots && p[|p|-1] == f;
    var q := p + [x];
    forall k | 0 < k < |q| ensures Link(c.g, q, k) {
      assert k < |p| ==> Link(c.g, p, k);
    }
    assert ImportPath(c, q) && q[0] in c.roots && q[|q|-1] == x;
  }

  /** The files an agent has to look at. */
  ghost function Listed(c: Config, a: Agent): seq<FileId> {
    if a.Caller? then c.roots
    else if Imports(c.g, a.id) then c.g[a.id].imports
    else []
  }

  ghost function Todo(p: Phase): seq<FileId> {
    if p.Importing? || p.Claimed? || p.Counted? then p.todo else []
  }

  ghost predicate AgentOk(c: Config, cache: set<FileId>, a: Agent) {
    && (a.Task? ==> a.id in cache - c.cached)
    && (a.Task? && !Imports(c.g, a.id) ==>
          !a.phase.Importing? && !a.phase.Claimed? && !a.phase.Counted?)
    && (a.Caller? ==> !a.phase.Queued? && (a.phase.Finishing? || a.phase.Fulfilling? ==> c.held))
    && (forall f :: f in Todo(a.phase) ==> f in Listed(c, a))
    && (a.phase.Claimed? || a.phase.Counted? ==> a.phase.file in cache - c.cached)
    && (!a.phase.Queued? ==> forall f :: f in Listed(c, a) ==> f in cache || f in Todo(a.phase))
  }

  ghost predicate FailureSeen(c: Config, a: Agent) {
    a.Task? && !a.phase.Queued? && !Imports(c.g, a.id)
  }

  ghost function FailureWeight(c: Config): Agent -> nat { (a: Agent) => Bit(FailureSeen(c, a)) }

  ghost predicate Inv(c: Config, s: State) {
    && s.agents != [] && c.cached <= s.cache
    && (forall i :: 0 <= i < |s.agents| ==> (s.agents[i].Caller? <==> i == 0))
    && (forall f :: f in s.cache - c.cached ==> f < |c.g| && Reachable(c, f))
    && (forall i :: 0 <= i < |s.agents| ==> AgentOk(c, s.cache, s.agents[i]))
    && (s.ctr.hasErrors <==> Sum(s.agents, FailureWeight(c)) > 0)
    && s.ctr.outstanding == Sum(s.agents, CountWeight(c.held))
    && (forall f :: Sum(s.agents, OwnerWeight(f)) == Bit(f in s.cache - c.cached))
  }

  lemma InitInv(c: Config)
    requires ValidConfig(c)
    ensures Inv(c, Init(c))
  {
    var s := Init(c);
    assert s.agents[..0] == [];
    assert Sum(s.agents, CountWeight(c.held)) == CountWeight(c.held)(s.agents[0]);
    assert Sum(s.agents, FailureWeight(c)) == FailureWeight(c)(s.agents[0]);
    forall f ensures Sum(s.agents, OwnerWeight(f)) == Bit(f in s.cache - c.cached) {
      assert Sum(s.agents, OwnerWeight(f)) == OwnerWeight(f)(s.agents[0]);
    }
  }

  lemma ActAgent(c: Config, a: Agent, cache: set<FileId>, ctr: Counters)
    requires AgentOk(c, cache, a) && InRange(c, a) && c.cached <= cache
    ensures var e := Act(c, a, cache, ctr);
            && cache <= e.cache && AgentOk(c, e.cache, a.(phase := e.phase))
            && (e.spawned != [] ==> |e.spawned| == 1 && e.spawned[0].Task? && AgentOk(c, e.cache, e.spawned[0]))
  {
    var e := Act(c, a, cache, ctr);
    assert forall f :: f in Todo(a.phase) ==> f in Todo(e.phase) || f in e.cache;
  }

  lemma AgentOkGrows(c: Config, cache: set<FileId>, larger: set<FileId>, a: Agent)
    requires AgentOk(c, cache, a) && cache <= larger
    ensures AgentOk(c, larger, a)
  {
  }

  lemma StepAgents(c: Config, s: State, i: nat)
    requires ValidConfig(c) && Inv(c, s) && Enabled(s, i)
    ensures var t := Next(c, s, i);
            && (forall j :: 0 <= j < |t.agents| ==> (t.agents[j].Caller? <==> j == 0))
            && (forall j :: 0 <= j < |t.agents| ==> AgentOk(c, t.cache, t.agents[j]))
  {
    assert AgentOk(c, s.cache, s.agents[i]) && InRange(c, s.agents[i]);
    hide Act, AgentOk;
    var t := Next(c, s, i);
    ActAgent(c, s.agents[i], s.cache, s.ctr);
    forall j | 0 <= j < |t.agents| ensures AgentOk(c, t.cache, t.agents[j]) {
      if j < |s.agents| && j != i {
        AgentOkGrows(c, s.cache, t.cache, s.agents[j]);
      }
    }
  }

  /** A step claims at most one file, which the agent has to look at. */
  lemma ActCache(c: Config, a: Agent, cache: set<FileId>, ctr: Counters)
    requires AgentOk(c, cache, a) && InRange(c, a)
    ensures var e := Act(c, a, cache, ctr);
            cache <= e.cache && forall f :: f in e.cache - cache ==> a.phase.Importing? && f in Listed(c, a)
  {
  }

  lemma StepCache(c: Config, s: State, i: nat)
    requires ValidConfig(c) && Inv(c, s) && Enabled(s, i)
    ensures c.cached <= Next(c, s, i).cache
    ensures forall f :: f in Next(c, s, i).cache - c.cached ==> f < |c.g| && Reachable(c, f)
  {
    hide Act;
    var a, t := s.agents[i], Next(c, s, i);
    assert AgentOk(c, s.cache, a);
    ActCache(c, a, s.cache, s.ctr);
    forall f | f in t.cache - c.cached ensures f < |c.g| && Reachable(c, f) {
      if f in s.cache {
        assert f in s.cache - c.cached;
      } else {
        assert f in t.cache - s.cache;
        if a.Caller? {
          ReachableRoot(c, f);
        } else {
          assert a.id in s.cache - c.cached;
          ReachableStep(c, a.id, f);
        }
      }
    }
  }

  lemma ActErrors(c: Config, a: Agent, cache: set<FileId>, ctr: Counters)
    requires AgentOk(c, cache, a) && InRange(c, a)
    ensures var e := Act(c, a, cache, ctr);
            && (FailureSeen(c, a) ==> FailureSeen(c, a.(phase := e.phase)))
            && (e.ctr.hasErrors <==> ctr.hasErrors || (!FailureSeen(c, a) && FailureSeen(c, a.(phase := e.phase))))
            && (e.spawned != [] ==> !FailureSeen(c, e.spawned[0]))
  {
  }

  lemma StepErrors(c: Config, s: State, i: nat)
    requires ValidConfig(c) && Inv(c, s) && Enabled(s, i)
    ensures Next(c, s, i).ctr.hasErrors <==> Sum(Next(c, s, i).agents, FailureWeight(c)) > 0
  {
    hide Act;
    assert AgentOk(c, s.cache, s.agents[i]);
    SumStep(c, s, i, FailureWeight(c));
    SumPart(s.agents, i, FailureWeight(c));
    ActErrors(c, s.agents[i], s.cache, s.ctr);
  }

  lemma ActCount(c: Config, a: Agent, cache: set<FileId>, ctr: Counters)
    requires AgentOk(c, cache, a) && InRange(c, a) && !a.phase.Finished?
    ensures var e, w := Act(c, a, cache, ctr), CountWeight(c.held);
            e.ctr.outstanding - ctr.outstanding
            == w(a.(phase := e.phase)) - w(a) + if e.spawned == [] then 0 else w(e.spawned[0])
  {
  }

  lemma StepCount(c: Config, s: State, i: nat)
    requires ValidConfig(c) && Inv(c, s) && Enabled(s, i)
    ensures Next(c, s, i).ctr.outstanding == Sum(Next(c, s, i).agents, CountWeight(c.held))
  {
    hide Act;
    assert AgentOk(c, s.cache, s.agents[i]);
    SumStep(c, s, i, CountWeight(c.held));
    ActCount(c, s.agents[i], s.cache, s.ctr);
  }

  lemma ActOwners(c: Config, a: Agent, cache: set<FileId>, ctr: Counters, f: FileId)
    requires AgentOk(c, cache, a) && InRange(c, a) && c.cached <= cache
    ensures var e, w := Act(c, a, cache, ctr), OwnerWeight(f);
            Bit(f in e.cache - c.cached) - Bit(f in cache - c.cached)
            == w(a.(phase := e.phase)) - w(a) + if e.spawned == [] then 0 else w(e.spawned[0])
  {
  }

  lemma StepOwners(c: Config, s: State, i: nat, f: FileId)
    requires ValidConfig(c) && Inv(c, s) && Enabled(s, i)
    ensures Sum(Next(c, s, i).agents, OwnerWeight(f)) == Bit(f in Next(c, s, i).cache - c.cached)
  {
    hide Act;
    assert AgentOk(c, s.cache, s.agents[i]);
    SumStep(c, s, i, OwnerWeight(f));
    ActOwners(c, s.agents[i], s.cache, s.ctr, f);
  }

  lemma StepInv(c: Config, s: State, i: nat)
    requires ValidConfig(c) && Inv(c, s) && Enabled(s, i)
    ensures Inv(c, Next(c, s, i))
  {
    StepAgents(c, s, i);
    StepCache(c, s, i);
    StepErrors(c, s, i);
    StepCount(c, s, i);
    forall f ensures Sum(Next(c, s, i).agents, OwnerWeight(f)) == Bit(f in Next(c, s, i).cache - c.cached) {
      StepOwners(c, s, i, f);
    }
  }

  lemma {:induction false} RunInv(c: Config, s: State, schedule: seq<nat>, t: State)
    requires ValidConfig(c) && Inv(c, s) && Runs(c, s, schedule, t)
    ensures Inv(c, t)
    decreases |schedule|
  {
    if schedule == [] {
    } else {
      StepInv(c, s, schedule[0]);
      RunInv(c, Next(c, s, schedule[0]), schedule[1..], t);
    }
  }

  // ---------------------------------------------------------------- one task per file, and the counter

  /** In every reachable state no file has two parse tasks, and `outstanding` is the number of tasks
      counted and not yet done, plus the count the caller holds. */
  lemma OneTaskPerFile(c: Config, schedule: seq<nat>, s: State, i: nat, j: nat)
    requires ValidConfig(c) && Runs(c, Init(c), schedule, s)
    requires i < j < |s.agents| && s.agents[i].Task? && s.agents[j].Task?
    ensures s.agents[i].id != s.agents[j].id
  {
    InitInv(c);
    RunInv(c, Init(c), schedule, s);
    if s.agents[i].id == s.agents[j].id {
      SumTwoParts(s.agents, i, j, OwnerWeight(s.agents[i].id));
    }
  }

  lemma CounterIsLiveCount(c: Config, schedule: seq<nat>, s: State)
    requires ValidConfig(c) && Runs(c, Init(c), schedule, s)
    ensures s.ctr.outstanding == Sum(s.agents, CountWeight(c.held))
  {
    InitInv(c);
    RunInv(c, Init(c), schedule, s);
  }

  // ---------------------------------------------------------------- every run ends

  lemma ActSteps(c: Config, a: Agent, cache: set<FileId>, ctr: Counters)
    requires ValidConfig(c) && AgentOk(c, cache, a) && InRange(c, a) && !a.phase.Finished?
    ensures var e := Act(c, a, cache, ctr);
            && StepsLeft(c.g, a.(phase := e.phase)) + (if e.spawned == [] then 0 else StepsLeft(c.g, e.spawned[0]))
               < StepsLeft(c.g, a) + (if e.phase.Claimed? then Cost(c.g, e.phase.file) + 2 else 0)
            && (if e.phase.Claimed?
                then e.phase.file !in cache && e.phase.file < |c.g| && e.cache == cache + {e.phase.file}
                else e.cache == cache)
  {
    var e := Act(c, a, cache, ctr);
    assert e.phase.Claimed? ==> e.phase.file in Todo(a.phase);
  }

  lemma StepPotential(c: Config, s: State, i: nat)
    requires ValidConfig(c) && Inv(c, s) && Enabled(s, i)
    ensures Potential(c, Next(c, s, i)) < Potential(c, s)
  {
    hide Act;
    var a := s.agents[i];
    assert AgentOk(c, s.cache, a);
    var e := Act(c, a, s.cache, s.ctr);
    SumStep(c, s, i, StepWeight(c.g));
    ActSteps(c, a, s.cache, s.ctr);
    if e.phase.Claimed? {
      UnclaimedDrops(c.g, s.cache, e.phase.file, |c.g|);
    }
  }

  lemma {:induction false} RunLength(c: Config, s: State, schedule: seq<nat>, t: State)
    requires ValidConfig(c) && Inv(c, s) && Runs(c, s, schedule, t)
    ensures |schedule| + Potential(c, t) <= Potential(c, s)
    decreases |schedule|
  {
    if schedule == [] {
    } else {
      StepInv(c, s, schedule[0]);
      StepPotential(c, s, schedule[0]);
      RunLength(c, Next(c, s, schedule[0]), schedule[1..], t);
    }
  }

  /** Every run is finite: no schedule is longer than a bound linear in the files and their imports. */
  lemma EveryRunTerminates(c: Config, schedule: seq<nat>, s: State)
    requires ValidConfig(c) && Runs(c, Init(c), schedule, s)
    ensures |schedule| <= Unclaimed(c.g, c.cached, |c.g|) + |c.roots| + 3
  {
    InitInv(c);
    RunLength(c, Init(c), schedule, s);
    assert Init(c).agents[..0] == [];
    assert Sum(Init(c).agents, StepWeight(c.g)) == |c.roots| + 3;
  }

  // ---------------------------------------------------------------- what a finished run has imported

  lemma PathPrefix(c: Config, p: seq<FileId>)
    requires ImportPath(c, p) && |p| > 1
    ensures ImportPath(c, p[..|p|-1]) && Link(c.g, p, |p| - 1)
  {
    var q := p[..|p|-1];
    forall k | 0 < k < |q| ensures Link(c.g, q, k) {
      assert Link(c.g, p, k);
    }
  }

  lemma {:induction false} PathInCache(c: Config, s: State, p: seq<FileId>)
    requires ValidConfig(c) && Inv(c, s) && Quiescent(s) && ImportPath(c, p) && p[0] in c.roots
    ensures p[|p|-1] in s.cache
  {
    if |p| == 1 {
      assert AgentOk(c, s.cache, s.agents[0]);
    } else {
      hide Inv, Quiescent;
      PathPrefix(c, p);
      PathInCache(c, s, p[..|p|-1]);
      ImportInCache(c, s, p[|p|-2], p[|p|-1]);
    }
  }

  lemma ImportInCache(c: Config, s: State, e: FileId, x: FileId)
    requires Inv(c, s) && Quiescent(s) && e in s.cache - c.cached && Imports(c.g, e) && x in c.g[e].imports
    ensures x in s.cache
  {
    var i := CachedHasTask(c, s, e);
    assert AgentOk(c, s.cache, s.agents[i]);
  }

  /** In a quiescent state every file the import has put into the cache was parsed by a task. */
  lemma CachedHasTask(c: Config, s: State, f: FileId) returns (i: nat)
    requires Inv(c, s) && Quiescent(s) && f in s.cache - c.cached
    ensures i < |s.agents| && s.agents[i].Task? && s.agents[i].id == f
  {
    if forall j :: 0 <= j < |s.agents| ==> !(s.agents[j].Task? && s.agents[j].id == f) {
      SumZero(s.agents, OwnerWeight(f));
      assert false;
    }
    i :| 0 <= i < |s.agents| && s.agents[i].Task? && s.agents[i].id == f;
  }

  /** At completion the cache holds exactly what it held before and the reachable files, and the error
      flag is set iff one of these could not be read, parsed or resolved. */
  lemma CompletedImport(c: Config, schedule: seq<nat>, s: State)
    requires ValidConfig(c) && Runs(c, Init(c), schedule, s) && Quiescent(s)
    ensures forall f :: f in s.cache <==> f in c.cached || Reachable(c, f)
    ensures s.ctr.hasErrors <==> exists f :: Reachable(c, f) && !Imports(c.g, f)
  {
    InitInv(c);
    RunInv(c, Init(c), schedule, s);
    forall f | Reachable(c, f) ensures f in s.cache {
      var p :| ImportPath(c, p) && p[0] in c.roots && p[|p|-1] == f;
      PathInCache(c, s, p);
    }
    if s.ctr.hasErrors {
      if forall i :: 0 <= i < |s.agents| ==> !FailureSeen(c, s.agents[i]) {
        SumZero(s.agents, FailureWeight(c));
        assert false;
      }
      var i :| 0 <= i < |s.agents| && FailureSeen(c, s.agents[i]);
      assert AgentOk(c, s.cache, s.agents[i]);
      assert Reachable(c, s.agents[i].id) && !Imports(c.g, s.agents[i].id);
    }
    if f :| Reachable(c, f) && !Imports(c.g, f) {
      assert f !in c.cached;
      var i := CachedHasTask(c, s, f);
      SumPart(s.agents, i, FailureWeight(c));
    }
  }

  // ---------------------------------------------------------------- the completion promise

  /** How often the counter has left zero: promises set, promises about to be set, and one more while
      the counter is positive. */
  ghost function Rounds(s: State): nat {
    s.ctr.fulfilled + Sum(s.agents, FulfilWeight()) + Bit(s.ctr.outstanding > 0)
  }

  lemma ActRounds(c: Config, a: Agent, cache: set<FileId>, ctr: Counters)
    requires InRange(c, a)
    requires ctr.outstanding >= Bit(a.phase.Finishing?) && !a.phase.Finished?
    ensures var e := Act(c, a, cache, ctr);
            e.ctr.fulfilled + Bit(e.phase.Fulfilling?) + Bit(e.ctr.outstanding > 0)
            == ctr.fulfilled + Bit(a.phase.Fulfilling?) + Bit(ctr.outstanding > 0)
               + Bit(a.phase.Claimed? && ctr.outstanding == 0)
    ensures var e := Act(c, a, cache, ctr); e.spawned != [] ==> e.spawned[0].phase.Queued?
  {
  }

  /** Only a caller that holds no count can start a new round, by pushing while the counter is zero. */
  lemma StepRounds(c: Config, s: State, i: nat)
    requires ValidConfig(c) && Inv(c, s) && Enabled(s, i)
    ensures Rounds(Next(c, s, i))
            == Rounds(s) + Bit(s.agents[i].phase.Claimed? && s.ctr.outstanding == 0)
    ensures s.agents[i].phase.Claimed? && s.ctr.outstanding == 0 ==> i == 0 && !c.held
  {
    hide Act;
    assert AgentOk(c, s.cache, s.agents[i]);
    SumStep(c, s, i, FulfilWeight());
    SumPart(s.agents, i, CountWeight(c.held));
    ActRounds(c, s.agents[i], s.cache, s.ctr);
  }

  /** The one root file that the cache did not hold before. */
  ghost predicate OnlyNewRoot(c: Config, r: FileId) {
    r in c.roots && r !in c.cached && forall x :: x in c.roots ==> x in c.cached || x == r
  }

  /** The caller holds a count, or has exactly one file to push. */
  ghost predicate SoundCaller(c: Config) { c.held || exists r :: OnlyNewRoot(c, r) }

  ghost predicate Started(c: Config, s: State) {
    c.held || |s.agents| > 1 || (s.agents != [] && s.agents[0].phase.Counted?)
  }

  ghost predicate PromiseInv(c: Config, r: FileId, s: State) {
    && s.agents != []
    && Rounds(s) == Bit(Started(c, s))
    && (!c.held ==>
          if |s.agents| == 1 then
            && (s.agents[0].phase.Importing? ==> r in s.agents[0].phase.todo && s.cache == c.cached)
            && (s.agents[0].phase.Importing? || s.agents[0].phase.Claimed? || s.agents[0].phase.Counted?)
            && (s.agents[0].phase.Claimed? ==> s.ctr.outstanding == 0)
            && (s.agents[0].phase.Claimed? || s.agents[0].phase.Counted? ==> r in s.cache)
          else
            r in s.cache && !s.agents[0].phase.Claimed? && !s.agents[0].phase.Counted?)
  }

  lemma StepPromise(c: Config, r: FileId, s: State, i: nat)
    requires ValidConfig(c) && (c.held || OnlyNewRoot(c, r)) && Inv(c, s) && PromiseInv(c, r, s) && Enabled(s, i)
    ensures PromiseInv(c, r, Next(c, s, i))
  {
    StepRounds(c, s, i);
    assert AgentOk(c, s.cache, s.agents[i]);
    var p := s.agents[0].phase;
    if i == 0 && p.Importing? && p.todo != [] {
      assert p.todo[0] in Listed(c, s.agents[0]);
    }
  }

  lemma {:induction false} RunPromise(c: Config, r: FileId, s: State, schedule: seq<nat>, t: State)
    requires ValidConfig(c) && (c.held || OnlyNewRoot(c, r)) && Inv(c, s) && PromiseInv(c, r, s)
    requires Runs(c, s, schedule, t)
    ensures PromiseInv(c, r, t)
    decreases |schedule|
  {
    if schedule == [] {
    } else {
      StepInv(c, s, schedule[0]);
      StepPromise(c, r, s, schedule[0]);
      RunPromise(c, r, Next(c, s, schedule[0]), schedule[1..], t);
    }
  }

  /** No task is live, and neither a task nor the caller will push another. */
  ghost predicate NothingPending(s: State) {
    forall i :: 0 <= i < |s.agents| ==>
      s.agents[i].phase.Finished?
      || (s.agents[i].Caller? && s.agents[i].phase.Importing?
          && forall f :: f in s.agents[i].phase.todo ==> f in s.cache)
  }

  /** What the waiting caller relies on, in every reachable state. */
  ghost predicate PromiseRight(s: State) {
    && s.ctr.fulfilled <= 1
    && (s.ctr.fulfilled == 1 ==> NothingPending(s))
    && (Quiescent(s) ==> s.ctr.fulfilled == 1)
  }

  ghost predicate PromiseSound(c: Config) {
    forall schedule, s :: Runs(c, Init(c), schedule, s) ==> PromiseRight(s)
  }

  lemma QuiescentSums(c: Config, s: State)
    requires Inv(c, s) && Quiescent(s)
    ensures s.ctr.outstanding == 0 && s.ctr.fulfilled == Rounds(s)
  {
    SumZero(s.agents, CountWeight(c.held));
    SumZero(s.agents, FulfilWeight());
  }

  lemma SoundIsRight(c: Config, r: FileId, s: State)
    requires ValidConfig(c) && (c.held || OnlyNewRoot(c, r)) && Inv(c, s) && PromiseInv(c, r, s)
    ensures PromiseRight(s)
  {
    if Quiescent(s) {
      QuiescentSums(c, s);
    }
    if s.ctr.fulfilled == 1 {
      forall i | 0 <= i < |s.agents|
        ensures s.agents[i].phase.Finished?
                || (s.agents[i].Caller? && s.agents[i].phase.Importing?
                    && forall f :: f in s.agents[i].phase.todo ==> f in s.cache)
      {
        SumPart(s.agents, i, CountWeight(c.held));
        SumPart(s.agents, i, FulfilWeight());
        assert AgentOk(c, s.cache, s.agents[i]);
      }
    }
  }

  lemma InitPromise(c: Config, r: FileId)
    requires ValidConfig(c) && (c.held || OnlyNewRoot(c, r))
    ensures PromiseInv(c, r, Init(c))
  {
    SumZero(Init(c).agents, FulfilWeight());
  }

  // Runs of callers that are not sound.

  lemma {:induction false} RunsConcat(c: Config, s: State, a: seq<nat>, t: State, b: seq<nat>, u: State)
    requires Runs(c, s, a, t) && Runs(c, t, b, u)
    ensures Runs(c, s, a + b, u)
    decreases |a|
  {
    if a == [] {
      assert a + b == b;
    } else {
      RunsConcat(c, Next(c, s, a[0]), a[1..], t, b, u);
      assert (a + b)[1..] == a[1..] + b;
    }
  }

  lemma RunsOne(c: Config, s: State, i: nat)
    requires IdsInRange(c, s) && Enabled(s, i)
    ensures Runs(c, s, [i], Next(c, s, i))
  {
    assert Runs(c, Next(c, s, i), [], Next(c, s, i));
  }

  lemma RunsThen(c: Config, s: State, a: seq<nat>, t: State, i: nat)
    requires Runs(c, s, a, t) && IdsInRange(c, t) && Enabled(t, i)
    ensures Runs(c, s, a + [i], Next(c, t, i))
  {
    RunsOne(c, t, i);
    RunsConcat(c, s, a, t, [i], Next(c, t, i));
  }

  /** The agents from `first` on can always be run to their end. */
  lemma {:induction false} Drain(c: Config, s: State, first: nat) returns (schedule: seq<nat>, t: State)
    requires ValidConfig(c) && Inv(c, s) && first <= 1
    ensures Runs(c, s, schedule, t) && Inv(c, t)
    ensures forall i :: first <= i < |t.agents| ==> t.agents[i].phase.Finished?
    ensures first == 1 ==> t.agents[0] == s.agents[0]
    ensures Rounds(t) >= Rounds(s)
    decreases Potential(c, s)
  {
    if forall i :: first <= i < |s.agents| ==> s.agents[i].phase.Finished? {
      schedule, t := [], s;
    } else {
      var i: nat :| first <= i < |s.agents| && !s.agents[i].phase.Finished?;
      var n := Next(c, s, i);
      StepInv(c, s, i);
      StepPotential(c, s, i);
      StepRounds(c, s, i);
      var rest;
      rest, t := Drain(c, n, first);
      schedule := [i] + rest;
    }
  }

  /** The caller runs on its own up to the claim of a file nobody has claimed. */
  lemma {:induction false} CallerClaims(c: Config, s: State) returns (schedule: seq<nat>, t: State)
    requires ValidConfig(c) && Inv(c, s) && s.agents[0].phase.Importing?
    requires exists x :: x in s.agents[0].phase.todo && x !in s.cache
    ensures Runs(c, s, schedule, t) && Inv(c, t)
    ensures t.agents[0].phase.Claimed? && |t.agents| == |s.agents|
    ensures t.cache == s.cache + {t.agents[0].phase.file} && Rounds(t) == Rounds(s)
    ensures forall x :: x in s.agents[0].phase.todo && x !in t.cache ==> x in t.agents[0].phase.todo
    decreases |s.agents[0].phase.todo|
  {
    var n := Next(c, s, 0);
    StepInv(c, s, 0);
    StepRounds(c, s, 0);
    RunsOne(c, s, 0);
    if s.agents[0].phase.todo[0] !in s.cache {
      schedule, t := [0], n;
    } else {
      var x :| x in s.agents[0].phase.todo && x !in s.cache;
      assert x in n.agents[0].phase.todo;
      var rest;
      rest, t := CallerClaims(c, n);
      schedule := [0] + rest;
    }
  }

  /** From a claim of the caller, with every task at its end, a further round starts. */
  lemma NewRound(c: Config, s: State) returns (schedule: seq<nat>, t: State)
    requires ValidConfig(c) && Inv(c, s) && !c.held && s.agents[0].phase.Claimed?
    ensures Runs(c, s, schedule, t) && Inv(c, t)
    ensures t.agents[0] == Caller(Importing(s.agents[0].phase.todo)) && Rounds(t) >= Rounds(s) + 1
  {
    var drained, d := Drain(c, s, 1);
    SumZero(d.agents, CountWeight(c.held));
    StepRounds(c, d, 0);
    StepInv(c, d, 0);
    var e := Next(c, d, 0);
    RunsThen(c, s, drained, d, 0);
    StepRounds(c, e, 0);
    StepInv(c, e, 0);
    RunsThen(c, s, drained + [0], e, 0);
    schedule, t := drained + [0] + [0], Next(c, e, 0);
  }

  /** The caller counts and pushes the file it has claimed. */
  lemma FirstPush(c: Config, p: State) returns (schedule: seq<nat>, s: State)
    requires ValidConfig(c) && Inv(c, p) && !c.held && p.agents[0].phase.Claimed?
    ensures Runs(c, p, schedule, s) && Inv(c, s) && Rounds(s) >= 1
    ensures s.agents[0] == Caller(Importing(p.agents[0].phase.todo)) && s.cache == p.cache
  {
    var e := Next(c, p, 0);
    StepInv(c, p, 0);
    StepInv(c, e, 0);
    RunsOne(c, p, 0);
    RunsThen(c, p, [0], e, 0);
    schedule, s := [0] + [0], Next(c, e, 0);
    SumPart(s.agents, |s.agents| - 1, CountWeight(c.held));
  }

  /** With two different root files to push and no count held there is a complete run that calls
      `set_value` twice: the first task may finish before the caller counts the second. */
  lemma FulfilledTwice(c: Config, r: FileId, x: FileId) returns (schedule: seq<nat>, t: State)
    requires ValidConfig(c) && !c.held && r in c.roots && x in c.roots && r != x
    requires r !in c.cached && x !in c.cached
    ensures Runs(c, Init(c), schedule, t) && Quiescent(t) && t.ctr.fulfilled >= 2
  {
    InitInv(c);
    var toFirst, p := CallerClaims(c, Init(c));
    var push, s := FirstPush(c, p);
    var toClaim, u := CallerClaims(c, s);
    var toPush, v := NewRound(c, u);
    var toEnd;
    toEnd, t := Drain(c, v, 0);
    QuiescentSums(c, t);
    RunsConcat(c, u, toPush, v, toEnd, t);
    RunsConcat(c, s, toClaim, u, toPush + toEnd, t);
    RunsConcat(c, p, push, s, toClaim + (toPush + toEnd), t);
    schedule := toFirst + (push + (toClaim + (toPush + toEnd)));
    RunsConcat(c, Init(c), toFirst, p, push + (toClaim + (toPush + toEnd)), t);
  }

  /** The caller has nothing to push. */
  ghost predicate Idle(c: Config, s: State) {
    && |s.agents| == 1 && s.agents[0].Caller? && s.cache == c.cached && s.ctr.fulfilled == 0
    && (s.agents[0].phase.Finished?
        || (s.agents[0].phase.Importing? && forall x :: x in s.agents[0].phase.todo ==> x in c.cached))
  }

  lemma {:induction false} StaysIdle(c: Config, s: State, schedule: seq<nat>, t: State)
    requires !c.held && Idle(c, s) && Runs(c, s, schedule, t)
    ensures Idle(c, t)
    decreases |schedule|
  {
    if schedule == [] {
    } else {
      StaysIdle(c, Next(c, s, schedule[0]), schedule[1..], t);
    }
  }

  /** With no root file to push and no count held no run sets the promise. */
  lemma NeverFulfilled(c: Config, schedule: seq<nat>, s: State)
    requires ValidConfig(c) && !c.held && (forall x :: x in c.roots ==> x in c.cached)
    requires Runs(c, Init(c), schedule, s)
    ensures s.ctr.fulfilled == 0
  {
    StaysIdle(c, Init(c), schedule, s);
  }

  /** In every run of every import graph, whatever is cached, the promise is set once, and only when
      nothing is pending, exactly if the caller holds a count or has exactly one file to push. */
  lemma PromiseTheorem(c: Config)
    requires ValidConfig(c)
    ensures PromiseSound(c) <==> SoundCaller(c)
  {
    InitInv(c);
    if SoundCaller(c) {
      var r: FileId :| c.held || OnlyNewRoot(c, r);
      forall schedule, s | Runs(c, Init(c), schedule, s) ensures PromiseRight(s) {
        InitPromise(c, r);
        RunInv(c, Init(c), schedule, s);
        RunPromise(c, r, Init(c), schedule, s);
        SoundIsRight(c, r, s);
      }
    } else if r :| r in c.roots && r !in c.cached {
      assert !OnlyNewRoot(c, r);
      var x :| x in c.roots && x !in c.cached && x != r;
      var schedule, t := FulfilledTwice(c, r, x);
      assert !PromiseRight(t);
    } else {
      var schedule, t := Drain(c, Init(c), 0);
      NeverFulfilled(c, schedule, t);
      assert !PromiseRight(t);
    }
  }

  /** No run can get stuck: every state reached can be run on to a quiescent one. */
  lemma EveryRunCanComplete(c: Config, schedule: seq<nat>, s: State) returns (more: seq<nat>, t: State)
    requires ValidConfig(c) && Runs(c, Init(c), schedule, s)
    ensures Runs(c, Init(c), schedule + more, t) && Quiescent(t)
  {
    InitInv(c);
    RunInv(c, Init(c), schedule, s);
    more, t := Drain(c, s, 0);
    RunsConcat(c, Init(c), schedule, s, more, t);
  }
}
