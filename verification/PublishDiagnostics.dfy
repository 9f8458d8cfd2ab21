/** The publishing of diagnostics by the language server: `publish_diagnostics` cancels and joins the
    task of the call before it and starts one of its own; `report_build_failure` cancels and joins, and
    then sends its own notification after it has given the mutex back.

    A run is a schedule of the calls and of the tasks they start, each step one access to shared state:
    the mutex, the cancel flag, the future, or the connection to the editor. */
module PublishDiagnostics {

  /** A call of `publish_diagnostics` or of `report_build_failure`.  The file a call is about plays no part:
      all calls share one task and one flag. */
  datatype Call = Publish | BuildFailure

  /** The statements of a call still to be executed.  `Joining` has stored true in the cancel flag and
      waits for the future; `Resetting` stores false. */
  datatype CallPhase = Waiting | Locked | Joining | Resetting | Launching | Unlocking | Reporting | Returned

  /** A task loads the flag (`Started`) and, if that read false, notifies (`Cleared`). */
  datatype TaskPhase = Started | Cleared | Delivered | Dropped

  /** `ticket` counts the calls that took the mutex earlier; it has no meaning while `Waiting`. */
  datatype Caller = Caller(phase: CallPhase, ticket: nat)

  datatype Task = Task(call: nat, phase: TaskPhase)

  datatype Mutex = Free | HeldBy(call: nat)

  /** `valid()` of the future field; waiting for a task does not make it invalid again. */
  datatype Future = Invalid | Of(task: nat)

  /** `sent` lists the calls whose notification reached the editor, oldest first. */
  datatype State = State(
    callers: seq<Caller>, tasks: seq<Task>,
    mutex: Mutex, flag: bool, future: Future,
    taken: nat, sent: seq<nat>)

  datatype Actor = TheCall(i: nat) | TheTask(t: nat)

  function Init(calls: seq<Call>): State {
    State(seq(|calls|, i => Caller(Waiting, 0)), [], Free, false, Invalid, 0, [])
  }

  predicate Live(t: Task) { t.phase.Started? || t.phase.Cleared? }

  /** Locking waits for the mutex and joining waits for the task. */
  predicate Enabled(s: State, a: Actor) {
    match a
    case TheTask(t) => t < |s.tasks| && Live(s.tasks[t])
    case TheCall(i) =>
      && i < |s.callers|
      && match s.callers[i].phase
         case Waiting => s.mutex.Free?
         case Joining => s.future.Of? && s.future.task < |s.tasks| && !Live(s.tasks[s.future.task])
         case Returned => false
         case _ => true
  }

  function Goes(s: State, i: nat, p: CallPhase): State
    requires i < |s.callers|
  {
    s.(callers := s.callers[i := s.callers[i].(phase := p)])
  }

  function StepOfCall(calls: seq<Call>, s: State, i: nat): State
    requires |calls| == |s.callers| && Enabled(s, TheCall(i))
  {
    match s.callers[i].phase
    case Waiting =>
      s.(callers := s.callers[i := Caller(Locked, s.taken)], mutex := HeldBy(i), taken := s.taken + 1)
    case Locked =>
      if s.future.Of? then Goes(s, i, Joining).(flag := true) else Goes(s, i, Resetting)
    case Joining => Goes(s, i, Resetting)
    case Resetting => Goes(s, i, if calls[i].Publish? then Launching else Unlocking).(flag := false)
    case Launching =>
      Goes(s, i, Unlocking).(tasks := s.tasks + [Task(i, Started)], future := Of(|s.tasks|))
    case Unlocking =>
      Goes(s, i, if calls[i].Publish? then Returned else Reporting).(mutex := Free)
    case _ => Goes(s, i, Returned).(sent := s.sent + [i])
  }

  function StepOfTask(s: State, t: nat): State
    requires Enabled(s, TheTask(t))
  {
    var task := s.tasks[t];
    if task.phase.Started? then
      s.(tasks := s.tasks[t := task.(phase := if s.flag then Dropped else Cleared)])
    else
      s.(tasks := s.tasks[t := task.(phase := Delivered)], sent := s.sent + [task.call])
  }

  function Next(calls: seq<Call>, s: State, a: Actor): State
    requires |calls| == |s.callers| && Enabled(s, a)
  {
    match a
    case TheCall(i) => StepOfCall(calls, s, i)
    case TheTask(t) => StepOfTask(s, t)
  }

  predicate Runs(calls: seq<Call>, s: State, schedule: seq<Actor>, t: State)
    decreases |schedule|
  {
    if schedule == [] then s == t
    else |calls| == |s.callers| && Enabled(s, schedule[0])
         && Runs(calls, Next(calls, s, schedule[0]), schedule[1..], t)
  }

  predicate Reached(calls: seq<Call>, schedule: seq<Actor>, s: State) {
    Runs(calls, Init(calls), schedule, s)
  }

  // ---------------------------------------------------------------- the invariant

  predicate InCriticalSection(p: CallPhase) {
    p.Locked? || p.Joining? || p.Resetting? || p.Launching? || p.Unlocking?
  }

  ghost predicate CallInv(calls: seq<Call>, s: State, i: nat)
    requires i < |calls| == |s.callers|
  {
    var c := s.callers[i];
    && (InCriticalSection(c.phase) <==> s.mutex == HeldBy(i))
    && (!c.phase.Waiting? ==> c.ticket < s.taken)
    && (s.mutex == HeldBy(i) ==> c.ticket + 1 == s.taken)
    && (c.phase.Launching? ==> calls[i].Publish?)
    && (c.phase.Reporting? ==> calls[i].BuildFailure?)
    && (c.phase.Joining? ==> s.future.Of?)
  }

  predicate Apart(c: Caller, d: Caller) {
    !c.phase.Waiting? && !d.phase.Waiting? ==> c.ticket != d.ticket
  }

  /** Tickets are different; the holder has the newest one. */
  ghost predicate Tickets(calls: seq<Call>, s: State)
    requires |calls| == |s.callers|
  {
    && (forall i :: 0 <= i < |calls| ==> CallInv(calls, s, i))
    && (forall i, j :: 0 <= i < |calls| && 0 <= j < |calls| && i != j ==> Apart(s.callers[i], s.callers[j]))
    && (s.mutex.HeldBy? ==> s.mutex.call < |calls|)
    && (s.taken > 0 ==> exists i :: Newest(s, i))
  }

  predicate Newest(s: State, i: nat) {
    i < |s.callers| && !s.callers[i].phase.Waiting? && s.callers[i].ticket + 1 == s.taken
  }

  /** Call `i` took the mutex before call `j`. */
  predicate Earlier(s: State, i: nat, j: nat) {
    && i < |s.callers| && j < |s.callers|
    && !s.callers[i].phase.Waiting? && !s.callers[j].phase.Waiting?
    && s.callers[i].ticket < s.callers[j].ticket
  }

  predicate Launched(c: Call, p: CallPhase) {
    c.Publish? && (p.Unlocking? || p.Returned?)
  }

  /** A task is live only while its call is the newest one to have taken the mutex, or the newest but
      one and the newest has not yet joined. */
  ghost predicate Current(s: State, i: nat)
    requires i < |s.callers|
  {
    || s.callers[i].ticket + 1 == s.taken
    || (s.callers[i].ticket + 2 == s.taken && s.mutex.HeldBy? && s.mutex.call < |s.callers|
        && (s.callers[s.mutex.call].phase.Locked? || s.callers[s.mutex.call].phase.Joining?))
  }

  ghost predicate TaskInv(calls: seq<Call>, s: State, t: nat)
    requires t < |s.tasks| && |calls| == |s.callers|
  {
    var k := s.tasks[t];
    && k.call < |calls| && Launched(calls[k.call], s.callers[k.call].phase)
    && (Live(k) ==> Current(s, k.call))
    && (k.phase.Dropped? ==> s.callers[k.call].ticket + 1 < s.taken)
  }

  ghost predicate HasTask(s: State, i: nat) {
    exists t :: 0 <= t < |s.tasks| && s.tasks[t].call == i
  }

  ghost predicate Tasks(calls: seq<Call>, s: State)
    requires |calls| == |s.callers|
  {
    && (forall t :: 0 <= t < |s.tasks| ==> TaskInv(calls, s, t))
    && (forall t :: 0 <= t < |s.tasks| - 1 ==> !Live(s.tasks[t]))
    && (forall t, u :: 0 <= t < u < |s.tasks| ==> Earlier(s, s.tasks[t].call, s.tasks[u].call))
    && (forall i :: 0 <= i < |calls| && Launched(calls[i], s.callers[i].phase) ==> HasTask(s, i))
    && s.future == (if s.tasks == [] then Invalid else Of(|s.tasks| - 1))
    && (s.flag ==> s.mutex.HeldBy? && s.mutex.call < |calls|
                   && (s.callers[s.mutex.call].phase.Joining? || s.callers[s.mutex.call].phase.Resetting?))
  }

  /** What may reach the editor before what: diagnostics come after everything that took the mutex
      before their call and was sent at all. */
  predicate InOrder(calls: seq<Call>, s: State, i: nat, j: nat) {
    j < |calls| && calls[j].Publish? ==> Earlier(s, i, j)
  }

  /** `i` has sent its notification. */
  ghost predicate Notified(calls: seq<Call>, s: State, i: nat)
    requires i < |calls| == |s.callers|
  {
    if calls[i].BuildFailure? then s.callers[i].phase.Returned?
    else exists t :: 0 <= t < |s.tasks| && s.tasks[t] == Task(i, Delivered)
  }

  ghost predicate Sent(calls: seq<Call>, s: State)
    requires |calls| == |s.callers|
  {
    && (forall k :: 0 <= k < |s.sent| ==> s.sent[k] < |calls| && !s.callers[s.sent[k]].phase.Waiting?)
    && (forall i :: 0 <= i < |calls| ==> (i in s.sent <==> Notified(calls, s, i)))
    && (forall k, m :: 0 <= k < m < |s.sent| ==> s.sent[k] != s.sent[m])
    && (forall k, m :: 0 <= k < m < |s.sent| ==> InOrder(calls, s, s.sent[k], s.sent[m]))
  }

  ghost predicate Inv(calls: seq<Call>, s: State) {
    |calls| == |s.callers| && Tickets(calls, s) && Tasks(calls, s) && Sent(calls, s)
  }

  // ---------------------------------------------------------------- the steps keep the invariant

  lemma CallCallInv(calls: seq<Call>, s: State, i: nat, j: nat)
    requires Inv(calls, s) && Enabled(s, TheCall(i)) && j < |calls|
    ensures CallInv(calls, StepOfCall(calls, s, i), j)
  {
    assert CallInv(calls, s, j) && CallInv(calls, s, i);
  }

  lemma CallApart(calls: seq<Call>, s: State, i: nat, j: nat, k: nat)
    requires Inv(calls, s) && Enabled(s, TheCall(i)) && j < |calls| && k < |calls| && j != k
    ensures var n := StepOfCall(calls, s, i); Apart(n.callers[j], n.callers[k])
  {
    assert CallInv(calls, s, j) && CallInv(calls, s, k) && Apart(s.callers[j], s.callers[k]);
  }

  lemma CallTickets(calls: seq<Call>, s: State, i: nat)
    requires Inv(calls, s) && Enabled(s, TheCall(i))
    ensures Tickets(calls, StepOfCall(calls, s, i))
  {
    var n := StepOfCall(calls, s, i);
    assert CallInv(calls, s, i);
    if s.callers[i].phase.Waiting? {
      assert Newest(n, i);
    } else {
      var j :| Newest(s, j);
      assert Newest(n, j);
    }
    assert n.mutex.HeldBy? ==> n.mutex.call < |calls|;
    hide CallInv, Apart, Newest, StepOfCall, Tasks, Sent;
    forall j | 0 <= j < |calls| ensures CallInv(calls, n, j) {
      CallCallInv(calls, s, i, j);
    }
    forall j, k | 0 <= j < |calls| && 0 <= k < |calls| && j != k ensures Apart(n.callers[j], n.callers[k]) {
      CallApart(calls, s, i, j, k);
    }
  }

  /** Once the holder of the mutex is past the join, no task is live. */
  lemma NoneLive(calls: seq<Call>, s: State, i: nat, t: nat)
    requires Inv(calls, s) && s.mutex == HeldBy(i) && t < |s.tasks|
    requires s.callers[i].phase.Resetting? || s.callers[i].phase.Launching?
    ensures !Live(s.tasks[t])
  {
    var j := s.tasks[t].call;
    assert TaskInv(calls, s, t) && CallInv(calls, s, i);
    assert i != j && Apart(s.callers[i], s.callers[j]);
  }

  lemma CallTask(calls: seq<Call>, s: State, i: nat, t: nat)
    requires Inv(calls, s) && Enabled(s, TheCall(i)) && t < |s.tasks|
    ensures TaskInv(calls, StepOfCall(calls, s, i), t)
  {
    var j := s.tasks[t].call;
    assert TaskInv(calls, s, t) && CallInv(calls, s, i) && CallInv(calls, s, j);
    assert i != j ==> Apart(s.callers[i], s.callers[j]);
    if s.callers[i].phase.Joining? {
      assert s.future.task == |s.tasks| - 1;
    }
  }

  lemma CallOrder(calls: seq<Call>, s: State, i: nat, t: nat, u: nat)
    requires Inv(calls, s) && Enabled(s, TheCall(i)) && t < u < |StepOfCall(calls, s, i).tasks|
    ensures var n := StepOfCall(calls, s, i); Earlier(n, n.tasks[t].call, n.tasks[u].call)
  {
    var j := s.tasks[t].call;
    assert TaskInv(calls, s, t) && CallInv(calls, s, i) && CallInv(calls, s, j);
    if u < |s.tasks| {
      assert Earlier(s, j, s.tasks[u].call) && TaskInv(calls, s, u);
    } else {
      assert i != j && Apart(s.callers[j], s.callers[i]);
    }
  }

  lemma CallHasTask(calls: seq<Call>, s: State, i: nat, j: nat)
    requires Inv(calls, s) && Enabled(s, TheCall(i)) && j < |calls|
    requires Launched(calls[j], StepOfCall(calls, s, i).callers[j].phase)
    ensures HasTask(StepOfCall(calls, s, i), j)
  {
    var n := StepOfCall(calls, s, i);
    assert CallInv(calls, s, i);
    if Launched(calls[j], s.callers[j].phase) {
      assert HasTask(s, j);
      var t :| 0 <= t < |s.tasks| && s.tasks[t].call == j;
      assert n.tasks[t].call == j;
    } else {
      assert n.tasks[|s.tasks|].call == j;
    }
  }

  lemma CallTasks(calls: seq<Call>, s: State, i: nat)
    requires Inv(calls, s) && Enabled(s, TheCall(i))
    ensures Tasks(calls, StepOfCall(calls, s, i))
  {
    var n := StepOfCall(calls, s, i);
    forall t | 0 <= t < |n.tasks| ensures TaskInv(calls, n, t) {
      assert CallInv(calls, s, i);
      if t < |s.tasks| {
        CallTask(calls, s, i, t);
      }
    }
    forall t | 0 <= t < |n.tasks| - 1 ensures !Live(n.tasks[t]) {
      if s.callers[i].phase.Launching? {
        assert CallInv(calls, s, i);
        NoneLive(calls, s, i, t);
      }
    }
    forall t, u | 0 <= t < u < |n.tasks| ensures Earlier(n, n.tasks[t].call, n.tasks[u].call) {
      CallOrder(calls, s, i, t, u);
    }
    forall j | 0 <= j < |calls| && Launched(calls[j], n.callers[j].phase) ensures HasTask(n, j) {
      CallHasTask(calls, s, i, j);
    }
    assert CallInv(calls, s, i);
    hide Launched, Live, Current, TaskInv, HasTask, Earlier;
  }

  lemma CallNotified(calls: seq<Call>, s: State, i: nat, j: nat)
    requires Inv(calls, s) && Enabled(s, TheCall(i)) && j < |calls|
    ensures j in StepOfCall(calls, s, i).sent <==> Notified(calls, StepOfCall(calls, s, i), j)
    ensures s.callers[i].phase.Reporting? ==> i !in s.sent
  {
    var n := StepOfCall(calls, s, i);
    assert CallInv(calls, s, i);
    assert i in s.sent <==> Notified(calls, s, i);
    assert j in s.sent <==> Notified(calls, s, j);
    if calls[j].Publish? && Notified(calls, s, j) {
      var t :| 0 <= t < |s.tasks| && s.tasks[t] == Task(j, Delivered);
      assert n.tasks[t] == Task(j, Delivered);
    }
  }

  lemma CallInOrder(calls: seq<Call>, s: State, i: nat, j: nat, k: nat)
    requires Inv(calls, s) && Enabled(s, TheCall(i)) && InOrder(calls, s, j, k)
    ensures InOrder(calls, StepOfCall(calls, s, i), j, k)
  {
  }

  lemma CallSends(calls: seq<Call>, s: State, i: nat)
    requires Inv(calls, s) && Enabled(s, TheCall(i))
    ensures StepOfCall(calls, s, i).sent == if s.callers[i].phase.Reporting? then s.sent + [i] else s.sent
    ensures s.callers[i].phase.Reporting? ==> forall j :: InOrder(calls, s, j, i)
    ensures forall j :: 0 <= j < |calls| && !s.callers[j].phase.Waiting?
              ==> !StepOfCall(calls, s, i).callers[j].phase.Waiting?
  {
    assert CallInv(calls, s, i);
  }

  lemma CallSent(calls: seq<Call>, s: State, i: nat)
    requires Inv(calls, s) && Enabled(s, TheCall(i))
    ensures Sent(calls, StepOfCall(calls, s, i))
  {
    var n := StepOfCall(calls, s, i);
    CallSends(calls, s, i);
    hide Notified, InOrder, StepOfCall, Tickets, Tasks;
    forall j | 0 <= j < |calls| ensures j in n.sent <==> Notified(calls, n, j) {
      CallNotified(calls, s, i, j);
    }
    CallNotified(calls, s, i, i);
    forall k, m | 0 <= k < m < |n.sent| ensures InOrder(calls, n, n.sent[k], n.sent[m]) {
      assert InOrder(calls, s, n.sent[k], n.sent[m]);
      CallInOrder(calls, s, i, n.sent[k], n.sent[m]);
    }
  }

  lemma TaskTasks(calls: seq<Call>, s: State, t: nat)
    requires Inv(calls, s) && Enabled(s, TheTask(t))
    ensures Tasks(calls, StepOfTask(s, t))
  {
    var n := StepOfTask(s, t);
    forall u | 0 <= u < |n.tasks| ensures TaskInv(calls, n, u) {
      assert TaskInv(calls, s, u);
      if u == t && s.flag {
        var h, j := s.mutex.call, s.tasks[t].call;
        assert CallInv(calls, s, h) && CallInv(calls, s, j) && Apart(s.callers[h], s.callers[j]);
      }
    }
    forall u, v | 0 <= u < v < |n.tasks| ensures Earlier(n, n.tasks[u].call, n.tasks[v].call) {
      assert Earlier(s, s.tasks[u].call, s.tasks[v].call);
    }
    forall j | 0 <= j < |calls| && Launched(calls[j], n.callers[j].phase) ensures HasTask(n, j) {
      assert HasTask(s, j);
      var u :| 0 <= u < |s.tasks| && s.tasks[u].call == j;
      assert n.tasks[u].call == j;
    }
  }

  lemma TaskNotified(calls: seq<Call>, s: State, t: nat, j: nat)
    requires Inv(calls, s) && Enabled(s, TheTask(t)) && j < |calls|
    ensures j in StepOfTask(s, t).sent <==> Notified(calls, StepOfTask(s, t), j)
    ensures s.tasks[t].call !in s.sent
  {
    var n, i := StepOfTask(s, t), s.tasks[t].call;
    assert TaskInv(calls, s, t);
    assert i in s.sent <==> Notified(calls, s, i);
    assert j in s.sent <==> Notified(calls, s, j);
    assert t == |s.tasks| - 1;
    forall u | 0 <= u < t ensures s.tasks[u].call != i {
      assert Earlier(s, s.tasks[u].call, i);
    }
    if calls[j].Publish? && Notified(calls, s, j) {
      var u :| 0 <= u < |s.tasks| && s.tasks[u] == Task(j, Delivered);
      assert n.tasks[u] == Task(j, Delivered);
    }
    assert n.tasks[t] == Task(i, n.tasks[t].phase);
  }

  /** When a task sends its diagnostics, everything sent before took the mutex before its call. */
  lemma TaskComesAfter(calls: seq<Call>, s: State, t: nat, i: nat)
    requires Inv(calls, s) && Enabled(s, TheTask(t)) && i in s.sent
    ensures Earlier(s, i, s.tasks[t].call)
  {
    var j := s.tasks[t].call;
    var k :| 0 <= k < |s.sent| && s.sent[k] == i;
    assert TaskInv(calls, s, t) && CallInv(calls, s, i) && CallInv(calls, s, j);
    TaskNotified(calls, s, t, i);
    assert Apart(s.callers[i], s.callers[j]);
    assert Notified(calls, s, i);
    if s.mutex.HeldBy? && i != s.mutex.call {
      assert CallInv(calls, s, s.mutex.call) && Apart(s.callers[i], s.callers[s.mutex.call]);
    }
  }

  lemma TaskSent(calls: seq<Call>, s: State, t: nat)
    requires Inv(calls, s) && Enabled(s, TheTask(t))
    ensures Sent(calls, StepOfTask(s, t))
  {
    var n := StepOfTask(s, t);
    assert TaskInv(calls, s, t);
    forall j | 0 <= j < |calls| ensures j in n.sent <==> Notified(calls, n, j) {
      TaskNotified(calls, s, t, j);
    }
    TaskNotified(calls, s, t, s.tasks[t].call);
    forall k, m | 0 <= k < m < |n.sent| ensures InOrder(calls, n, n.sent[k], n.sent[m]) {
      if m < |s.sent| {
        assert InOrder(calls, s, s.sent[k], s.sent[m]);
      } else {
        TaskComesAfter(calls, s, t, s.sent[k]);
      }
    }
    hide Notified, InOrder;
  }

  lemma StepKeepsInv(calls: seq<Call>, s: State, a: Actor)
    requires Inv(calls, s) && Enabled(s, a)
    ensures Inv(calls, Next(calls, s, a))
  {
    match a
    case TheCall(i) =>
      CallTickets(calls, s, i);
      CallTasks(calls, s, i);
      CallSent(calls, s, i);
    case TheTask(t) =>
      TaskTasks(calls, s, t);
      TaskSent(calls, s, t);
      forall i | 0 <= i < |calls| ensures CallInv(calls, StepOfTask(s, t), i) {
        assert CallInv(calls, s, i);
      }
      if s.taken > 0 {
        var j :| Newest(s, j);
        assert Newest(StepOfTask(s, t), j);
      }
  }

  lemma {:induction false} RunKeepsInv(calls: seq<Call>, s: State, schedule: seq<Actor>, t: State)
    requires Inv(calls, s) && Runs(calls, s, schedule, t)
    ensures Inv(calls, t)
    decreases |schedule|
  {
    if schedule == [] {
    } else {
      StepKeepsInv(calls, s, schedule[0]);
      RunKeepsInv(calls, Next(calls, s, schedule[0]), schedule[1..], t);
    }
  }

  lemma ReachedInv(calls: seq<Call>, schedule: seq<Actor>, s: State)
    requires Reached(calls, schedule, s)
    ensures Inv(calls, s)
  {
    RunKeepsInv(calls, Init(calls), schedule, s);
  }

  // ---------------------------------------------------------------- the theorems

  /** At most one publish task is live, whatever the interleaving. */
  lemma AtMostOneLive(calls: seq<Call>, schedule: seq<Actor>, s: State)
    requires Reached(calls, schedule, s)
    ensures forall t, u :: 0 <= t < |s.tasks| && 0 <= u < |s.tasks| && Live(s.tasks[t]) && Live(s.tasks[u]) ==> t == u
  {
    ReachedInv(calls, schedule, s);
  }

  /** Nothing is sent twice; diagnostics arrive in the order in which their calls took the mutex, and no
      diagnostics of an earlier call arrive after the status of a later build failure. */
  lemma DeliveredInOrder(calls: seq<Call>, schedule: seq<Actor>, s: State, k: nat, m: nat)
    requires Reached(calls, schedule, s) && k < m < |s.sent|
    ensures s.sent[k] < |calls| && s.sent[m] < |calls| && s.sent[k] != s.sent[m]
    ensures calls[s.sent[m]].Publish? ==> Earlier(s, s.sent[k], s.sent[m])
  {
    ReachedInv(calls, schedule, s);
    assert InOrder(calls, s, s.sent[k], s.sent[m]);
  }

  predicate Finished(s: State) {
    && (forall i :: 0 <= i < |s.callers| ==> s.callers[i].phase.Returned?)
    && (forall t :: 0 <= t < |s.tasks| ==> !Live(s.tasks[t]))
  }

  /** A batch whose task is over was sent, or another call took the mutex after its own did. */
  lemma DroppedOnlyIfOvertaken(calls: seq<Call>, schedule: seq<Actor>, s: State, t: nat)
    requires Reached(calls, schedule, s) && t < |s.tasks| && !Live(s.tasks[t])
    ensures var i := s.tasks[t].call;
            i in s.sent || exists j :: Earlier(s, i, j)
  {
    ReachedInv(calls, schedule, s);
    var i := s.tasks[t].call;
    assert TaskInv(calls, s, t);
    assert i in s.sent <==> Notified(calls, s, i);
    if s.tasks[t].phase.Delivered? {
      assert s.tasks[t] == Task(i, Delivered);
    } else {
      assert CallInv(calls, s, i);
      var j :| Newest(s, j);
      assert Earlier(s, i, j);
    }
  }

  /** What a finished run lost: only batches, and only those whose call was not the last to take the
      mutex.  Every build failure is reported. */
  lemma FinishedRun(calls: seq<Call>, schedule: seq<Actor>, s: State, i: nat)
    requires Reached(calls, schedule, s) && Finished(s) && i < |calls|
    ensures i !in s.sent ==> calls[i].Publish? && exists j :: Earlier(s, i, j)
  {
    ReachedInv(calls, schedule, s);
    assert i in s.sent <==> Notified(calls, s, i);
    if i !in s.sent && calls[i].Publish? {
      assert HasTask(s, i) && CallInv(calls, s, i);
      var t :| 0 <= t < |s.tasks| && s.tasks[t].call == i;
      DroppedOnlyIfOvertaken(calls, schedule, s, t);
    }
  }

  // ---------------------------------------------------------------- every run ends, none is stuck

  function CallWork(p: CallPhase): nat {
    match p
    case Waiting => 9
    case Locked => 8
    case Joining => 7
    case Resetting => 6
    case Launching => 5
    case Unlocking => 2
    case Reporting => 1
    case Returned => 0
  }

  function TaskWork(p: TaskPhase): nat {
    match p
    case Started => 2
    case Cleared => 1
    case _ => 0
  }

  function CallsWork(callers: seq<Caller>): nat {
    if callers == [] then 0 else CallWork(callers[0].phase) + CallsWork(callers[1..])
  }

  function TasksWork(tasks: seq<Task>): nat {
    if tasks == [] then 0 else TaskWork(tasks[0].phase) + TasksWork(tasks[1..])
  }

  function Work(s: State): nat { CallsWork(s.callers) + TasksWork(s.tasks) }

  lemma {:induction false} CallsWorkUpdate(callers: seq<Caller>, i: nat, c: Caller)
    requires i < |callers|
    ensures CallsWork(callers[i := c]) == CallsWork(callers) - CallWork(callers[i].phase) + CallWork(c.phase)
  {
    if i == 0 {
    } else {
      assert callers[i := c][1..] == callers[1..][i - 1 := c];
      CallsWorkUpdate(callers[1..], i - 1, c);
    }
  }

  lemma {:induction false} TasksWorkUpdate(tasks: seq<Task>, t: nat, k: Task)
    requires t < |tasks|
    ensures TasksWork(tasks[t := k]) == TasksWork(tasks) - TaskWork(tasks[t].phase) + TaskWork(k.phase)
  {
    if t == 0 {
    } else {
      assert tasks[t := k][1..] == tasks[1..][t - 1 := k];
      TasksWorkUpdate(tasks[1..], t - 1, k);
    }
  }

  lemma {:induction false} TasksWorkAppend(tasks: seq<Task>, k: Task)
    ensures TasksWork(tasks + [k]) == TasksWork(tasks) + TaskWork(k.phase)
  {
    if tasks == [] {
    } else {
      assert (tasks + [k])[1..] == tasks[1..] + [k];
      TasksWorkAppend(tasks[1..], k);
    }
  }

  lemma StepDoesWork(calls: seq<Call>, s: State, a: Actor)
    requires |calls| == |s.callers| && Enabled(s, a)
    ensures Work(Next(calls, s, a)) < Work(s)
  {
    match a
    case TheCall(i) =>
      var c := StepOfCall(calls, s, i).callers[i];
      CallsWorkUpdate(s.callers, i, c);
      assert StepOfCall(calls, s, i).callers == s.callers[i := c];
      TasksWorkAppend(s.tasks, Task(i, Started));
    case TheTask(t) =>
      TasksWorkUpdate(s.tasks, t, StepOfTask(s, t).tasks[t]);
      assert StepOfTask(s, t).tasks == s.tasks[t := StepOfTask(s, t).tasks[t]];
  }

  lemma {:induction false} RunIsBounded(calls: seq<Call>, s: State, schedule: seq<Actor>, t: State)
    requires Runs(calls, s, schedule, t)
    ensures |schedule| + Work(t) <= Work(s)
    decreases |schedule|
  {
    if schedule == [] {
    } else {
      StepDoesWork(calls, s, schedule[0]);
      RunIsBounded(calls, Next(calls, s, schedule[0]), schedule[1..], t);
    }
  }

  lemma {:induction false} InitialWork(callers: seq<Caller>)
    requires forall i :: 0 <= i < |callers| ==> callers[i].phase.Waiting?
    ensures CallsWork(callers) == 9 * |callers|
  {
    if callers == [] {
    } else {
      InitialWork(callers[1..]);
    }
  }

  lemma SomeoneCanMove(calls: seq<Call>, s: State) returns (a: Actor)
    requires Inv(calls, s) && !Finished(s)
    ensures Enabled(s, a)
  {
    if t :| 0 <= t < |s.tasks| && Live(s.tasks[t]) {
      return TheTask(t);
    }
    if s.mutex.HeldBy? {
      assert CallInv(calls, s, s.mutex.call);
      return TheCall(s.mutex.call);
    }
    var i :| 0 <= i < |s.callers| && !s.callers[i].phase.Returned?;
    assert CallInv(calls, s, i);
    return TheCall(i);
  }

  lemma FinishedIsStuck(s: State)
    requires Finished(s)
    ensures forall a :: !Enabled(s, a)
  {
  }

  /** No run is longer than nine steps a call, and a run that cannot go on has let every call return and
      every task end: joining under the mutex never deadlocks. */
  lemma EveryRunEnds(calls: seq<Call>, schedule: seq<Actor>, s: State)
    requires Reached(calls, schedule, s)
    ensures |schedule| <= 9 * |calls|
    ensures (forall a :: !Enabled(s, a)) <==> Finished(s)
  {
    RunIsBounded(calls, Init(calls), schedule, s);
    InitialWork(Init(calls).callers);
    ReachedInv(calls, schedule, s);
    hide Runs, Inv, Enabled, Finished;
    if Finished(s) {
      FinishedIsStuck(s);
    } else {
      var a := SomeoneCanMove(calls, s);
    }
  }

  lemma Take(calls: seq<Call>, from: State, schedule: seq<Actor>, s: State, a: Actor)
    returns (longer: seq<Actor>, next: State)
    requires Runs(calls, from, schedule, s) && |calls| == |s.callers| && Enabled(s, a)
    ensures next == Next(calls, s, a) && Runs(calls, from, longer, next)
    decreases |schedule|
  {
    if schedule == [] {
      longer, next := [a], Next(calls, s, a);
    } else {
      var rest;
      rest, next := Take(calls, Next(calls, from, schedule[0]), schedule[1..], s, a);
      longer := [schedule[0]] + rest;
      assert longer[1..] == rest;
    }
  }

  // ---------------------------------------------------------------- whose notification is safe

  /** Call `i` publishes before any other call takes the mutex; its task has not loaded the flag yet. */
  lemma PublishesFirst(calls: seq<Call>, i: nat) returns (schedule: seq<Actor>, s: State)
    requires i < |calls| && calls[i].Publish?
    ensures Reached(calls, schedule, s)
    ensures s == State(Init(calls).callers[i := Caller(Returned, 0)], [Task(i, Started)], Free, false, Of(0), 1, [])
  {
    var init, waiting := Init(calls), Init(calls).callers;
    assert waiting[i] == Caller(Waiting, 0) && |waiting| == |calls|;
    schedule, s := [], init;
    assert Runs(calls, init, schedule, s);
    hide Runs, Init;
    schedule, s := Take(calls, init, schedule, s, TheCall(i));
    assert s.callers == waiting[i := Caller(Locked, 0)];
    schedule, s := Take(calls, init, schedule, s, TheCall(i));
    assert s.callers == waiting[i := Caller(Resetting, 0)];
    schedule, s := Take(calls, init, schedule, s, TheCall(i));
    assert s.callers == waiting[i := Caller(Launching, 0)];
    schedule, s := Take(calls, init, schedule, s, TheCall(i));
    assert s.callers == waiting[i := Caller(Unlocking, 0)];
    schedule, s := Take(calls, init, schedule, s, TheCall(i));
    assert s.callers == waiting[i := Caller(Returned, 0)];
  }

  /** Another call raises the flag before the task of the first loads it. */
  lemma SecondCancels(calls: seq<Call>, i: nat, j: nat) returns (schedule: seq<Actor>, s: State)
    requires i < |calls| && calls[i].Publish? && j < |calls| && i != j
    ensures Reached(calls, schedule, s) && s.tasks == [Task(i, Dropped)]
    ensures Earlier(s, i, j)
  {
    schedule, s := PublishesFirst(calls, i);
    var init := Init(calls);
    assert s.callers[j] == Caller(Waiting, 0) && |s.callers| == |calls|;
    hide Runs, Init;
    schedule, s := Take(calls, init, schedule, s, TheCall(j));
    assert s.callers[j] == Caller(Locked, 1) && s.callers[i] == Caller(Returned, 0);
    schedule, s := Take(calls, init, schedule, s, TheCall(j));
    assert s.callers[j] == Caller(Joining, 1) && s.callers[i] == Caller(Returned, 0) && s.flag;
    schedule, s := Take(calls, init, schedule, s, TheTask(0));
  }

  /** A dropped batch stays dropped and the tickets stay, whoever moves. */
  lemma StaysDropped(calls: seq<Call>, s: State, a: Actor, i: nat, j: nat)
    requires |calls| == |s.callers| && Enabled(s, a)
    requires s.tasks != [] && s.tasks[0] == Task(i, Dropped) && Earlier(s, i, j)
    ensures var n := Next(calls, s, a); n.tasks != [] && n.tasks[0] == Task(i, Dropped) && Earlier(n, i, j)
  {
  }

  /** Every run can be finished. */
  lemma {:induction false} Finish(calls: seq<Call>, from: State, begun: seq<Actor>, s: State, i: nat, j: nat)
    returns (schedule: seq<Actor>, t: State)
    requires Runs(calls, from, begun, s) && Inv(calls, s)
    requires s.tasks != [] && s.tasks[0] == Task(i, Dropped) && Earlier(s, i, j)
    ensures Runs(calls, from, schedule, t) && Inv(calls, t) && Finished(t)
    ensures t.tasks != [] && t.tasks[0] == Task(i, Dropped) && Earlier(t, i, j)
    decreases Work(s)
  {
    if Finished(s) {
      schedule, t := begun, s;
    } else {
      var a := SomeoneCanMove(calls, s);
      StepDoesWork(calls, s, a);
      StepKeepsInv(calls, s, a);
      StaysDropped(calls, s, a, i, j);
      hide Runs, Work, Tickets, Tasks, Sent, Finished, Enabled, Next, Earlier;
      var longer, next := Take(calls, from, begun, s, a);
      schedule, t := Finish(calls, from, longer, next, i, j);
    }
  }

  lemma DroppedIsNotSent(calls: seq<Call>, s: State, i: nat)
    requires Inv(calls, s) && i < |calls| && calls[i].Publish?
    requires s.tasks != [] && s.tasks[0] == Task(i, Dropped)
    ensures i !in s.sent
  {
    assert i in s.sent <==> Notified(calls, s, i);
    forall t | 0 < t < |s.tasks| ensures s.tasks[t].call != i {
      assert Earlier(s, s.tasks[0].call, s.tasks[t].call);
    }
  }

  /** With another call beside it, a publication has a finished run in which its batch is lost. */
  lemma BatchCanBeDropped(calls: seq<Call>, i: nat, j: nat) returns (schedule: seq<Actor>, s: State)
    requires i < |calls| && calls[i].Publish? && j < |calls| && i != j
    ensures Reached(calls, schedule, s) && Finished(s) && i !in s.sent && Inv(calls, s) && Earlier(s, i, j)
  {
    var begun, cancelled := SecondCancels(calls, i, j);
    ReachedInv(calls, begun, cancelled);
    schedule, s := Finish(calls, Init(calls), begun, cancelled, i, j);
    DroppedIsNotSent(calls, s, i);
  }

  /** Every finished run has sent the notification of call `i`. */
  ghost predicate AlwaysSent(calls: seq<Call>, i: nat) {
    forall schedule, s :: Reached(calls, schedule, s) && Finished(s) ==> i in s.sent
  }

  /** A notification is sent in every run, exactly if it is that of a build failure or there is no other
      call. */
  lemma SafeCallTheorem(calls: seq<Call>, i: nat)
    requires i < |calls|
    ensures AlwaysSent(calls, i) <==> calls[i].BuildFailure? || |calls| == 1
  {
    if calls[i].BuildFailure? || |calls| == 1 {
      forall schedule, s | Reached(calls, schedule, s) && Finished(s) ensures i in s.sent {
        FinishedRun(calls, schedule, s, i);
        ReachedInv(calls, schedule, s);
        hide Runs, Inv, Finished;
      }
    } else {
      var schedule, s := BatchCanBeDropped(calls, i, if i == 0 then 1 else 0);
    }
  }

  /** Two publications have a run in which only the second is sent. */
  lemma SecondOnly() returns (schedule: seq<Actor>, s: State)
    ensures Reached([Publish, Publish], schedule, s) && Finished(s) && s.sent == [1]
  {
    var calls := [Publish, Publish];
    schedule, s := BatchCanBeDropped(calls, 0, 1);
    FinishedRun(calls, schedule, s, 1);
    hide Runs, Finished, Tickets, Tasks, Notified, InOrder;
    assert 1 in s.sent;
    forall k | 0 <= k < |s.sent| ensures s.sent[k] == 1 {
      assert s.sent[k] < 2 && s.sent[k] in s.sent;
    }
    forall k, m | 0 <= k < |s.sent| && 0 <= m < |s.sent| && s.sent[k] == s.sent[m] ensures k == m {
    }
    assert s.sent[0] == s.sent[|s.sent| - 1];
  }
}
