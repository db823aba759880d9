/**
 * The two writers of baseline values: `setup_metrics`, which gives the
 * task gauges a 0 for every state (and every registered task name) before
 * any event arrives, and `WorkerMonitoringThread.update_workers_count`,
 * which publishes how many workers answered a ping.
 */
module Baseline {
  import opened Wrappers
  import opened CeleryStates
  import opened Metrics

  /** `set(chain.from_iterable(registered_tasks))`: every name any worker registered. */
  function RegisteredNames(registered: seq<seq<string>>): (r: set<string>)
    ensures forall n :: n in r <==> exists i :: 0 <= i < |registered| && n in registered[i]
  {
    if registered == [] then {}
    else
      var front, last := registered[..|registered| - 1], registered[|registered| - 1];
      var r := RegisteredNames(front) + set n | n in last;
      assert forall n :: n in r <==> exists i :: 0 <= i < |registered| && n in registered[i] by {
        forall n | exists i :: 0 <= i < |registered| && n in registered[i]
          ensures n in r
        {
          var i :| 0 <= i < |registered| && n in registered[i];
          if i < |front| {
            assert n in front[i];
          }
        }
        forall n | n in r
          ensures exists i :: 0 <= i < |registered| && n in registered[i]
        {
          if n in last {
            assert n in registered[|registered| - 1];
          } else {
            var i :| 0 <= i < |front| && n in front[i];
            assert n in registered[i];
          }
        }
      }
      r
  }

  /** The TASKS_NAME labels `setup_metrics` initialises: every state with every registered name. */
  predicate InGrid(p: (TaskState, string), names: set<string>) {
    p.0 in AllStates && p.1 in names
  }

  /**
   * The task gauges after `setup_metrics`. When the inspection fails
   * every existing series of both gauges reads 0 and none is added;
   * otherwise every state of ALL_STATES, and every (state, registered
   * name), is set to 0 and the other series are left as they were.
   */
  function SetupTasks(tasks: map<TaskState, int>, introspection: Option<seq<seq<string>>>): map<TaskState, int> {
    match introspection
    case None => Zeroed(tasks, None)
    case Some(_) => tasks + map s | s in AllStates :: 0
  }

  function SetupTasksByName(byName: map<(TaskState, string), int>, introspection: Option<seq<seq<string>>>)
    : map<(TaskState, string), int>
  {
    match introspection
    case None => Zeroed(byName, None)
    case Some(registered) =>
      var names := RegisteredNames(registered);
      map p | p in byName.Keys + Grid(names) :: if InGrid(p, names) then 0 else byName[p]
  }

  /** The (state, name) grid as a finite set. */
  function Grid(names: set<string>): (g: set<(TaskState, string)>)
    ensures forall p :: p in g <==> InGrid(p, names)
  {
    set s, n | s in AllStates && n in names :: (s, n)
  }

  /** Every metric surface after `setup_metrics`: WORKERS is 0, the task gauges as above, the rest untouched. */
  function Setup(before: Surfaces, introspection: Option<seq<seq<string>>>): Surfaces {
    before.(workers := 0,
            tasks := SetupTasks(before.tasks, introspection),
            tasksByName := SetupTasksByName(before.tasksByName, introspection))
  }

  /**
   * `setup_metrics`. `introspection` is the flattened reply of
   * `inspect().registered_tasks()`, or None when that call or the
   * `active_queues()` call beside it raises.
   */
  method SetupMetrics(m: Registry, introspection: Option<seq<seq<string>>>)
    modifies m`workers, m`tasks, m`tasksByName
    ensures m.Value() == Setup(old(m.Value()), introspection)
  {
    m.workers := 0;
    match introspection {
      case None =>
        m.tasks := ResetMetrics(m.tasks, None);
        m.tasksByName := ResetMetrics(m.tasksByName, None);
      case Some(registered) =>
        var names := RegisteredNames(registered);
        var states := AllStates;
        ghost var done: set<TaskState> := {};
        while states != {}
          invariant states + done == AllStates && states !! done
          invariant m.workers == 0
          invariant m.tasks == old(m.tasks) + map s | s in done :: 0
          invariant forall p :: p in m.tasksByName <==> p in old(m.tasksByName) || (p.0 in done && p.1 in names)
          invariant forall p :: p in m.tasksByName ==>
            m.tasksByName[p] == if p.0 in done && p.1 in names then 0 else old(m.tasksByName)[p]
          decreases states
        {
          var state :| state in states;
          ZeroOneMore(old(m.tasks), done, state);
          m.tasks := m.tasks[state := 0];
          SetNameZeros(m, state, names);
          states := states - {state};
          done := done + {state};
        }
        GridFilled(old(m.tasksByName), m.tasksByName, registered);
    }
  }

  /** The state-by-state filling of TASKS_NAME ends at the setup value. */
  lemma GridFilled(before: map<(TaskState, string), int>, after: map<(TaskState, string), int>, registered: seq<seq<string>>)
    requires forall p :: p in after <==> p in before || InGrid(p, RegisteredNames(registered))
    requires forall p :: p in after ==>
      after[p] == if InGrid(p, RegisteredNames(registered)) then 0 else before[p]
    ensures after == SetupTasksByName(before, Some(registered))
  {
    var want := SetupTasksByName(before, Some(registered));
    assert forall p :: p in after <==> p in want;
  }

  lemma ZeroOneMore(base: map<TaskState, int>, done: set<TaskState>, s: TaskState)
    ensures (base + map t | t in done :: 0)[s := 0] == base + map t | t in done + {s} :: 0
  {
  }

  /** The inner loop of `setup_metrics`: TASKS_NAME(state, name) := 0 for every registered name. */
  method SetNameZeros(m: Registry, state: TaskState, names: set<string>)
    modifies m`tasksByName
    ensures forall p :: p in m.tasksByName <==> p in old(m.tasksByName) || (p.0 == state && p.1 in names)
    ensures forall p :: p in m.tasksByName ==>
      m.tasksByName[p] == if p.0 == state && p.1 in names then 0 else old(m.tasksByName)[p]
  {
    var todo := names;
    ghost var done: set<string> := {};
    while todo != {}
      invariant todo + done == names && todo !! done
      invariant forall p :: p in m.tasksByName <==> p in old(m.tasksByName) || (p.0 == state && p.1 in done)
      invariant forall p :: p in m.tasksByName ==>
        m.tasksByName[p] == if p.0 == state && p.1 in done then 0 else old(m.tasksByName)[p]
      decreases todo
    {
      var n :| n in todo;
      m.tasksByName := m.tasksByName[(state, n) := 0];
      todo := todo - {n};
      done := done + {n};
    }
  }

  /** `update_workers_count`: WORKERS is the number of ping replies; a failed ping leaves it as it was. */
  method UpdateWorkersCount(m: Registry, ping: Option<seq<string>>)
    modifies m`workers
    ensures m.workers == Workers(old(m.workers), ping)
  {
    if ping.Some? {
      m.workers := |ping.value|;
    }
  }

  /** WORKERS after one ping: the number of replies, or the old value when the ping raised. */
  function Workers(before: int, ping: Option<seq<string>>): int {
    match ping
    case Some(replies) => |replies|
    case None => before
  }

  /**
   * After a successful `setup_metrics` every state of ALL_STATES, and every
   * (state, registered name), is exposed at 0; no series disappears, and a
   * series outside that grid keeps its value.
   */
  lemma SetupExposesBaseline(before: Surfaces, registered: seq<seq<string>>)
    ensures var after := Setup(before, Some(registered));
      && after.workers == 0
      && (forall s :: s in AllStates ==> s in after.tasks && after.tasks[s] == 0)
      && (forall s, i, n :: s in AllStates && 0 <= i < |registered| && n in registered[i] ==>
            (s, n) in after.tasksByName && after.tasksByName[(s, n)] == 0)
      && before.tasks.Keys <= after.tasks.Keys
      && before.tasksByName.Keys <= after.tasksByName.Keys
      && (forall s :: s in before.tasks && s !in AllStates ==> after.tasks[s] == before.tasks[s])
      && (forall p :: p in before.tasksByName && !InGrid(p, RegisteredNames(registered)) ==>
            after.tasksByName[p] == before.tasksByName[p])
  {
    var names := RegisteredNames(registered);
    forall s, i, n | s in AllStates && 0 <= i < |registered| && n in registered[i]
      ensures (s, n) in Grid(names)
    {
      assert n in names;
    }
  }

  /**
   * Every TASKS_NAME series after a successful setup names a registered
   * task or was already there: setup adds no other label.
   */
  lemma SetupAddsOnlyGrid(before: Surfaces, registered: seq<seq<string>>)
    ensures forall p :: p in Setup(before, Some(registered)).tasksByName ==>
      p in before.tasksByName || (p.0 in AllStates && exists i :: 0 <= i < |registered| && p.1 in registered[i])
    ensures forall s :: s in Setup(before, Some(registered)).tasks ==> s in before.tasks || s in AllStates
  {
  }

  /**
   * When inspecting the workers fails, both task gauges keep their series
   * and every one of them reads 0; WORKERS is 0 either way.
   */
  lemma SetupFailureZeroes(before: Surfaces)
    ensures var after := Setup(before, None);
      && after.workers == 0
      && after.tasks.Keys == before.tasks.Keys
      && after.tasksByName.Keys == before.tasksByName.Keys
      && (forall s :: s in after.tasks ==> after.tasks[s] == 0)
      && (forall p :: p in after.tasksByName ==> after.tasksByName[p] == 0)
  {
  }

  /** `setup_metrics` touches only WORKERS, TASKS and TASKS_NAME. */
  lemma SetupLeavesOthers(before: Surfaces, introspection: Option<seq<seq<string>>>)
    ensures var after := Setup(before, introspection);
      && after.runtime == before.runtime
      && after.latency == before.latency
      && after.queueSize == before.queueSize
      && after.queueTasks == before.queueTasks
  {
  }

  /** Running `setup_metrics` twice with the same inspection reply is the same as once. */
  lemma SetupIdempotent(before: Surfaces, introspection: Option<seq<seq<string>>>)
    ensures Setup(Setup(before, introspection), introspection) == Setup(before, introspection)
  {
    var once := Setup(before, introspection);
    match introspection {
      case None =>
        assert Zeroed(once.tasks, None) == once.tasks;
        assert Zeroed(once.tasksByName, None) == once.tasksByName;
      case Some(registered) =>
        var names := RegisteredNames(registered);
        assert SetupTasks(once.tasks, introspection) == once.tasks;
        assert SetupTasksByName(once.tasksByName, introspection) == once.tasksByName;
    }
  }

  /** The value WORKERS holds after a run of pings, each Some(replies) or None for a ping that raised. */
  function AfterPings(before: int, pings: seq<Option<seq<string>>>): int
    decreases |pings|
  {
    if pings == [] then before
    else Workers(AfterPings(before, pings[..|pings| - 1]), pings[|pings| - 1])
  }

  /** Whether some ping in the run succeeded. */
  predicate AnyAnswered(pings: seq<Option<seq<string>>>) {
    exists i :: 0 <= i < |pings| && pings[i].Some?
  }

  /** Ping `i` succeeded and every later one failed. */
  predicate LatestAnswer(pings: seq<Option<seq<string>>>, i: int) {
    0 <= i < |pings| && pings[i].Some? && forall j :: i < j < |pings| ==> pings[j].None?
  }

  /**
   * WORKERS reads the number of replies of the latest ping that succeeded;
   * a failed ping never clears it, and before any success it keeps the
   * value it had (0 after `setup_metrics`).
   */
  lemma {:induction false} WorkersLatestAnswer(before: int, pings: seq<Option<seq<string>>>)
    ensures !AnyAnswered(pings) ==> AfterPings(before, pings) == before
    ensures AnyAnswered(pings) ==>
      exists i :: LatestAnswer(pings, i) && AfterPings(before, pings) == |pings[i].value|
    decreases |pings|
  {
    if pings != [] {
      var front, last := pings[..|pings| - 1], pings[|pings| - 1];
      WorkersLatestAnswer(before, front);
      if last.Some? {
        assert LatestAnswer(pings, |pings| - 1);
      } else if AnyAnswered(front) {
        var i :| LatestAnswer(front, i) && AfterPings(before, front) == |front[i].value|;
        assert pings[i] == front[i];
        forall j | i < j < |pings| ensures pings[j].None? {
          if j < |front| { assert pings[j] == front[j]; }
        }
        assert LatestAnswer(pings, i);
      } else {
        assert !AnyAnswered(pings) by {
          forall i | 0 <= i < |pings| ensures pings[i].None? {
            if i < |front| { assert pings[i] == front[i]; }
          }
        }
      }
    }
  }
}
