/**
 * MonitorThread's event handling as a class whose fields the handlers update
 * in place: the task registry and the two known-label sets. The metric
 * surfaces are the shared `Registry` object passed to each handler. Every
 * handler is proved to leave the fields and the metrics exactly as the
 * corresponding function of TaskEvents says.
 */
module TaskMonitor {
  import opened Wrappers
  import opened CeleryStates
  import opened Metrics
  import opened TaskEvents

  class Monitor {
    /** Celery's State.tasks: uuid -> record of every task still in flight. */
    var registry: TaskMap
    /** `_known_states`: every state ever seen in the registry. */
    var knownStates: set<TaskState>
    /** `_known_states_names`: every (state, truthy name) pair ever seen in the registry. */
    var knownStatesNames: set<(TaskState, string)>

    constructor ()
      ensures registry == map[] && knownStates == {} && knownStatesNames == {}
    {
      registry, knownStates, knownStatesNames := map[], {}, {};
    }

    /** The monitor's fields together with the metrics, as one value. */
    function Snapshot(m: Registry): MonitorState
      reads this, m
    {
      MonitorState(registry, knownStates, knownStatesNames, m.Value())
    }

    /**
     * `_process_event`. Returns false when the task-event suffix is not in
     * Celery's table (the KeyError the source lets escape); nothing changes
     * then. A non-task event changes nothing; after a task event the
     * in-flight gauges agree with the registry on every known label.
     */
    method ProcessEvent(evt: Event, m: Registry) returns (ok: bool)
      modifies this, m
      ensures ok <==> Step(old(Snapshot(m)), evt).Some?
      ensures ok ==> Snapshot(m) == Step(old(Snapshot(m)), evt).value
      ensures !ok ==> Snapshot(m) == old(Snapshot(m))
      ensures !IsTaskEvent(evt) ==> ok && Snapshot(m) == old(Snapshot(m))
      ensures ok && IsTaskEvent(evt) ==> Consistent(Snapshot(m))
      ensures ok && old(Inv(Snapshot(m))) ==> Inv(Snapshot(m))
    {
      ghost var before := Snapshot(m);
      if GroupFrom(evt.kind) == "task" {
        var found := EventToState(SliceFrom(evt.kind, 5));
        if found.None? {
          return false;
        }
        var state := found.value;
        if state == STARTED {
          ObserveLatency(evt, m);
        }
        ghost var st1 := if state == STARTED then ObservedLatency(before, evt) else before;
        assert Snapshot(m) == st1;
        CollectTasks(evt, state, m);
        StepConsistent(before, evt);
      }
      ok := true;
      if Inv(before) {
        StepKeepsInv(before, evt);
      }
    }

    /**
     * `_observe_latency`: appends the received-to-started gap when the uuid
     * is tracked and its record, read before any update, is RECEIVED.
     */
    method ObserveLatency(evt: Event, m: Registry)
      modifies m`latency
      ensures m.latency == old(m.latency) + LatencySample(registry, evt)
    {
      if evt.uuid in registry {
        var prev := registry[evt.uuid];
        if prev.state == RECEIVED {
          m.latency := m.latency + [evt.localReceived - prev.localReceived];
        }
      }
    }

    /** `_collect_tasks`: count a ready task or upsert an unready one, then recount. */
    method CollectTasks(evt: Event, state: TaskState, m: Registry)
      modifies this, m
      ensures Snapshot(m) == UnreadyCounted(Collected(old(Snapshot(m)), evt, state))
    {
      if IsReady(state) {
        IncrReadyTask(evt, state, m);
      } else {
        registry := Upsert(registry, evt, state);
      }
      CollectUnreadyTasks(m);
    }

    /**
     * `_incr_ready_task`: TASKS[state] + 1; pop the uuid if tracked, then
     * count its (state, name) and observe its runtime when the event has one.
     */
    method IncrReadyTask(evt: Event, state: TaskState, m: Registry)
      modifies this`registry, m`tasks, m`tasksByName, m`runtime
      ensures Snapshot(m) == ReadyCounted(old(Snapshot(m)), evt, state)
    {
      m.tasks := Inc(m.tasks, state);
      if evt.uuid in registry {
        var popped := registry[evt.uuid];
        registry := registry - {evt.uuid};
        var tag := NameLabel(popped.name);
        m.tasksByName := Inc(m.tasksByName, (state, tag));
        if evt.runtime.Some? {
          m.runtime := Observe(m.runtime, tag, evt.runtime.value);
        }
      }
    }

    /**
     * `_collect_unready_tasks`: count the registry by state and by (state,
     * name), grow the known sets by what was counted, and set every known
     * label's gauge to its count.
     */
    method CollectUnreadyTasks(m: Registry)
      modifies this`knownStates, this`knownStatesNames, m`tasks, m`tasksByName
      ensures Snapshot(m) == UnreadyCounted(old(Snapshot(m)))
    {
      CountByState(m);
      CountByStateName(m);
      ghost var want := UnreadyCounted(old(Snapshot(m)));
      assert knownStates == want.knownStates && knownStatesNames == want.knownStatesNames;
      assert m.Value() == want.metrics;
    }

    /** The by-state half of `_collect_unready_tasks` (lines 117-121). */
    method CountByState(m: Registry)
      modifies this`knownStates, m`tasks
      ensures knownStates == old(knownStates) + StatesIn(registry)
      ensures m.tasks == old(m.tasks) + map s | s in knownStates :: CountState(registry, s)
    {
      var cnt := StateCounter(registry);
      knownStates := knownStates + cnt.Keys;
      var todo := knownStates;
      while todo != {}
        invariant todo <= knownStates
        invariant knownStates == old(knownStates) + cnt.Keys
        invariant m.tasks == Overlay(old(m.tasks), knownStates - todo, cnt)
        decreases todo
      {
        var s :| s in todo;
        OverlayOneMore(old(m.tasks), knownStates - todo, cnt, s);
        m.tasks := m.tasks[s := Get(cnt, s)];
        assert knownStates - (todo - {s}) == (knownStates - todo) + {s};
        todo := todo - {s};
      }
      assert knownStates - {} == knownStates;
      assert (map s | s in knownStates :: Get(cnt, s)) == (map s | s in knownStates :: CountState(registry, s));
    }

    /** The by-(state, name) half of `_collect_unready_tasks` (lines 123-131). */
    method CountByStateName(m: Registry)
      modifies this`knownStatesNames, m`tasksByName
      ensures knownStatesNames == old(knownStatesNames) + StateNamesIn(registry)
      ensures m.tasksByName == old(m.tasksByName) + map p | p in knownStatesNames :: CountStateName(registry, p.0, p.1)
    {
      var cnt := StateNameCounter(registry);
      knownStatesNames := knownStatesNames + cnt.Keys;
      var todo := knownStatesNames;
      while todo != {}
        invariant todo <= knownStatesNames
        invariant knownStatesNames == old(knownStatesNames) + cnt.Keys
        invariant m.tasksByName == Overlay(old(m.tasksByName), knownStatesNames - todo, cnt)
        decreases todo
      {
        var p :| p in todo;
        OverlayOneMore(old(m.tasksByName), knownStatesNames - todo, cnt, p);
        m.tasksByName := m.tasksByName[p := Get(cnt, p)];
        assert knownStatesNames - (todo - {p}) == (knownStatesNames - todo) + {p};
        todo := todo - {p};
      }
      assert knownStatesNames - {} == knownStatesNames;
      assert (map p | p in knownStatesNames :: Get(cnt, p))
          == (map p | p in knownStatesNames :: CountStateName(registry, p.0, p.1));
    }
  }
}
