/**
 * The event-to-metrics reconciliation of MonitorThread, as functions on a
 * snapshot of its state: the task registry (Celery's State.tasks), the two
 * known-label sets and the metric surfaces. The class in TaskMonitor is
 * proved to change its fields exactly as `Step` says.
 */
module TaskEvents {
  import opened Wrappers
  import opened CeleryStates
  import opened Metrics

  /**
   * A decoded Celery event: its type ("task-started", "worker-heartbeat", ...),
   * uuid, the receiver's local_received clock, and the optional `name` and
   * `runtime` fields the exporter reads.
   */
  datatype Event = Event(kind: string, uuid: string, localReceived: int, name: Option<string>, runtime: Option<int>)

  /** What the registry keeps about one tracked task. */
  datatype TaskRecord = TaskRecord(state: TaskState, name: Option<string>, localReceived: int)

  type TaskMap = map<string, TaskRecord>

  /** MonitorThread's state together with the metric surfaces it writes. */
  datatype MonitorState = MonitorState(
    tasks: TaskMap,
    knownStates: set<TaskState>,
    knownStatesNames: set<(TaskState, string)>,
    metrics: Surfaces)

  /** Python truthiness of a task name: present and non-empty. */
  predicate Truthy(name: Option<string>) {
    name.Some? && name.value != ""
  }

  /** The label value prometheus_client makes of a name: `str(name)`, so None becomes "None". */
  function NameLabel(name: Option<string>): string {
    match name
    case Some(n) => n
    case None => "None"
  }

  // ---------------------------------------------------------------------------
  // Aggregation over the registry (the two collections.Counter passes)

  /** The uuids tracked in state `s`. */
  function InState(reg: TaskMap, s: TaskState): set<string> {
    set u | u in reg && reg[u].state == s
  }

  /** The number of tracked tasks in state `s`. */
  function CountState(reg: TaskMap, s: TaskState): nat {
    |InState(reg, s)|
  }

  /** The states that occur in the registry. */
  function StatesIn(reg: TaskMap): set<TaskState> {
    set u | u in reg :: reg[u].state
  }

  /** The uuids tracked in state `s` under the truthy name `n`. */
  function InStateNamed(reg: TaskMap, s: TaskState, n: string): set<string> {
    set u | u in reg && reg[u].state == s && Truthy(reg[u].name) && reg[u].name.value == n
  }

  /** The number of tracked tasks in state `s` whose name is the truthy `n`. */
  function CountStateName(reg: TaskMap, s: TaskState, n: string): nat {
    |InStateNamed(reg, s, n)|
  }

  /** The (state, name) pairs of the tracked tasks that have a truthy name. */
  function StateNamesIn(reg: TaskMap): set<(TaskState, string)> {
    set u | u in reg && Truthy(reg[u].name) :: (reg[u].state, reg[u].name.value)
  }

  /** A state is counted by some task exactly when it occurs in the registry. */
  lemma CountStatePositive(reg: TaskMap, s: TaskState)
    ensures CountState(reg, s) > 0 <==> s in StatesIn(reg)
  {
    if s in StatesIn(reg) {
      var u :| u in reg && reg[u].state == s;
      assert u in InState(reg, s);
    }
    if CountState(reg, s) > 0 {
      var u :| u in InState(reg, s);
      assert reg[u].state in StatesIn(reg);
    }
  }

  /** A (state, name) pair is counted by some task exactly when it occurs in the registry. */
  lemma CountStateNamePositive(reg: TaskMap, s: TaskState, n: string)
    ensures CountStateName(reg, s, n) > 0 <==> (s, n) in StateNamesIn(reg)
  {
    if (s, n) in StateNamesIn(reg) {
      var u :| u in reg && Truthy(reg[u].name) && (reg[u].state, reg[u].name.value) == (s, n);
      assert u in InStateNamed(reg, s, n);
    }
    if CountStateName(reg, s, n) > 0 {
      var u :| u in InStateNamed(reg, s, n);
      assert (reg[u].state, reg[u].name.value) in StateNamesIn(reg);
    }
  }

  /**
   * `collections.Counter(t.state for t in tasks.values())`: its keys are the
   * states present, and looking up any state (0 when absent) gives the number
   * of tracked tasks in it.
   */
  function StateCounter(reg: TaskMap): (cnt: map<TaskState, int>)
    ensures cnt.Keys == StatesIn(reg)
    ensures forall s :: s in cnt ==> cnt[s] > 0
    ensures forall s :: Get(cnt, s) == CountState(reg, s)
  {
    forall s ensures s in StatesIn(reg) <==> CountState(reg, s) > 0 {
      CountStatePositive(reg, s);
    }
    map s | s in StatesIn(reg) :: CountState(reg, s)
  }

  /** `collections.Counter((t.state, t.name) for t in tasks.values() if t.name)` */
  function StateNameCounter(reg: TaskMap): (cnt: map<(TaskState, string), int>)
    ensures cnt.Keys == StateNamesIn(reg)
    ensures forall p :: p in cnt ==> cnt[p] > 0
    ensures forall p :: Get(cnt, p) == CountStateName(reg, p.0, p.1)
  {
    forall p: (TaskState, string) ensures p in StateNamesIn(reg) <==> CountStateName(reg, p.0, p.1) > 0 {
      CountStateNamePositive(reg, p.0, p.1);
    }
    map p | p in StateNamesIn(reg) :: CountStateName(reg, p.0, p.1)
  }

  // ---------------------------------------------------------------------------
  // The steps of _process_event

  /** The event is in the "task" group (line 71). */
  predicate IsTaskEvent(evt: Event) {
    GroupFrom(evt.kind) == "task"
  }

  /** The state named by `evt['type'][5:]`; None is the KeyError of an unknown suffix. */
  function EventState(evt: Event): Option<TaskState> {
    EventToState(SliceFrom(evt.kind, 5))
  }

  /**
   * `_observe_latency`: one sample, the gap between this event's and the
   * previous record's local_received, when the uuid is tracked and its
   * record is still RECEIVED; nothing otherwise (untracked, or a retry).
   */
  function LatencySample(reg: TaskMap, evt: Event): (r: seq<int>)
    ensures r != [] <==> evt.uuid in reg && reg[evt.uuid].state == RECEIVED
    ensures r != [] ==> r == [evt.localReceived - reg[evt.uuid].localReceived]
  {
    if evt.uuid in reg && reg[evt.uuid].state == RECEIVED then
      [evt.localReceived - reg[evt.uuid].localReceived]
    else
      []
  }

  /** The monitor after `_observe_latency`: LATENCY gains LatencySample of the registry. */
  function ObservedLatency(st: MonitorState, evt: Event): MonitorState {
    st.(metrics := st.metrics.(latency := st.metrics.latency + LatencySample(st.tasks, evt)))
  }

  /**
   * Celery's `State._event` for a non-ready task event, reduced to what the
   * exporter reads: the state is overwritten, local_received is taken from
   * the event, and the name is kept from the earlier record when the event
   * carries none. Celery's own precedence merge, which keeps a later-stage
   * state when an earlier-stage event arrives late, is not modelled.
   */
  function Upsert(reg: TaskMap, evt: Event, state: TaskState): (r: TaskMap)
    ensures r.Keys == reg.Keys + {evt.uuid}
    ensures r[evt.uuid].state == state && r[evt.uuid].localReceived == evt.localReceived
    ensures evt.name.Some? ==> r[evt.uuid].name == evt.name
    ensures evt.name.None? && evt.uuid in reg ==> r[evt.uuid].name == reg[evt.uuid].name
    ensures evt.name.None? && evt.uuid !in reg ==> r[evt.uuid].name.None?
    ensures forall u :: u in reg && u != evt.uuid ==> r[u] == reg[u]
  {
    var name := if evt.name.Some? then evt.name
                else if evt.uuid in reg then reg[evt.uuid].name
                else None;
    reg[evt.uuid := TaskRecord(state, name, evt.localReceived)]
  }

  /**
   * `_incr_ready_task`: TASKS[state] goes up by one in every case; a tracked
   * uuid is popped, its (state, name) counter goes up, and its runtime is
   * observed when the event carries one.
   */
  function ReadyCounted(st: MonitorState, evt: Event, state: TaskState): (r: MonitorState)
    ensures r.knownStates == st.knownStates && r.knownStatesNames == st.knownStatesNames
    ensures r.tasks == st.tasks - {evt.uuid}
    ensures r.metrics.tasks == Inc(st.metrics.tasks, state)
    ensures r.metrics.latency == st.metrics.latency && r.metrics.workers == st.metrics.workers
    ensures r.metrics.queueSize == st.metrics.queueSize && r.metrics.queueTasks == st.metrics.queueTasks
  {
    var m := st.metrics.(tasks := Inc(st.metrics.tasks, state));
    if evt.uuid in st.tasks then
      var tag := NameLabel(st.tasks[evt.uuid].name);
      st.(tasks := st.tasks - {evt.uuid},
          metrics := m.(tasksByName := Inc(m.tasksByName, (state, tag)),
                        runtime := if evt.runtime.Some? then Observe(m.runtime, tag, evt.runtime.value)
                                   else m.runtime))
    else
      st.(metrics := m)
  }

  /** `_collect_tasks` before the final recount. */
  function Collected(st: MonitorState, evt: Event, state: TaskState): (r: MonitorState)
    ensures r.knownStates == st.knownStates && r.knownStatesNames == st.knownStatesNames
    ensures IsReady(state) ==> r.tasks == st.tasks - {evt.uuid}
    ensures !IsReady(state) ==> r.tasks == Upsert(st.tasks, evt, state) && r.metrics == st.metrics
    ensures r.metrics.latency == st.metrics.latency && r.metrics.workers == st.metrics.workers
    ensures r.metrics.queueSize == st.metrics.queueSize && r.metrics.queueTasks == st.metrics.queueTasks
  {
    if IsReady(state) then ReadyCounted(st, evt, state)
    else st.(tasks := Upsert(st.tasks, evt, state))
  }

  /**
   * `_collect_unready_tasks`: both known sets absorb what the registry now
   * holds, and every known label is set to the current count (0 when no
   * tracked task has it).
   */
  function UnreadyCounted(st: MonitorState): (r: MonitorState)
    ensures r.tasks == st.tasks
    ensures r.knownStates == st.knownStates + StatesIn(st.tasks)
    ensures r.knownStatesNames == st.knownStatesNames + StateNamesIn(st.tasks)
    ensures r.metrics.runtime == st.metrics.runtime && r.metrics.latency == st.metrics.latency
    ensures r.metrics.workers == st.metrics.workers
    ensures r.metrics.queueSize == st.metrics.queueSize && r.metrics.queueTasks == st.metrics.queueTasks
  {
    var states := st.knownStates + StatesIn(st.tasks);
    var names := st.knownStatesNames + StateNamesIn(st.tasks);
    st.(knownStates := states,
        knownStatesNames := names,
        metrics := st.metrics.(
          tasks := st.metrics.tasks + map s | s in states :: CountState(st.tasks, s),
          tasksByName := st.metrics.tasksByName + map p | p in names :: CountStateName(st.tasks, p.0, p.1)))
  }

  /**
   * `_process_event`: None when the event is in the task group but its
   * suffix is not in Celery's table (the lookup raises and nothing changes).
   */
  function Step(st: MonitorState, evt: Event): (r: Option<MonitorState>)
    ensures !IsTaskEvent(evt) ==> r == Some(st)
    ensures r.None? <==> IsTaskEvent(evt) && EventState(evt).None?
    ensures r.Some? ==> st.knownStates <= r.value.knownStates && st.knownStatesNames <= r.value.knownStatesNames
    ensures r.Some? ==> r.value.metrics.workers == st.metrics.workers
                        && r.value.metrics.queueSize == st.metrics.queueSize
                        && r.value.metrics.queueTasks == st.metrics.queueTasks
  {
    if !IsTaskEvent(evt) then Some(st)
    else match EventState(evt)
      case None => None
      case Some(state) =>
        var st1 := if state == STARTED then ObservedLatency(st, evt) else st;
        Some(UnreadyCounted(Collected(st1, evt, state)))
  }

  /** Events processed in delivery order; None as soon as one raises. */
  function Run(st: MonitorState, evts: seq<Event>): Option<MonitorState>
    decreases |evts|
  {
    if evts == [] then Some(st)
    else match Step(st, evts[0])
      case None => None
      case Some(st1) => Run(st1, evts[1..])
  }

  // ---------------------------------------------------------------------------
  // Invariants

  /**
   * What holds between events: the registry holds only unready tasks, the
   * known sets cover every state and (state, name) pair in the registry, and
   * no ready state ever becomes a known label.
   */
  ghost predicate Inv(st: MonitorState) {
    && (forall u :: u in st.tasks ==> !IsReady(st.tasks[u].state))
    && StatesIn(st.tasks) <= st.knownStates
    && StateNamesIn(st.tasks) <= st.knownStatesNames
    && (forall s :: s in st.knownStates ==> !IsReady(s))
    && (forall p :: p in st.knownStatesNames ==> !IsReady(p.0))
  }

  /** The in-flight gauges agree with the registry on every known label. */
  ghost predicate Consistent(st: MonitorState) {
    && (forall s :: s in st.knownStates ==> s in st.metrics.tasks && st.metrics.tasks[s] == CountState(st.tasks, s))
    && (forall p :: p in st.knownStatesNames ==>
          p in st.metrics.tasksByName && st.metrics.tasksByName[p] == CountStateName(st.tasks, p.0, p.1))
  }

  /** The monitor as constructed: nothing tracked, nothing known. */
  function Initial(metrics: Surfaces): MonitorState {
    MonitorState(map[], {}, {}, metrics)
  }

  lemma InitialInv(metrics: Surfaces)
    ensures Inv(Initial(metrics)) && Consistent(Initial(metrics))
  {
  }

  /** After the recount the gauges agree with the registry, on every known label. */
  lemma UnreadyCountedConsistent(st: MonitorState)
    ensures Consistent(UnreadyCounted(st))
  {
  }

  lemma StatesInUnready(reg: TaskMap)
    requires forall u :: u in reg ==> !IsReady(reg[u].state)
    ensures forall s :: s in StatesIn(reg) ==> !IsReady(s)
    ensures forall p :: p in StateNamesIn(reg) ==> !IsReady(p.0)
  {
  }

  /** The registry holds only unready tasks. */
  ghost predicate AllUnready(reg: TaskMap) {
    forall u :: u in reg ==> !IsReady(reg[u].state)
  }

  /** The recount re-establishes the invariant from an all-unready registry. */
  lemma UnreadyCountedInv(st: MonitorState)
    requires AllUnready(st.tasks)
    requires forall s :: s in st.knownStates ==> !IsReady(s)
    requires forall p :: p in st.knownStatesNames ==> !IsReady(p.0)
    ensures Inv(UnreadyCounted(st))
  {
    StatesInUnready(st.tasks);
  }

  /** Popping or upserting an unready state keeps the registry all-unready. */
  lemma CollectedUnready(st: MonitorState, evt: Event, state: TaskState)
    requires AllUnready(st.tasks)
    ensures AllUnready(Collected(st, evt, state).tasks)
  {
    var reg := Collected(st, evt, state).tasks;
    if !IsReady(state) {
      assert reg == Upsert(st.tasks, evt, state);
      forall u | u in reg ensures !IsReady(reg[u].state) {
        if u != evt.uuid {
          assert reg[u] == st.tasks[u];
        }
      }
    }
  }

  /** Every processed event keeps the invariant. */
  lemma StepKeepsInv(st: MonitorState, evt: Event)
    requires Inv(st) && Step(st, evt).Some?
    ensures Inv(Step(st, evt).value)
  {
    if IsTaskEvent(evt) {
      var state := EventState(evt).value;
      var st1 := if state == STARTED then ObservedLatency(st, evt) else st;
      assert st1.tasks == st.tasks && st1.knownStates == st.knownStates && st1.knownStatesNames == st.knownStatesNames;
      CollectedUnready(st1, evt, state);
      var st2 := Collected(st1, evt, state);
      UnreadyCountedInv(st2);
      assert Step(st, evt).value == UnreadyCounted(st2);
    }
  }

  /** After a task event the in-flight gauges agree with the registry. */
  lemma StepConsistent(st: MonitorState, evt: Event)
    requires IsTaskEvent(evt) && Step(st, evt).Some?
    ensures Consistent(Step(st, evt).value)
  {
    var state := EventState(evt).value;
    var st1 := if state == STARTED then ObservedLatency(st, evt) else st;
    UnreadyCountedConsistent(Collected(st1, evt, state));
  }

  // ---------------------------------------------------------------------------
  // What one event does

  /**
   * A ready-state event: TASKS[state] goes up by exactly one whether or not
   * the uuid was tracked; the uuid is no longer tracked; TASKS_NAME[state, *]
   * goes up by one only at the popped record's name, and only when the uuid
   * was tracked; a runtime is observed only for a tracked uuid whose event
   * carries one. Latency is untouched.
   */
  lemma ReadyEvent(st: MonitorState, evt: Event, state: TaskState)
    requires Inv(st) && IsTaskEvent(evt) && EventState(evt) == Some(state) && IsReady(state)
    ensures Step(st, evt).Some?
    ensures var r := Step(st, evt).value;
      && Get(r.metrics.tasks, state) == Get(st.metrics.tasks, state) + 1
      && evt.uuid !in r.tasks
      && (forall n :: Get(r.metrics.tasksByName, (state, n)) ==
            Get(st.metrics.tasksByName, (state, n))
            + (if evt.uuid in st.tasks && n == NameLabel(st.tasks[evt.uuid].name) then 1 else 0))
      && r.metrics.runtime == (if evt.uuid in st.tasks && evt.runtime.Some?
                               then Observe(st.metrics.runtime, NameLabel(st.tasks[evt.uuid].name), evt.runtime.value)
                               else st.metrics.runtime)
      && r.metrics.latency == st.metrics.latency
  {
    ReadyStepOutsideKnown(st, evt, state, state);
    ReadyCountedEffect(st, evt, state);
  }

  /** The ready-counting update alone, before the in-flight recount. */
  lemma ReadyCountedEffect(st: MonitorState, evt: Event, state: TaskState)
    ensures var r := ReadyCounted(st, evt, state);
      && Get(r.metrics.tasks, state) == Get(st.metrics.tasks, state) + 1
      && (forall n :: Get(r.metrics.tasksByName, (state, n)) ==
            Get(st.metrics.tasksByName, (state, n))
            + (if evt.uuid in st.tasks && n == NameLabel(st.tasks[evt.uuid].name) then 1 else 0))
      && r.metrics.runtime == (if evt.uuid in st.tasks && evt.runtime.Some?
                               then Observe(st.metrics.runtime, NameLabel(st.tasks[evt.uuid].name), evt.runtime.value)
                               else st.metrics.runtime)
  {
  }

  /**
   * A ready event's step is the ready-counting update followed by the
   * in-flight recount, and the recount leaves every ready state's series alone.
   */
  lemma ReadyStepOutsideKnown(st: MonitorState, evt: Event, state: TaskState, s: TaskState)
    requires Inv(st) && IsTaskEvent(evt) && EventState(evt) == Some(state) && IsReady(state) && IsReady(s)
    ensures var r := UnreadyCounted(ReadyCounted(st, evt, state));
      && Step(st, evt) == Some(r)
      && Get(r.metrics.tasks, s) == Get(ReadyCounted(st, evt, state).metrics.tasks, s)
      && forall n :: Get(r.metrics.tasksByName, (s, n)) == Get(ReadyCounted(st, evt, state).metrics.tasksByName, (s, n))
  {
    var st2 := Collected(st, evt, state);
    assert st2 == ReadyCounted(st, evt, state);
    CollectedUnready(st, evt, state);
    StatesInUnready(st2.tasks);
    var r := UnreadyCounted(st2);
    forall n ensures (s, n) !in r.knownStatesNames {
    }
  }

  /**
   * A non-ready event is upserted: afterwards the uuid is tracked with the
   * event's state, the other records are as they were, and the ready-state
   * counters are untouched.
   */
  lemma UnreadyEvent(st: MonitorState, evt: Event, state: TaskState)
    requires Inv(st) && IsTaskEvent(evt) && EventState(evt) == Some(state) && !IsReady(state)
    ensures Step(st, evt).Some?
    ensures var r := Step(st, evt).value;
      && r.tasks == Upsert(st.tasks, evt, state)
      && evt.uuid in r.tasks && r.tasks[evt.uuid].state == state
      && (forall s :: IsReady(s) ==> Get(r.metrics.tasks, s) == Get(st.metrics.tasks, s))
      && (forall s, n :: IsReady(s) ==> Get(r.metrics.tasksByName, (s, n)) == Get(st.metrics.tasksByName, (s, n)))
      && r.metrics.runtime == st.metrics.runtime
  {
    var st1 := if state == STARTED then ObservedLatency(st, evt) else st;
    var st2 := Collected(st1, evt, state);
    var r := UnreadyCounted(st2);
    assert Step(st, evt) == Some(r);
    CollectedUnready(st1, evt, state);
    StatesInUnready(st2.tasks);
    forall s | IsReady(s) ensures Get(r.metrics.tasks, s) == Get(st.metrics.tasks, s) {
      assert s !in r.knownStates;
    }
    forall s, n | IsReady(s) ensures Get(r.metrics.tasksByName, (s, n)) == Get(st.metrics.tasksByName, (s, n)) {
      assert (s, n) !in r.knownStatesNames;
    }
  }

  /**
   * Latency: a STARTED event appends exactly LatencySample of the registry as
   * it was before the event (one sample iff the uuid was tracked as
   * RECEIVED); every other event leaves the latency histogram alone.
   */
  lemma LatencyObserved(st: MonitorState, evt: Event)
    requires Step(st, evt).Some?
    ensures Step(st, evt).value.metrics.latency ==
      if IsTaskEvent(evt) && EventState(evt) == Some(STARTED)
      then st.metrics.latency + LatencySample(st.tasks, evt)
      else st.metrics.latency
  {
    if IsTaskEvent(evt) {
      var state := EventState(evt).value;
      var st1 := if state == STARTED then ObservedLatency(st, evt) else st;
      var st2 := Collected(st1, evt, state);
      assert Step(st, evt) == Some(UnreadyCounted(st2));
    }
  }

  /**
   * `_process_event` on a STARTED event: LATENCY gains the gap to the
   * tracked record's local_received exactly when that record is RECEIVED,
   * and is left alone otherwise (untracked uuid, or a retry in between).
   */
  lemma StartedLatency(st: MonitorState, evt: Event)
    requires IsTaskEvent(evt) && EventState(evt) == Some(STARTED)
    ensures Step(st, evt).Some?
    ensures evt.uuid in st.tasks && st.tasks[evt.uuid].state == RECEIVED ==>
      Step(st, evt).value.metrics.latency == st.metrics.latency + [evt.localReceived - st.tasks[evt.uuid].localReceived]
    ensures !(evt.uuid in st.tasks && st.tasks[evt.uuid].state == RECEIVED) ==>
      Step(st, evt).value.metrics.latency == st.metrics.latency
  {
    LatencyObserved(st, evt);
  }

  /** An event for another uuid leaves this uuid's record (or its absence) alone. */
  lemma OtherTaskUntouched(st: MonitorState, evt: Event, u: string)
    requires Step(st, evt).Some? && evt.uuid != u
    ensures var r := Step(st, evt).value;
      (u in r.tasks <==> u in st.tasks) && (u in st.tasks ==> r.tasks[u] == st.tasks[u])
  {
    if IsTaskEvent(evt) {
      var state := EventState(evt).value;
      var st1 := if state == STARTED then ObservedLatency(st, evt) else st;
      var st2 := Collected(st1, evt, state);
      assert Step(st, evt) == Some(UnreadyCounted(st2));
    }
  }

  // ---------------------------------------------------------------------------
  // What a stream of events does

  /** The number of events in `evts` that are task events mapping to `s`. */
  function CountEvents(evts: seq<Event>, s: TaskState): nat {
    if evts == [] then 0
    else (if IsTaskEvent(evts[0]) && EventState(evts[0]) == Some(s) then 1 else 0) + CountEvents(evts[1..], s)
  }

  /** The invariant holds after any stream of events that does not raise. */
  lemma {:induction false} RunKeepsInv(st: MonitorState, evts: seq<Event>)
    requires Inv(st) && Run(st, evts).Some?
    ensures Inv(Run(st, evts).value)
    decreases |evts|
  {
    if evts != [] {
      StepKeepsInv(st, evts[0]);
      RunKeepsInv(Step(st, evts[0]).value, evts[1..]);
    }
  }

  /**
   * Ready counters are never lost: after a stream, TASKS[s] for a ready
   * state has gone up by exactly the number of s-events in it.
   */
  lemma {:induction false} ReadyCountersAccumulate(st: MonitorState, evts: seq<Event>, s: TaskState)
    requires Inv(st) && Run(st, evts).Some? && IsReady(s)
    ensures Get(Run(st, evts).value.metrics.tasks, s) == Get(st.metrics.tasks, s) + CountEvents(evts, s)
    decreases |evts|
  {
    if evts != [] {
      var e := evts[0];
      var st1 := Step(st, e).value;
      if IsTaskEvent(e) {
        var state := EventState(e).value;
        if IsReady(state) {
          ReadyEvent(st, e, state);
          if state != s {
            ReadyEventOtherState(st, e, state, s);
          }
        } else {
          UnreadyEvent(st, e, state);
        }
      }
      StepKeepsInv(st, e);
      ReadyCountersAccumulate(st1, evts[1..], s);
    }
  }

  /** A ready event for one state leaves the counter of another ready state alone. */
  lemma ReadyEventOtherState(st: MonitorState, evt: Event, state: TaskState, s: TaskState)
    requires Inv(st) && IsTaskEvent(evt) && EventState(evt) == Some(state) && IsReady(state)
    requires IsReady(s) && s != state
    ensures Step(st, evt).Some? && Get(Step(st, evt).value.metrics.tasks, s) == Get(st.metrics.tasks, s)
  {
    ReadyStepOutsideKnown(st, evt, state, s);
  }

  /**
   * Last write wins: if the last event for `u` in a stream is a non-ready
   * task event, `u` is tracked afterwards with that event's state, whatever
   * came before it.
   */
  lemma LastEventWins(st: MonitorState, pre: seq<Event>, e: Event, post: seq<Event>, u: string)
    requires Inv(st) && Run(st, pre + [e] + post).Some?
    requires e.uuid == u && IsTaskEvent(e) && EventState(e).Some? && !IsReady(EventState(e).value)
    requires forall x :: x in post ==> x.uuid != u
    ensures var r := Run(st, pre + [e] + post).value;
      u in r.tasks && r.tasks[u].state == EventState(e).value
  {
    var state := EventState(e).value;
    RunSplit(st, pre + [e], post);
    RunSplit(st, pre, [e]);
    var mid := Run(st, pre).value;
    RunKeepsInv(st, pre);
    UnreadyEvent(mid, e, state);
    assert Run(mid, [e]) == Step(mid, e);
    RunUntouched(Run(st, pre + [e]).value, post, u);
  }

  /** Events for other uuids leave a task's record as it was. */
  lemma {:induction false} RunUntouched(st: MonitorState, evts: seq<Event>, u: string)
    requires Run(st, evts).Some? && forall x :: x in evts ==> x.uuid != u
    ensures var r := Run(st, evts).value;
      (u in r.tasks <==> u in st.tasks) && (u in st.tasks ==> r.tasks[u] == st.tasks[u])
    decreases |evts|
  {
    if evts != [] {
      OtherTaskUntouched(st, evts[0], u);
      RunUntouched(Step(st, evts[0]).value, evts[1..], u);
    }
  }


  /** Running a concatenation is running the two halves in turn. */
  lemma {:induction false} RunSplit(st: MonitorState, a: seq<Event>, b: seq<Event>)
    requires Run(st, a + b).Some?
    ensures Run(st, a).Some? && Run(st, a + b) == Run(Run(st, a).value, b)
    decreases |a|
  {
    if a == [] {
      assert a + b == b;
    } else {
      assert (a + b)[0] == a[0] && (a + b)[1..] == a[1..] + b;
      var st1 := Step(st, a[0]).value;
      assert Run(st, a + b) == Run(st1, a[1..] + b);
      RunSplit(st1, a[1..], b);
      assert Run(st, a) == Run(st1, a[1..]);
    }
  }

  lemma ReceivedKind(e: Event)
    requires e.kind == "task-received"
    ensures IsTaskEvent(e) && EventState(e) == Some(RECEIVED)
  {
    TaskGroupIf(e.kind);
    assert SliceFrom(e.kind, 5) == "received";
  }

  lemma StartedKind(e: Event)
    requires e.kind == "task-started"
    ensures IsTaskEvent(e) && EventState(e) == Some(STARTED)
  {
    TaskGroupIf(e.kind);
    assert SliceFrom(e.kind, 5) == "started";
  }

  lemma RetriedKind(e: Event)
    requires e.kind == "task-retried"
    ensures IsTaskEvent(e) && EventState(e) == Some(RETRY)
  {
    TaskGroupIf(e.kind);
    assert SliceFrom(e.kind, 5) == "retried";
  }

  /** The registry after one recognised task event: popped when ready, upserted otherwise. */
  lemma StepTasks(st: MonitorState, evt: Event, state: TaskState)
    requires IsTaskEvent(evt) && EventState(evt) == Some(state)
    ensures Step(st, evt).Some?
    ensures Step(st, evt).value.tasks == if IsReady(state) then st.tasks - {evt.uuid} else Upsert(st.tasks, evt, state)
  {
    var st1 := if state == STARTED then ObservedLatency(st, evt) else st;
    assert Step(st, evt) == Some(UnreadyCounted(Collected(st1, evt, state)));
  }

  /** Running a non-empty stream is one step, then the rest. */
  lemma RunCons(st: MonitorState, evts: seq<Event>)
    requires evts != [] && Step(st, evts[0]).Some?
    ensures Run(st, evts) == Run(Step(st, evts[0]).value, evts[1..])
  {
  }

  /** A RECEIVED event followed by a STARTED event for the same task yields one sample: their gap. */
  lemma ReceivedThenStartedLatency(st: MonitorState, e0: Event, e1: Event)
    requires IsTaskEvent(e0) && EventState(e0) == Some(RECEIVED)
    requires IsTaskEvent(e1) && EventState(e1) == Some(STARTED) && e1.uuid == e0.uuid
    ensures Run(st, [e0, e1]).Some?
    ensures Run(st, [e0, e1]).value.metrics.latency == st.metrics.latency + [e1.localReceived - e0.localReceived]
  {
    StepTasks(st, e0, RECEIVED);
    var st1 := Step(st, e0).value;
    assert st1.tasks[e0.uuid].state == RECEIVED && st1.tasks[e0.uuid].localReceived == e0.localReceived;
    assert LatencySample(st1.tasks, e1) == [e1.localReceived - e0.localReceived];
    StepTasks(st1, e1, STARTED);
    var st2 := Step(st1, e1).value;
    LatencyObserved(st, e0);
    LatencyObserved(st1, e1);
    assert st2.metrics.latency == st.metrics.latency + [e1.localReceived - e0.localReceived];
    RunCons(st, [e0, e1]);
    assert [e0, e1][1..] == [e1];
    RunCons(st1, [e1]);
    assert Run(st2, []) == Some(st2);
  }

  /** RECEIVED, then RETRY, then STARTED for the same task: the retry hides RECEIVED, no sample. */
  lemma RetryThenStartedLatency(st: MonitorState, e0: Event, e1: Event, e2: Event)
    requires IsTaskEvent(e0) && EventState(e0) == Some(RECEIVED)
    requires IsTaskEvent(e1) && EventState(e1) == Some(RETRY) && e1.uuid == e0.uuid
    requires IsTaskEvent(e2) && EventState(e2) == Some(STARTED) && e2.uuid == e0.uuid
    ensures Run(st, [e0, e1, e2]).Some?
    ensures Run(st, [e0, e1, e2]).value.metrics.latency == st.metrics.latency
  {
    StepTasks(st, e0, RECEIVED);
    var st1 := Step(st, e0).value;
    StepTasks(st1, e1, RETRY);
    var st2 := Step(st1, e1).value;
    StepTasks(st2, e2, STARTED);
    var st3 := Step(st2, e2).value;
    LatencyObserved(st, e0);
    LatencyObserved(st1, e1);
    LatencyObserved(st2, e2);
    RunCons(st, [e0, e1, e2]);
    assert [e0, e1, e2][1..] == [e1, e2];
    RunCons(st1, [e1, e2]);
    assert [e1, e2][1..] == [e2];
    RunCons(st2, [e2]);
    assert Run(st3, []) == Some(st3);
  }

  /** "task-received" then "task-started" for one uuid: one latency sample, their gap. */
  lemma ReceivedThenStarted(st: MonitorState, e0: Event, e1: Event)
    requires e0.kind == "task-received" && e1.kind == "task-started" && e1.uuid == e0.uuid
    ensures Run(st, [e0, e1]).Some?
    ensures Run(st, [e0, e1]).value.metrics.latency == st.metrics.latency + [e1.localReceived - e0.localReceived]
  {
    ReceivedKind(e0);
    StartedKind(e1);
    ReceivedThenStartedLatency(st, e0, e1);
  }

  /** "task-received", "task-retried", then "task-started" for one uuid: no latency sample. */
  lemma RetryThenStarted(st: MonitorState, e0: Event, e1: Event, e2: Event)
    requires e0.kind == "task-received" && e1.kind == "task-retried" && e2.kind == "task-started"
    requires e1.uuid == e0.uuid && e2.uuid == e0.uuid
    ensures Run(st, [e0, e1, e2]).Some? && Run(st, [e0, e1, e2]).value.metrics.latency == st.metrics.latency
  {
    ReceivedKind(e0);
    RetriedKind(e1);
    StartedKind(e2);
    RetryThenStartedLatency(st, e0, e1, e2);
  }
}
