# celery-prometheus-exporter, modelled in Dafny

This project models the metric logic of `celery_prometheus_exporter.py`.
That module is a Prometheus exporter for Celery. It listens to Celery's task events and keeps these surfaces up to date:

- the gauges `celery_tasks` (TASKS), `celery_tasks_by_name` (TASKS_NAME), `celery_workers` (WORKERS), `celery_queue_size` (QUEUE_SIZE) and `celery_queue_tasks` (QUEUE_TASKS);
- the histograms `celery_tasks_runtime_seconds` (TASKS_RUNTIME) and `celery_task_latency` (LATENCY).

It also polls the workers and the Redis queues.

The modules follow the program:

- `Metrics` (metrics.dfy) holds the metric surfaces.
  - Each labelled gauge is a map from label tuple to value, and each histogram is the sequence of values observed.
  - A `Registry` class holds these surfaces, and every monitor updates it in place.
  - It also models `_reset_metrics`.
- `CeleryStates` (celery_states.dfy) holds the part of Celery's vocabulary the exporter reads: task states, READY_STATES, ALL_STATES, the event-to-state table and `group_from`.
- `TaskEvents` (task_events.dfy) specifies the event pipeline of `MonitorThread` as pure functions:
  - `Step` for one event and `Run` for a stream;
  - the registry invariant `Inv` and the gauge consistency `Consistent`;
  - lemmas about single events and about streams.
- `TaskMonitor` (task_monitor.dfy) is `MonitorThread`'s event handling as a class.
  - The class holds the task registry and the two known-label sets.
  - Each handler is a method, proved to change the fields and the registry exactly as `TaskEvents` says.
- `QueueMonitor` (queues.dfy) holds `chunks`, `get_queue_names`, `get_tasks_stat` and `update_queues_metrics`.
  - The pass over the queues is a method with loops, proved against `PublishedSizes`, `PublishedTasks` and `AfterPass`.
- `Baseline` (baseline.dfy) holds `setup_metrics` and `WorkerMonitoringThread.update_workers_count`.

Calls into Celery, Redis and the JSON decoder are parameters:

- the inspection replies are `Option` values, with `None` standing for a call that raised;
- the pipeline replies are a sequence of `Reply` values;
- `json.loads` is a function `decode` from payload to `Decoded`.

## Model

| member | source | states |
|---|---|---|
| Metrics.Inc | celery_prometheus_exporter.py:105 | `labels(k).inc()` creates the series at 1 if absent, otherwise adds one; no other series changes |
| Metrics.Observe | celery_prometheus_exporter.py:111-112 | a histogram observation appends the value to that label's samples and leaves other labels alone |
| Metrics.Registry.constructor | celery_prometheus_exporter.py:26-45 | at import time every metric exists with no series; WORKERS reads 0 |
| Metrics.ResetMetrics | celery_prometheus_exporter.py:279-288 | every existing series whose labels are not in the known set (all of them when none is given) becomes 0; the rest keep their value; no series is added or removed |
| CeleryStates.EventToState | celery_prometheus_exporter.py:72-75 | the lookup of an event suffix in Celery's table is the inverse of the state-to-suffix table: it finds exactly the state whose suffix it is, and None (the KeyError) otherwise |
| CeleryStates.GroupFrom | celery_prometheus_exporter.py:71 | the group is a dash-free prefix of the type that ends at the end of the type or at its first '-' |
| CeleryStates.TaskGroupIf | celery_prometheus_exporter.py:71 | every type that is "task" or starts with "task-" is in the task group |
| CeleryStates.GroupFromPrefix | celery_prometheus_exporter.py:71 | the group is exactly the dash-free prefix that ends at a '-' or at the end |
| TaskEvents.CountStatePositive | celery_prometheus_exporter.py:118 | a state has a non-zero count exactly when some tracked task is in it |
| TaskEvents.CountStateNamePositive | celery_prometheus_exporter.py:124-125 | a (state, name) pair has a non-zero count exactly when some tracked task with that truthy name is in that state |
| TaskEvents.StateCounter | celery_prometheus_exporter.py:118 | the Counter's keys are the states present and each lookup is the number of tracked tasks in that state |
| TaskEvents.StateNameCounter | celery_prometheus_exporter.py:124-125 | the Counter's keys are the (state, truthy name) pairs present and each lookup is the number of tracked tasks with that pair; unnamed tasks are not counted |
| TaskEvents.Upsert | celery_prometheus_exporter.py:101 | after the upsert the uuid is tracked with the event's state and local_received; a missing name is kept from the earlier record, or stays absent for a new record; other records are unchanged |
| TaskEvents.ReadyCounted | celery_prometheus_exporter.py:104-114 | TASKS[state] + 1 in every case; the uuid is no longer tracked; the known sets, LATENCY, WORKERS and the queue gauges are unchanged (its TASKS_NAME and TASKS_RUNTIME effects are stated by ReadyCountedEffect) |
| TaskEvents.Collected | celery_prometheus_exporter.py:96-101 | a ready state untracks the uuid; an unready state upserts it and leaves every metric unchanged; either way the known sets, LATENCY, WORKERS and the queue gauges are unchanged |
| TaskEvents.UnreadyCounted | celery_prometheus_exporter.py:116-131 | the known sets absorb the registry's states and (state, name) pairs, and every known label is set to its current count, 0 when no task has it |
| TaskEvents.Step | celery_prometheus_exporter.py:67-83 | a non-task event changes nothing; an unknown suffix raises (None); otherwise latency is observed for STARTED, then the event is collected and recounted |
| TaskEvents.InitialInv | celery_prometheus_exporter.py:58-61 | the freshly built monitor satisfies the registry invariant and gauge consistency |
| TaskEvents.UnreadyCountedConsistent | celery_prometheus_exporter.py:116-131 | after the recount every known label's gauge equals its count in the registry |
| TaskEvents.StatesInUnready | celery_prometheus_exporter.py:116-131 | a registry of unready tasks yields only unready states and (state, name) pairs |
| TaskEvents.UnreadyCountedInv | celery_prometheus_exporter.py:116-131 | the recount re-establishes the invariant over an all-unready registry |
| TaskEvents.CollectedUnready | celery_prometheus_exporter.py:96-101 | popping a ready task or upserting an unready one keeps the registry all-unready |
| TaskEvents.StepKeepsInv | celery_prometheus_exporter.py:67-131 | every processed event preserves the invariant: only unready tasks are tracked, the known sets cover the registry, and no ready state is ever a known label |
| TaskEvents.StepConsistent | celery_prometheus_exporter.py:67-131 | after any task event the in-flight gauges equal the registry's counts on every known label |
| TaskEvents.ReadyEvent | celery_prometheus_exporter.py:96-114 | a ready event raises TASKS[state] by exactly one and untracks the uuid; TASKS_NAME[state, name] rises by one and a runtime is observed only for a tracked uuid; latency is untouched |
| TaskEvents.ReadyCountedEffect | celery_prometheus_exporter.py:104-114 | the ready count alone: +1 on TASKS[state], +1 on the popped name's TASKS_NAME series, and the runtime observation |
| TaskEvents.ReadyStepOutsideKnown | celery_prometheus_exporter.py:96-102 | a ready event's step is the ready count then the recount, and the recount leaves every ready state's series alone |
| TaskEvents.UnreadyEvent | celery_prometheus_exporter.py:96-102 | an unready event tracks the uuid with the event's state, leaves other records alone and leaves every ready state's TASKS and TASKS_NAME series and TASKS_RUNTIME untouched |
| TaskEvents.LatencyObserved | celery_prometheus_exporter.py:81-94 | a STARTED event appends exactly LatencySample of the registry as it was before the event; any other event leaves LATENCY alone |
| TaskEvents.StartedLatency | celery_prometheus_exporter.py:81-94 | a STARTED event adds one LATENCY sample, the gap to the tracked local_received, exactly when the task is tracked as RECEIVED, and none otherwise |
| TaskEvents.OtherTaskUntouched | celery_prometheus_exporter.py:96-114 | an event for another uuid leaves this uuid's record, or its absence, alone |
| TaskEvents.RunKeepsInv | celery_prometheus_exporter.py:67-131 | the invariant holds after any stream of events that does not raise |
| TaskEvents.ReadyCountersAccumulate | celery_prometheus_exporter.py:104-105 | over a stream, TASKS[s] for a ready state s rises by exactly the number of s-events: ready counts are never lost or reset by the recount |
| TaskEvents.ReadyEventOtherState | celery_prometheus_exporter.py:96-131 | a ready event for one state leaves another ready state's TASKS series alone |
| TaskEvents.LastEventWins | celery_prometheus_exporter.py:96-101 | if a task's last event in a stream is an unready task event, the task ends up tracked in that event's state, whatever came before |
| TaskEvents.RunUntouched | celery_prometheus_exporter.py:96-114 | a stream of events for other uuids leaves a task's record as it was |
| TaskEvents.RunSplit | celery_prometheus_exporter.py:67-83 | processing a concatenation of streams is processing the halves in turn |
| TaskEvents.ReceivedKind | celery_prometheus_exporter.py:71-75 | a "task-received" event is a task event mapping to RECEIVED |
| TaskEvents.StartedKind | celery_prometheus_exporter.py:71-75 | a "task-started" event is a task event mapping to STARTED |
| TaskEvents.RetriedKind | celery_prometheus_exporter.py:71-75 | a "task-retried" event is a task event mapping to RETRY |
| TaskEvents.StepTasks | celery_prometheus_exporter.py:96-101 | the registry after a recognised task event is the uuid popped (ready) or upserted (unready) |
| TaskEvents.ReceivedThenStartedLatency | celery_prometheus_exporter.py:85-94 | RECEIVED then STARTED for the same task, from any prior state under the overwrite upsert of TaskEvents.Upsert, records one latency sample, the gap between their local_received values |
| TaskEvents.RetryThenStartedLatency | celery_prometheus_exporter.py:91-92 | RECEIVED, RETRY, then STARTED for the same task records no latency sample, because the retry hides the RECEIVED record |
| TaskEvents.ReceivedThenStarted | celery_prometheus_exporter.py:85-94 | the same as ReceivedThenStartedLatency, stated for the event types "task-received" and "task-started" |
| TaskEvents.RetryThenStarted | celery_prometheus_exporter.py:91-92 | the same as RetryThenStartedLatency, stated for the event types "task-received", "task-retried" and "task-started" |
| TaskMonitor.Monitor.constructor | celery_prometheus_exporter.py:58-61 | a new monitor tracks nothing and knows no labels |
| TaskMonitor.Monitor.ProcessEvent | celery_prometheus_exporter.py:67-83 | the method does exactly what Step does, and fails exactly when Step raises, changing nothing then; a non-task event changes nothing; afterwards the gauges are consistent and the invariant is kept |
| TaskMonitor.Monitor.ObserveLatency | celery_prometheus_exporter.py:85-94 | LATENCY gains exactly LatencySample of the current registry |
| TaskMonitor.Monitor.CollectTasks | celery_prometheus_exporter.py:96-102 | the new monitor and metrics are UnreadyCounted(Collected(old state)) |
| TaskMonitor.Monitor.IncrReadyTask | celery_prometheus_exporter.py:104-114 | the new monitor and metrics are ReadyCounted(old state) |
| TaskMonitor.Monitor.CollectUnreadyTasks | celery_prometheus_exporter.py:116-131 | the new monitor and metrics are UnreadyCounted(old state) |
| TaskMonitor.Monitor.CountByState | celery_prometheus_exporter.py:117-121 | the known states grow by the registry's states, and TASKS is overlaid with each known state's count |
| TaskMonitor.Monitor.CountByStateName | celery_prometheus_exporter.py:123-131 | the known pairs grow by the registry's (state, name) pairs, and TASKS_NAME is overlaid with each known pair's count |
| QueueMonitor.Chunks | celery_prometheus_exporter.py:291-293 | the chunks concatenate back to the input; each is non-empty and at most n long, and all but the last are exactly n long |
| QueueMonitor.PairsOfWellFormed | celery_prometheus_exporter.py:194 | pipeline replies in chunks of 2 give pairs where pair i is replies 2i and 2i + 1 |
| QueueMonitor.PairsShape | celery_prometheus_exporter.py:194 | every chunk of well-formed replies is a length followed by a listing |
| QueueMonitor.PairsShift | celery_prometheus_exporter.py:194 | prepending one (length, listing) pair shifts every later pair by two replies |
| QueueMonitor.Zip | celery_prometheus_exporter.py:194 | `zip` stops at the shorter input and pairs equal positions |
| QueueMonitor.Samples | celery_prometheus_exporter.py:194 | the i-th queue name is paired with the i-th (length, listing) pair, for as many queues as both sequences cover |
| QueueMonitor.TaskNames | celery_prometheus_exporter.py:226-236 | at most one task name per payload |
| QueueMonitor.TasksStat | celery_prometheus_exporter.py:226-236 | every tallied task has a positive count |
| QueueMonitor.TasksStatCounts | celery_prometheus_exporter.py:226-236 | the tally is the multiset of task names carried by decodable payloads with `headers.task`; a task is a key exactly when some payload names it; the total is at most the number of payloads |
| QueueMonitor.SkipsUnnamed | celery_prometheus_exporter.py:229-235 | a payload that fails to decode or lacks `headers.task` can be removed without changing the tally |
| QueueMonitor.SameNamesSameTally | celery_prometheus_exporter.py:226-236 | the tally depends only on the sequence of task names the payloads carry |
| QueueMonitor.TaskNamesDrop | celery_prometheus_exporter.py:229-235 | dropping an unnamed payload leaves the name sequence unchanged |
| QueueMonitor.GetQueueNames | celery_prometheus_exporter.py:205-213 | the loop returns QueueNamesOf: every worker's queue names, worker after worker |
| QueueMonitor.QueueNamesMembership | celery_prometheus_exporter.py:205-213 | a name is listed exactly when some worker reports a queue of that name |
| QueueMonitor.QueueNamesKeepsDuplicates | celery_prometheus_exporter.py:208-211 | names are not deduplicated: two workers on one queue list it twice |
| QueueMonitor.PublishedSizesLast | celery_prometheus_exporter.py:194-196 | a queue's size is published exactly when some sample names it, and then it is the size of the last such sample |
| QueueMonitor.LabelledEntries | celery_prometheus_exporter.py:198-200 | one queue's QUEUE_TASKS values are (queue, task) -> count, one per task in its tally, and nothing else |
| QueueMonitor.PublishedTasksKeys | celery_prometheus_exporter.py:194-200 | a (queue, task) series is published exactly when some sample of that queue holds a payload naming the task |
| QueueMonitor.PublishedTasksLast | celery_prometheus_exporter.py:194-200 | a published (queue, task) series holds the count from the last sample of that queue whose tally names the task; a later sample of the same queue that does not name it leaves the series alone |
| QueueMonitor.NamedInSnoc | celery_prometheus_exporter.py:194-200 | a (queue, task) is named in samples plus one more exactly when it is named in the earlier samples or in the new one |
| QueueMonitor.PublishStep | celery_prometheus_exporter.py:194-200 | publishing sample i on top of the gauges after the first i samples gives the gauges after i + 1, and the known sets grow accordingly |
| QueueMonitor.AfterPass | celery_prometheus_exporter.py:194-203 | after a pass each published series holds its new value, every other pre-existing series reads 0, and no series disappears |
| QueueMonitor.SetQueueTasks | celery_prometheus_exporter.py:198-200 | QUEUE_TASKS gains exactly (queue, task) -> count for the tally, and the labels returned are those keys |
| QueueMonitor.PublishQueue | celery_prometheus_exporter.py:194-200 | one iteration sets QUEUE_SIZE[queue] and the queue's task tallies, and returns the labels it set |
| QueueMonitor.PublishSamples | celery_prometheus_exporter.py:191-200 | after the loop QUEUE_SIZE and QUEUE_TASKS are overlaid with PublishedSizes and PublishedTasks of the zipped samples, and the known sets are exactly their keys |
| QueueMonitor.UpdateQueuesMetrics | celery_prometheus_exporter.py:187-203 | succeeds exactly when both worker inspection and the Redis pipeline answer; a failure changes nothing; on success both queue gauges are AfterPass of what the pass published |
| Baseline.RegisteredNames | celery_prometheus_exporter.py:275 | `set(chain.from_iterable(...))` holds a name exactly when some worker registered it |
| Baseline.SetNameZeros | celery_prometheus_exporter.py:275-276 | for one state, every registered name's TASKS_NAME series is 0, and no other series changes |
| Baseline.SetupMetrics | celery_prometheus_exporter.py:259-276 | WORKERS, TASKS and TASKS_NAME become exactly what Setup gives; nothing else changes |
| Baseline.SetupExposesBaseline | celery_prometheus_exporter.py:273-276 | after a successful setup: WORKERS is 0; every ALL_STATES state and every (state, registered name) reads 0; no series disappears; series outside the grid keep their value |
| Baseline.SetupAddsOnlyGrid | celery_prometheus_exporter.py:273-276 | setup adds no series other than ALL_STATES states and (state, registered name) pairs |
| Baseline.SetupFailureZeroes | celery_prometheus_exporter.py:269-271 | when inspection raises, both task gauges keep their series and all of them read 0; WORKERS is 0 |
| Baseline.SetupLeavesOthers | celery_prometheus_exporter.py:259-276 | setup never touches TASKS_RUNTIME, LATENCY, QUEUE_SIZE or QUEUE_TASKS |
| Baseline.SetupIdempotent | celery_prometheus_exporter.py:259-276 | running setup twice with the same inspection reply is the same as running it once |
| Baseline.UpdateWorkersCount | celery_prometheus_exporter.py:163-168 | WORKERS becomes the number of ping replies; a ping that raises leaves it unchanged |
| Baseline.WorkersLatestAnswer | celery_prometheus_exporter.py:163-168 | over a run of pings, WORKERS is the reply count of the latest successful ping, or the earlier value if none succeeded |

## Left out

- Threads, the infinite polling loops, `time.sleep` and the `_state._mutex` lock. Each handler is modelled as running alone, one after another.
- Celery's `State._event` is reduced to what the exporter reads:
  - the record's state;
  - the record's name, kept when a later event carries none;
  - the record's local_received.
- Celery's `max_tasks_in_memory` eviction is not modelled.
- Events always carry type, uuid and local_received. The KeyError paths for a missing field are not modelled: a missing `type` at line 71 escapes `_process_event`; a missing `uuid` at lines 87-89 is swallowed, so no latency sample is taken; a missing `local_received` at line 94 escapes before `_collect_tasks`.
- TaskEvents.Upsert: Celery's `Task.event` merges by precedence: a late event from an earlier stage (for example `task-received` after `task-started`) does not move the task back, and RETRY is exempt from that rule. The model overwrites the state with every unready event, so `TaskEvents.LastEventWins`, `TaskEvents.ReceivedThenStartedLatency` and `TaskEvents.ReceivedThenStarted` hold only under that overwrite abstraction (for a task already STARTED, Celery keeps STARTED on a late `task-received`, and the next `task-started` then records no latency); on such out-of-order streams Celery would keep the later-stage state.
- The Celery 3 fallback branch (lines 76-80) is not modelled. Celery's tables (READY_STATES, ALL_STATES and TASK_EVENT_TO_STATE) are written out as in Celery 4.
  - REJECTED has an event suffix but is not in ALL_STATES, so setup does not initialise it.
  - REJECTED is not in Celery 4's READY_STATES either, so a rejected task stays tracked as in flight, although Celery describes it as a final state. The model follows the code and Celery's table.
- TaskMonitor.Monitor.IncrReadyTask: the KeyError of popping an untracked uuid is modelled (nothing more happens after the TASKS increment); the AttributeError branch, and a KeyError from an event field that is missing, are not. A popped record's name goes through `str()`, so a missing name gives the label "None", as the code does.
- Histogram buckets, timestamps and runtimes are modelled as whole numbers rather than floats. Latency and runtime are exact differences and values.
- prometheus_client internals (`collect()`, the sample objects, the label-name tuples) are left out. A gauge is its map of series.
- QueueMonitor.UpdateQueuesMetrics: requires the pipeline replies to be well-formed, meaning a length then a listing for each queue, as `get_queues` builds them. A malformed reply stream, which would raise during unpacking, is not modelled.
- QueueMonitor.Chunks: requires n > 0. With n = 0, `range` raises ValueError; the only caller passes 2.
- `get_queues`, the Redis connection and pipeline, are not part of this model. Their replies are a parameter.
- The worker inspection and ping calls are parameters. `None` stands for an exception.
- `json.loads` is a parameter `decode`.
  - Only decode errors and objects with an optional string-valued `headers` dict are modelled.
  - A payload that decodes to a non-object is not modelled. On such a payload the code's `in` test may raise or answer differently.
- Baseline.SetupMetrics: `registered_tasks()` and `active_queues()` are folded into one `Option`, since setup uses the second only to detect failure.
- EnableEventsThread, the command line, logging and the HTTP server are not part of this model.
- Baseline.UpdateWorkersCount: the source logs on an exception; the model leaves WORKERS unchanged and has no logging.

