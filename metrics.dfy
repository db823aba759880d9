/**
 * The exporter's metric surfaces (the process-wide prometheus_client objects
 * TASKS, TASKS_NAME, TASKS_RUNTIME, LATENCY, WORKERS, QUEUE_SIZE, QUEUE_TASKS)
 * and `_reset_metrics`, which zeroes stale series.
 *
 * A labelled gauge is a map from its label tuple to its current value; a
 * series exists once it has been set or incremented. A histogram is the
 * sequence of values observed into it (integers here: timestamps and runtimes
 * are whole units).
 */
module Metrics {
  import opened Wrappers
  import opened CeleryStates

  /** The value of one gauge series; a series never set reads as 0. */
  function Get<L>(series: map<L, int>, k: L): int {
    if k in series then series[k] else 0
  }

  /** `gauge.labels(k).inc()`: an absent series starts from 0. */
  function Inc<L>(series: map<L, int>, k: L): (r: map<L, int>)
    ensures r.Keys == series.Keys + {k}
    ensures r[k] == Get(series, k) + 1
    ensures forall j :: j in series && j != k ==> r[j] == series[j]
  {
    series[k := Get(series, k) + 1]
  }

  /** `histogram.labels(k).observe(v)` */
  function Observe<L>(h: map<L, seq<int>>, k: L, v: int): (r: map<L, seq<int>>)
    ensures r.Keys == h.Keys + {k}
    ensures r[k] == (if k in h then h[k] else []) + [v]
    ensures forall j :: j in h && j != k ==> r[j] == h[j]
  {
    h[k := (if k in h then h[k] else []) + [v]]
  }

  /** A snapshot of every metric surface. */
  datatype Surfaces = Surfaces(
    tasks: map<TaskState, int>,
    tasksByName: map<(TaskState, string), int>,
    runtime: map<string, seq<int>>,
    latency: seq<int>,
    workers: int,
    queueSize: map<string, int>,
    queueTasks: map<(string, string), int>)

  /** The global metric objects, updated in place by every monitor. */
  class Registry {
    var tasks: map<TaskState, int>
    var tasksByName: map<(TaskState, string), int>
    var runtime: map<string, seq<int>>
    var latency: seq<int>
    var workers: int
    var queueSize: map<string, int>
    var queueTasks: map<(string, string), int>

    /** At import time no series exists yet. */
    constructor ()
      ensures Value() == Surfaces(map[], map[], map[], [], 0, map[], map[])
    {
      tasks, tasksByName, runtime, latency := map[], map[], map[], [];
      workers, queueSize, queueTasks := 0, map[], map[];
    }

    function Value(): Surfaces
      reads this
    {
      Surfaces(tasks, tasksByName, runtime, latency, workers, queueSize, queueTasks)
    }
  }

  /** A series is stale when no known set is given, or its labels are outside it. */
  predicate Stale<L>(k: L, known: Option<set<L>>) {
    known.None? || k !in known.value
  }

  /** The series after `_reset_metrics(metric, known)`. */
  function Zeroed<L>(series: map<L, int>, known: Option<set<L>>): map<L, int> {
    map k | k in series :: if Stale(k, known) then 0 else series[k]
  }

  /**
   * `_reset_metrics(metric, known)`: walk every existing series and set the
   * stale ones to 0. No series is added or removed; a non-stale series keeps
   * its value.
   */
  method ResetMetrics<L>(series: map<L, int>, known: Option<set<L>>) returns (r: map<L, int>)
    ensures r.Keys == series.Keys
    ensures forall k :: k in series && Stale(k, known) ==> r[k] == 0
    ensures forall k :: k in series && !Stale(k, known) ==> r[k] == series[k]
    ensures r == Zeroed(series, known)
  {
    r := series;
    var todo := series.Keys;
    while todo != {}
      invariant todo <= series.Keys
      invariant r.Keys == series.Keys
      invariant forall k :: k in todo ==> r[k] == series[k]
      invariant forall k :: k in series && k !in todo ==> r[k] == if Stale(k, known) then 0 else series[k]
      decreases todo
    {
      var k :| k in todo;
      if known.Some? {
        if k !in known.value {
          r := r[k := 0];
        }
      } else {
        r := r[k := 0];
      }
      todo := todo - {k};
    }
  }

  /** `base` with every label in `labels` set to its value in `values` (0 when absent). */
  function Overlay<L>(base: map<L, int>, labels: set<L>, values: map<L, int>): map<L, int> {
    base + map k | k in labels :: Get(values, k)
  }

  /** Setting one more label extends the overlay by that label. */
  lemma OverlayOneMore<L>(base: map<L, int>, labels: set<L>, values: map<L, int>, x: L)
    ensures Overlay(base, labels + {x}, values) == Overlay(base, labels, values)[x := Get(values, x)]
  {
  }
}
