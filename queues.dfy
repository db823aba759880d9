/**
 * QueueMonitoringThread's sampling pass: the queue names the workers report,
 * the pipelined (length, contents) replies split by `chunks`, the per-task
 * tally of each queue's payloads, and the publication of QUEUE_SIZE and
 * QUEUE_TASKS with every series not produced in the pass reset to 0.
 */
module QueueMonitor {
  import opened Wrappers
  import opened Metrics

  // ---------------------------------------------------------------------------
  // chunks

  /** Concatenation of a sequence of slices. */
  function Concat<T>(ss: seq<seq<T>>): seq<T> {
    if ss == [] then [] else ss[0] + Concat(ss[1..])
  }

  /**
   * `chunks(l, n)`: consecutive slices of `l` of length `n`, the last one
   * possibly shorter but never empty. `range` with a step of 0 raises, hence
   * `n > 0`.
   */
  function Chunks<T>(l: seq<T>, n: nat): (r: seq<seq<T>>)
    requires n > 0
    ensures Concat(r) == l
    ensures forall i :: 0 <= i < |r| ==> 0 < |r[i]| <= n
    ensures forall i :: 0 <= i < |r| - 1 ==> |r[i]| == n
    decreases |l|
  {
    if |l| <= n then (if l == [] then [] else [l])
    else [l[..n]] + Chunks(l[n..], n)
  }

  // ---------------------------------------------------------------------------
  // The pipeline replies

  /** One reply of the Redis pipeline: an LLEN result or an LRANGE listing. */
  datatype Reply = Length(n: int) | Listing(payloads: seq<string>)

  /**
   * What `get_queues` returns: for each queue, in order, its length and then
   * its full listing.
   */
  predicate WellFormed(replies: seq<Reply>) {
    replies == [] || (2 <= |replies| && replies[0].Length? && replies[1].Listing? && WellFormed(replies[2..]))
  }

  /** Well-formed replies split into (length, listing) pairs: pair i is replies[2i], replies[2i + 1]. */
  lemma {:induction false} PairsOfWellFormed(replies: seq<Reply>)
    requires WellFormed(replies)
    ensures 2 * |Chunks(replies, 2)| == |replies|
    ensures forall i :: 0 <= i < |Chunks(replies, 2)| ==>
      Chunks(replies, 2)[i] == replies[2 * i .. 2 * i + 2]
      && replies[2 * i].Length? && replies[2 * i + 1].Listing?
    decreases |replies|
  {
    if replies != [] {
      var rest := replies[2..];
      PairsOfWellFormed(rest);
      var c := Chunks(replies, 2);
      if rest == [] {
        assert c == [replies];
      } else {
        assert c == [replies[..2]] + Chunks(rest, 2);
        PairsShift(replies, Chunks(rest, 2));
      }
    }
  }

  /** Each pair of well-formed replies is a length followed by a listing. */
  lemma PairsShape(replies: seq<Reply>)
    requires WellFormed(replies)
    ensures forall i :: 0 <= i < |Chunks(replies, 2)| ==>
      |Chunks(replies, 2)[i]| == 2 && Chunks(replies, 2)[i][0].Length? && Chunks(replies, 2)[i][1].Listing?
  {
    PairsOfWellFormed(replies);
    var pairs: seq<seq<Reply>> := Chunks(replies, 2);
    forall i | 0 <= i < |pairs|
      ensures |pairs[i]| == 2 && pairs[i][0].Length? && pairs[i][1].Listing?
    {
      assert pairs[i] == replies[2 * i .. 2 * i + 2];
      assert pairs[i][0] == replies[2 * i];
    }
  }

  /** Prepending the first pair shifts every later pair's offset by two. */
  lemma PairsShift(replies: seq<Reply>, d: seq<seq<Reply>>)
    requires 2 <= |replies| && replies[0].Length? && replies[1].Listing?
    requires 2 * |d| == |replies| - 2
    requires forall j :: 0 <= j < |d| ==>
      d[j] == replies[2..][2 * j .. 2 * j + 2] && replies[2..][2 * j].Length? && replies[2..][2 * j + 1].Listing?
    ensures var c := [replies[..2]] + d;
      forall i :: 0 <= i < |c| ==>
        c[i] == replies[2 * i .. 2 * i + 2] && replies[2 * i].Length? && replies[2 * i + 1].Listing?
  {
    var c := [replies[..2]] + d;
    forall i | 0 <= i < |c|
      ensures c[i] == replies[2 * i .. 2 * i + 2] && replies[2 * i].Length? && replies[2 * i + 1].Listing?
    {
      if i > 0 {
        var j := i - 1;
        assert c[i] == d[j];
        assert replies[2..][2 * j .. 2 * j + 2] == replies[2 * i .. 2 * i + 2];
        assert replies[2..][2 * j] == replies[2 * i];
        assert replies[2..][2 * j + 1] == replies[2 * i + 1];
      }
    }
  }

  /** One queue as sampled in a pass. */
  datatype QueueSample = QueueSample(queue: string, size: int, payloads: seq<string>)

  /** `zip`: pairs up to the shorter of the two sequences. */
  function Zip<A, B>(a: seq<A>, b: seq<B>): (r: seq<(A, B)>)
    ensures |r| == if |a| <= |b| then |a| else |b|
    ensures forall i :: 0 <= i < |r| ==> r[i] == (a[i], b[i])
  {
    if a == [] || b == [] then [] else [(a[0], b[0])] + Zip(a[1..], b[1..])
  }

  /**
   * `zip(queue_names, chunks(queues, 2))` with each pair unpacked into
   * `(size, tasks)`: the i-th queue name gets the i-th (length, listing) pair.
   */
  function Samples(names: seq<string>, replies: seq<Reply>): (r: seq<QueueSample>)
    requires WellFormed(replies)
    ensures |r| == if |names| < |Chunks(replies, 2)| then |names| else |Chunks(replies, 2)|
    ensures forall i :: 0 <= i < |r| ==>
      && r[i].queue == names[i] && |Chunks(replies, 2)[i]| == 2
      && Chunks(replies, 2)[i][0] == Length(r[i].size) && Chunks(replies, 2)[i][1] == Listing(r[i].payloads)
  {
    PairsShape(replies);
    var z := Zip(names, Chunks(replies, 2));
    seq(|z|, i requires 0 <= i < |z| => Unpack(z[i].0, z[i].1))
  }

  /** `for queue_name, (size, tasks) in ...`: unpack one (length, listing) pair. */
  function Unpack(queue: string, pair: seq<Reply>): QueueSample
    requires |pair| == 2 && pair[0].Length? && pair[1].Listing?
  {
    QueueSample(queue, pair[0].n, pair[1].payloads)
  }

  // ---------------------------------------------------------------------------
  // get_tasks_stat

  /**
   * What `json.loads` makes of a payload, reduced to what the exporter reads:
   * a decode error, or an object that may carry a `headers` dict.
   */
  datatype Decoded = Malformed | Message(headers: Option<map<string, string>>)

  /** The task name a payload contributes: `headers["task"]` when both keys are present. */
  function TaskNameOf(decode: string -> Decoded, p: string): Option<string> {
    match decode(p)
    case Message(Some(h)) => if "task" in h then Some(h["task"]) else None
    case _ => None
  }

  /** The task names the payloads contribute, in order. */
  function TaskNames(decode: string -> Decoded, ps: seq<string>): (r: seq<string>)
    ensures |r| <= |ps|
  {
    if ps == [] then []
    else
      var named := match TaskNameOf(decode, ps[|ps| - 1]) case Some(t) => [t] case None => [];
      TaskNames(decode, ps[..|ps| - 1]) + named
  }

  /** `get_tasks_stat`: a defaultdict(int) tally of the task names, payload by payload. */
  function TasksStat(decode: string -> Decoded, ps: seq<string>): (r: map<string, int>)
    ensures forall t :: t in r ==> r[t] > 0
  {
    if ps == [] then map[]
    else
      var r := TasksStat(decode, ps[..|ps| - 1]);
      match TaskNameOf(decode, ps[|ps| - 1])
      case Some(t) => Inc(r, t)
      case None => r
  }

  /**
   * The tally counts each task name exactly as often as decodable payloads
   * carry it: it is the multiset of TaskNames, whose size is at most the
   * number of payloads.
   */
  lemma {:induction false} TasksStatCounts(decode: string -> Decoded, ps: seq<string>)
    ensures forall t :: Get(TasksStat(decode, ps), t) == multiset(TaskNames(decode, ps))[t]
    ensures forall t :: t in TasksStat(decode, ps) <==> t in TaskNames(decode, ps)
    ensures |multiset(TaskNames(decode, ps))| <= |ps|
    decreases |ps|
  {
    if ps != [] {
      var front := ps[..|ps| - 1];
      TasksStatCounts(decode, front);
      match TaskNameOf(decode, ps[|ps| - 1])
      case Some(t) =>
        assert TaskNames(decode, ps) == TaskNames(decode, front) + [t];
      case None =>
        assert TaskNames(decode, ps) == TaskNames(decode, front);
    }
  }

  /** A payload that carries no task name can be dropped without changing the tally. */
  lemma SkipsUnnamed(decode: string -> Decoded, ps: seq<string>, i: nat)
    requires i < |ps| && TaskNameOf(decode, ps[i]).None?
    ensures TasksStat(decode, ps) == TasksStat(decode, ps[..i] + ps[i + 1..])
  {
    TaskNamesDrop(decode, ps, i);
    SameNamesSameTally(decode, ps, ps[..i] + ps[i + 1..]);
  }

  /** The tally depends only on the sequence of names the payloads carry. */
  lemma SameNamesSameTally(decode: string -> Decoded, ps: seq<string>, qs: seq<string>)
    requires TaskNames(decode, ps) == TaskNames(decode, qs)
    ensures TasksStat(decode, ps) == TasksStat(decode, qs)
  {
    TasksStatCounts(decode, ps);
    TasksStatCounts(decode, qs);
    var a, b := TasksStat(decode, ps), TasksStat(decode, qs);
    assert a.Keys == b.Keys;
    forall t | t in a ensures a[t] == b[t] {
      assert Get(a, t) == Get(b, t);
    }
  }

  /** Dropping a payload without a task name leaves the name sequence unchanged. */
  lemma {:induction false} TaskNamesDrop(decode: string -> Decoded, ps: seq<string>, i: nat)
    requires i < |ps| && TaskNameOf(decode, ps[i]).None?
    ensures TaskNames(decode, ps) == TaskNames(decode, ps[..i] + ps[i + 1..])
    decreases |ps|
  {
    var qs := ps[..i] + ps[i + 1..];
    if i == |ps| - 1 {
      assert qs == ps[..|ps| - 1];
    } else {
      var front := ps[..|ps| - 1];
      assert front[i] == ps[i];
      TaskNamesDrop(decode, front, i);
      assert qs[..|qs| - 1] == front[..i] + front[i + 1..];
      assert qs[|qs| - 1] == ps[|ps| - 1];
    }
  }

  // ---------------------------------------------------------------------------
  // get_queue_names

  /** A queue descriptor from `inspect().active_queues()`; only its name is read. */
  datatype QueueInfo = QueueInfo(name: string)

  /** The names of one worker's queues, in order. */
  function NodeNames(node: seq<QueueInfo>): (r: seq<string>)
    ensures |r| == |node| && forall j :: 0 <= j < |node| ==> r[j] == node[j].name
  {
    seq(|node|, j requires 0 <= j < |node| => node[j].name)
  }

  /** Every worker's queue names, worker after worker; nothing is deduplicated. */
  function QueueNamesOf(nodes: seq<seq<QueueInfo>>): seq<string> {
    if nodes == [] then [] else QueueNamesOf(nodes[..|nodes| - 1]) + NodeNames(nodes[|nodes| - 1])
  }

  /** `get_queue_names`: append every queue's name, node by node. */
  method GetQueueNames(nodes: seq<seq<QueueInfo>>) returns (names: seq<string>)
    ensures names == QueueNamesOf(nodes)
  {
    names := [];
    var i := 0;
    while i < |nodes|
      invariant 0 <= i <= |nodes|
      invariant names == QueueNamesOf(nodes[..i])
    {
      var node := nodes[i];
      var j := 0;
      while j < |node|
        invariant 0 <= j <= |node|
        invariant names == QueueNamesOf(nodes[..i]) + NodeNames(node[..j])
      {
        assert NodeNames(node[..j + 1]) == NodeNames(node[..j]) + [node[j].name];
        names := names + [node[j].name];
        j := j + 1;
      }
      assert node[..j] == node;
      assert nodes[..i + 1][..i] == nodes[..i];
      i := i + 1;
    }
    assert nodes[..|nodes|] == nodes;
  }

  /** A name is listed exactly when some worker reports a queue of that name. */
  lemma {:induction false} QueueNamesMembership(nodes: seq<seq<QueueInfo>>, q: string)
    ensures q in QueueNamesOf(nodes) <==>
      exists i, j :: 0 <= i < |nodes| && 0 <= j < |nodes[i]| && nodes[i][j].name == q
    decreases |nodes|
  {
    if nodes != [] {
      var front := nodes[..|nodes| - 1];
      var last := nodes[|nodes| - 1];
      QueueNamesMembership(front, q);
      if q in NodeNames(last) {
        var j :| 0 <= j < |last| && NodeNames(last)[j] == q;
        assert nodes[|nodes| - 1][j].name == q;
      }
      if exists i, j :: 0 <= i < |nodes| && 0 <= j < |nodes[i]| && nodes[i][j].name == q {
        var i, j :| 0 <= i < |nodes| && 0 <= j < |nodes[i]| && nodes[i][j].name == q;
        if i < |nodes| - 1 {
          assert front[i][j].name == q;
        } else {
          assert NodeNames(last)[j] == q;
        }
      }
    }
  }

  /** The list has one entry per reported queue: two workers on one queue list it twice. */
  lemma QueueNamesKeepsDuplicates(a: QueueInfo, b: QueueInfo)
    ensures QueueNamesOf([[a], [b]]) == [a.name, b.name]
  {
    assert [[a], [b]][..1] == [[a]];
    assert [[a]][..0] == [];
    assert QueueNamesOf([[a]]) == NodeNames([a]) == [a.name];
    assert QueueNamesOf([[a], [b]]) == QueueNamesOf([[a]]) + NodeNames([b]);
  }

  // ---------------------------------------------------------------------------
  // update_queues_metrics

  /** QUEUE_SIZE values set by a pass: later samples of a queue overwrite earlier ones. */
  function PublishedSizes(samples: seq<QueueSample>): map<string, int> {
    if samples == [] then map[]
    else PublishedSizes(samples[..|samples| - 1])[samples[|samples| - 1].queue := samples[|samples| - 1].size]
  }

  /**
   * A queue's size is published exactly when some sample names it, and then
   * it is the size of the last such sample.
   */
  lemma {:induction false} PublishedSizesLast(samples: seq<QueueSample>, q: string)
    ensures q in PublishedSizes(samples) <==> exists i :: 0 <= i < |samples| && samples[i].queue == q
    ensures q in PublishedSizes(samples) ==>
      exists i :: 0 <= i < |samples| && samples[i].queue == q && PublishedSizes(samples)[q] == samples[i].size
                  && forall j :: i < j < |samples| ==> samples[j].queue != q
    decreases |samples|
  {
    if samples != [] {
      var n := |samples| - 1;
      var front := samples[..n];
      PublishedSizesLast(front, q);
      if samples[n].queue != q && q in PublishedSizes(samples) {
        var i :| 0 <= i < |front| && front[i].queue == q && PublishedSizes(front)[q] == front[i].size
          && forall j :: i < j < |front| ==> front[j].queue != q;
        assert samples[i] == front[i];
      }
      if exists i :: 0 <= i < |samples| && samples[i].queue == q {
        var i :| 0 <= i < |samples| && samples[i].queue == q;
        if i < n {
          assert front[i].queue == q;
        }
      }
    }
  }

  /** QUEUE_TASKS values one sample sets: (queue, task) -> tally. */
  ghost function Labelled(queue: string, stat: map<string, int>): map<(string, string), int>
    decreases |stat|
  {
    if stat == map[] then map[]
    else
      var t :| t in stat;
      Labelled(queue, stat - {t})[(queue, t) := stat[t]]
  }

  lemma {:induction false} LabelledEntries(queue: string, stat: map<string, int>)
    ensures forall t :: t in stat ==> (queue, t) in Labelled(queue, stat) && Labelled(queue, stat)[(queue, t)] == stat[t]
    ensures forall p :: p in Labelled(queue, stat) ==> p.0 == queue && p.1 in stat
    decreases |stat|
  {
    if stat != map[] {
      var t :| t in stat && Labelled(queue, stat) == Labelled(queue, stat - {t})[(queue, t) := stat[t]];
      LabelledEntries(queue, stat - {t});
    }
  }

  /** QUEUE_TASKS values set by a pass, sample after sample. */
  ghost function PublishedTasks(decode: string -> Decoded, samples: seq<QueueSample>): map<(string, string), int> {
    if samples == [] then map[]
    else
      var last := samples[|samples| - 1];
      PublishedTasks(decode, samples[..|samples| - 1]) + Labelled(last.queue, TasksStat(decode, last.payloads))
  }

  /**
   * A (queue, task) series is published exactly when some sample of that
   * queue holds a payload naming the task.
   */
  lemma {:induction false} PublishedTasksKeys(decode: string -> Decoded, samples: seq<QueueSample>, q: string, t: string)
    ensures (q, t) in PublishedTasks(decode, samples) <==> NamedIn(decode, samples, q, t)
    decreases |samples|
  {
    if samples != [] {
      var n := |samples| - 1;
      var front := samples[..n];
      var last := samples[n];
      PublishedTasksKeys(decode, front, q, t);
      TasksStatCounts(decode, last.payloads);
      LabelledEntries(last.queue, TasksStat(decode, last.payloads));
      assert (q, t) in Labelled(last.queue, TasksStat(decode, last.payloads))
        <==> last.queue == q && t in TaskNames(decode, last.payloads);
      NamedInSnoc(decode, front, last, q, t);
      assert front + [last] == samples;
    }
  }

  /** Sample `i` is the last sample of queue `q` whose tally names task `t`. */
  predicate LastTally(decode: string -> Decoded, samples: seq<QueueSample>, q: string, t: string, i: int) {
    && 0 <= i < |samples| && samples[i].queue == q && t in TasksStat(decode, samples[i].payloads)
    && forall j :: i < j < |samples| && samples[j].queue == q ==> t !in TasksStat(decode, samples[j].payloads)
  }

  /**
   * A published (queue, task) series holds the count from the last sample of
   * that queue whose tally names the task. A later sample of the same queue
   * that does not name the task leaves the series alone: it is not the
   * tally of the last sample of the queue.
   */
  lemma {:induction false} PublishedTasksLast(decode: string -> Decoded, samples: seq<QueueSample>, q: string, t: string)
    ensures (q, t) in PublishedTasks(decode, samples) ==>
      exists i :: LastTally(decode, samples, q, t, i)
                  && PublishedTasks(decode, samples)[(q, t)] == TasksStat(decode, samples[i].payloads)[t]
    decreases |samples|
  {
    if samples != [] && (q, t) in PublishedTasks(decode, samples) {
      var n := |samples| - 1;
      var last := samples[n];
      var stat := TasksStat(decode, last.payloads);
      var pub, lab := PublishedTasks(decode, samples[..n]), Labelled(last.queue, stat);
      assert PublishedTasks(decode, samples) == pub + lab;
      LabelledEntries(last.queue, stat);
      if last.queue == q && t in stat {
        assert LastTally(decode, samples, q, t, n);
      } else {
        assert (q, t) !in lab;
        PublishedTasksLast(decode, samples[..n], q, t);
        var i :| LastTally(decode, samples[..n], q, t, i) && pub[(q, t)] == TasksStat(decode, samples[i].payloads)[t];
        LastTallySnoc(decode, samples, q, t, i);
      }
    }
  }

  /** A last sample that does not name `t` under queue `q` keeps an earlier sample the last one that does. */
  lemma LastTallySnoc(decode: string -> Decoded, samples: seq<QueueSample>, q: string, t: string, i: int)
    requires samples != [] && LastTally(decode, samples[..|samples| - 1], q, t, i)
    requires !(samples[|samples| - 1].queue == q && t in TasksStat(decode, samples[|samples| - 1].payloads))
    ensures LastTally(decode, samples, q, t, i)
  {
    var front := samples[..|samples| - 1];
    forall j | i < j < |samples| && samples[j].queue == q
      ensures t !in TasksStat(decode, samples[j].payloads)
    {
      if j < |front| { assert samples[j] == front[j]; }
    }
  }

  /** Some sample of queue `q` holds a payload naming task `t`. */
  predicate NamedIn(decode: string -> Decoded, samples: seq<QueueSample>, q: string, t: string) {
    exists i :: 0 <= i < |samples| && samples[i].queue == q && t in TaskNames(decode, samples[i].payloads)
  }

  lemma NamedInSnoc(decode: string -> Decoded, front: seq<QueueSample>, last: QueueSample, q: string, t: string)
    ensures NamedIn(decode, front + [last], q, t) <==>
      NamedIn(decode, front, q, t) || (last.queue == q && t in TaskNames(decode, last.payloads))
  {
    var all := front + [last];
    if NamedIn(decode, all, q, t) {
      var i :| 0 <= i < |all| && all[i].queue == q && t in TaskNames(decode, all[i].payloads);
      if i < |front| {
        assert front[i] == all[i];
      }
    }
    if NamedIn(decode, front, q, t) {
      var i :| 0 <= i < |front| && front[i].queue == q && t in TaskNames(decode, front[i].payloads);
      assert all[i] == front[i];
    }
    if last.queue == q && t in TaskNames(decode, last.payloads) {
      assert all[|front|] == last;
    }
  }

  /** One more sample extends both published maps by that sample's values. */
  lemma PublishedSnoc(decode: string -> Decoded, samples: seq<QueueSample>, i: nat)
    requires i < |samples|
    ensures PublishedSizes(samples[..i + 1]) == PublishedSizes(samples[..i])[samples[i].queue := samples[i].size]
    ensures PublishedTasks(decode, samples[..i + 1])
         == PublishedTasks(decode, samples[..i]) + Labelled(samples[i].queue, TasksStat(decode, samples[i].payloads))
  {
    assert samples[..i + 1][..i] == samples[..i];
  }

  /** Publishing sample `i` on top of the gauges after the first `i` samples gives the gauges after `i + 1`. */
  lemma PublishStep(decode: string -> Decoded, samples: seq<QueueSample>, i: nat,
                    sizes0: map<string, int>, tasks0: map<(string, string), int>,
                    sizes: map<string, int>, tasks: map<(string, string), int>,
                    knownQueues: set<string>, knownTasks: set<(string, string)>)
    requires i < |samples|
    requires sizes == sizes0 + PublishedSizes(samples[..i]) && knownQueues == PublishedSizes(samples[..i]).Keys
    requires tasks == tasks0 + PublishedTasks(decode, samples[..i]) && knownTasks == PublishedTasks(decode, samples[..i]).Keys
    ensures sizes[samples[i].queue := samples[i].size] == sizes0 + PublishedSizes(samples[..i + 1])
    ensures knownQueues + {samples[i].queue} == PublishedSizes(samples[..i + 1]).Keys
    ensures tasks + Labelled(samples[i].queue, TasksStat(decode, samples[i].payloads))
         == tasks0 + PublishedTasks(decode, samples[..i + 1])
    ensures knownTasks + Labelled(samples[i].queue, TasksStat(decode, samples[i].payloads)).Keys
         == PublishedTasks(decode, samples[..i + 1]).Keys
  {
    var labelled := Labelled(samples[i].queue, TasksStat(decode, samples[i].payloads));
    PublishedSnoc(decode, samples, i);
    MergeWrite(sizes0, PublishedSizes(samples[..i]), samples[i].queue, samples[i].size);
    MergeAssoc(tasks0, PublishedTasks(decode, samples[..i]), labelled);
    KeysWrite(PublishedSizes(samples[..i]), samples[i].queue, samples[i].size);
    KeysMerge(PublishedTasks(decode, samples[..i]), labelled);
  }

  lemma MergeWrite<K>(base: map<K, int>, pub: map<K, int>, k: K, v: int)
    ensures (base + pub)[k := v] == base + pub[k := v]
  {
  }

  lemma MergeAssoc<K>(base: map<K, int>, pub: map<K, int>, extra: map<K, int>)
    ensures (base + pub) + extra == base + (pub + extra)
  {
  }

  lemma KeysWrite<K>(pub: map<K, int>, k: K, v: int)
    ensures pub[k := v].Keys == pub.Keys + {k}
  {
  }

  lemma KeysMerge<K>(pub: map<K, int>, extra: map<K, int>)
    ensures (pub + extra).Keys == pub.Keys + extra.Keys
  {
  }

  /**
   * A gauge after a pass: the published series take their new values, and
   * every other series that existed before reads 0. No series disappears.
   */
  function AfterPass<L>(before: map<L, int>, published: map<L, int>): (r: map<L, int>)
    ensures r.Keys == before.Keys + published.Keys
    ensures forall k :: k in published ==> r[k] == published[k]
    ensures forall k :: k in before && k !in published ==> r[k] == 0
  {
    Zeroed(before + published, Some(published.Keys))
  }

  /** Set QUEUE_TASKS for every task of one queue's tally; returns the labels set. */
  method SetQueueTasks(m: Registry, queue: string, stat: map<string, int>) returns (added: set<(string, string)>)
    modifies m`queueTasks
    ensures m.queueTasks == old(m.queueTasks) + Labelled(queue, stat)
    ensures added == Labelled(queue, stat).Keys
  {
    added := {};
    var todo := stat.Keys;
    ghost var done: set<string> := {};
    while todo != {}
      invariant todo + done == stat.Keys && todo !! done
      invariant forall t :: t in done ==> (queue, t) in m.queueTasks && m.queueTasks[(queue, t)] == stat[t]
      invariant forall p :: p in m.queueTasks ==> p in old(m.queueTasks) || (p.0 == queue && p.1 in done)
      invariant forall p :: p in old(m.queueTasks) && !(p.0 == queue && p.1 in done) ==>
        p in m.queueTasks && m.queueTasks[p] == old(m.queueTasks)[p]
      invariant forall p :: p in added <==> p.0 == queue && p.1 in done
      decreases todo
    {
      var t :| t in todo;
      m.queueTasks := m.queueTasks[(queue, t) := stat[t]];
      added := added + {(queue, t)};
      todo := todo - {t};
      done := done + {t};
    }
    LabelledEntries(queue, stat);
    ghost var want := old(m.queueTasks) + Labelled(queue, stat);
    assert m.queueTasks.Keys == want.Keys;
    assert forall p :: p in want ==> m.queueTasks[p] == want[p];
    assert added == Labelled(queue, stat).Keys;
  }

  /** One iteration of the pass: QUEUE_SIZE for the queue, then QUEUE_TASKS for each of its tallies. */
  method PublishQueue(m: Registry, queue: string, size: int, stat: map<string, int>) returns (added: set<(string, string)>)
    modifies m`queueSize, m`queueTasks
    ensures m.queueSize == old(m.queueSize)[queue := size]
    ensures m.queueTasks == old(m.queueTasks) + Labelled(queue, stat)
    ensures added == Labelled(queue, stat).Keys
  {
    m.queueSize := m.queueSize[queue := size];
    added := SetQueueTasks(m, queue, stat);
  }

  /**
   * The loop of `update_queues_metrics` over the zipped queue names and
   * (length, listing) pairs: each queue's size and task tallies are set.
   * Returns the labels set, which the pass keeps alive in the reset.
   */
  method PublishSamples(m: Registry, queueNames: seq<string>, pairs: seq<seq<Reply>>,
                        ghost samples: seq<QueueSample>, decode: string -> Decoded)
    returns (knownQueues: set<string>, knownTasks: set<(string, string)>)
    requires |samples| == if |queueNames| < |pairs| then |queueNames| else |pairs|
    requires forall i :: 0 <= i < |samples| ==>
      && samples[i].queue == queueNames[i] && |pairs[i]| == 2
      && pairs[i][0] == Length(samples[i].size) && pairs[i][1] == Listing(samples[i].payloads)
    modifies m`queueSize, m`queueTasks
    ensures m.queueSize == old(m.queueSize) + PublishedSizes(samples)
    ensures knownQueues == PublishedSizes(samples).Keys
    ensures m.queueTasks == old(m.queueTasks) + PublishedTasks(decode, samples)
    ensures knownTasks == PublishedTasks(decode, samples).Keys
  {
    ghost var sizes0, tasks0 := m.queueSize, m.queueTasks;
    knownQueues := {};
    knownTasks := {};
    var i := 0;
    while i < |queueNames| && i < |pairs|
      invariant 0 <= i <= |samples|
      invariant m.queueSize == sizes0 + PublishedSizes(samples[..i])
      invariant knownQueues == PublishedSizes(samples[..i]).Keys
      invariant m.queueTasks == tasks0 + PublishedTasks(decode, samples[..i])
      invariant knownTasks == PublishedTasks(decode, samples[..i]).Keys
    {
      var queueName := queueNames[i];
      var size := pairs[i][0].n;
      var tasks := pairs[i][1].payloads;
      PublishStep(decode, samples, i, sizes0, tasks0, m.queueSize, m.queueTasks, knownQueues, knownTasks);
      var added := PublishQueue(m, queueName, size, TasksStat(decode, tasks));
      knownQueues := knownQueues + {queueName};
      knownTasks := knownTasks + added;
      i := i + 1;
    }
    assert samples[..i] == samples;
  }

  /**
   * `update_queues_metrics`. Returns false when listing the queues or
   * reading them fails (the pass raises and changes nothing). Otherwise each
   * zipped queue's size and task tallies are published and every other
   * existing QUEUE_SIZE and QUEUE_TASKS series is reset to 0.
   */
  method UpdateQueuesMetrics(m: Registry, activeQueues: Option<seq<seq<QueueInfo>>>,
                             replies: Option<seq<Reply>>, decode: string -> Decoded) returns (ok: bool)
    requires replies.Some? ==> WellFormed(replies.value)
    modifies m`queueSize, m`queueTasks
    ensures ok <==> activeQueues.Some? && replies.Some?
    ensures !ok ==> m.queueSize == old(m.queueSize) && m.queueTasks == old(m.queueTasks)
    ensures ok ==>
      var samples := Samples(QueueNamesOf(activeQueues.value), replies.value);
      && m.queueSize == AfterPass(old(m.queueSize), PublishedSizes(samples))
      && m.queueTasks == AfterPass(old(m.queueTasks), PublishedTasks(decode, samples))
  {
    if activeQueues.None? || replies.None? {
      return false;
    }
    var queueNames := GetQueueNames(activeQueues.value);
    var queues := replies.value;
    var pairs: seq<seq<Reply>> := Chunks(queues, 2);
    ghost var samples := Samples(queueNames, queues);
    var knownQueues, knownTasks := PublishSamples(m, queueNames, pairs, samples, decode);
    m.queueSize := ResetMetrics(m.queueSize, Some(knownQueues));
    m.queueTasks := ResetMetrics(m.queueTasks, Some(knownTasks));
    ok := true;
  }
}
