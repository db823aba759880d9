/**
 * The part of Celery's own vocabulary the exporter relies on: task states,
 * which of them are "ready" (terminal), the event-suffix -> state table and
 * `group_from`, which takes the group part of an event type name.
 * These live in Celery (celery.states, celery.events), which is not part of
 * this model; they are written out here from Celery 4.
 */
module CeleryStates {
  import opened Wrappers

  datatype TaskState = PENDING | RECEIVED | STARTED | SUCCESS | FAILURE | REVOKED | REJECTED | RETRY

  /** celery.states.READY_STATES */
  predicate IsReady(s: TaskState) {
    s == SUCCESS || s == FAILURE || s == REVOKED
  }

  /** celery.states.ALL_STATES (REJECTED is not in it) */
  const AllStates: set<TaskState> := {PENDING, RECEIVED, STARTED, SUCCESS, FAILURE, RETRY, REVOKED}

  /** The event suffix that Celery's table maps to `s`, if any. */
  function EventSuffix(s: TaskState): Option<string> {
    match s
    case PENDING => Some("sent")
    case RECEIVED => Some("received")
    case STARTED => Some("started")
    case FAILURE => Some("failed")
    case RETRY => Some("retried")
    case SUCCESS => Some("succeeded")
    case REVOKED => Some("revoked")
    case REJECTED => Some("rejected")
  }

  /**
   * celery.events.state.TASK_EVENT_TO_STATE as a lookup: None is the KeyError
   * an unknown suffix raises.
   */
  function EventToState(suffix: string): (r: Option<TaskState>)
    ensures r.Some? ==> EventSuffix(r.value) == Some(suffix)
    ensures forall s: TaskState :: EventSuffix(s) == Some(suffix) ==> r == Some(s)
  {
    match suffix
    case "sent" => Some(PENDING)
    case "received" => Some(RECEIVED)
    case "started" => Some(STARTED)
    case "failed" => Some(FAILURE)
    case "retried" => Some(RETRY)
    case "succeeded" => Some(SUCCESS)
    case "revoked" => Some(REVOKED)
    case "rejected" => Some(REJECTED)
    case _ => None
  }

  /** `type.split('-', 1)[0]`: everything before the first '-'. */
  function GroupFrom(t: string): (g: string)
    ensures g <= t
    ensures '-' !in g
    ensures |g| < |t| ==> t[|g|] == '-'
  {
    if t == [] || t[0] == '-' then [] else [t[0]] + GroupFrom(t[1..])
  }

  /** Python's `s[i:]` for a non-negative start: empty when `i` is past the end. */
  function SliceFrom(s: string, i: nat): (r: string)
    ensures |s| <= i ==> r == []
    ensures i < |s| ==> r == s[i..]
  {
    if |s| <= i then [] else s[i..]
  }

  /** An event belongs to the task group exactly when its type is "task" or starts with "task-". */
  lemma TaskGroupIf(t: string)
    requires t == "task" || (5 <= |t| && t[..5] == "task-")
    ensures GroupFrom(t) == "task"
  {
    if t == "task" {
      assert t[..4] == t;
    } else {
      var head := t[..5];
      assert t[..4] == head[..4] == "task";
      assert t[4] == head[4] == '-';
    }
    assert '-' !in "task";
    GroupFromPrefix(t, 4);
  }

  /** The group is the dash-free prefix that ends at the end or at a '-'. */
  lemma {:induction false} GroupFromPrefix(t: string, k: nat)
    requires k <= |t| && '-' !in t[..k]
    requires k == |t| || t[k] == '-'
    ensures GroupFrom(t) == t[..k]
  {
    if k > 0 {
      assert t[0] == t[..k][0];
      assert t[1..][..k - 1] == t[1..k];
      assert forall c :: c in t[1..k] ==> c in t[..k];
      GroupFromPrefix(t[1..], k - 1);
      assert t[..k] == [t[0]] + t[1..k];
    }
  }
}
