/**
 * The `App` component as a controller object: its five state cells and its
 * handlers. Every awaited remote call is cut out of its handler: the handler
 * runs up to the `await` (a `Begin` method, which leaves a pending
 * continuation behind) and resumes when the call resolves (a `Settle` method,
 * given the outcome). The handlers as a whole, for a call that resolves before
 * anything else happens, are the methods that run both halves.
 */
module TaskApp {
  import opened Js
  import opened Tasks

  /** What a handler suspended at its `await` still holds in its closure. */
  datatype Pending =
    | Fetching
    | Adding(newTask: Task)
    | Toggling(id: Option<TaskId>, completed: bool)
    | Deleting(id: Option<TaskId>, taskToDelete: Task)
  {
    /** Every object the continuation holds had been allocated before `n`. */
    predicate Below(n: nat) {
      match this
      case Adding(t) => t.obj < n
      case Deleting(_, t) => t.obj < n
      case _ => true
    }
  }

  /** Every suspended continuation has a key below `nextOp` and holds only objects allocated below `nextObj`. */
  predicate PendingBelow(pending: map<nat, Pending>, nextOp: nat, nextObj: nat) {
    forall op :: op in pending ==> op < nextOp && pending[op].Below(nextObj)
  }

  /** Suspending one more handler under the next invocation key keeps the bound. */
  lemma PendingAdded(pending: map<nat, Pending>, nextOp: nat, nextObj: nat, p: Pending, nextObj': nat)
    requires PendingBelow(pending, nextOp, nextObj) && nextObj <= nextObj' && p.Below(nextObj')
    ensures nextOp !in pending && PendingBelow(pending[nextOp := p], nextOp + 1, nextObj')
  {
  }

  /** Resuming a handler keeps the bound, also while more objects are allocated. */
  lemma PendingRemoved(pending: map<nat, Pending>, op: nat, nextOp: nat, nextObj: nat, nextObj': nat)
    requires PendingBelow(pending, nextOp, nextObj) && nextObj <= nextObj'
    ensures PendingBelow(pending - {op}, nextOp, nextObj')
  {
  }

  class App {
    // The component's useState cells.
    var tasks: seq<Task>
    var newTitle: string
    var newCategory: string
    var newPriority: string
    var loading: bool

    // The runtime around them: the identity the next allocated object gets,
    // and the handlers suspended at an `await`, keyed by invocation.
    var nextObj: nat
    var pending: map<nat, Pending>
    var nextOp: nat

    /** Objects in the mirror and in suspended closures are all allocated; invocation keys are issued in order. */
    ghost predicate Valid()
      reads this
    {
      && AllocatedBelow(tasks, nextObj)
      && PendingBelow(pending, nextOp, nextObj)
    }

    /** The three input drafts. */
    function Drafts(): (string, string, string)
      reads this
    {
      (newTitle, newCategory, newPriority)
    }

    /**
     * What the synchronous part of `addTask` did, invocation `op`, given the
     * state it started from: nothing when the trimmed title is empty;
     * otherwise the provisional record is prepended, the drafts are reset
     * and the continuation waits on the insert.
     */
    twostate predicate AddStarted(now: string, new op: Option<nat>)
      reads this
    {
      && (op.None? <==> Trim(old(newTitle)) == [])
      && (op.None? ==> unchanged(this))
      && (op.Some? ==>
            var newTask := Task(old(nextObj), Provisional(Trim(old(newTitle)), old(newCategory), old(newPriority), now));
            && tasks == [newTask] + old(tasks)
            && Drafts() == ("", DefaultCategory, DefaultPriority)
            && nextObj == old(nextObj) + 1
            && op.value == old(nextOp) && nextOp == old(nextOp) + 1
            && op.value !in old(pending) && pending == old(pending)[op.value := Adding(newTask)])
    }

    /** The first render: an empty mirror and default drafts. */
    constructor ()
      ensures Valid()
      ensures tasks == [] && Drafts() == ("", DefaultCategory, DefaultPriority) && !loading
      ensures pending == map[]
    {
      tasks, newTitle, newCategory, newPriority, loading := [], "", DefaultCategory, DefaultPriority, false;
      nextObj, pending, nextOp := 0, map[], 0;
    }

    // -------------------------------------------------------------------------
    // The inputs' onChange handlers
    // -------------------------------------------------------------------------

    method EditTitle(value: string)
      modifies this`newTitle
      ensures newTitle == value
    {
      newTitle := value;
    }

    method SelectCategory(value: string)
      modifies this`newCategory
      ensures newCategory == value
    {
      newCategory := value;
    }

    method SelectPriority(value: string)
      modifies this`newPriority
      ensures newPriority == value
    {
      newPriority := value;
    }

    // -------------------------------------------------------------------------
    // fetchTasks
    // -------------------------------------------------------------------------

    /** `fetchTasks` up to the query: the busy flag is raised. */
    method BeginFetch() returns (op: nat)
      requires Valid()
      modifies this`loading, this`pending, this`nextOp
      ensures Valid()
      ensures loading
      ensures op == old(nextOp) && nextOp == old(nextOp) + 1
      ensures op !in old(pending) && pending == old(pending)[op := Fetching]
    {
      loading := true;
      PendingAdded(pending, nextOp, nextObj, Fetching, nextObj);
      op := nextOp;
      pending := pending[op := Fetching];
      nextOp := nextOp + 1;
    }

    /**
     * `fetchTasks` once the query resolved: on success the mirror becomes the
     * returned rows (or `[]` without data), on failure it is left as it is;
     * either way the busy flag is lowered.
     */
    method SettleFetch(op: nat, outcome: Outcome<Option<seq<Row>>>)
      requires Valid() && op in pending && pending[op] == Fetching
      modifies this`tasks, this`loading, this`pending, this`nextObj
      ensures Valid()
      ensures !loading && pending == old(pending) - {op}
      ensures outcome.Failure? ==> tasks == old(tasks) && nextObj == old(nextObj)
      ensures outcome.Success? ==>
        && Rows(tasks) == Loaded(outcome.value)
        && tasks == Received(Loaded(outcome.value), old(nextObj))
        && nextObj == old(nextObj) + |Loaded(outcome.value)|
    {
      var n := nextObj;
      if outcome.Success? {
        var rows := Loaded(outcome.value);
        tasks := Received(rows, nextObj);
        nextObj := nextObj + |rows|;
      }
      PendingRemoved(pending, op, nextOp, n, nextObj);
      loading := false;
      pending := pending - {op};
    }

    /** `fetchTasks`, when nothing else happens while the query is outstanding. */
    method FetchTasks(outcome: Outcome<Option<seq<Row>>>)
      requires Valid()
      modifies this`tasks, this`loading, this`pending, this`nextOp, this`nextObj
      ensures Valid()
      ensures !loading && pending == old(pending)
      ensures outcome.Failure? ==> tasks == old(tasks)
      ensures outcome.Success? ==> Rows(tasks) == Loaded(outcome.value)
    {
      var op := BeginFetch();
      SettleFetch(op, outcome);
      assert pending == old(pending);
    }

    // -------------------------------------------------------------------------
    // addTask and handleKeyPress
    // -------------------------------------------------------------------------

    /**
     * `addTask` up to the insert: a blank title changes nothing; otherwise
     * the provisional record is prepended and the drafts are reset.
     */
    method BeginAdd(now: string) returns (op: Option<nat>)
      requires Valid()
      modifies this`tasks, this`newTitle, this`newCategory, this`newPriority, this`nextObj, this`pending, this`nextOp
      ensures Valid()
      ensures AddStarted(now, op)
    {
      var title := Trim(newTitle);
      if title == [] {
        return None;
      }
      var newTask := Task(nextObj, Provisional(title, newCategory, newPriority, now));
      PrependAllocated(newTask, tasks, nextObj + 1);
      PendingAdded(pending, nextOp, nextObj, Adding(newTask), nextObj + 1);
      nextObj := nextObj + 1;
      tasks := [newTask] + tasks;
      newTitle, newCategory, newPriority := "", DefaultCategory, DefaultPriority;
      op := Some(nextOp);
      pending := pending[nextOp := Adding(newTask)];
      nextOp := nextOp + 1;
    }

    /**
     * `addTask` once the insert resolved: on success the provisional object,
     * wherever it now is, is replaced by the returned row; on failure it is
     * filtered out and the drafts get back the submitted (trimmed) values.
     */
    method SettleAdd(op: nat, outcome: Outcome<Row>)
      requires Valid() && op in pending && pending[op].Adding?
      modifies this`tasks, this`newTitle, this`newCategory, this`newPriority, this`nextObj, this`pending
      ensures Valid()
      ensures pending == old(pending) - {op}
      ensures outcome.Success? ==>
        && tasks == ReplacedObj(old(tasks), old(pending)[op].newTask.obj, Task(old(nextObj), outcome.value))
        && Drafts() == old(Drafts())
        && nextObj == old(nextObj) + 1
      ensures outcome.Failure? ==>
        var newTask := old(pending)[op].newTask;
        && tasks == WithoutObj(old(tasks), newTask.obj)
        && Drafts() == (newTask.row.title, newTask.row.category, newTask.row.priority)
        && nextObj == old(nextObj)
    {
      var newTask := pending[op].newTask;
      PendingRemoved(pending, op, nextOp, nextObj, nextObj + 1);
      if outcome.Success? {
        var row := Task(nextObj, outcome.value);
        ReplacedAllocated(tasks, newTask.obj, row, nextObj + 1);
        tasks := ReplacedObj(tasks, newTask.obj, row);
        nextObj := nextObj + 1;
      } else {
        WithoutObjAllocated(tasks, newTask.obj, nextObj);
        tasks := WithoutObj(tasks, newTask.obj);
        newTitle, newCategory, newPriority := newTask.row.title, newTask.row.category, newTask.row.priority;
      }
      pending := pending - {op};
    }

    /**
     * `addTask`, when nothing else happens while the insert is outstanding: a
     * blank title changes nothing; a successful insert leaves the returned row
     * at the head of the old mirror; a failed one gives back the old mirror and
     * the submitted drafts, the title trimmed.
     */
    method AddTask(now: string, outcome: Outcome<Row>)
      requires Valid()
      modifies this`tasks, this`newTitle, this`newCategory, this`newPriority, this`nextObj, this`pending, this`nextOp
      ensures Valid()
      ensures pending == old(pending)
      ensures Trim(old(newTitle)) == [] ==> tasks == old(tasks) && Drafts() == old(Drafts())
      ensures Trim(old(newTitle)) != [] && outcome.Success? ==>
        && tasks == [Task(old(nextObj) + 1, outcome.value)] + old(tasks)
        && Drafts() == ("", DefaultCategory, DefaultPriority)
      ensures Trim(old(newTitle)) != [] && outcome.Failure? ==>
        && tasks == old(tasks)
        && Drafts() == (Trim(old(newTitle)), old(newCategory), old(newPriority))
    {
      var op := BeginAdd(now);
      if op.Some? {
        ghost var newTask := pending[op.value].newTask;
        if outcome.Success? {
          ReplaceProvisional(newTask, old(tasks), Task(nextObj, outcome.value));
        } else {
          RemoveProvisional(newTask, old(tasks));
        }
        SettleAdd(op.value, outcome);
        assert pending == old(pending);
      }
    }

    /** `handleKeyPress`: Enter starts `addTask` unless a load is outstanding; any other key does nothing. */
    method HandleKeyPress(key: string, now: string) returns (op: Option<nat>)
      requires Valid()
      modifies this`tasks, this`newTitle, this`newCategory, this`newPriority, this`nextObj, this`pending, this`nextOp
      ensures Valid()
      ensures key == "Enter" && !old(loading) ==> AddStarted(now, op)
      ensures !(key == "Enter" && !old(loading)) ==> op.None? && unchanged(this)
    {
      if key == "Enter" && !loading {
        op := BeginAdd(now);
      } else {
        op := None;
      }
    }

    // -------------------------------------------------------------------------
    // toggleCompleted
    // -------------------------------------------------------------------------

    /** `toggleCompleted(id, completed)` up to the update: matching records get `!completed`. */
    method BeginToggle(id: Option<TaskId>, completed: bool) returns (op: nat)
      requires Valid()
      modifies this`tasks, this`nextObj, this`pending, this`nextOp
      ensures Valid()
      ensures tasks == WithCompleted(old(tasks), id, !completed, old(nextObj))
      ensures nextObj == old(nextObj) + |old(tasks)|
      ensures op == old(nextOp) && nextOp == old(nextOp) + 1
      ensures op !in old(pending) && pending == old(pending)[op := Toggling(id, completed)]
    {
      WithCompletedAllocated(tasks, id, !completed, nextObj);
      PendingAdded(pending, nextOp, nextObj, Toggling(id, completed), nextObj + |tasks|);
      tasks := WithCompleted(tasks, id, !completed, nextObj);
      nextObj := nextObj + |tasks|;
      op := nextOp;
      pending := pending[op := Toggling(id, completed)];
      nextOp := nextOp + 1;
    }

    /**
     * `toggleCompleted` once the update resolved: success keeps the mirror;
     * failure writes the `completed` argument back to the records with that id.
     */
    method SettleToggle(op: nat, ok: bool)
      requires Valid() && op in pending && pending[op].Toggling?
      modifies this`tasks, this`nextObj, this`pending
      ensures Valid()
      ensures pending == old(pending) - {op}
      ensures ok ==> tasks == old(tasks) && nextObj == old(nextObj)
      ensures !ok ==>
        && tasks == WithCompleted(old(tasks), old(pending)[op].id, old(pending)[op].completed, old(nextObj))
        && nextObj == old(nextObj) + |old(tasks)|
    {
      PendingRemoved(pending, op, nextOp, nextObj, nextObj + |tasks|);
      if !ok {
        var p := pending[op];
        WithCompletedAllocated(tasks, p.id, p.completed, nextObj);
        tasks := WithCompleted(tasks, p.id, p.completed, nextObj);
        nextObj := nextObj + |tasks|;
      }
      pending := pending - {op};
    }

    /**
     * `toggleCompleted`, when nothing else happens while the update is
     * outstanding: success flips the records with that id to `!completed`;
     * failure leaves those records at `completed`, the others untouched, and,
     * when `completed` was their value before, the fields of the mirror as
     * they were.
     */
    method ToggleCompleted(id: Option<TaskId>, completed: bool, ok: bool)
      requires Valid()
      modifies this`tasks, this`nextObj, this`pending, this`nextOp
      ensures Valid()
      ensures pending == old(pending)
      ensures ok ==> tasks == WithCompleted(old(tasks), id, !completed, old(nextObj))
      ensures !ok ==> tasks == WithCompleted(old(tasks), id, completed, old(nextObj) + |old(tasks)|)
      ensures !ok && (forall k :: 0 <= k < |old(tasks)| && old(tasks)[k].row.id == id ==> old(tasks)[k].row.completed == completed)
        ==> Rows(tasks) == Rows(old(tasks))
    {
      var op := BeginToggle(id, completed);
      SettleToggle(op, ok);
      ToggleThenRevert(old(tasks), id, completed, old(nextObj), old(nextObj) + |old(tasks)|);
      if !ok && forall k :: 0 <= k < |old(tasks)| && old(tasks)[k].row.id == id ==> old(tasks)[k].row.completed == completed {
        RevertRestoresRows(old(tasks), id, completed, old(nextObj), old(nextObj) + |old(tasks)|);
      }
      assert pending == old(pending);
    }

    // -------------------------------------------------------------------------
    // deleteTask
    // -------------------------------------------------------------------------

    /**
     * `deleteTask(id)` up to the delete: a declined confirmation changes
     * nothing; otherwise the first record with the id is kept aside and every
     * record with the id is filtered out. The id comes from a rendered task,
     * so the mirror holds a record with it.
     */
    method BeginDelete(id: Option<TaskId>, confirmed: bool) returns (op: Option<nat>)
      requires Valid()
      requires confirmed ==> FindId(tasks, id).Some?
      modifies this`tasks, this`pending, this`nextOp
      ensures Valid()
      ensures op.None? <==> !confirmed
      ensures !confirmed ==> unchanged(this)
      ensures confirmed ==>
        && tasks == WithoutId(old(tasks), id)
        && op.value == old(nextOp) && nextOp == old(nextOp) + 1
        && op.value !in old(pending)
        && pending == old(pending)[op.value := Deleting(id, FindId(old(tasks), id).value)]
    {
      if !confirmed {
        return None;
      }
      WithoutIdAllocated(tasks, id, nextObj);
      var taskToDelete := FindId(tasks, id).value;
      PendingAdded(pending, nextOp, nextObj, Deleting(id, taskToDelete), nextObj);
      tasks := WithoutId(tasks, id);
      op := Some(nextOp);
      pending := pending[nextOp := Deleting(id, taskToDelete)];
      nextOp := nextOp + 1;
    }

    /** `deleteTask` once the delete resolved: failure appends the kept copy at the end. */
    method SettleDelete(op: nat, ok: bool)
      requires Valid() && op in pending && pending[op].Deleting?
      modifies this`tasks, this`pending
      ensures Valid()
      ensures pending == old(pending) - {op}
      ensures ok ==> tasks == old(tasks)
      ensures !ok ==> tasks == old(tasks) + [old(pending)[op].taskToDelete]
    {
      PendingRemoved(pending, op, nextOp, nextObj, nextObj);
      if !ok {
        AppendAllocated(tasks, pending[op].taskToDelete, nextObj);
        tasks := tasks + [pending[op].taskToDelete];
      }
      pending := pending - {op};
    }

    /**
     * `deleteTask`, when nothing else happens while the delete is outstanding:
     * declined, nothing changes; confirmed, every record with the id is gone,
     * and after a failure the first of them is back at the end. When the id
     * was unique, the failed delete leaves a permutation of the old mirror.
     */
    method DeleteTask(id: Option<TaskId>, confirmed: bool, ok: bool)
      requires Valid()
      requires confirmed ==> FindId(tasks, id).Some?
      modifies this`tasks, this`pending, this`nextOp
      ensures Valid()
      ensures pending == old(pending)
      ensures !confirmed ==> unchanged(this)
      ensures confirmed && ok ==> tasks == WithoutId(old(tasks), id)
      ensures confirmed && !ok ==> tasks == WithoutId(old(tasks), id) + [FindId(old(tasks), id).value]
      ensures confirmed && !ok ==>
        forall k: nat :: IdOnlyAt(old(tasks), id, k) ==> multiset(tasks) == multiset(old(tasks))
    {
      var op := BeginDelete(id, confirmed);
      if op.Some? {
        SettleDelete(op.value, ok);
        if !ok {
          DeleteRollbackPermutesAt(old(tasks), id);
        }
        assert pending == old(pending);
      }
    }
  }
}
