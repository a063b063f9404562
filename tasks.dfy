/**
 * The task records of the mirror and the list transforms the controller hands
 * to `setTasks`, as functions over `seq<Task>`, with what each one does to the
 * records it does not target.
 */
module Tasks {
  import opened Js

  /** Server-assigned identifier of a row of the `tasks` table. */
  type TaskId = int
  /** Identifier of an owner; the controller only ever writes `null`. */
  type UserId = string

  /**
   * The fields of a task as the client holds them. `id` is `None` (undefined)
   * on a provisional record, `userId` is `None` (null) on a public task.
   */
  datatype Row = Row(
    id: Option<TaskId>,
    title: string,
    category: string,
    priority: string,
    completed: bool,
    userId: Option<UserId>,
    createdAt: string)

  /**
   * A JavaScript object in the mirror: `obj` is its identity (what `===` and
   * `!==` compare on objects), `row` the fields it holds.
   */
  datatype Task = Task(obj: nat, row: Row)

  /**
   * What an awaited remote call resolves to. An `error` in the response and a
   * thrown exception are handled identically by every handler, so both are
   * `Failure`.
   */
  datatype Outcome<+T> = Success(value: T) | Failure

  /** The initial value of the category and priority drafts, and what they are reset to. */
  const DefaultCategory: string := "Personal"
  const DefaultPriority: string := "medium"

  /** The record `addTask` builds before the insert: no id, not completed, public. */
  function Provisional(title: string, category: string, priority: string, now: string): Row {
    Row(None, title, category, priority, false, None, now)
  }

  /** `getPriorityColor`: the background colour of an uncompleted task. */
  function PriorityColor(priority: string): (colour: string)
    ensures priority == "high" <==> colour == "#ffcccc"
    ensures priority == "medium" <==> colour == "#ffffcc"
    ensures priority == "low" <==> colour == "#ccffcc"
    ensures colour == "#fff" <==> priority != "high" && priority != "medium" && priority != "low"
  {
    match priority
    case "high" => "#ffcccc"
    case "medium" => "#ffffcc"
    case "low" => "#ccffcc"
    case _ => "#fff"
  }

  // ---------------------------------------------------------------------------
  // Views of a mirror
  // ---------------------------------------------------------------------------

  /** The fields of every record, forgetting object identity. */
  function Rows(ts: seq<Task>): seq<Row> {
    seq(|ts|, k requires 0 <= k < |ts| => ts[k].row)
  }

  /** Every object of `ts` was allocated before the allocator reached `n`. */
  predicate AllocatedBelow(ts: seq<Task>, n: nat) {
    forall t :: t in ts ==> t.obj < n
  }

  /** Rows received from the store, each wrapped in a freshly allocated object. */
  function Received(rows: seq<Row>, base: nat): (ts: seq<Task>)
    ensures Rows(ts) == rows
    ensures forall t :: t in ts ==> base <= t.obj < base + |rows|
  {
    seq(|rows|, k requires 0 <= k < |rows| => Task(base + k, rows[k]))
  }

  /** `data || []`: a response without data loads an empty list. */
  function Loaded(data: Option<seq<Row>>): seq<Row> {
    match data
    case Some(rows) => rows
    case None => []
  }

  // ---------------------------------------------------------------------------
  // The transforms passed to setTasks
  // ---------------------------------------------------------------------------

  /** `prevTasks.map(task => task === newTask ? replacement : task)`. */
  function ReplacedObj(ts: seq<Task>, o: nat, replacement: Task): seq<Task> {
    seq(|ts|, k requires 0 <= k < |ts| => if ts[k].obj == o then replacement else ts[k])
  }

  /** The predicate `task => task !== newTask`. */
  function IsNotObj(o: nat): Task -> bool {
    (t: Task) => t.obj != o
  }

  /** `prevTasks.filter(task => task !== newTask)`. */
  function WithoutObj(ts: seq<Task>, o: nat): seq<Task> {
    Filter(ts, IsNotObj(o))
  }

  /**
   * `prevTasks.map(task => task.id === id ? { ...task, completed: c } : task)`:
   * every matching record is copied into a new object (allocated at
   * `base + position`) whose `completed` is `c`.
   */
  function WithCompleted(ts: seq<Task>, id: Option<TaskId>, c: bool, base: nat): seq<Task> {
    seq(|ts|, k requires 0 <= k < |ts| =>
      if ts[k].row.id == id then Task(base + k, ts[k].row.(completed := c)) else ts[k])
  }

  /** The predicate `task => task.id !== id`. */
  function HasOtherId(id: Option<TaskId>): Task -> bool {
    (t: Task) => t.row.id != id
  }

  /** The predicate `task => task.id === id`. */
  function HasId(id: Option<TaskId>): Task -> bool {
    (t: Task) => t.row.id == id
  }

  /** `prevTasks.filter(task => task.id !== id)`. */
  function WithoutId(ts: seq<Task>, id: Option<TaskId>): seq<Task> {
    Filter(ts, HasOtherId(id))
  }

  /** Position `k` holds the only record with this id. */
  predicate IdOnlyAt(ts: seq<Task>, id: Option<TaskId>, k: nat) {
    k < |ts| && ts[k].row.id == id && forall j :: 0 <= j < |ts| && j != k ==> ts[j].row.id != id
  }

  /** `tasks.find(task => task.id === id)`. */
  function FindId(ts: seq<Task>, id: Option<TaskId>): Option<Task> {
    Find(ts, HasId(id))
  }

  // ---------------------------------------------------------------------------
  // The transforms only hold allocated objects
  // ---------------------------------------------------------------------------

  lemma PrependAllocated(t: Task, ts: seq<Task>, n: nat)
    requires AllocatedBelow(ts, t.obj) && t.obj < n
    ensures AllocatedBelow([t] + ts, n)
  {
  }

  lemma AppendAllocated(ts: seq<Task>, t: Task, n: nat)
    requires AllocatedBelow(ts, n) && t.obj < n
    ensures AllocatedBelow(ts + [t], n)
  {
  }

  lemma ReplacedAllocated(ts: seq<Task>, o: nat, replacement: Task, n: nat)
    requires AllocatedBelow(ts, n) && replacement.obj < n
    ensures AllocatedBelow(ReplacedObj(ts, o, replacement), n)
  {
    var r := ReplacedObj(ts, o, replacement);
    forall t | t in r ensures t.obj < n {
      var k :| 0 <= k < |r| && r[k] == t;
      assert ts[k] in ts;
    }
  }

  lemma WithoutObjAllocated(ts: seq<Task>, o: nat, n: nat)
    requires AllocatedBelow(ts, n)
    ensures AllocatedBelow(WithoutObj(ts, o), n)
  {
    FilterKeeps(ts, IsNotObj(o));
  }

  lemma WithCompletedAllocated(ts: seq<Task>, id: Option<TaskId>, c: bool, base: nat)
    requires AllocatedBelow(ts, base)
    ensures AllocatedBelow(WithCompleted(ts, id, c, base), base + |ts|)
  {
    var r := WithCompleted(ts, id, c, base);
    forall t | t in r ensures t.obj < base + |ts| {
      var k :| 0 <= k < |r| && r[k] == t;
      assert ts[k] in ts;
    }
  }

  lemma WithoutIdAllocated(ts: seq<Task>, id: Option<TaskId>, n: nat)
    requires AllocatedBelow(ts, n)
    ensures AllocatedBelow(WithoutId(ts, id), n)
    ensures FindId(ts, id).Some? ==> FindId(ts, id).value.obj < n
  {
    FilterKeeps(ts, HasOtherId(id));
    if FindId(ts, id).Some? {
      var k :| 0 <= k < |ts| && ts[k] == FindId(ts, id).value;
      assert ts[k] in ts;
    }
  }

  // ---------------------------------------------------------------------------
  // What the transforms do
  // ---------------------------------------------------------------------------

  /**
   * Replacing the freshly prepended provisional record by identity swaps in
   * the returned row at the head and leaves the rest of the list as it was.
   */
  lemma ReplaceProvisional(p: Task, ts: seq<Task>, row: Task)
    requires AllocatedBelow(ts, p.obj)
    ensures ReplacedObj([p] + ts, p.obj, row) == [row] + ts
  {
    var r := ReplacedObj([p] + ts, p.obj, row);
    forall k | 1 <= k < |r| ensures r[k] == ts[k - 1] {
      assert ([p] + ts)[k] == ts[k - 1];
      assert ts[k - 1] in ts;
    }
  }

  /** Replacing by identity touches exactly the records with that identity. */
  lemma ReplaceTouchesOnlyObj(ts: seq<Task>, o: nat, row: Task)
    ensures |ReplacedObj(ts, o, row)| == |ts|
    ensures forall k :: 0 <= k < |ts| && ts[k].obj != o ==> ReplacedObj(ts, o, row)[k] == ts[k]
    ensures forall k :: 0 <= k < |ts| && ts[k].obj == o ==> ReplacedObj(ts, o, row)[k] == row
  {
  }

  /**
   * Removing the freshly prepended provisional record by identity gives back
   * exactly the list it was prepended to.
   */
  lemma {:induction false} RemoveProvisional(p: Task, ts: seq<Task>)
    requires AllocatedBelow(ts, p.obj)
    ensures WithoutObj([p] + ts, p.obj) == ts
  {
    FilterConcat([p], ts, IsNotObj(p.obj));
    assert Filter([p], IsNotObj(p.obj)) == [] by {
      assert [p][1..] == [];
    }
    forall k | 0 <= k < |ts| ensures IsNotObj(p.obj)(ts[k]) {
      assert ts[k] in ts;
    }
  }

  /**
   * Removing an object keeps every other record, in order, and with its
   * multiplicity; nothing with that identity is left.
   */
  lemma RemoveObjKeepsOthers(ts: seq<Task>, o: nat)
    ensures forall t :: t in WithoutObj(ts, o) <==> t in ts && t.obj != o
    ensures forall t: Task :: t.obj != o ==> multiset(WithoutObj(ts, o))[t] == multiset(ts)[t]
    ensures forall a, b :: WithoutObj(a + b, o) == WithoutObj(a, o) + WithoutObj(b, o)
  {
    FilterKeeps(ts, IsNotObj(o));
    forall a, b ensures WithoutObj(a + b, o) == WithoutObj(a, o) + WithoutObj(b, o) {
      FilterConcat(a, b, IsNotObj(o));
    }
  }

  /**
   * Setting `completed` by id: matching records get the new value and keep
   * every other field, all other records are left as they were.
   */
  lemma SetCompletedEffect(ts: seq<Task>, id: Option<TaskId>, c: bool, base: nat)
    ensures |WithCompleted(ts, id, c, base)| == |ts|
    ensures forall k :: 0 <= k < |ts| && ts[k].row.id == id ==>
      Rows(WithCompleted(ts, id, c, base))[k] == ts[k].row.(completed := c)
    ensures forall k :: 0 <= k < |ts| && ts[k].row.id != id ==>
      WithCompleted(ts, id, c, base)[k] == ts[k]
  {
  }

  /**
   * A toggle followed by its rollback: the rollback maps over the same
   * records (ids do not change), so the net effect is a single write of the
   * rollback value `c` to every matching record. Records that do not match
   * are untouched.
   */
  lemma {:induction false} ToggleThenRevert(ts: seq<Task>, id: Option<TaskId>, c: bool, b1: nat, b2: nat)
    ensures WithCompleted(WithCompleted(ts, id, !c, b1), id, c, b2) == WithCompleted(ts, id, c, b2)
  {
    var once := WithCompleted(ts, id, !c, b1);
    var twice := WithCompleted(once, id, c, b2);
    var direct := WithCompleted(ts, id, c, b2);
    forall k | 0 <= k < |ts| ensures twice[k] == direct[k] {
      assert once[k].row.id == ts[k].row.id;
    }
  }

  /**
   * The rollback restores the fields of the mirror when the `completed`
   * argument was the current value of every record with that id (which is how
   * the checkbox calls it); only the objects are new.
   */
  lemma {:induction false} RevertRestoresRows(ts: seq<Task>, id: Option<TaskId>, c: bool, b1: nat, b2: nat)
    requires forall k :: 0 <= k < |ts| && ts[k].row.id == id ==> ts[k].row.completed == c
    ensures Rows(WithCompleted(WithCompleted(ts, id, !c, b1), id, c, b2)) == Rows(ts)
  {
    ToggleThenRevert(ts, id, c, b1, b2);
    var r := WithCompleted(ts, id, c, b2);
    forall k | 0 <= k < |ts| ensures Rows(r)[k] == Rows(ts)[k] {
      if ts[k].row.id == id {
        assert ts[k].row.(completed := c) == ts[k].row;
      }
    }
  }

  /**
   * Toggling a provisional record (its id is undefined) before its insert
   * resolves copies it into a new object, so the insert's replace by identity
   * no longer finds it: the mirror is left as the toggle made it.
   */
  lemma {:induction false} ToggleDetachesProvisional(p: Task, ts: seq<Task>, c: bool, base: nat, returned: Task)
    requires p.row.id == None && AllocatedBelow(ts, p.obj) && p.obj < base
    ensures WithCompleted([p] + ts, None, c, base)[0] == Task(base, p.row.(completed := c))
    ensures ReplacedObj(WithCompleted([p] + ts, None, c, base), p.obj, returned)
         == WithCompleted([p] + ts, None, c, base)
  {
    var toggled := WithCompleted([p] + ts, None, c, base);
    forall k | 0 <= k < |toggled| ensures toggled[k].obj != p.obj {
      if k > 0 {
        assert ([p] + ts)[k] == ts[k - 1];
        assert ts[k - 1] in ts;
      }
    }
  }

  /** Deleting by id removes every record with that id and keeps the rest, in order. */
  lemma DeleteKeepsOthers(ts: seq<Task>, id: Option<TaskId>)
    ensures forall t :: t in WithoutId(ts, id) <==> t in ts && t.row.id != id
    ensures forall t: Task :: t.row.id != id ==> multiset(WithoutId(ts, id))[t] == multiset(ts)[t]
    ensures forall a, b :: WithoutId(a + b, id) == WithoutId(a, id) + WithoutId(b, id)
  {
    FilterKeeps(ts, HasOtherId(id));
    forall a, b ensures WithoutId(a + b, id) == WithoutId(a, id) + WithoutId(b, id) {
      FilterConcat(a, b, HasOtherId(id));
    }
  }

  /** `find` by id returns the first record with that id. */
  lemma FindIdFirst(ts: seq<Task>, id: Option<TaskId>)
    ensures FindId(ts, id).None? <==> forall k :: 0 <= k < |ts| ==> ts[k].row.id != id
    ensures FindId(ts, id).Some? ==>
      exists k :: 0 <= k < |ts| && ts[k] == FindId(ts, id).value && ts[k].row.id == id &&
        forall j :: 0 <= j < k ==> ts[j].row.id != id
  {
    var r := FindId(ts, id);
    assert forall k :: 0 <= k < |ts| ==> (HasId(id)(ts[k]) <==> ts[k].row.id == id);
  }

  /** Removing the only record with the id leaves the records before and after it. */
  lemma DeleteOnly(ts: seq<Task>, id: Option<TaskId>, k: nat)
    requires IdOnlyAt(ts, id, k)
    ensures WithoutId(ts, id) == ts[..k] + ts[k + 1..]
  {
    FilterRemovesOnly(ts, HasOtherId(id), k);
  }

  /**
   * When exactly one record has the id, deleting it and then re-appending
   * the copy found beforehand gives a permutation of the original mirror: the
   * record comes back with all its fields, at the end of the list.
   */
  lemma {:induction false} DeleteRollbackPermutes(ts: seq<Task>, id: Option<TaskId>, k: nat)
    requires IdOnlyAt(ts, id, k)
    ensures FindId(ts, id) == Some(ts[k])
    ensures WithoutId(ts, id) + [ts[k]] == ts[..k] + ts[k + 1..] + [ts[k]]
    ensures multiset(WithoutId(ts, id) + [ts[k]]) == multiset(ts)
  {
    FindIdFirst(ts, id);
    DeleteOnly(ts, id, k);
    calc {
      multiset(ts);
      { assert ts == ts[..k] + [ts[k]] + ts[k + 1..]; }
      multiset(ts[..k]) + multiset([ts[k]]) + multiset(ts[k + 1..]);
      multiset(ts[..k] + ts[k + 1..] + [ts[k]]);
    }
  }

  /** `DeleteRollbackPermutes`, for whichever position holds the only record with the id. */
  lemma DeleteRollbackPermutesAt(ts: seq<Task>, id: Option<TaskId>)
    ensures forall k: nat :: IdOnlyAt(ts, id, k) ==>
      FindId(ts, id).Some? && multiset(WithoutId(ts, id) + [FindId(ts, id).value]) == multiset(ts)
  {
    forall k: nat | IdOnlyAt(ts, id, k)
      ensures FindId(ts, id).Some? && multiset(WithoutId(ts, id) + [FindId(ts, id).value]) == multiset(ts)
    {
      DeleteRollbackPermutes(ts, id, k);
    }
  }
}
