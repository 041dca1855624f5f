/**
 * The tasks table and the handlers that change it (tasks.php, and the
 * identical quick-add, toggle and delete handlers of index.php). Every
 * handler is scoped by the current user's id, passed in explicitly.
 */
module Tasks {
  import opened Php
  import opened Rows

  const SecondsPerDay: int := 86400

  datatype Priority = Low | Medium | High

  /** A row of the tasks table. `deadline` is a day number; the timestamps are seconds. */
  datatype Task = Task(
    id: int,
    owner: int,
    title: string,
    description: string,
    deadline: int,
    priority: Priority,
    completed: bool,
    createdAt: int,
    updatedAt: int)

  /** CURDATE() as a day number, from the current time in seconds. */
  function Today(now: int): int
  {
    now / SecondsPerDay
  }

  /** The first second of a day: what a DATE becomes when PHP turns it into a DateTime. */
  function DayStart(day: int): int
  {
    day * SecondsPerDay
  }

  /** `WHERE id = ? AND user_id = ?` */
  function Owned(id: int, owner: int): Task -> bool
  {
    (t: Task) => t.id == id && t.owner == owner
  }

  /** `WHERE user_id = ?` */
  function OfOwner(owner: int): Task -> bool
  {
    (t: Task) => t.owner == owner
  }

  /** Everything one user can see of the table. */
  function OwnedBy(rows: seq<Task>, owner: int): seq<Task>
  {
    Select(rows, OfOwner(owner))
  }

  /** The primary key column. */
  function TaskId(t: Task): int
  {
    t.id
  }

  /**
   * No two positions of the table hold the same id (the id is the primary
   * key); in particular no row is held twice.
   */
  ghost predicate KeyedById(rows: seq<Task>)
  {
    DistinctBy(rows, TaskId)
  }

  // ---------------------------------------------------------------------------
  // The table transitions, as functions of the old table

  /** The edit lookup `SELECT * FROM tasks WHERE id = ? AND user_id = ?`: the first row with that id and owner. */
  function FindOwned(rows: seq<Task>, id: int, owner: int): (r: Option<Task>)
    ensures r.Some? ==> r.value in rows && r.value.id == id && r.value.owner == owner
    ensures r.None? <==> forall t :: t in rows ==> !Owned(id, owner)(t)
  {
    if rows == [] then None
    else if rows[0].id == id && rows[0].owner == owner then Some(rows[0])
    else
      assert forall t :: t in rows ==> t == rows[0] || t in rows[1..];
      FindOwned(rows[1..], id, owner)
  }

  function SetFields(title: string, description: string, deadline: int, priority: Priority, completed: bool): Task -> Task
  {
    (t: Task) => t.(title := title, description := description, deadline := deadline, priority := priority, completed := completed)
  }

  function SetCompleted(status: bool): Task -> Task
  {
    (t: Task) => t.(completed := status)
  }

  function Flip(): Task -> Task
  {
    (t: Task) => t.(completed := !t.completed)
  }

  /** edit_task: `UPDATE tasks SET title, description, deadline, priority, completed WHERE id AND user_id`. */
  function Edited(rows: seq<Task>, id: int, owner: int, title: string, description: string, deadline: int,
                  priority: Priority, completed: bool): seq<Task>
  {
    UpdateWhere(rows, Owned(id, owner), SetFields(title, description, deadline, priority, completed))
  }

  /** What a completion toggle should do: flip `completed` on the caller's row with that id. */
  function Toggled(rows: seq<Task>, id: int, owner: int): seq<Task>
  {
    UpdateWhere(rows, Owned(id, owner), Flip())
  }

  /** delete_task: `DELETE FROM tasks WHERE id = ? AND user_id = ?`. */
  function Deleted(rows: seq<Task>, id: int, owner: int): seq<Task>
  {
    DeleteWhere(rows, Owned(id, owner))
  }

  // ---------------------------------------------------------------------------
  // Properties of the transitions

  /** Edit, toggle and delete by one user never change what another user sees. */
  lemma CrossOwnerIsolation(rows: seq<Task>, id: int, owner: int, other: int,
                            title: string, description: string, deadline: int, priority: Priority, completed: bool)
    requires other != owner
    ensures OwnedBy(Edited(rows, id, owner, title, description, deadline, priority, completed), other) == OwnedBy(rows, other)
    ensures OwnedBy(Toggled(rows, id, owner), other) == OwnedBy(rows, other)
    ensures OwnedBy(Deleted(rows, id, owner), other) == OwnedBy(rows, other)
  {
    UpdateWhereOutsideView(rows, Owned(id, owner), SetFields(title, description, deadline, priority, completed), OfOwner(other));
    UpdateWhereOutsideView(rows, Owned(id, owner), Flip(), OfOwner(other));
    DeleteWhereOutsideView(rows, Owned(id, owner), OfOwner(other));
  }

  /** An id the caller does not own (missing, or another user's) leaves the table exactly as it was. */
  lemma NoMatchIsNoOp(rows: seq<Task>, id: int, owner: int,
                      title: string, description: string, deadline: int, priority: Priority, completed: bool)
    requires FindOwned(rows, id, owner).None?
    ensures Edited(rows, id, owner, title, description, deadline, priority, completed) == rows
    ensures Toggled(rows, id, owner) == rows
    ensures Deleted(rows, id, owner) == rows
  {
    UpdateWhereNoMatch(rows, Owned(id, owner), SetFields(title, description, deadline, priority, completed));
    UpdateWhereNoMatch(rows, Owned(id, owner), Flip());
    DeleteWhereNoMatch(rows, Owned(id, owner));
  }

  /** Toggling twice restores every row. */
  lemma {:induction false} ToggleTwice(rows: seq<Task>, id: int, owner: int)
    ensures Toggled(Toggled(rows, id, owner), id, owner) == rows
  {
    var once := Toggled(rows, id, owner);
    var twice := Toggled(once, id, owner);
    forall i | 0 <= i < |rows|
      ensures twice[i] == rows[i]
    {
      assert Owned(id, owner)(once[i]) == Owned(id, owner)(rows[i]);
    }
  }

  /** A second delete of the same id finds nothing left to remove. */
  lemma DeleteIdempotent(rows: seq<Task>, id: int, owner: int)
    ensures Deleted(Deleted(rows, id, owner), id, owner) == Deleted(rows, id, owner)
  {
    DeleteWhereNoMatch(Deleted(rows, id, owner), Owned(id, owner));
  }

  /** The edited row carries the submitted fields and the `completed` flag chosen by the form. */
  lemma EditedRow(rows: seq<Task>, id: int, owner: int, title: string, description: string, deadline: int,
                  priority: Priority, completed: bool, i: int)
    requires 0 <= i < |rows| && rows[i].id == id && rows[i].owner == owner
    ensures var e := Edited(rows, id, owner, title, description, deadline, priority, completed)[i];
            e.title == title && e.description == description && e.deadline == deadline
            && e.priority == priority && e.completed == completed
            && e.id == id && e.owner == owner && e.createdAt == rows[i].createdAt && e.updatedAt == rows[i].updatedAt
  {
  }

  /** A row whose id exceeds every existing id keeps the table keyed by id. */
  lemma AppendFreshId(rows: seq<Task>, t: Task)
    requires KeyedById(rows) && forall u :: u in rows ==> u.id < t.id
    ensures KeyedById(rows + [t]) && forall u :: u in rows + [t] ==> u in rows || u == t
  {
    AppendKeepsDistinct(rows, t, TaskId);
    forall u | u in rows + [t]
      ensures u in rows || u == t
    {
    }
  }

  /** An inserted row shows up at the end of its owner's view and in no other view. */
  lemma AppendVisibility(rows: seq<Task>, t: Task)
    ensures OwnedBy(rows + [t], t.owner) == OwnedBy(rows, t.owner) + [t]
    ensures forall o :: o != t.owner ==> OwnedBy(rows + [t], o) == OwnedBy(rows, o)
  {
    SelectAppend(rows, t, OfOwner(t.owner));
    forall o | o != t.owner
      ensures OwnedBy(rows + [t], o) == OwnedBy(rows, o)
    {
      SelectAppend(rows, t, OfOwner(o));
    }
  }

  /** An UPDATE that keeps every row's id keeps the table keyed by id, with every id below the counter. */
  lemma UpdateKeepsIds(rows: seq<Task>, nextId: int, matches: Task -> bool, f: Task -> Task)
    requires KeyedById(rows) && forall t :: t in rows ==> 0 < t.id < nextId
    requires forall t :: f(t).id == t.id
    ensures KeyedById(UpdateWhere(rows, matches, f))
    ensures forall t :: t in UpdateWhere(rows, matches, f) ==> 0 < t.id < nextId
  {
    var r := UpdateWhere(rows, matches, f);
    UpdateWhereKeepsDistinct(rows, matches, f, TaskId);
    forall t | t in r
      ensures 0 < t.id < nextId
    {
      var i :| 0 <= i < |r| && r[i] == t;
      assert rows[i] in rows;
    }
  }

  /**
   * The toggle as complete_task performs it: read the caller's row, then
   * write the opposite of the value read. Ids being unique, that is the
   * same as flipping the row in place.
   */
  lemma ReadThenWriteFlips(rows: seq<Task>, id: int, owner: int)
    requires KeyedById(rows) && FindOwned(rows, id, owner).Some?
    ensures UpdateWhere(rows, Owned(id, owner), SetCompleted(!FindOwned(rows, id, owner).value.completed))
            == Toggled(rows, id, owner)
  {
    var found := FindOwned(rows, id, owner).value;
    var written := UpdateWhere(rows, Owned(id, owner), SetCompleted(!found.completed));
    forall i | 0 <= i < |rows|
      ensures written[i] == Toggled(rows, id, owner)[i]
    {
      if Owned(id, owner)(rows[i]) {
        DistinctMembers(rows, TaskId, rows[i], found);
      }
    }
  }

  // ---------------------------------------------------------------------------
  // The table and its request handlers

  class TaskTable {
    var rows: seq<Task>
    /** The AUTO_INCREMENT counter: the id the next inserted row receives. */
    var nextId: int

    ghost predicate Valid()
      reads this
    {
      0 < nextId && KeyedById(rows) && forall t :: t in rows ==> 0 < t.id < nextId
    }

    constructor ()
      ensures Valid() && rows == [] && nextId == 1
    {
      rows := [];
      nextId := 1;
    }

    /**
     * add_task (and the dashboard's quick add): one new row owned by the
     * caller, not completed, created at `now`.
     */
    method AddTask(owner: int, title: string, description: string, deadline: int, priority: Priority, now: int)
      requires Valid()
      modifies this
      ensures Valid() && nextId == old(nextId) + 1
      ensures rows == old(rows) + [Task(old(nextId), owner, title, description, deadline, priority, false, now, now)]
      ensures OwnedBy(rows, owner) == OwnedBy(old(rows), owner) + [rows[|rows| - 1]]
      ensures forall o :: o != owner ==> OwnedBy(rows, o) == OwnedBy(old(rows), o)
    {
      var t := Task(nextId, owner, title, description, deadline, priority, false, now, now);
      AppendFreshId(rows, t);
      AppendVisibility(rows, t);
      rows := rows + [t];
      nextId := nextId + 1;
    }

    /**
     * edit_task: the caller's row with that id receives the submitted fields;
     * `completed` is set exactly when the form carried a `completed` field.
     */
    method EditTask(id: int, owner: int, title: string, description: string, deadline: int, priority: Priority,
                    completedField: Option<string>)
      requires Valid()
      modifies this
      ensures Valid() && nextId == old(nextId)
      ensures rows == Edited(old(rows), id, owner, title, description, deadline, priority, completedField.Some?)
    {
      var completed := completedField.Some?;
      UpdateKeepsIds(rows, nextId, Owned(id, owner), SetFields(title, description, deadline, priority, completed));
      rows := Edited(rows, id, owner, title, description, deadline, priority, completed);
    }

    /**
     * complete_task: read the caller's row, then write back the opposite
     * `completed` value; nothing happens when the caller owns no such row.
     */
    method ToggleCompletion(id: int, owner: int)
      requires Valid()
      modifies this
      ensures Valid() && nextId == old(nextId)
      ensures rows == Toggled(old(rows), id, owner)
    {
      var found := FindOwned(rows, id, owner);
      if found.Some? {
        var newStatus := !found.value.completed;
        ReadThenWriteFlips(rows, id, owner);
        UpdateKeepsIds(rows, nextId, Owned(id, owner), Flip());
        rows := UpdateWhere(rows, Owned(id, owner), SetCompleted(newStatus));
      } else {
        NoMatchIsNoOp(rows, id, owner, "", "", 0, Low, false);
      }
    }

    /** delete_task: removes the caller's row with that id, if any; other rows stay, in order. */
    method DeleteTask(id: int, owner: int)
      requires Valid()
      modifies this
      ensures Valid() && nextId == old(nextId)
      ensures rows == Deleted(old(rows), id, owner)
    {
      DeleteWhereKeepsDistinct(rows, Owned(id, owner), TaskId);
      rows := Deleted(rows, id, owner);
    }
  }
}
