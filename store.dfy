/** The key-indexed store behind the board: three tables keyed by
    auto-increment id, and the log of every write issued to them.
    The tables at any time are the fold of the writes over the initial
    tables, so a sequence of writes can be specified by its log alone. */
module Store {
  import opened Kanban

  datatype Tables = Tables(columns: map<Id, Column>, tasks: map<Id, Task>, comments: map<Id, Comment>)

  /** One store call: an insert, a field update by id, or a delete. */
  datatype Write =
    | ColumnAdded(column: Column)
    | TaskAdded(task: Task)
    | ColumnOrderSet(id: Id, order: int)
    | ColumnTitleSet(id: Id, title: string)
    | TaskOrderSet(id: Id, order: int)
    | TaskPlaced(id: Id, columnId: Id, order: int)
    | CommentsOfTaskDeleted(taskId: Id)
    | TaskDeleted(id: Id)
    | ColumnDeleted(id: Id)

  /** The comments table without the comments of one task
      (`comments.where("taskId").equals(id).delete()`). */
  function CommentsWithout(cm: map<Id, Comment>, taskId: Id): (r: map<Id, Comment>)
    ensures forall k :: k in r <==> k in cm && cm[k].taskId != taskId
    ensures forall k :: k in r ==> r[k] == cm[k]
  {
    map k | k in cm && cm[k].taskId != taskId :: cm[k]
  }

  /** The ids of the stored comments that belong to a task. */
  function CommentsOf(cm: map<Id, Comment>, taskId: Id): (r: set<Id>)
    ensures forall k :: k in r <==> k in cm && cm[k].taskId == taskId
  {
    set k | k in cm && cm[k].taskId == taskId
  }

  /** The effect of one write. An update of a missing key changes nothing,
      as the store's update resolves to "0 records changed". */
  function Apply(t: Tables, w: Write): Tables
  {
    match w
    case ColumnAdded(c) => t.(columns := t.columns[c.id := c])
    case TaskAdded(x) => t.(tasks := t.tasks[x.id := x])
    case ColumnOrderSet(id, o) =>
      if id in t.columns then t.(columns := t.columns[id := t.columns[id].(order := o)]) else t
    case ColumnTitleSet(id, s) =>
      if id in t.columns then t.(columns := t.columns[id := t.columns[id].(title := s)]) else t
    case TaskOrderSet(id, o) =>
      if id in t.tasks then t.(tasks := t.tasks[id := t.tasks[id].(order := o)]) else t
    case TaskPlaced(id, c, o) =>
      if id in t.tasks then t.(tasks := t.tasks[id := t.tasks[id].(columnId := c, order := o)]) else t
    case CommentsOfTaskDeleted(id) => t.(comments := CommentsWithout(t.comments, id))
    case TaskDeleted(id) => t.(tasks := t.tasks - {id})
    case ColumnDeleted(id) => t.(columns := t.columns - {id})
  }

  /** Each write touches one table only, and only an insert adds a key. */
  lemma ApplyFrame(t: Tables, w: Write)
    ensures (w.ColumnAdded? || w.ColumnOrderSet? || w.ColumnTitleSet? || w.ColumnDeleted?) ==>
      Apply(t, w).tasks == t.tasks && Apply(t, w).comments == t.comments
    ensures (w.TaskAdded? || w.TaskOrderSet? || w.TaskPlaced? || w.TaskDeleted?) ==>
      Apply(t, w).columns == t.columns && Apply(t, w).comments == t.comments
    ensures w.CommentsOfTaskDeleted? ==> Apply(t, w).columns == t.columns && Apply(t, w).tasks == t.tasks && Apply(t, w).comments.Keys <= t.comments.Keys
    ensures (w.ColumnOrderSet? || w.ColumnTitleSet?) ==> Apply(t, w).columns.Keys == t.columns.Keys
    ensures (w.TaskOrderSet? || w.TaskPlaced?) ==> Apply(t, w).tasks.Keys == t.tasks.Keys
    ensures !w.ColumnAdded? ==> Apply(t, w).columns.Keys <= t.columns.Keys
    ensures !w.TaskAdded? ==> Apply(t, w).tasks.Keys <= t.tasks.Keys
  {
  }

  /** The effect of a sequence of writes issued one after the other. */
  function ApplyAll(t: Tables, ws: seq<Write>): Tables
    decreases |ws|
  {
    if ws == [] then t else Apply(ApplyAll(t, ws[..|ws| - 1]), ws[|ws| - 1])
  }

  /** Issuing one more write applies it to the tables reached so far. */
  lemma ApplyAllSnoc(t: Tables, ws: seq<Write>, w: Write)
    ensures ApplyAll(t, ws + [w]) == Apply(ApplyAll(t, ws), w)
  {
    assert (ws + [w])[..|ws|] == ws;
  }

  /** Issuing a then b has the effect of b applied after a. */
  lemma {:induction false} ApplyAllAppend(t: Tables, a: seq<Write>, b: seq<Write>)
    ensures ApplyAll(t, a + b) == ApplyAll(ApplyAll(t, a), b)
    decreases |b|
  {
    if b == [] {
      assert a + b == a;
    } else {
      var b' := b[..|b| - 1];
      assert (a + b)[..|a + b| - 1] == a + b';
      ApplyAllAppend(t, a, b');
    }
  }

  /** Every stored record carries its own key, every key is below the
      table's next auto-increment value, and every comment belongs to a task
      id that has already been handed out. */
  ghost predicate TablesWellKeyed(t: Tables, nextColumnId: Id, nextTaskId: Id) {
    && (forall k :: k in t.columns ==> t.columns[k].id == k && k < nextColumnId)
    && (forall k :: k in t.tasks ==> t.tasks[k].id == k && k < nextTaskId)
    && (forall k :: k in t.comments ==> t.comments[k].id == k && t.comments[k].taskId < nextTaskId)
  }

  /** An update or a delete never adds a key nor a comment of a new task. */
  lemma UpdateKeepsWellKeyed(t: Tables, w: Write, nextColumnId: Id, nextTaskId: Id)
    requires TablesWellKeyed(t, nextColumnId, nextTaskId)
    requires !w.ColumnAdded? && !w.TaskAdded?
    ensures TablesWellKeyed(Apply(t, w), nextColumnId, nextTaskId)
  {
  }

  /** An insert under the table's next key keeps the keys well formed once
      that table's next key moves past it. */
  lemma InsertKeepsWellKeyed(t: Tables, w: Write, nextColumnId: Id, nextTaskId: Id)
    requires TablesWellKeyed(t, nextColumnId, nextTaskId)
    requires w.ColumnAdded? ==> w.column.id == nextColumnId
    requires w.TaskAdded? ==> w.task.id == nextTaskId
    requires w.ColumnAdded? || w.TaskAdded?
    ensures w.ColumnAdded? ==> TablesWellKeyed(Apply(t, w), nextColumnId + 1, nextTaskId)
    ensures w.TaskAdded? ==> TablesWellKeyed(Apply(t, w), nextColumnId, nextTaskId + 1)
  {
  }

  class Db {
    var columns: map<Id, Column>
    var tasks: map<Id, Task>
    var comments: map<Id, Comment>
    var nextColumnId: Id
    var nextTaskId: Id
    /** Every write issued so far, oldest first. */
    var log: seq<Write>
    /** The tables when the store was opened. */
    ghost var initial: Tables

    function Contents(): Tables
      reads this
    {
      Tables(columns, tasks, comments)
    }

    /** The keys are well formed, and the tables are the fold of the log
        over the tables the store was opened with. */
    ghost predicate Valid()
      reads this
    {
      && TablesWellKeyed(Contents(), nextColumnId, nextTaskId)
      && Contents() == ApplyAll(initial, log)
    }

    constructor Open(t: Tables, nextColumn: Id, nextTask: Id)
      requires TablesWellKeyed(t, nextColumn, nextTask)
      ensures Valid() && Contents() == t && log == [] && initial == t
    {
      columns, tasks, comments := t.columns, t.tasks, t.comments;
      nextColumnId, nextTaskId := nextColumn, nextTask;
      log := [];
      initial := t;
    }

    /** Issues one update or delete. */
    method Issue(w: Write)
      requires Valid()
      requires !w.ColumnAdded? && !w.TaskAdded?
      modifies this
      ensures Valid()
      ensures log == old(log) + [w] && Contents() == Apply(old(Contents()), w)
      ensures nextColumnId == old(nextColumnId) && nextTaskId == old(nextTaskId) && initial == old(initial)
    {
      var t := Apply(Contents(), w);
      UpdateKeepsWellKeyed(Contents(), w, nextColumnId, nextTaskId);
      ApplyAllSnoc(initial, log, w);
      columns, tasks, comments := t.columns, t.tasks, t.comments;
      log := log + [w];
    }

    /** `columns.add(row)`: stores the row under a fresh key and returns it. */
    method InsertColumn(boardId: int, title: string, order: int) returns (id: Id)
      requires Valid()
      modifies this
      ensures Valid()
      ensures id == old(nextColumnId) && nextColumnId == id + 1 && nextTaskId == old(nextTaskId)
      ensures initial == old(initial)
      ensures id !in old(columns)
      ensures log == old(log) + [ColumnAdded(Column(id, boardId, title, order))]
      ensures Contents() == Apply(old(Contents()), ColumnAdded(Column(id, boardId, title, order)))
    {
      id := nextColumnId;
      nextColumnId := nextColumnId + 1;
      var w := ColumnAdded(Column(id, boardId, title, order));
      InsertKeepsWellKeyed(Contents(), w, id, nextTaskId);
      ApplyAllSnoc(initial, log, w);
      columns := columns[id := w.column];
      log := log + [w];
    }

    /** `tasks.add(row)`: stores the row under a fresh key and returns it. */
    method InsertTask(columnId: Id, title: string, order: int, createdAt: int) returns (id: Id)
      requires Valid()
      modifies this
      ensures Valid()
      ensures id == old(nextTaskId) && nextTaskId == id + 1 && nextColumnId == old(nextColumnId)
      ensures initial == old(initial)
      ensures id !in old(tasks)
      ensures CommentsOf(comments, id) == {}
      ensures log == old(log) + [TaskAdded(Task(id, columnId, title, order, createdAt))]
      ensures Contents() == Apply(old(Contents()), TaskAdded(Task(id, columnId, title, order, createdAt)))
    {
      id := nextTaskId;
      assert forall k :: k in comments ==> comments[k].taskId < id;
      nextTaskId := nextTaskId + 1;
      var w := TaskAdded(Task(id, columnId, title, order, createdAt));
      InsertKeepsWellKeyed(Contents(), w, nextColumnId, id);
      ApplyAllSnoc(initial, log, w);
      tasks := tasks[id := w.task];
      log := log + [w];
    }

    /** `comments.where("taskId").equals(taskId).count()`. */
    method CountComments(taskId: Id) returns (n: nat)
      ensures n == |CommentsOf(comments, taskId)|
    {
      n := |CommentsOf(comments, taskId)|;
    }
  }
}
