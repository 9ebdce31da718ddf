/** Records of the board: columns, tasks and comments as they are stored,
    and the in-memory column that carries its ordered task list. */
module Kanban {
  import opened ListMove

  /** Identifiers are auto-increment keys of the store, which start at 1;
      so an id is never "falsy" and the source's truthiness tests on ids always pass. */
  type Id = x: int | x > 0 witness 1

  datatype Option<T> = None | Some(value: T)

  datatype Column = Column(id: Id, boardId: int, title: string, order: int)

  datatype Task = Task(id: Id, columnId: Id, title: string, order: int, createdAt: int)

  datatype Comment = Comment(id: Id, taskId: Id, content: string, createdAt: int)

  /** A column as the board keeps it in memory: the stored row plus its tasks. */
  datatype ColumnWithTasks = ColumnWithTasks(id: Id, boardId: int, title: string, order: int, tasks: seq<Task>)
  {
    function Row(): Column { Column(id, boardId, title, order) }
  }

  function WithTasks(c: Column, tasks: seq<Task>): ColumnWithTasks {
    ColumnWithTasks(c.id, c.boardId, c.title, c.order, tasks)
  }

  /** The ids of a task list, in list order. */
  function TaskIds(ts: seq<Task>): (r: seq<Id>)
    ensures |r| == |ts| && forall i :: 0 <= i < |ts| ==> r[i] == ts[i].id
  {
    seq(|ts|, i requires 0 <= i < |ts| => ts[i].id)
  }

  /** The ids of a column list, in list order. */
  function ColumnIds(cs: seq<ColumnWithTasks>): (r: seq<Id>)
    ensures |r| == |cs| && forall i :: 0 <= i < |cs| ==> r[i] == cs[i].id
  {
    seq(|cs|, i requires 0 <= i < |cs| => cs[i].id)
  }

  /** No two columns of the board share an id. */
  ghost predicate UniqueColumnIds(cs: seq<ColumnWithTasks>) {
    Distinct(ColumnIds(cs))
  }

  /** No two tasks of a column share an id. */
  ghost predicate UniqueTaskIds(ts: seq<Task>) {
    Distinct(TaskIds(ts))
  }

  /** Every element's order equals its index: the dense ranking 0..n-1. */
  ghost predicate DenseTasks(ts: seq<Task>) {
    forall i :: 0 <= i < |ts| ==> ts[i].order == i
  }

  ghost predicate DenseColumns(cs: seq<ColumnWithTasks>) {
    forall i :: 0 <= i < |cs| ==> cs[i].order == i
  }

  /** `columns.findIndex(col => col.id === id)`: the first position holding
      the id, or -1 when no column has it. */
  function IndexOfColumn(cs: seq<ColumnWithTasks>, id: Id): (r: int)
    ensures -1 <= r < |cs|
    ensures r >= 0 ==> cs[r].id == id && forall j :: 0 <= j < r ==> cs[j].id != id
    ensures r == -1 <==> forall j :: 0 <= j < |cs| ==> cs[j].id != id
  {
    if |cs| == 0 then -1
    else if cs[0].id == id then 0
    else
      var r := IndexOfColumn(cs[1..], id);
      if r == -1 then -1 else r + 1
  }

  /** `tasks.findIndex(t => t.id === id)`: the first position holding the id,
      or -1 when no task has it. */
  function IndexOfTask(ts: seq<Task>, id: Id): (r: int)
    ensures -1 <= r < |ts|
    ensures r >= 0 ==> ts[r].id == id && forall j :: 0 <= j < r ==> ts[j].id != id
    ensures r == -1 <==> forall j :: 0 <= j < |ts| ==> ts[j].id != id
  {
    if |ts| == 0 then -1
    else if ts[0].id == id then 0
    else
      var r := IndexOfTask(ts[1..], id);
      if r == -1 then -1 else r + 1
  }

  /** With distinct ids, the position found for an element's id is that element's position. */
  lemma IndexOfColumnDistinct(cs: seq<ColumnWithTasks>, i: nat)
    requires i < |cs| && UniqueColumnIds(cs)
    ensures IndexOfColumn(cs, cs[i].id) == i
  {
    var r := IndexOfColumn(cs, cs[i].id);
    assert ColumnIds(cs)[r] == ColumnIds(cs)[i];
  }

  lemma IndexOfTaskDistinct(ts: seq<Task>, i: nat)
    requires i < |ts| && UniqueTaskIds(ts)
    ensures IndexOfTask(ts, ts[i].id) == i
  {
    var r := IndexOfTask(ts, ts[i].id);
    assert TaskIds(ts)[r] == TaskIds(ts)[i];
  }
}
