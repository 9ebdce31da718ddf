/** The reorder engine: decoding of drag identifiers, lookup of the dragged
    entity and of the drop target, and the new board and store writes that a
    drag-end produces. The handler itself, which applies a plan to the board
    and the store, is `Board.KanbanBoard.DragEnd`. */
module Reorder {
  import opened Kanban
  import opened ListMove
  import opened Store
  import opened Batches

  /** A drag identifier decoded once at the boundary: `column-N`, `task-N`,
      or something else. For the dragged element the tag is its data type
      ("column" / "task"); for the drop target it is the id's prefix. */
  datatype DragId = Col(id: Id) | Tsk(id: Id) | Other

  /** Where a task sits: column index and index within that column. */
  datatype Loc = Loc(column: nat, index: nat)

  /** What a drag-end does: nothing, or a new column list and the store
      writes that persist it, in the order they are issued. */
  datatype Plan = NoOp | Reorder(columns: seq<ColumnWithTasks>, writes: seq<Write>)

  // ---------------------------------------------------------------------
  // Lookups

  /** `columns.find(col => col.id === id)`. */
  function FindColumn(cs: seq<ColumnWithTasks>, id: Id): (r: Option<ColumnWithTasks>)
    ensures r.Some? <==> exists i :: 0 <= i < |cs| && cs[i].id == id
    ensures r.Some? ==> r.value.id == id && r.value in cs
    ensures r.Some? ==> r.value == cs[IndexOfColumn(cs, id)]
  {
    var i := IndexOfColumn(cs, id);
    if i == -1 then None else Some(cs[i])
  }

  /** `columns.flatMap(col => col.tasks)`. */
  function AllTasks(cs: seq<ColumnWithTasks>): (r: seq<Task>)
    ensures |r| == TotalTasks(cs)
    ensures forall t :: t in r <==> exists i :: 0 <= i < |cs| && t in cs[i].tasks
    decreases |cs|
  {
    if cs == [] then [] else cs[0].tasks + AllTasks(cs[1..])
  }

  /** The number of tasks on the board. */
  function TotalTasks(cs: seq<ColumnWithTasks>): nat
    decreases |cs|
  {
    if cs == [] then 0 else |cs[0].tasks| + TotalTasks(cs[1..])
  }

  /** `tasks.find(t => t.id === id)`. */
  function FindTask(ts: seq<Task>, id: Id): (r: Option<Task>)
    ensures r.Some? <==> exists i :: 0 <= i < |ts| && ts[i].id == id
    ensures r.Some? ==> r.value.id == id && r.value in ts
    ensures r.Some? ==> r.value == ts[IndexOfTask(ts, id)]
  {
    var i := IndexOfTask(ts, id);
    if i == -1 then None else Some(ts[i])
  }

  /** The first column holding a task with the id, and its index there. */
  function LocateTask(cs: seq<ColumnWithTasks>, id: Id): (r: Option<Loc>)
    ensures r.Some? ==> && r.value.column < |cs|
                        && r.value.index == IndexOfTask(cs[r.value.column].tasks, id) >= 0
                        && forall j :: 0 <= j < r.value.column ==> IndexOfTask(cs[j].tasks, id) == -1
    ensures r.None? <==> forall j :: 0 <= j < |cs| ==> IndexOfTask(cs[j].tasks, id) == -1
    decreases |cs|
  {
    if cs == [] then None
    else
      var i := IndexOfTask(cs[0].tasks, id);
      if i != -1 then Some(Loc(0, i))
      else match LocateTask(cs[1..], id)
        case None => None
        case Some(l) => Some(Loc(l.column + 1, l.index))
  }

  /** The task drop target: a task gives its own position; a column gives
      the position just past its last task (append); anything else, or an
      id that is not on the board, gives nothing. */
  function ResolveTarget(cs: seq<ColumnWithTasks>, over: DragId): (r: Option<Loc>)
    ensures r.Some? ==> r.value.column < |cs| && r.value.index <= |cs[r.value.column].tasks|
    ensures over.Other? ==> r.None?
    ensures over.Tsk? ==> r == LocateTask(cs, over.id)
    ensures over.Col? ==> (r.None? <==> IndexOfColumn(cs, over.id) == -1)
    ensures over.Col? && r.Some? ==>
      r.value.column == IndexOfColumn(cs, over.id) && r.value.index == |cs[r.value.column].tasks|
  {
    match over
    case Tsk(o) => LocateTask(cs, o)
    case Col(o) =>
      var c := IndexOfColumn(cs, o);
      if c == -1 then None else Some(Loc(c, |cs[c].tasks|))
    case Other => None
  }

  // ---------------------------------------------------------------------
  // New lists

  /** `.map((col, index) => ({...col, order: index}))`. */
  function RenumberColumns(cs: seq<ColumnWithTasks>): (r: seq<ColumnWithTasks>)
    ensures |r| == |cs| && DenseColumns(r)
    ensures forall i :: 0 <= i < |cs| ==> r[i] == cs[i].(order := i)
  {
    seq(|cs|, i requires 0 <= i < |cs| => cs[i].(order := i))
  }

  /** The in-place loop `list[i].order = i`. */
  function RenumberTasks(ts: seq<Task>): (r: seq<Task>)
    ensures |r| == |ts| && DenseTasks(r)
    ensures forall i :: 0 <= i < |ts| ==> r[i] == ts[i].(order := i)
  {
    seq(|ts|, i requires 0 <= i < |ts| => ts[i].(order := i))
  }

  /** The in-place loop `list[i].columnId = c; list[i].order = i`. */
  function PlaceTasks(ts: seq<Task>, c: Id): (r: seq<Task>)
    ensures |r| == |ts| && DenseTasks(r)
    ensures forall i :: 0 <= i < |ts| ==> r[i] == ts[i].(columnId := c, order := i)
  {
    seq(|ts|, i requires 0 <= i < |ts| => ts[i].(columnId := c, order := i))
  }

  /** `tasks.filter(t => t.id !== id)`. */
  function WithoutTask(ts: seq<Task>, id: Id): (r: seq<Task>)
    ensures forall t :: t in r <==> t in ts && t.id != id
    ensures |r| <= |ts|
    decreases |ts|
  {
    if ts == [] then []
    else if ts[0].id == id then WithoutTask(ts[1..], id)
    else [ts[0]] + WithoutTask(ts[1..], id)
  }

  /** `prev.map(col => col.id === id ? {...col, tasks} : col)`. */
  function ReplaceTasks(cs: seq<ColumnWithTasks>, id: Id, ts: seq<Task>): (r: seq<ColumnWithTasks>)
    ensures |r| == |cs|
    ensures forall i :: 0 <= i < |cs| ==> r[i].(tasks := cs[i].tasks) == cs[i]
    ensures forall i :: 0 <= i < |cs| && cs[i].id == id ==> r[i].tasks == ts
    ensures forall i :: 0 <= i < |cs| && cs[i].id != id ==> r[i] == cs[i]
  {
    seq(|cs|, i requires 0 <= i < |cs| => if cs[i].id == id then cs[i].(tasks := ts) else cs[i])
  }

  /** The two-way `prev.map` of a cross-column move: the source id is tested first. */
  function ReplaceTwo(cs: seq<ColumnWithTasks>, sid: Id, sts: seq<Task>, tid: Id, tts: seq<Task>): (r: seq<ColumnWithTasks>)
    ensures |r| == |cs|
    ensures forall i :: 0 <= i < |cs| ==> r[i].(tasks := cs[i].tasks) == cs[i]
    ensures forall i :: 0 <= i < |cs| && cs[i].id == sid ==> r[i].tasks == sts
    ensures forall i :: 0 <= i < |cs| && cs[i].id != sid && cs[i].id == tid ==> r[i].tasks == tts
    ensures forall i :: 0 <= i < |cs| && cs[i].id != sid && cs[i].id != tid ==> r[i] == cs[i]
  {
    seq(|cs|, i requires 0 <= i < |cs| =>
      if cs[i].id == sid then cs[i].(tasks := sts)
      else if cs[i].id == tid then cs[i].(tasks := tts)
      else cs[i])
  }

  // ---------------------------------------------------------------------
  // Plans

  /** A dragged column `a` dropped on `over`. A drop target that is not a
      column id parses to NaN in the source and is found nowhere. */
  function ColumnMovePlan(cs: seq<ColumnWithTasks>, a: Id, over: DragId): (p: Plan)
    ensures p.Reorder? ==> over.Col? && a != over.id && |p.columns| == |cs| && |p.writes| == |cs|
    ensures p.Reorder? ==> forall i :: 0 <= i < |cs| ==> p.columns[i].order == i
  {
    if !over.Col? || a == over.id then NoOp
    else
      var from := IndexOfColumn(cs, a);
      var to := IndexOfColumn(cs, over.id);
      if from == -1 || to == -1 then NoOp
      else
        var updated := RenumberColumns(Move(cs, from, to));
        Reorder(updated, ColumnOrderWrites(updated))
  }

  /** A dragged task `a` dropped on `over`. */
  function TaskMovePlan(cs: seq<ColumnWithTasks>, a: Id, over: DragId): (p: Plan)
    ensures p.Reorder? ==> LocateTask(cs, a).Some? && ResolveTarget(cs, over).Some? && |p.columns| == |cs|
    ensures p.Reorder? ==> forall i :: 0 <= i < |cs| ==> p.columns[i].(tasks := cs[i].tasks) == cs[i]
  {
    var src := LocateTask(cs, a);
    var tgt := ResolveTarget(cs, over);
    if src.None? || tgt.None? then NoOp
    else
      var sc, si := src.value.column, src.value.index;
      var tc, ti := tgt.value.column, tgt.value.index;
      var source, target := cs[sc], cs[tc];
      if source.id == target.id then
        if si == ti then NoOp
        else
          var moved := Move(source.tasks, si, ti);
          Reorder(ReplaceTasks(cs, source.id, RenumberTasks(moved)), TaskOrderWrites(moved))
      else
        var remaining := WithoutTask(source.tasks, a);
        var inserted := InsertAt(target.tasks, ti, source.tasks[si]);
        Reorder(ReplaceTwo(cs, source.id, RenumberTasks(remaining), target.id, PlaceTasks(inserted, target.id)),
                TaskOrderWrites(remaining) + TaskPlacementWrites(inserted, target.id))
  }

  /** The whole drag-end decision: no drop target, or a dragged element of
      neither kind, does nothing. */
  function DragEndPlan(cs: seq<ColumnWithTasks>, active: DragId, over: Option<DragId>): (p: Plan)
    ensures p.Reorder? ==> over.Some? && !active.Other? && |p.columns| == |cs|
  {
    if over.None? then NoOp
    else match active
      case Col(a) => ColumnMovePlan(cs, a, over.value)
      case Tsk(a) => TaskMovePlan(cs, a, over.value)
      case Other => NoOp
  }
}
