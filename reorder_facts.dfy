/** What a drag-end does to the board and to the store: the properties the
    reorder engine promises, proved about its plans. */
module ReorderFacts {
  import opened Kanban
  import opened ListMove
  import opened Store
  import opened Batches
  import opened Reorder

  // ---------------------------------------------------------------------
  // Helpers about ids

  lemma ColumnIdsMove(cs: seq<ColumnWithTasks>, from: nat, to: nat)
    requires from < |cs|
    ensures ColumnIds(Move(cs, from, to)) == Move(ColumnIds(cs), from, to)
  {
    var a, b := ColumnIds(Move(cs, from, to)), Move(ColumnIds(cs), from, to);
    forall k | 0 <= k < |cs| ensures a[k] == b[k] {
      MoveAt(cs, from, to, k);
      MoveAt(ColumnIds(cs), from, to, k);
    }
  }

  lemma TaskIdsMove(ts: seq<Task>, from: nat, to: nat)
    requires from < |ts|
    ensures TaskIds(Move(ts, from, to)) == Move(TaskIds(ts), from, to)
  {
    var a, b := TaskIds(Move(ts, from, to)), Move(TaskIds(ts), from, to);
    forall k | 0 <= k < |ts| ensures a[k] == b[k] {
      MoveAt(ts, from, to, k);
      MoveAt(TaskIds(ts), from, to, k);
    }
  }

  /** With distinct column ids, replacing the tasks of the column with a
      given id touches exactly that column's position. */
  lemma ReplaceTasksAt(cs: seq<ColumnWithTasks>, i: nat, ts: seq<Task>)
    requires i < |cs| && UniqueColumnIds(cs)
    ensures ReplaceTasks(cs, cs[i].id, ts) == cs[i := cs[i].(tasks := ts)]
  {
    forall k | 0 <= k < |cs| && cs[k].id == cs[i].id ensures k == i {
      assert ColumnIds(cs)[k] == ColumnIds(cs)[i];
    }
  }

  lemma ReplaceTwoAt(cs: seq<ColumnWithTasks>, i: nat, sts: seq<Task>, j: nat, tts: seq<Task>)
    requires i < |cs| && j < |cs| && i != j && UniqueColumnIds(cs)
    ensures ReplaceTwo(cs, cs[i].id, sts, cs[j].id, tts) == cs[i := cs[i].(tasks := sts)][j := cs[j].(tasks := tts)]
  {
    forall k | 0 <= k < |cs| && (cs[k].id == cs[i].id || cs[k].id == cs[j].id) ensures k == i || k == j {
      assert ColumnIds(cs)[k] == ColumnIds(cs)[i] || ColumnIds(cs)[k] == ColumnIds(cs)[j];
    }
    assert cs[i].id != cs[j].id by {
      assert ColumnIds(cs)[i] != ColumnIds(cs)[j];
    }
  }

  lemma UniqueTaskIdsTail(ts: seq<Task>)
    requires |ts| > 0 && UniqueTaskIds(ts)
    ensures UniqueTaskIds(ts[1..])
    ensures forall k :: 1 <= k < |ts| ==> ts[k].id != ts[0].id
  {
    var tail := ts[1..];
    forall x, y | 0 <= x < |tail| && 0 <= y < |tail| && TaskIds(tail)[x] == TaskIds(tail)[y] ensures x == y {
      assert TaskIds(ts)[x + 1] == TaskIds(ts)[y + 1];
    }
    forall k | 1 <= k < |ts| ensures ts[k].id != ts[0].id {
      assert TaskIds(ts)[k] != TaskIds(ts)[0];
    }
  }

  /** With distinct task ids, filtering out the id of the task at position i
      removes exactly that one task and keeps the others in order. */
  lemma WithoutTaskRemovesOne(ts: seq<Task>, i: nat)
    requires i < |ts| && UniqueTaskIds(ts)
    ensures WithoutTask(ts, ts[i].id) == RemoveAt(ts, i)
  {
    WithoutTaskSplit(ts, i);
  }

  lemma {:induction false} WithoutTaskSplit(ts: seq<Task>, i: nat)
    requires i < |ts| && UniqueTaskIds(ts)
    ensures WithoutTask(ts, ts[i].id) == ts[..i] + ts[i + 1..]
    decreases |ts|
  {
    var tail := ts[1..];
    if i == 0 {
      WithoutFirstTask(ts);
    } else {
      assert ts[0].id != ts[i].id && UniqueTaskIds(tail) && tail[i - 1] == ts[i] by {
        UniqueTaskIdsTail(ts);
      }
      WithoutTaskSplit(tail, i - 1);
      RemoveSliceCons(ts, i);
    }
  }

  /** With distinct task ids, filtering out the first task's id leaves the tail. */
  lemma WithoutFirstTask(ts: seq<Task>)
    requires |ts| > 0 && UniqueTaskIds(ts)
    ensures WithoutTask(ts, ts[0].id) == ts[1..]
  {
    UniqueTaskIdsTail(ts);
    WithoutTaskKeepsAll(ts[1..], ts[0].id);
  }

  /** Filtering out an id that no task carries keeps the list as it is. */
  lemma {:induction false} WithoutTaskKeepsAll(ts: seq<Task>, id: Id)
    requires forall k :: 0 <= k < |ts| ==> ts[k].id != id
    ensures WithoutTask(ts, id) == ts
    decreases |ts|
  {
    if ts != [] {
      WithoutTaskKeepsAll(ts[1..], id);
    }
  }

  /** Replacing one column changes the board's task count by the difference
      of the two task lists' lengths. */
  lemma {:induction false} TotalTasksUpdate(cs: seq<ColumnWithTasks>, i: nat, c: ColumnWithTasks)
    requires i < |cs|
    ensures TotalTasks(cs[i := c]) == TotalTasks(cs) - |cs[i].tasks| + |c.tasks|
    decreases |cs|
  {
    if i > 0 {
      TotalTasksUpdate(cs[1..], i - 1, c);
      assert cs[i := c][1..] == cs[1..][i - 1 := c];
    }
  }

  // ---------------------------------------------------------------------
  // Column moves

  /** A column move does nothing exactly when the drop target is not a
      column, is the dragged column itself, or either id is not on the board. */
  lemma ColumnMoveNoOp(cs: seq<ColumnWithTasks>, a: Id, over: DragId)
    ensures ColumnMovePlan(cs, a, over).NoOp? <==>
      (!over.Col? || over.id == a || IndexOfColumn(cs, a) == -1 || IndexOfColumn(cs, over.id) == -1)
  {
  }

  /** A column move is a permutation of the columns that puts the dragged
      column at the target's old index, keeps the others in their relative
      order, renumbers every order to its index, and writes one order per
      column in list order. */
  lemma ColumnMoveResult(cs: seq<ColumnWithTasks>, a: Id, o: Id)
    requires a != o && IndexOfColumn(cs, a) != -1 && IndexOfColumn(cs, o) != -1
    ensures var from, to := IndexOfColumn(cs, a), IndexOfColumn(cs, o);
      var p := ColumnMovePlan(cs, a, Col(o));
      var m := Move(cs, from, to);
      && p.Reorder?
      && multiset(m) == multiset(cs)
      && m[to] == cs[from] && p.columns[to].id == a
      && RemoveAt(m, to) == RemoveAt(cs, from)
      && |p.columns| == |cs|
      && (forall i :: 0 <= i < |cs| ==> p.columns[i] == m[i].(order := i))
      && DenseColumns(p.columns)
      && |p.writes| == |cs|
      && (forall i :: 0 <= i < |cs| ==> p.writes[i] == ColumnOrderSet(p.columns[i].id, i))
  {
    var from, to := IndexOfColumn(cs, a), IndexOfColumn(cs, o);
    var m := Move(cs, from, to);
    assert Landing(|cs|, to) == to;
    var updated := RenumberColumns(m);
    assert ColumnMovePlan(cs, a, Col(o)) == Reorder(updated, ColumnOrderWrites(updated));
  }

  /** A column move keeps the column ids distinct. */
  lemma ColumnMoveKeepsIdsUnique(cs: seq<ColumnWithTasks>, a: Id, o: Id)
    requires a != o && IndexOfColumn(cs, a) != -1 && IndexOfColumn(cs, o) != -1
    requires UniqueColumnIds(cs)
    ensures UniqueColumnIds(ColumnMovePlan(cs, a, Col(o)).columns)
  {
    var from, to := IndexOfColumn(cs, a), IndexOfColumn(cs, o);
    var m := Move(cs, from, to);
    assert ColumnMovePlan(cs, a, Col(o)).columns == RenumberColumns(m);
    ColumnIdsMove(cs, from, to);
    MoveDistinct(ColumnIds(cs), from, to);
    RenumberKeepsColumnIds(m);
  }

  /** Renumbering changes orders only, never ids. */
  lemma RenumberKeepsColumnIds(cs: seq<ColumnWithTasks>)
    ensures ColumnIds(RenumberColumns(cs)) == ColumnIds(cs)
  {
    assert forall k :: 0 <= k < |cs| ==> ColumnIds(RenumberColumns(cs))[k] == ColumnIds(cs)[k];
  }

  /** After a column move is persisted, every column on the board has its
      new index as its stored order, and nothing else in the store changed. */
  lemma ColumnMoveStored(t: Tables, cs: seq<ColumnWithTasks>, a: Id, o: Id)
    requires a != o && IndexOfColumn(cs, a) != -1 && IndexOfColumn(cs, o) != -1
    requires UniqueColumnIds(cs)
    ensures var p := ColumnMovePlan(cs, a, Col(o));
      var r := ApplyAll(t, p.writes);
      && p.Reorder?
      && r.tasks == t.tasks && r.comments == t.comments && r.columns.Keys == t.columns.Keys
      && (forall i :: 0 <= i < |p.columns| && p.columns[i].id in t.columns ==>
            r.columns[p.columns[i].id] == t.columns[p.columns[i].id].(order := i))
      && (forall k :: k in t.columns && IndexOfColumn(p.columns, k) == -1 ==> r.columns[k] == t.columns[k])
  {
    ColumnMoveResult(cs, a, o);
    ColumnMoveKeepsIdsUnique(cs, a, o);
    var p := ColumnMovePlan(cs, a, Col(o));
    ColumnOrderWritesEffect(t, p.columns);
  }

  // ---------------------------------------------------------------------
  // Task moves

  /** The plan does nothing when the dragged task is on no column or the
      drop target resolves to nothing. */
  lemma TaskMoveUnresolved(cs: seq<ColumnWithTasks>, a: Id, over: DragId)
    requires LocateTask(cs, a).None? || ResolveTarget(cs, over).None?
    ensures TaskMovePlan(cs, a, over).NoOp?
  {
  }

  /** Dropping a task on its own position (same column, same index) does nothing. */
  lemma TaskMoveToSelf(cs: seq<ColumnWithTasks>, a: Id)
    requires LocateTask(cs, a).Some?
    ensures TaskMovePlan(cs, a, Tsk(a)).NoOp?
  {
  }

  /** A move within one column: only that column changes; its tasks are a
      permutation of the old ones with the dragged task at the target index,
      the others in their old relative order, and orders 0..n-1; one order
      write per task of that column. */
  lemma SameColumnMove(cs: seq<ColumnWithTasks>, a: Id, over: DragId)
    requires UniqueColumnIds(cs)
    requires var s, t := LocateTask(cs, a), ResolveTarget(cs, over);
      && s.Some? && t.Some?
      && cs[s.value.column].id == cs[t.value.column].id
      && s.value.index != t.value.index
    ensures var s, t := LocateTask(cs, a).value, ResolveTarget(cs, over).value;
      var old_ := cs[s.column].tasks;
      var m := Move(old_, s.index, t.index);
      var n := Landing(|old_|, t.index);
      var p := TaskMovePlan(cs, a, over);
      && s.column == t.column
      && multiset(m) == multiset(old_)
      && m[n] == old_[s.index] && m[n].id == a
      && RemoveAt(m, n) == RemoveAt(old_, s.index)
      && p == Reorder(cs[s.column := cs[s.column].(tasks := RenumberTasks(m))], TaskOrderWrites(m))
      && DenseTasks(p.columns[s.column].tasks)
      && TotalTasks(p.columns) == TotalTasks(cs)
  {
    var s, t := LocateTask(cs, a).value, ResolveTarget(cs, over).value;
    assert ColumnIds(cs)[s.column] == ColumnIds(cs)[t.column];
    ReplaceTasksAt(cs, s.column, RenumberTasks(Move(cs[s.column].tasks, s.index, t.index)));
    TotalTasksUpdate(cs, s.column, cs[s.column].(tasks := RenumberTasks(Move(cs[s.column].tasks, s.index, t.index))));
  }

  /** The shape of a cross-column plan: the source's tasks become the
      renumbered list without the dragged task, the target's tasks the placed
      list with it inserted, and the writes renumber the source, then place
      every task of the target. */
  lemma CrossColumnPlan(cs: seq<ColumnWithTasks>, a: Id, over: DragId)
    requires UniqueColumnIds(cs)
    requires var s, t := LocateTask(cs, a), ResolveTarget(cs, over);
      && s.Some? && t.Some?
      && cs[s.value.column].id != cs[t.value.column].id
      && UniqueTaskIds(cs[s.value.column].tasks)
    ensures var s, t := LocateTask(cs, a).value, ResolveTarget(cs, over).value;
      var src, tgt := cs[s.column], cs[t.column];
      var remaining := RemoveAt(src.tasks, s.index);
      var inserted := InsertAt(tgt.tasks, t.index, src.tasks[s.index]);
      && s.column != t.column
      && TaskMovePlan(cs, a, over) == Reorder(
           cs[s.column := src.(tasks := RenumberTasks(remaining))][t.column := tgt.(tasks := PlaceTasks(inserted, tgt.id))],
           TaskOrderWrites(remaining) + TaskPlacementWrites(inserted, tgt.id))
  {
    var s, t := LocateTask(cs, a).value, ResolveTarget(cs, over).value;
    var src, tgt := cs[s.column], cs[t.column];
    WithoutTaskRemovesOne(src.tasks, s.index);
    var remaining := RemoveAt(src.tasks, s.index);
    var inserted := InsertAt(tgt.tasks, t.index, src.tasks[s.index]);
    var ns := RenumberTasks(remaining);
    var nt := PlaceTasks(inserted, tgt.id);
    assert TaskMovePlan(cs, a, over) == Reorder(ReplaceTwo(cs, src.id, ns, tgt.id, nt),
      TaskOrderWrites(remaining) + TaskPlacementWrites(inserted, tgt.id));
    ReplaceTwoAt(cs, s.column, ns, t.column, nt);
  }

  /** A move across columns: the source loses exactly the dragged task,
      keeping the others in their order, and is renumbered 0..n-1; the target
      gains the dragged task at the target index, keeps its own tasks around
      it in order, and every target task carries the target's id and orders
      0..n-1; no other column changes. */
  lemma CrossColumnMove(cs: seq<ColumnWithTasks>, a: Id, over: DragId)
    requires UniqueColumnIds(cs)
    requires var s, t := LocateTask(cs, a), ResolveTarget(cs, over);
      && s.Some? && t.Some?
      && cs[s.value.column].id != cs[t.value.column].id
      && UniqueTaskIds(cs[s.value.column].tasks)
    ensures var s, t := LocateTask(cs, a).value, ResolveTarget(cs, over).value;
      CrossColumnShape(cs, TaskMovePlan(cs, a, over), s.column, s.index, t.column, t.index)
  {
    CrossColumnPlan(cs, a, over);
    var s, t := LocateTask(cs, a).value, ResolveTarget(cs, over).value;
    CrossColumnUpdate(cs, s.column, s.index, t.column, t.index);
  }

  /** What a cross-column plan does to the board, by position. */
  ghost predicate CrossColumnShape(cs: seq<ColumnWithTasks>, p: Plan, sc: nat, si: nat, tc: nat, ti: nat)
    requires sc < |cs| && tc < |cs| && si < |cs[sc].tasks| && ti <= |cs[tc].tasks|
  {
    var src, tgt := cs[sc].tasks, cs[tc].tasks;
    && p.Reorder? && |p.columns| == |cs|
    && (forall j :: 0 <= j < |cs| && j != sc && j != tc ==> p.columns[j] == cs[j])
    && var ns, nt := p.columns[sc].tasks, p.columns[tc].tasks;
    && |ns| == |src| - 1 && DenseTasks(ns)
    && (forall k :: 0 <= k < |ns| ==> ns[k] == RemoveAt(src, si)[k].(order := k))
    && |nt| == |tgt| + 1 && DenseTasks(nt)
    && nt[ti] == src[si].(columnId := cs[tc].id, order := ti)
    && (forall k :: 0 <= k < |nt| ==> nt[k] == InsertAt(tgt, ti, src[si])[k].(columnId := cs[tc].id, order := k))
    && (forall k :: 0 <= k < |nt| ==> nt[k].columnId == cs[tc].id)
  }

  /** The board-level facts of a cross-column update, by position. */
  lemma CrossColumnUpdate(cs: seq<ColumnWithTasks>, sc: nat, si: nat, tc: nat, ti: nat)
    requires sc < |cs| && tc < |cs| && sc != tc && si < |cs[sc].tasks| && ti <= |cs[tc].tasks|
    ensures var src, tgt := cs[sc], cs[tc];
      var remaining := RemoveAt(src.tasks, si);
      var inserted := InsertAt(tgt.tasks, ti, src.tasks[si]);
      var cols := cs[sc := src.(tasks := RenumberTasks(remaining))][tc := tgt.(tasks := PlaceTasks(inserted, tgt.id))];
      CrossColumnShape(cs, Reorder(cols, TaskOrderWrites(remaining) + TaskPlacementWrites(inserted, tgt.id)), sc, si, tc, ti)
  {
    var src, tgt := cs[sc], cs[tc];
    var ns := RenumberTasks(RemoveAt(src.tasks, si));
    var nt := PlaceTasks(InsertAt(tgt.tasks, ti, src.tasks[si]), tgt.id);
    var cols := cs[sc := src.(tasks := ns)][tc := tgt.(tasks := nt)];
    assert cols[sc].tasks == ns && cols[tc].tasks == nt;
  }

  /** A cross-column move conserves the number of tasks on the board. */
  lemma CrossColumnConservesTasks(cs: seq<ColumnWithTasks>, a: Id, over: DragId)
    requires UniqueColumnIds(cs)
    requires var s, t := LocateTask(cs, a), ResolveTarget(cs, over);
      && s.Some? && t.Some?
      && cs[s.value.column].id != cs[t.value.column].id
      && UniqueTaskIds(cs[s.value.column].tasks)
    ensures TotalTasks(TaskMovePlan(cs, a, over).columns) == TotalTasks(cs)
  {
    var s, t := LocateTask(cs, a).value, ResolveTarget(cs, over).value;
    var src, tgt := cs[s.column], cs[t.column];
    CrossColumnPlan(cs, a, over);
    var ns := RenumberTasks(RemoveAt(src.tasks, s.index));
    var nt := PlaceTasks(InsertAt(tgt.tasks, t.index, src.tasks[s.index]), tgt.id);
    var mid := cs[s.column := src.(tasks := ns)];
    TotalTasksUpdate(cs, s.column, src.(tasks := ns));
    TotalTasksUpdate(mid, t.column, tgt.(tasks := nt));
  }
}
