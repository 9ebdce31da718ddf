/** The board component: the in-memory column list, the comment counts, the
    drag ghosts and the column-menu selection, together with the handlers
    that change them and issue the matching store writes. */
module Board {
  import opened Kanban
  import opened ListMove
  import opened Store
  import opened Batches
  import opened Reorder
  import opened Loading
  import opened ReorderFacts
  import opened Agreement

  // ---------------------------------------------------------------------
  // Loops of the handlers

  /** The `for (const col of columns) { findIndex …; break }` search. */
  method LocateTaskLoop(cs: seq<ColumnWithTasks>, id: Id) returns (r: Option<Loc>)
    ensures r == LocateTask(cs, id)
  {
    r := None;
    var c := 0;
    while c < |cs|
      invariant 0 <= c <= |cs|
      invariant forall j :: 0 <= j < c ==> IndexOfTask(cs[j].tasks, id) == -1
    {
      var idx := IndexOfTask(cs[c].tasks, id);
      if idx != -1 {
        r := Some(Loc(c, idx));
        return;
      }
      c := c + 1;
    }
  }

  /** Finds the dragged and the target column, moves the one onto the
      other, renumbers every column and issues one order update per column;
      returns what was done. */
  method WriteColumnMove(db: Db, cs: seq<ColumnWithTasks>, a: Id, o: DragId) returns (p: Plan)
    requires db.Valid()
    modifies db
    ensures db.Valid()
    ensures p == ColumnMovePlan(cs, a, o)
    ensures p.NoOp? ==> db.log == old(db.log) && db.Contents() == old(db.Contents())
    ensures p.Reorder? ==>
      && db.log == old(db.log) + p.writes
      && db.Contents() == ApplyAll(old(db.Contents()), p.writes)
  {
    if o.Col? && a == o.id {
      return NoOp;
    }
    var oldIndex := IndexOfColumn(cs, a);
    var newIndex := if o.Col? then IndexOfColumn(cs, o.id) else -1;
    if oldIndex == -1 || newIndex == -1 {
      return NoOp;
    }
    var updated := RenumberColumns(Move(cs, oldIndex, newIndex));
    WriteColumnOrders(db, updated);
    p := Reorder(updated, ColumnOrderWrites(updated));
  }

  /** Stores each column's order, one update per column, in list order. */
  method WriteColumnOrders(db: Db, cs: seq<ColumnWithTasks>)
    requires db.Valid()
    modifies db
    ensures db.Valid()
    ensures db.log == old(db.log) + ColumnOrderWrites(cs)
    ensures db.Contents() == ApplyAll(old(db.Contents()), ColumnOrderWrites(cs))
  {
    ghost var t0 := db.Contents();
    var ws := ColumnOrderWrites(cs);
    var i := 0;
    while i < |cs|
      invariant 0 <= i <= |cs| && db.Valid()
      invariant db.log == old(db.log) + ws[..i]
      invariant db.Contents() == ApplyAll(t0, ws[..i])
    {
      db.Issue(ColumnOrderSet(cs[i].id, cs[i].order));
      ApplyAllSnoc(t0, ws[..i], ws[i]);
      assert ws[..i + 1] == ws[..i] + [ws[i]];
      i := i + 1;
    }
    assert ws[..|cs|] == ws;
  }

  /** The loop `db.tasks.update(id, {order: i}); list[i].order = i` over a
      task list: returns the renumbered list. */
  method WriteTaskOrders(db: Db, ts: seq<Task>) returns (r: seq<Task>)
    requires db.Valid()
    modifies db
    ensures r == RenumberTasks(ts)
    ensures db.Valid()
    ensures db.log == old(db.log) + TaskOrderWrites(ts)
    ensures db.Contents() == ApplyAll(old(db.Contents()), TaskOrderWrites(ts))
  {
    ghost var t0 := db.Contents();
    var ws := TaskOrderWrites(ts);
    r := ts;
    var i := 0;
    while i < |ts|
      invariant 0 <= i <= |ts| && |r| == |ts| && db.Valid()
      invariant forall k :: 0 <= k < i ==> r[k] == ts[k].(order := k)
      invariant forall k :: i <= k < |ts| ==> r[k] == ts[k]
      invariant db.log == old(db.log) + ws[..i]
      invariant db.Contents() == ApplyAll(t0, ws[..i])
    {
      db.Issue(TaskOrderSet(r[i].id, i));
      ApplyAllSnoc(t0, ws[..i], ws[i]);
      assert ws[..i + 1] == ws[..i] + [ws[i]];
      r := r[i := r[i].(order := i)];
      i := i + 1;
    }
    assert ws[..|ts|] == ws;
  }

  /** The loop `db.tasks.update(id, {columnId: c, order: i})` with the same
      two fields set on the list entry: returns the placed list. */
  method WriteTaskPlacements(db: Db, ts: seq<Task>, c: Id) returns (r: seq<Task>)
    requires db.Valid()
    modifies db
    ensures r == PlaceTasks(ts, c)
    ensures db.Valid()
    ensures db.log == old(db.log) + TaskPlacementWrites(ts, c)
    ensures db.Contents() == ApplyAll(old(db.Contents()), TaskPlacementWrites(ts, c))
  {
    ghost var t0 := db.Contents();
    var ws := TaskPlacementWrites(ts, c);
    r := ts;
    var i := 0;
    while i < |ts|
      invariant 0 <= i <= |ts| && |r| == |ts| && db.Valid()
      invariant forall k :: 0 <= k < i ==> r[k] == ts[k].(columnId := c, order := k)
      invariant forall k :: i <= k < |ts| ==> r[k] == ts[k]
      invariant db.log == old(db.log) + ws[..i]
      invariant db.Contents() == ApplyAll(t0, ws[..i])
    {
      db.Issue(TaskPlaced(r[i].id, c, i));
      ApplyAllSnoc(t0, ws[..i], ws[i]);
      assert ws[..i + 1] == ws[..i] + [ws[i]];
      r := r[i := r[i].(columnId := c, order := i)];
      i := i + 1;
    }
    assert ws[..|ts|] == ws;
  }

  /** The two loops of a move across columns, one after the other: the
      source's order writes, then the target's placement writes. */
  method WriteCrossMove(db: Db, remaining: seq<Task>, inserted: seq<Task>, c: Id) returns (ns: seq<Task>, nt: seq<Task>)
    requires db.Valid()
    modifies db
    ensures ns == RenumberTasks(remaining) && nt == PlaceTasks(inserted, c)
    ensures db.Valid()
    ensures db.log == old(db.log) + (TaskOrderWrites(remaining) + TaskPlacementWrites(inserted, c))
    ensures db.Contents() == ApplyAll(old(db.Contents()), TaskOrderWrites(remaining) + TaskPlacementWrites(inserted, c))
  {
    ghost var t0 := db.Contents();
    ns := WriteTaskOrders(db, remaining);
    nt := WriteTaskPlacements(db, inserted, c);
    ApplyAllAppend(t0, TaskOrderWrites(remaining), TaskPlacementWrites(inserted, c));
  }

  /** Deletes the given tasks one by one, each after its comments. */
  method DeleteTasksCascade(db: Db, ts: seq<Task>)
    requires db.Valid()
    modifies db
    ensures db.Valid()
    ensures db.log == old(db.log) + CascadeWrites(ts)
    ensures db.Contents() == ApplyAll(old(db.Contents()), CascadeWrites(ts))
  {
    ghost var t0 := db.Contents();
    var i := 0;
    while i < |ts|
      invariant 0 <= i <= |ts| && db.Valid()
      invariant db.log == old(db.log) + CascadeWrites(ts[..i])
      invariant db.Contents() == ApplyAll(t0, CascadeWrites(ts[..i]))
    {
      db.Issue(CommentsOfTaskDeleted(ts[i].id));
      db.Issue(TaskDeleted(ts[i].id));
      CascadeStep(t0, ts, i);
      i := i + 1;
    }
    assert ts[..|ts|] == ts;
  }

  /** The store side of deleting a column: the doomed tasks with their
      comments, then the column row itself. */
  method DeleteColumnRows(db: Db, doomed: seq<Task>, c: Id)
    requires db.Valid()
    modifies db
    ensures db.Valid()
    ensures db.log == old(db.log) + (CascadeWrites(doomed) + [ColumnDeleted(c)])
    ensures db.Contents() == ApplyAll(old(db.Contents()), CascadeWrites(doomed) + [ColumnDeleted(c)])
  {
    ghost var t0 := db.Contents();
    DeleteTasksCascade(db, doomed);
    db.Issue(ColumnDeleted(c));
    ApplyAllSnoc(t0, CascadeWrites(doomed), ColumnDeleted(c));
  }

  /** Counts the comments of every task of the board into a fresh map
      keyed by task id. */
  method CountCommentsFor(db: Db, cs: seq<ColumnWithTasks>) returns (counts: map<Id, nat>)
    ensures counts == CommentCounts(db.comments, AllTasks(cs))
  {
    ghost var cm := db.comments;
    var all := AllTasks(cs);
    counts := map[];
    var i := 0;
    while i < |all|
      invariant 0 <= i <= |all|
      invariant counts == CommentCounts(cm, all[..i])
    {
      var n := db.CountComments(all[i].id);
      CommentCountsStep(cm, all, i);
      counts := counts[all[i].id := n];
      i := i + 1;
    }
    assert all[..|all|] == all;
  }

  /** Counting one more task adds its count and keeps the others. */
  lemma CommentCountsStep(cm: map<Id, Comment>, ts: seq<Task>, i: nat)
    requires i < |ts|
    ensures CommentCounts(cm, ts[..i + 1]) == CommentCounts(cm, ts[..i])[ts[i].id := |CommentsOf(cm, ts[i].id)|]
  {
    assert ts[..i + 1][..i] == ts[..i];
    TaskIdSetSnoc(ts[..i + 1]);
  }

  // ---------------------------------------------------------------------
  // Pure parts of the handlers

  /** The count shown for each task: the number of its stored comments. */
  function CommentCounts(cm: map<Id, Comment>, ts: seq<Task>): (r: map<Id, nat>)
    ensures r.Keys == TaskIdSet(ts)
    ensures forall k :: k in r ==> r[k] == |CommentsOf(cm, k)|
  {
    map k | k in TaskIdSet(ts) :: |CommentsOf(cm, k)|
  }

  /** `Math.max(...orders)`: an element of the list no smaller than any other. */
  function MaxOrder(os: seq<int>): (m: int)
    requires |os| > 0
    ensures forall i :: 0 <= i < |os| ==> os[i] <= m
    ensures exists i :: 0 <= i < |os| && os[i] == m
    decreases |os|
  {
    if |os| == 1 then os[0]
    else
      var rest := MaxOrder(os[1..]);
      assert forall i :: 1 <= i < |os| ==> os[i] == os[1..][i - 1];
      if os[0] >= rest then os[0] else rest
  }

  /** `list.length ? Math.max(...orders) + 1 : 0`: the order given to a new
      last element, above every existing order, or 0 on an empty list. */
  function NextOrder(os: seq<int>): (r: int)
    ensures os == [] ==> r == 0
    ensures forall i :: 0 <= i < |os| ==> os[i] < r
    ensures os != [] ==> exists i :: 0 <= i < |os| && os[i] + 1 == r
  {
    if |os| == 0 then 0 else MaxOrder(os) + 1
  }

  function ColumnOrders(cs: seq<ColumnWithTasks>): (os: seq<int>)
    ensures |os| == |cs| && forall i :: 0 <= i < |cs| ==> os[i] == cs[i].order
  {
    seq(|cs|, i requires 0 <= i < |cs| => cs[i].order)
  }

  function TaskOrders(ts: seq<Task>): (os: seq<int>)
    ensures |os| == |ts| && forall i :: 0 <= i < |ts| ==> os[i] == ts[i].order
  {
    seq(|ts|, i requires 0 <= i < |ts| => ts[i].order)
  }

  /** `prev.map(c => c.id === columnId ? {...c, tasks: [...c.tasks, t]} : c)`. */
  function AppendTask(cs: seq<ColumnWithTasks>, columnId: Id, t: Task): (r: seq<ColumnWithTasks>)
    ensures |r| == |cs|
    ensures forall i :: 0 <= i < |cs| && cs[i].id == columnId ==> r[i] == cs[i].(tasks := cs[i].tasks + [t])
    ensures forall i :: 0 <= i < |cs| && cs[i].id != columnId ==> r[i] == cs[i]
  {
    seq(|cs|, i requires 0 <= i < |cs| =>
      if cs[i].id == columnId then cs[i].(tasks := cs[i].tasks + [t]) else cs[i])
  }

  /** `prev.filter(c => c.id !== columnId)`: the other columns, unchanged and
      in their order; the remaining orders are not renumbered. */
  function RemoveColumn(cs: seq<ColumnWithTasks>, id: Id): (r: seq<ColumnWithTasks>)
    ensures forall c :: c in r <==> c in cs && c.id != id
    ensures |r| <= |cs|
    decreases |cs|
  {
    if cs == [] then []
    else if cs[0].id == id then RemoveColumn(cs[1..], id)
    else [cs[0]] + RemoveColumn(cs[1..], id)
  }

  /** Filtering out an id that no column carries keeps the board as it is. */
  lemma {:induction false} RemoveColumnKeepsAll(cs: seq<ColumnWithTasks>, id: Id)
    requires forall k :: 0 <= k < |cs| ==> cs[k].id != id
    ensures RemoveColumn(cs, id) == cs
    decreases |cs|
  {
    if cs != [] {
      RemoveColumnKeepsAll(cs[1..], id);
    }
  }

  lemma UniqueColumnIdsTail(cs: seq<ColumnWithTasks>)
    requires |cs| > 0 && UniqueColumnIds(cs)
    ensures UniqueColumnIds(cs[1..])
    ensures forall k :: 1 <= k < |cs| ==> cs[k].id != cs[0].id
  {
    var tail := cs[1..];
    forall x, y | 0 <= x < |tail| && 0 <= y < |tail| && ColumnIds(tail)[x] == ColumnIds(tail)[y] ensures x == y {
      assert ColumnIds(cs)[x + 1] == ColumnIds(cs)[y + 1];
    }
    forall k | 1 <= k < |cs| ensures cs[k].id != cs[0].id {
      assert ColumnIds(cs)[k] != ColumnIds(cs)[0];
    }
  }

  /** With distinct column ids, deleting the column at position i removes
      exactly that column and keeps the others, with their orders, in order. */
  lemma RemoveColumnRemovesOne(cs: seq<ColumnWithTasks>, i: nat)
    requires i < |cs| && UniqueColumnIds(cs)
    ensures RemoveColumn(cs, cs[i].id) == RemoveAt(cs, i)
  {
    RemoveColumnSplit(cs, i);
  }

  lemma {:induction false} RemoveColumnSplit(cs: seq<ColumnWithTasks>, i: nat)
    requires i < |cs| && UniqueColumnIds(cs)
    ensures RemoveColumn(cs, cs[i].id) == cs[..i] + cs[i + 1..]
    decreases |cs|
  {
    var tail := cs[1..];
    if i == 0 {
      RemoveFirstColumn(cs);
    } else {
      assert cs[0].id != cs[i].id && UniqueColumnIds(tail) && tail[i - 1] == cs[i] by {
        UniqueColumnIdsTail(cs);
      }
      RemoveColumnSplit(tail, i - 1);
      RemoveSliceCons(cs, i);
    }
  }

  /** With distinct column ids, deleting the first column leaves the rest. */
  lemma RemoveFirstColumn(cs: seq<ColumnWithTasks>)
    requires |cs| > 0 && UniqueColumnIds(cs)
    ensures RemoveColumn(cs, cs[0].id) == cs[1..]
  {
    UniqueColumnIdsTail(cs);
    RemoveColumnKeepsAll(cs[1..], cs[0].id);
  }

  // ---------------------------------------------------------------------
  // What the deletes leave in the store

  /** Deleting a column after cascading over a task list that holds every
      stored task of that column leaves no task pointing at the column, no
      comment of a deleted task, and every other row as it was. */
  lemma DeleteColumnLeavesNoOrphans(t: Tables, ts: seq<Task>, c: Id)
    requires forall k :: k in t.tasks && t.tasks[k].columnId == c ==> k in TaskIdSet(ts)
    ensures var r := ApplyAll(t, CascadeWrites(ts) + [ColumnDeleted(c)]);
      && r.columns == t.columns - {c}
      && (forall k :: k in r.tasks ==> r.tasks[k].columnId != c)
      && (forall k :: k in t.tasks ==> (k in r.tasks <==> k !in TaskIdSet(ts)))
      && (forall k :: k in r.tasks ==> k in t.tasks && r.tasks[k] == t.tasks[k])
      && (forall k :: k in r.comments <==> k in t.comments && t.comments[k].taskId !in TaskIdSet(ts))
  {
    var m := ApplyAll(t, CascadeWrites(ts));
    var r := Apply(m, ColumnDeleted(c));
    assert ApplyAll(t, CascadeWrites(ts) + [ColumnDeleted(c)]) == r by {
      ApplyAllSnoc(t, CascadeWrites(ts), ColumnDeleted(c));
    }
    CascadeEffect(t, ts);
    assert r.tasks == t.tasks - TaskIdSet(ts) && r.comments == m.comments;
  }

  /** A loaded board holds, in each column, every stored task of that column. */
  lemma LoadedColumnHoldsItsTasks(cs: seq<ColumnWithTasks>, t: Tables, c: Id)
    requires IsLoadOf(cs, t) && FindColumn(cs, c).Some?
    ensures forall k :: k in t.tasks && t.tasks[k].columnId == c ==> k in TaskIdSet(FindColumn(cs, c).value.tasks)
  {
    var i := IndexOfColumn(cs, c);
    var ts := cs[i].tasks;
    forall k | k in t.tasks && t.tasks[k].columnId == c ensures k in TaskIdSet(ts) {
      assert TasksLoaded(ts, t.tasks, c);
      var j :| 0 <= j < |TaskIds(ts)| && TaskIds(ts)[j] == k;
      assert ts[j].id == k;
    }
  }

  // ---------------------------------------------------------------------
  // Agreement kept by the handlers

  /** Adding a column row with a fresh key, and the column without tasks to
      the board, keeps the board and the tables in agreement. */
  lemma AddColumnAgrees(cs: seq<ColumnWithTasks>, t: Tables, row: Column)
    requires Agrees(cs, t) && row.id !in t.columns
    ensures Agrees(cs + [WithTasks(row, [])], Apply(t, ColumnAdded(row)))
  {
    var cs' := cs + [WithTasks(row, [])];
    var r := Apply(t, ColumnAdded(row));
    assert r.tasks == t.tasks;
    assert ColumnIds(cs') == ColumnIds(cs) + [row.id];
    assert UniqueColumnIds(cs') by {
      forall j | 0 <= j < |cs| ensures ColumnIds(cs')[j] != row.id {
        assert ColumnIds(cs)[j] in ColumnIds(cs);
      }
    }
    assert StoredTaskIds(t.tasks, row.id) == {};
    forall i | 0 <= i < |cs'| ensures ColumnAgrees(cs'[i], r.tasks) {
      if i < |cs| { assert cs'[i] == cs[i]; }
    }
  }

  /** The ids of a list with one task appended. */
  lemma TaskIdSetAppend(ts: seq<Task>, x: Task)
    ensures TaskIdSet(ts + [x]) == TaskIdSet(ts) + {x.id}
  {
    var s := ts + [x];
    assert s[..|s| - 1] == ts;
    TaskIdSetSnoc(s);
  }

  /** Appending a new stored task to the list of its column keeps that list
      showing the stored tasks of the column. */
  lemma AppendedColumnAgrees(c: ColumnWithTasks, tm: map<Id, Task>, row: Task)
    requires ColumnAgrees(c, tm) && row.id !in tm && row.columnId == c.id
    ensures ColumnAgrees(c.(tasks := c.tasks + [row]), tm[row.id := row])
  {
    var tm' := tm[row.id := row];
    assert TaskIdSet(c.tasks) !! {row.id};
    ShowsStoredElsewhere(c.tasks, tm, tm', {row.id});
    InsertShowsStored(c.tasks, tm', |c.tasks|, row);
    assert InsertAt(c.tasks, |c.tasks|, row) == c.tasks + [row];
    StoredTaskIdsAdd(tm, row, c.id);
  }

  /** The stored tasks of column c after a task with a fresh key is added. */
  lemma StoredTaskIdsAdd(tm: map<Id, Task>, row: Task, c: Id)
    requires row.id !in tm
    ensures StoredTaskIds(tm[row.id := row], c) == StoredTaskIds(tm, c) + (if row.columnId == c then {row.id} else {})
  {
  }

  /** A column whose tasks are already stored keeps agreeing when a task of
      another column is added. */
  lemma OtherColumnAgrees(c: ColumnWithTasks, tm: map<Id, Task>, row: Task)
    requires ColumnAgrees(c, tm) && row.id !in tm && row.columnId != c.id
    ensures ColumnAgrees(c, tm[row.id := row])
  {
    StoredTaskIdsAdd(tm, row, c.id);
  }

  /** Adding a task row with a fresh key on a column of the board, and the
      task at the end of that column's list, keeps the board and the tables
      in agreement. */
  lemma AddTaskAgrees(cs: seq<ColumnWithTasks>, t: Tables, c: Id, row: Task)
    requires Agrees(cs, t) && FindColumn(cs, c).Some?
    requires row.columnId == c && row.id !in t.tasks
    ensures Agrees(AppendTask(cs, c, row), Apply(t, TaskAdded(row)))
  {
    var cs' := AppendTask(cs, c, row);
    var r := Apply(t, TaskAdded(row));
    assert ColumnIds(cs') == ColumnIds(cs);
    assert c in t.columns by {
      assert ColumnIds(cs)[IndexOfColumn(cs, c)] == c;
    }
    forall i | 0 <= i < |cs'| ensures ColumnAgrees(cs'[i], r.tasks) {
      if cs[i].id == c {
        AppendedColumnAgrees(cs[i], t.tasks, row);
      } else {
        OtherColumnAgrees(cs[i], t.tasks, row);
      }
    }
  }

  /** Renaming a column in the store keeps the board and the tables in
      agreement: no key and no task changes. */
  lemma UpdateColumnAgrees(cs: seq<ColumnWithTasks>, t: Tables, c: Id, title: string)
    requires Agrees(cs, t)
    ensures Agrees(cs, Apply(t, ColumnTitleSet(c, title)))
  {
  }

  /** After the tasks of the column at position i are deleted from the
      store, every other column still lists exactly its stored tasks, and no
      remaining task belongs to that column. */
  lemma CascadeKeepsOthers(cs: seq<ColumnWithTasks>, t: Tables, i: nat, tm: map<Id, Task>)
    requires Agrees(cs, t) && i < |cs|
    requires tm == t.tasks - TaskIdSet(cs[i].tasks)
    ensures forall k :: k in tm ==> tm[k].columnId != cs[i].id
    ensures forall j :: 0 <= j < |cs| && j != i ==> ColumnAgrees(cs[j], tm)
  {
    AgreesCoversColumn(cs, t, i);
    assert ColumnAgrees(cs[i], t.tasks);
    assert forall k :: k in TaskIdSet(cs[i].tasks) ==> k in StoredTaskIds(t.tasks, cs[i].id);
    forall j | 0 <= j < |cs| && j != i ensures ColumnAgrees(cs[j], tm) {
      assert cs[j].id != cs[i].id by {
        assert ColumnIds(cs)[j] != ColumnIds(cs)[i];
      }
      assert ColumnAgrees(cs[j], t.tasks);
      assert TaskIdSet(cs[j].tasks) !! TaskIdSet(cs[i].tasks) by {
        forall k | k in TaskIdSet(cs[j].tasks) ensures k !in TaskIdSet(cs[i].tasks) {
          assert k in StoredTaskIds(t.tasks, cs[j].id);
        }
      }
      ShowsStoredElsewhere(cs[j].tasks, t.tasks, tm, TaskIdSet(cs[i].tasks));
      assert StoredTaskIds(tm, cs[j].id) == StoredTaskIds(t.tasks, cs[j].id);
    }
  }

  /** The column ids of a board with one column removed. */
  lemma ColumnIdsRemove(cs: seq<ColumnWithTasks>, i: nat)
    requires i < |cs| && UniqueColumnIds(cs)
    ensures ColumnIds(RemoveAt(cs, i)) == RemoveAt(ColumnIds(cs), i)
    ensures UniqueColumnIds(RemoveAt(cs, i))
    ensures forall k :: k in ColumnIds(RemoveAt(cs, i)) <==> k in ColumnIds(cs) && k != cs[i].id
  {
    var r := RemoveAt(cs, i);
    assert forall j :: 0 <= j < |r| ==> ColumnIds(r)[j] == RemoveAt(ColumnIds(cs), i)[j];
    RemoveAtDistinct(ColumnIds(cs), i);
    forall k | k in ColumnIds(cs) && k != cs[i].id ensures k in ColumnIds(r) {
      var j :| 0 <= j < |cs| && cs[j].id == k;
      assert r[if j < i then j else j - 1].id == k;
    }
    forall k | k in ColumnIds(r) ensures k != cs[i].id {
      var j :| 0 <= j < |r| && r[j].id == k;
      var j' := if j < i then j else j + 1;
      assert ColumnIds(cs)[j'] != ColumnIds(cs)[i];
    }
  }

  /** Deleting the column at position i with all of its tasks, from the board
      and from the store, keeps the board and the tables in agreement. */
  lemma DeleteFoundColumnAgrees(cs: seq<ColumnWithTasks>, t: Tables, i: nat, r: Tables)
    requires Agrees(cs, t) && i < |cs|
    requires r.columns == t.columns - {cs[i].id} && r.tasks == t.tasks - TaskIdSet(cs[i].tasks)
    ensures Agrees(RemoveAt(cs, i), r)
  {
    var cs' := RemoveAt(cs, i);
    CascadeKeepsOthers(cs, t, i, r.tasks);
    ColumnIdsRemove(cs, i);
    forall j | 0 <= j < |cs'| ensures ColumnAgrees(cs'[j], r.tasks) {
      assert cs'[j] == cs[if j < i then j else j + 1];
    }
  }

  /** Deleting a column that is not on the board, and no task, keeps the
      board and the tables in agreement: the key is not stored either. */
  lemma DeleteMissingColumnAgrees(cs: seq<ColumnWithTasks>, t: Tables, c: Id, r: Tables)
    requires Agrees(cs, t) && forall j :: 0 <= j < |cs| ==> cs[j].id != c
    requires r.columns == t.columns - {c} && r.tasks == t.tasks
    ensures Agrees(cs, r)
  {
    assert c !in ColumnIds(cs);
    assert r.columns == t.columns;
  }

  /** The same, with the board list as the handler leaves it. */
  lemma DeleteUnlistedColumnAgrees(cs: seq<ColumnWithTasks>, t: Tables, c: Id, r: Tables)
    requires Agrees(cs, t) && FindColumn(cs, c).None?
    requires r.columns == t.columns - {c} && r.tasks == t.tasks
    ensures Agrees(RemoveColumn(cs, c), r)
  {
    RemoveColumnKeepsAll(cs, c);
    DeleteMissingColumnAgrees(cs, t, c, r);
  }

  /** Deleting a column of the board with the tasks of its list keeps the
      board and the tables in agreement. */
  lemma DeleteListedColumnAgrees(cs: seq<ColumnWithTasks>, t: Tables, c: Id, r: Tables)
    requires Agrees(cs, t) && FindColumn(cs, c).Some?
    requires r.columns == t.columns - {c} && r.tasks == t.tasks - TaskIdSet(FindColumn(cs, c).value.tasks)
    ensures Agrees(RemoveColumn(cs, c), r)
  {
    var i := IndexOfColumn(cs, c);
    RemoveColumnRemovesOne(cs, i);
    DeleteFoundColumnAgrees(cs, t, i, r);
  }

  /** The cascade over a task list, then the column delete: the column row
      and exactly the listed tasks are gone. */
  lemma DeleteColumnTables(t: Tables, doomed: seq<Task>, c: Id)
    ensures var r := ApplyAll(t, CascadeWrites(doomed) + [ColumnDeleted(c)]);
      r.columns == t.columns - {c} && r.tasks == t.tasks - TaskIdSet(doomed)
  {
    var m := ApplyAll(t, CascadeWrites(doomed));
    ApplyAllSnoc(t, CascadeWrites(doomed), ColumnDeleted(c));
    CascadeEffect(t, doomed);
  }

  /** `deleteColumn` keeps the board and the tables in agreement: the
      cascade over the column's board list reaches all of its stored tasks. */
  lemma DeleteColumnAgrees(cs: seq<ColumnWithTasks>, t: Tables, c: Id)
    requires Agrees(cs, t)
    ensures var doomed := if FindColumn(cs, c).Some? then FindColumn(cs, c).value.tasks else [];
      Agrees(RemoveColumn(cs, c), ApplyAll(t, CascadeWrites(doomed) + [ColumnDeleted(c)]))
  {
    var doomed := if FindColumn(cs, c).Some? then FindColumn(cs, c).value.tasks else [];
    var r := ApplyAll(t, CascadeWrites(doomed) + [ColumnDeleted(c)]);
    DeleteColumnTables(t, doomed, c);
    if FindColumn(cs, c).Some? {
      DeleteListedColumnAgrees(cs, t, c, r);
    } else {
      assert TaskIdSet(doomed) == {};
      DeleteUnlistedColumnAgrees(cs, t, c, r);
    }
  }

  /** `deleteAllCards` keeps the board and the tables in agreement: the
      emptied column has no stored task left. */
  lemma DeleteAllCardsAgrees(cs: seq<ColumnWithTasks>, t: Tables, c: Id)
    requires Agrees(cs, t) && FindColumn(cs, c).Some?
    ensures Agrees(ReplaceTasks(cs, c, []), ApplyAll(t, CascadeWrites(FindColumn(cs, c).value.tasks)))
  {
    var i := IndexOfColumn(cs, c);
    var r := ApplyAll(t, CascadeWrites(cs[i].tasks));
    CascadeEffect(t, cs[i].tasks);
    CascadeKeepsOthers(cs, t, i, r.tasks);
    ReplaceTasksAt(cs, i, []);
    var cs' := cs[i := cs[i].(tasks := [])];
    assert ColumnIds(cs') == ColumnIds(cs);
    assert StoredTaskIds(r.tasks, c) == {};
    assert TaskIdSet(cs'[i].tasks) == {};
  }

  // ---------------------------------------------------------------------
  // The board

  /** The state a board keeps between events, and its handlers. Every
      handler that writes takes the store it writes to. */
  class KanbanBoard {
    var columns: seq<ColumnWithTasks>
    /** The comment count shown on each task card, by task id. */
    var commentCounts: map<Id, nat>
    /** The column or task drawn under the pointer while it is dragged. */
    var activeColumn: Option<ColumnWithTasks>
    var activeTask: Option<Task>
    /** The column whose menu is open. */
    var menuColumnId: Option<Id>

    constructor ()
      ensures columns == [] && commentCounts == map[]
      ensures activeColumn == None && activeTask == None && menuColumnId == None
    {
      columns := [];
      commentCounts := map[];
      activeColumn, activeTask := None, None;
      menuColumnId := None;
    }

    /** `handleDragStart`: remembers the dragged column or task when its id is
        on the board; otherwise, and for an element of neither kind, the
        ghosts keep whatever they held. */
    method DragStart(active: DragId)
      modifies this
      ensures columns == old(columns) && commentCounts == old(commentCounts) && menuColumnId == old(menuColumnId)
      ensures activeColumn == (if active.Col? && FindColumn(columns, active.id).Some?
                               then FindColumn(columns, active.id) else old(activeColumn))
      ensures activeTask == (if active.Tsk? && FindTask(AllTasks(columns), active.id).Some?
                             then FindTask(AllTasks(columns), active.id) else old(activeTask))
      ensures activeColumn != old(activeColumn) ==> active.Col? && activeColumn.Some? && activeColumn.value.id == active.id && activeColumn.value in columns
      ensures activeTask != old(activeTask) ==> active.Tsk? && activeTask.Some? && activeTask.value.id == active.id && activeTask.value in AllTasks(columns)
    {
      match active {
        case Col(id) =>
          var column := FindColumn(columns, id);
          if column.Some? { activeColumn := column; }
        case Tsk(id) =>
          var task := FindTask(AllTasks(columns), id);
          if task.Some? { activeTask := task; }
        case Other =>
      }
    }

    /** `handleDragEnd`: clears both ghosts, then carries out the plan the
        drop decides: the new column list is set and exactly the plan's
        writes are issued, in order; a plan of no change touches neither. */
    method DragEnd(db: Db, active: DragId, over: Option<DragId>)
      requires db.Valid()
      modifies this, db
      ensures db.Valid()
      ensures activeColumn == None && activeTask == None
      ensures unchanged(this`commentCounts, this`menuColumnId)
      ensures DragEndPlan(old(columns), active, over).NoOp? ==>
        columns == old(columns) && db.log == old(db.log) && db.Contents() == old(db.Contents())
      ensures DragEndPlan(old(columns), active, over).Reorder? ==>
        var p := DragEndPlan(old(columns), active, over);
        && columns == p.columns
        && db.log == old(db.log) + p.writes
        && db.Contents() == ApplyAll(old(db.Contents()), p.writes)
      ensures old(Agrees(columns, db.Contents())) ==> Agrees(columns, db.Contents())
    {
      ghost var c0, t0 := columns, db.Contents();
      activeColumn := None;
      activeTask := None;
      if over.Some? {
        match active {
          case Col(a) => var _ := MoveColumn(db, a, over.value);
          case Tsk(a) => MoveTask(db, a, over.value);
          case Other =>
        }
      }
      if Agrees(c0, t0) && DragEndPlan(c0, active, over).Reorder? {
        DragEndAgrees(t0, c0, active, over);
      }
    }

    /** The column branch of `handleDragEnd`. A drop target that is not a
        column id parses to NaN there and is found nowhere. */
    method MoveColumn(db: Db, a: Id, o: DragId) returns (p: Plan)
      requires db.Valid()
      modifies this, db
      ensures db.Valid()
      ensures unchanged(this`activeColumn, this`activeTask, this`commentCounts, this`menuColumnId)
      ensures p == ColumnMovePlan(old(columns), a, o)
      ensures p.NoOp? ==> columns == old(columns) && db.log == old(db.log) && db.Contents() == old(db.Contents())
      ensures p.Reorder? ==>
        && columns == p.columns
        && db.log == old(db.log) + p.writes
        && db.Contents() == ApplyAll(old(db.Contents()), p.writes)
    {
      p := WriteColumnMove(db, columns, a, o);
      if p.Reorder? {
        columns := p.columns;
      }
    }

    /** The task branch of `handleDragEnd`: locate the dragged task, resolve
        the drop target, then move within one column or across two. */
    method MoveTask(db: Db, a: Id, o: DragId)
      requires db.Valid()
      modifies this, db
      ensures db.Valid()
      ensures unchanged(this`activeColumn, this`activeTask, this`commentCounts, this`menuColumnId)
      ensures TaskMovePlan(old(columns), a, o).NoOp? ==>
        columns == old(columns) && db.log == old(db.log) && db.Contents() == old(db.Contents())
      ensures TaskMovePlan(old(columns), a, o).Reorder? ==>
        var p := TaskMovePlan(old(columns), a, o);
        && columns == p.columns
        && db.log == old(db.log) + p.writes
        && db.Contents() == ApplyAll(old(db.Contents()), p.writes)
    {
      var src := LocateTaskLoop(columns, a);
      if src.None? { return; }
      var tgt: Option<Loc> := None;
      match o {
        case Tsk(ot) =>
          tgt := LocateTaskLoop(columns, ot);
        case Col(oc) =>
          var c := IndexOfColumn(columns, oc);
          if c != -1 { tgt := Some(Loc(c, |columns[c].tasks|)); }
        case Other =>
      }
      assert tgt == ResolveTarget(columns, o);
      if tgt.None? { return; }
      var sc, si := src.value.column, src.value.index;
      var tc, ti := tgt.value.column, tgt.value.index;
      if columns[sc].id == columns[tc].id {
        if si == ti { return; }
        MoveWithinColumn(db, sc, si, ti);
      } else {
        MoveAcrossColumns(db, a, sc, si, tc, ti);
      }
    }

    /** A task moved inside its own column: `arrayMove`, then one order
        write per task of the column and the column's list replaced. */
    method MoveWithinColumn(db: Db, sc: nat, si: nat, ti: nat)
      requires db.Valid() && sc < |columns| && si < |columns[sc].tasks|
      modifies this, db
      ensures db.Valid()
      ensures unchanged(this`activeColumn, this`activeTask, this`commentCounts, this`menuColumnId)
      ensures var moved := Move(old(columns)[sc].tasks, si, ti);
        && columns == ReplaceTasks(old(columns), old(columns)[sc].id, RenumberTasks(moved))
        && db.log == old(db.log) + TaskOrderWrites(moved)
        && db.Contents() == ApplyAll(old(db.Contents()), TaskOrderWrites(moved))
    {
      var source := columns[sc];
      var reordered := Move(source.tasks, si, ti);
      var renumbered := WriteTaskOrders(db, reordered);
      columns := ReplaceTasks(columns, source.id, renumbered);
    }

    /** A task moved to another column: filtered out of the source, spliced
        into the target at the index, the source renumbered and every task
        of the target rewritten with the target's id and its new index. */
    method MoveAcrossColumns(db: Db, a: Id, sc: nat, si: nat, tc: nat, ti: nat)
      requires db.Valid() && sc < |columns| && si < |columns[sc].tasks|
      requires tc < |columns| && ti <= |columns[tc].tasks|
      modifies this, db
      ensures db.Valid()
      ensures unchanged(this`activeColumn, this`activeTask, this`commentCounts, this`menuColumnId)
      ensures var source, target := old(columns)[sc], old(columns)[tc];
        var remaining := WithoutTask(source.tasks, a);
        var inserted := InsertAt(target.tasks, ti, source.tasks[si]);
        var writes := TaskOrderWrites(remaining) + TaskPlacementWrites(inserted, target.id);
        && columns == ReplaceTwo(old(columns), source.id, RenumberTasks(remaining), target.id, PlaceTasks(inserted, target.id))
        && db.log == old(db.log) + writes
        && db.Contents() == ApplyAll(old(db.Contents()), writes)
    {
      var source, target := columns[sc], columns[tc];
      var sourceTask := source.tasks[si];
      var newSource := WithoutTask(source.tasks, a);
      var newTarget := InsertAt(target.tasks, ti, sourceTask);
      var renumbered, placed := WriteCrossMove(db, newSource, newTarget, target.id);
      columns := ReplaceTwo(columns, source.id, renumbered, target.id, placed);
    }

    /** `fetchColumns`: loads the board from the store, then counts the
        comments of every loaded task. */
    method Load(db: Db)
      requires db.Valid()
      modifies this
      ensures IsLoadOf(columns, db.Contents())
      ensures NoOrphans(db.Contents()) ==> Agrees(columns, db.Contents())
      ensures commentCounts == CommentCounts(db.comments, AllTasks(columns))
      ensures activeColumn == old(activeColumn) && activeTask == old(activeTask) && menuColumnId == old(menuColumnId)
    {
      var cols := LoadBoard(db);
      columns := cols;
      UpdateCommentCounts(db, cols);
      if NoOrphans(db.Contents()) {
        LoadAgrees(columns, db.Contents());
      }
    }

    /** `updateCommentCounts`: replaces the whole count map by a fresh count
        of the given columns' tasks; earlier entries do not survive. */
    method UpdateCommentCounts(db: Db, cols: seq<ColumnWithTasks>)
      modifies this
      ensures commentCounts == CommentCounts(db.comments, AllTasks(cols))
      ensures columns == old(columns) && menuColumnId == old(menuColumnId)
      ensures activeColumn == old(activeColumn) && activeTask == old(activeTask)
    {
      var counts := CountCommentsFor(db, cols);
      commentCounts := counts;
    }

    /** `handleCloseModal`: after the comments dialog closes, recounts the
        comments of every task on the board (the dialog itself is not modelled). */
    method CloseCommentsModal(db: Db)
      modifies this
      ensures commentCounts == CommentCounts(db.comments, AllTasks(columns))
      ensures columns == old(columns) && menuColumnId == old(menuColumnId)
      ensures activeColumn == old(activeColumn) && activeTask == old(activeTask)
    {
      UpdateCommentCounts(db, columns);
    }

    /** `addColumn`: stores a column of board 1 with the next column order
        and appends it, without tasks, to the board. */
    method AddColumn(db: Db, title: string) returns (id: Id)
      requires db.Valid()
      modifies this, db
      ensures db.Valid()
      ensures id !in old(db.columns)
      ensures var row := Column(id, 1, title, NextOrder(ColumnOrders(old(columns))));
        && db.log == old(db.log) + [ColumnAdded(row)]
        && db.Contents() == Apply(old(db.Contents()), ColumnAdded(row))
        && columns == old(columns) + [WithTasks(row, [])]
      ensures old(Agrees(columns, db.Contents())) ==> Agrees(columns, db.Contents())
      ensures unchanged(this`commentCounts, this`menuColumnId)
      ensures activeColumn == old(activeColumn) && activeTask == old(activeTask)
    {
      ghost var c0, t0 := columns, db.Contents();
      var order := NextOrder(ColumnOrders(columns));
      id := db.InsertColumn(1, title, order);
      columns := columns + [ColumnWithTasks(id, 1, title, order, [])];
      if Agrees(c0, t0) {
        AddColumnAgrees(c0, t0, Column(id, 1, title, order));
      }
    }

    /** `addTask`: on a column of the board, stores a task with the column's
        next task order and the given time, appends it to that column and
        shows it with no comments; on an unknown column, does nothing. */
    method AddTask(db: Db, columnId: Id, title: string, now: int) returns (added: Option<Id>)
      requires db.Valid()
      modifies this, db
      ensures db.Valid()
      ensures FindColumn(old(columns), columnId).None? ==>
        added.None? && columns == old(columns) && commentCounts == old(commentCounts)
        && db.log == old(db.log) && db.Contents() == old(db.Contents())
      ensures FindColumn(old(columns), columnId).Some? ==> added.Some? && added.value !in old(db.tasks)
      ensures FindColumn(old(columns), columnId).Some? ==>
        var column := FindColumn(old(columns), columnId).value;
        var row := Task(added.value, columnId, title, NextOrder(TaskOrders(column.tasks)), now);
        && db.log == old(db.log) + [TaskAdded(row)]
        && db.Contents() == Apply(old(db.Contents()), TaskAdded(row))
        && columns == AppendTask(old(columns), columnId, row)
        && commentCounts == old(commentCounts)[added.value := 0]
        && |CommentsOf(db.comments, added.value)| == 0
      ensures old(Agrees(columns, db.Contents())) ==> Agrees(columns, db.Contents())
      ensures unchanged(this`menuColumnId, this`activeColumn, this`activeTask)
    {
      ghost var c0, t0 := columns, db.Contents();
      var column := FindColumn(columns, columnId);
      if column.None? { return None; }
      var order := NextOrder(TaskOrders(column.value.tasks));
      var id := db.InsertTask(columnId, title, order, now);
      columns := AppendTask(columns, columnId, Task(id, columnId, title, order, now));
      commentCounts := commentCounts[id := 0];
      added := Some(id);
      if Agrees(c0, t0) {
        AddTaskAgrees(c0, t0, columnId, Task(id, columnId, title, order, now));
      }
    }

    /** `updateColumn`: stores the new title of the column and nothing else;
        the board's own list is left as it is. */
    method UpdateColumn(db: Db, columnId: Id, title: string)
      requires db.Valid()
      modifies db
      ensures db.Valid()
      ensures db.log == old(db.log) + [ColumnTitleSet(columnId, title)]
      ensures db.tasks == old(db.tasks) && db.comments == old(db.comments)
      ensures db.columns.Keys == old(db.columns.Keys)
      ensures forall k :: k in db.columns && k != columnId ==> db.columns[k] == old(db.columns[k])
      ensures columnId in db.columns ==> db.columns[columnId] == old(db.columns[columnId]).(title := title)
      ensures Agrees(columns, old(db.Contents())) ==> Agrees(columns, db.Contents())
    {
      ghost var t0 := db.Contents();
      db.Issue(ColumnTitleSet(columnId, title));
      if Agrees(columns, t0) {
        UpdateColumnAgrees(columns, t0, columnId, title);
      }
    }

    /** `handleOpenMenu`: opens the menu of a column (its position on the
        screen is not modelled). */
    method OpenMenu(columnId: Id)
      modifies this
      ensures menuColumnId == Some(columnId)
      ensures columns == old(columns) && commentCounts == old(commentCounts)
      ensures activeColumn == old(activeColumn) && activeTask == old(activeTask)
    {
      menuColumnId := Some(columnId);
    }

    /** `deleteColumn`: when the column is on the board, deletes each of its
        tasks after that task's comments; then deletes the column row in any
        case, drops the column from the board and closes the menu. */
    method DeleteColumn(db: Db, columnId: Id)
      requires db.Valid()
      modifies this, db
      ensures db.Valid()
      ensures var doomed := if FindColumn(old(columns), columnId).Some? then FindColumn(old(columns), columnId).value.tasks else [];
        var writes := CascadeWrites(doomed) + [ColumnDeleted(columnId)];
        && db.log == old(db.log) + writes
        && db.Contents() == ApplyAll(old(db.Contents()), writes)
      ensures columns == RemoveColumn(old(columns), columnId)
      ensures old(Agrees(columns, db.Contents())) ==> Agrees(columns, db.Contents())
      ensures menuColumnId == None
      ensures unchanged(this`commentCounts, this`activeColumn, this`activeTask)
    {
      ghost var t0, c0 := db.Contents(), columns;
      var column := FindColumn(columns, columnId);
      var doomed := if column.Some? then column.value.tasks else [];
      DeleteColumnRows(db, doomed, columnId);
      columns := RemoveColumn(columns, columnId);
      menuColumnId := None;
      if Agrees(c0, t0) {
        DeleteColumnAgrees(c0, t0, columnId);
      }
    }

    /** `deleteAllCards`: when the column is on the board, deletes each of
        its tasks after that task's comments and empties its list, keeping
        the column; the menu is closed either way. */
    method DeleteAllCards(db: Db, columnId: Id)
      requires db.Valid()
      modifies this, db
      ensures db.Valid()
      ensures FindColumn(old(columns), columnId).None? ==>
        columns == old(columns) && db.log == old(db.log) && db.Contents() == old(db.Contents())
      ensures FindColumn(old(columns), columnId).Some? ==>
        var writes := CascadeWrites(FindColumn(old(columns), columnId).value.tasks);
        && columns == ReplaceTasks(old(columns), columnId, [])
        && db.log == old(db.log) + writes
        && db.Contents() == ApplyAll(old(db.Contents()), writes)
      ensures old(Agrees(columns, db.Contents())) ==> Agrees(columns, db.Contents())
      ensures menuColumnId == None
      ensures unchanged(this`commentCounts, this`activeColumn, this`activeTask)
    {
      var column := FindColumn(columns, columnId);
      if column.Some? {
        if Agrees(columns, db.Contents()) {
          DeleteAllCardsAgrees(columns, db.Contents(), columnId);
        }
        DeleteTasksCascade(db, column.value.tasks);
        columns := ReplaceTasks(columns, columnId, []);
      }
      menuColumnId := None;
    }
  }
}
