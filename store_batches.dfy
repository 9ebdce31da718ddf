/** The batches of store writes that the board issues, and what each batch
    does to the tables once all its writes have been applied in order. */
module Batches {
  import opened Kanban
  import opened Store

  /** One `columns.update(id, {order})` per column, in list order. */
  function ColumnOrderWrites(cs: seq<ColumnWithTasks>): (ws: seq<Write>)
    ensures |ws| == |cs|
  {
    seq(|cs|, i requires 0 <= i < |cs| => ColumnOrderSet(cs[i].id, cs[i].order))
  }

  /** One `tasks.update(id, {order: i})` per task, i being its index. */
  function TaskOrderWrites(ts: seq<Task>): (ws: seq<Write>)
    ensures |ws| == |ts|
  {
    seq(|ts|, i requires 0 <= i < |ts| => TaskOrderSet(ts[i].id, i))
  }

  /** One `tasks.update(id, {columnId, order: i})` per task, i being its index. */
  function TaskPlacementWrites(ts: seq<Task>, columnId: Id): (ws: seq<Write>)
    ensures |ws| == |ts|
  {
    seq(|ts|, i requires 0 <= i < |ts| => TaskPlaced(ts[i].id, columnId, i))
  }

  /** For each task in turn: delete its comments, then delete the task. */
  function CascadeWrites(ts: seq<Task>): (ws: seq<Write>)
    decreases |ts|
  {
    if ts == [] then []
    else CascadeWrites(ts[..|ts| - 1]) + [CommentsOfTaskDeleted(ts[|ts| - 1].id), TaskDeleted(ts[|ts| - 1].id)]
  }

  /** One more task in the cascade: its two deletes come last and apply last. */
  lemma CascadeStep(t: Tables, ts: seq<Task>, i: nat)
    requires i < |ts|
    ensures CascadeWrites(ts[..i + 1]) == CascadeWrites(ts[..i]) + [CommentsOfTaskDeleted(ts[i].id), TaskDeleted(ts[i].id)]
    ensures ApplyAll(t, CascadeWrites(ts[..i + 1]))
         == Apply(Apply(ApplyAll(t, CascadeWrites(ts[..i])), CommentsOfTaskDeleted(ts[i].id)), TaskDeleted(ts[i].id))
  {
    var done := CascadeWrites(ts[..i]);
    var a, b := CommentsOfTaskDeleted(ts[i].id), TaskDeleted(ts[i].id);
    assert ts[..i + 1][..i] == ts[..i];
    ApplyAllSnoc(t, done, a);
    ApplyAllSnoc(t, done + [a], b);
    assert done + [a] + [b] == done + [a, b];
  }

  function TaskIdSet(ts: seq<Task>): set<Id> {
    set i | 0 <= i < |ts| :: ts[i].id
  }

  /** The cascade issues, for the i-th task, the delete of its comments at
      position 2i and the delete of the task itself right after it. */
  lemma {:induction false} CascadeOrder(ts: seq<Task>)
    ensures |CascadeWrites(ts)| == 2 * |ts|
    ensures forall i :: 0 <= i < |ts| ==>
      CascadeWrites(ts)[2 * i] == CommentsOfTaskDeleted(ts[i].id) &&
      CascadeWrites(ts)[2 * i + 1] == TaskDeleted(ts[i].id)
    decreases |ts|
  {
    if ts != [] {
      var init := ts[..|ts| - 1];
      CascadeOrder(init);
      forall i | 0 <= i < |init|
        ensures init[i] == ts[i]
      {
      }
    }
  }

  /** One column-order write changes the order of that one stored column. */
  lemma ColumnOrderSetEffect(t: Tables, id: Id, o: int)
    ensures var r := Apply(t, ColumnOrderSet(id, o));
      && r.tasks == t.tasks && r.comments == t.comments && r.columns.Keys == t.columns.Keys
      && (forall k :: k in r.columns && k != id ==> r.columns[k] == t.columns[k])
      && (id in t.columns ==> r.columns[id] == t.columns[id].(order := o))
  {
  }

  /** One task-order write changes the order of that one stored task. */
  lemma TaskOrderSetEffect(t: Tables, id: Id, o: int)
    ensures var r := Apply(t, TaskOrderSet(id, o));
      && r.columns == t.columns && r.comments == t.comments && r.tasks.Keys == t.tasks.Keys
      && (forall k :: k in r.tasks && k != id ==> r.tasks[k] == t.tasks[k])
      && (id in t.tasks ==> r.tasks[id] == t.tasks[id].(order := o))
  {
  }

  /** One placement write changes the column and order of that one stored task. */
  lemma TaskPlacedEffect(t: Tables, id: Id, c: Id, o: int)
    ensures var r := Apply(t, TaskPlaced(id, c, o));
      && r.columns == t.columns && r.comments == t.comments && r.tasks.Keys == t.tasks.Keys
      && (forall k :: k in r.tasks && k != id ==> r.tasks[k] == t.tasks[k])
      && (id in t.tasks ==> r.tasks[id] == t.tasks[id].(columnId := c, order := o))
  {
  }

  /** A stored column row after the first n column-order writes. */
  function ColumnAfter(row: Column, cs: seq<ColumnWithTasks>, n: nat, k: Id): Column {
    var i := IndexOfColumn(cs, k);
    if 0 <= i < n then row.(order := cs[i].order) else row
  }

  /** A stored task row after the first n task-order writes. */
  function TaskOrderAfter(row: Task, ts: seq<Task>, n: nat, k: Id): Task {
    var i := IndexOfTask(ts, k);
    if 0 <= i < n then row.(order := i) else row
  }

  /** A stored task row after the first n placement writes into column c. */
  function TaskPlacedAfter(row: Task, ts: seq<Task>, c: Id, n: nat, k: Id): Task {
    var i := IndexOfTask(ts, k);
    if 0 <= i < n then row.(columnId := c, order := i) else row
  }

  /** After the column-order batch, a column whose id is in the list carries
      the order written for its position; every other row and table is untouched. */
  lemma {:induction false} ColumnOrderWritesPrefix(t: Tables, cs: seq<ColumnWithTasks>, n: nat)
    requires n <= |cs| && UniqueColumnIds(cs)
    ensures var r := ApplyAll(t, ColumnOrderWrites(cs)[..n]);
      && r.tasks == t.tasks && r.comments == t.comments && r.columns.Keys == t.columns.Keys
      && forall k :: k in r.columns ==> r.columns[k] == ColumnAfter(t.columns[k], cs, n, k)
  {
    var ws := ColumnOrderWrites(cs);
    if n == 0 {
      assert ws[..0] == [];
    } else {
      var prev := ApplyAll(t, ws[..n - 1]);
      var r := ApplyAll(t, ws[..n]);
      var id, o := cs[n - 1].id, cs[n - 1].order;
      assert r == Apply(prev, ColumnOrderSet(id, o)) by {
        assert ws[..n] == ws[..n - 1] + [ColumnOrderSet(id, o)];
        ApplyAllSnoc(t, ws[..n - 1], ColumnOrderSet(id, o));
      }
      ColumnOrderWritesPrefix(t, cs, n - 1);
      ColumnOrderSetEffect(prev, id, o);
      forall k | k in r.columns ensures r.columns[k] == ColumnAfter(t.columns[k], cs, n, k) {
        assert prev.columns[k] == ColumnAfter(t.columns[k], cs, n - 1, k);
        if k == id {
          IndexOfColumnDistinct(cs, n - 1);
        } else {
          assert r.columns[k] == prev.columns[k];
        }
      }
    }
  }

  lemma ColumnOrderWritesEffect(t: Tables, cs: seq<ColumnWithTasks>)
    requires UniqueColumnIds(cs)
    ensures var r := ApplyAll(t, ColumnOrderWrites(cs));
      && r.tasks == t.tasks && r.comments == t.comments && r.columns.Keys == t.columns.Keys
      && (forall i :: 0 <= i < |cs| && cs[i].id in t.columns ==>
            r.columns[cs[i].id] == t.columns[cs[i].id].(order := cs[i].order))
      && (forall k :: k in t.columns && IndexOfColumn(cs, k) == -1 ==> r.columns[k] == t.columns[k])
  {
    var ws := ColumnOrderWrites(cs);
    assert ws[..|cs|] == ws;
    ColumnOrderWritesPrefix(t, cs, |cs|);
    forall i | 0 <= i < |cs| ensures IndexOfColumn(cs, cs[i].id) == i {
      IndexOfColumnDistinct(cs, i);
    }
  }

  lemma {:induction false} TaskOrderWritesPrefix(t: Tables, ts: seq<Task>, n: nat)
    requires n <= |ts| && UniqueTaskIds(ts)
    ensures var r := ApplyAll(t, TaskOrderWrites(ts)[..n]);
      && r.columns == t.columns && r.comments == t.comments && r.tasks.Keys == t.tasks.Keys
      && forall k :: k in r.tasks ==> r.tasks[k] == TaskOrderAfter(t.tasks[k], ts, n, k)
  {
    var ws := TaskOrderWrites(ts);
    if n == 0 {
      assert ws[..0] == [];
    } else {
      var prev := ApplyAll(t, ws[..n - 1]);
      var r := ApplyAll(t, ws[..n]);
      var id := ts[n - 1].id;
      assert r == Apply(prev, TaskOrderSet(id, n - 1)) by {
        assert ws[..n] == ws[..n - 1] + [TaskOrderSet(id, n - 1)];
        ApplyAllSnoc(t, ws[..n - 1], TaskOrderSet(id, n - 1));
      }
      TaskOrderWritesPrefix(t, ts, n - 1);
      TaskOrderSetEffect(prev, id, n - 1);
      forall k | k in r.tasks ensures r.tasks[k] == TaskOrderAfter(t.tasks[k], ts, n, k) {
        assert prev.tasks[k] == TaskOrderAfter(t.tasks[k], ts, n - 1, k);
        if k == id {
          IndexOfTaskDistinct(ts, n - 1);
        } else {
          assert r.tasks[k] == prev.tasks[k];
        }
      }
    }
  }

  /** After the task-order batch, the stored task at position i of the list
      has order i; tasks not in the list and the other tables are untouched. */
  lemma TaskOrderWritesEffect(t: Tables, ts: seq<Task>)
    requires UniqueTaskIds(ts)
    ensures var r := ApplyAll(t, TaskOrderWrites(ts));
      && r.columns == t.columns && r.comments == t.comments && r.tasks.Keys == t.tasks.Keys
      && (forall i :: 0 <= i < |ts| && ts[i].id in t.tasks ==>
            r.tasks[ts[i].id] == t.tasks[ts[i].id].(order := i))
      && (forall k :: k in t.tasks && IndexOfTask(ts, k) == -1 ==> r.tasks[k] == t.tasks[k])
  {
    var ws := TaskOrderWrites(ts);
    assert ws[..|ts|] == ws;
    TaskOrderWritesPrefix(t, ts, |ts|);
    forall i | 0 <= i < |ts| ensures IndexOfTask(ts, ts[i].id) == i {
      IndexOfTaskDistinct(ts, i);
    }
  }

  lemma {:induction false} TaskPlacementWritesPrefix(t: Tables, ts: seq<Task>, c: Id, n: nat)
    requires n <= |ts| && UniqueTaskIds(ts)
    ensures var r := ApplyAll(t, TaskPlacementWrites(ts, c)[..n]);
      && r.columns == t.columns && r.comments == t.comments && r.tasks.Keys == t.tasks.Keys
      && forall k :: k in r.tasks ==> r.tasks[k] == TaskPlacedAfter(t.tasks[k], ts, c, n, k)
  {
    var ws := TaskPlacementWrites(ts, c);
    if n == 0 {
      assert ws[..0] == [];
    } else {
      var prev := ApplyAll(t, ws[..n - 1]);
      var r := ApplyAll(t, ws[..n]);
      var id := ts[n - 1].id;
      assert r == Apply(prev, TaskPlaced(id, c, n - 1)) by {
        assert ws[..n] == ws[..n - 1] + [TaskPlaced(id, c, n - 1)];
        ApplyAllSnoc(t, ws[..n - 1], TaskPlaced(id, c, n - 1));
      }
      TaskPlacementWritesPrefix(t, ts, c, n - 1);
      TaskPlacedEffect(prev, id, c, n - 1);
      forall k | k in r.tasks ensures r.tasks[k] == TaskPlacedAfter(t.tasks[k], ts, c, n, k) {
        assert prev.tasks[k] == TaskPlacedAfter(t.tasks[k], ts, c, n - 1, k);
        if k == id {
          IndexOfTaskDistinct(ts, n - 1);
        } else {
          assert r.tasks[k] == prev.tasks[k];
        }
      }
    }
  }

  /** After the placement batch, the stored task at position i of the list
      belongs to column c with order i; everything else is untouched. */
  lemma TaskPlacementWritesEffect(t: Tables, ts: seq<Task>, c: Id)
    requires UniqueTaskIds(ts)
    ensures var r := ApplyAll(t, TaskPlacementWrites(ts, c));
      && r.columns == t.columns && r.comments == t.comments && r.tasks.Keys == t.tasks.Keys
      && (forall i :: 0 <= i < |ts| && ts[i].id in t.tasks ==>
            r.tasks[ts[i].id] == t.tasks[ts[i].id].(columnId := c, order := i))
      && (forall k :: k in t.tasks && IndexOfTask(ts, k) == -1 ==> r.tasks[k] == t.tasks[k])
  {
    var ws := TaskPlacementWrites(ts, c);
    assert ws[..|ts|] == ws;
    TaskPlacementWritesPrefix(t, ts, c, |ts|);
    forall i | 0 <= i < |ts| ensures IndexOfTask(ts, ts[i].id) == i {
      IndexOfTaskDistinct(ts, i);
    }
  }

  /** The ids of a list are those of all but its last task, and the last. */
  lemma TaskIdSetSnoc(ts: seq<Task>)
    requires |ts| > 0
    ensures TaskIdSet(ts) == TaskIdSet(ts[..|ts| - 1]) + {ts[|ts| - 1].id}
  {
    var init := ts[..|ts| - 1];
    forall k | k in TaskIdSet(ts) ensures k in TaskIdSet(init) + {ts[|ts| - 1].id} {
      var i :| 0 <= i < |ts| && ts[i].id == k;
      if i < |init| { assert init[i] == ts[i]; }
    }
    forall k | k in TaskIdSet(init) ensures k in TaskIdSet(ts) {
      var i :| 0 <= i < |init| && init[i].id == k;
      assert ts[i] == init[i];
    }
  }

  /** After the cascade over a task list, none of those tasks and none of
      their comments remain; other tasks, other comments and all columns stay. */
  lemma {:induction false} CascadeEffect(t: Tables, ts: seq<Task>)
    ensures var r := ApplyAll(t, CascadeWrites(ts));
      && r.columns == t.columns
      && r.tasks == t.tasks - TaskIdSet(ts)
      && (forall k :: k in r.comments <==> k in t.comments && t.comments[k].taskId !in TaskIdSet(ts))
      && (forall k :: k in r.comments ==> r.comments[k] == t.comments[k])
    decreases |ts|
  {
    if ts != [] {
      var n := |ts| - 1;
      var init, id := ts[..n], ts[n].id;
      var m := ApplyAll(t, CascadeWrites(init));
      var r := Apply(Apply(m, CommentsOfTaskDeleted(id)), TaskDeleted(id));
      assert ApplyAll(t, CascadeWrites(ts)) == r by {
        CascadeStep(t, ts, n);
        assert ts[..n + 1] == ts;
      }
      CascadeEffect(t, init);
      TaskIdSetSnoc(ts);
      assert r.tasks == m.tasks - {id};
      assert r.comments == CommentsWithout(m.comments, id);
    }
  }
}
