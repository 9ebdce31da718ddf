/** Agreement between the board in memory and the store: the board shows
    every stored column once, and in each column exactly the stored tasks of
    that column, each as it is stored. A load establishes it and every
    handler keeps it. */
module Agreement {
  import opened Kanban
  import opened ListMove
  import opened Store
  import opened Batches
  import opened Reorder
  import opened ReorderFacts
  import opened Loading

  /** The keys of the stored tasks of column c. */
  ghost function StoredTaskIds(tm: map<Id, Task>, c: Id): set<Id> {
    set k | k in tm && tm[k].columnId == c
  }

  /** Every stored task belongs to a stored column. */
  ghost predicate NoOrphans(t: Tables) {
    forall k :: k in t.tasks ==> t.tasks[k].columnId in t.columns
  }

  /** Each task of the list is its own stored row, and no id repeats. */
  ghost predicate ShowsStored(ts: seq<Task>, tm: map<Id, Task>) {
    && UniqueTaskIds(ts)
    && forall j :: 0 <= j < |ts| ==> ts[j].id in tm && tm[ts[j].id] == ts[j]
  }

  /** A board column lists exactly the stored tasks of that column. */
  ghost predicate ColumnAgrees(c: ColumnWithTasks, tm: map<Id, Task>) {
    && ShowsStored(c.tasks, tm)
    && TaskIdSet(c.tasks) == StoredTaskIds(tm, c.id)
  }

  /** The board and the tables agree: the board's column ids are distinct and
      are the stored column keys, no stored task is orphaned, and each column
      lists exactly its stored tasks as they are stored. */
  ghost predicate Agrees(cs: seq<ColumnWithTasks>, t: Tables) {
    && UniqueColumnIds(cs)
    && (forall k :: k in t.columns <==> k in ColumnIds(cs))
    && NoOrphans(t)
    && forall i :: 0 <= i < |cs| ==> ColumnAgrees(cs[i], t.tasks)
  }

  /** On an agreeing board, a column's list reaches every stored task of
      that column, so a cascade over it deletes them all. */
  lemma AgreesCoversColumn(cs: seq<ColumnWithTasks>, t: Tables, i: nat)
    requires Agrees(cs, t) && i < |cs|
    ensures forall k :: k in t.tasks && t.tasks[k].columnId == cs[i].id ==> k in TaskIdSet(cs[i].tasks)
    ensures forall j :: 0 <= j < |cs[i].tasks| ==> cs[i].tasks[j].columnId == cs[i].id
  {
    assert ColumnAgrees(cs[i], t.tasks);
    forall j | 0 <= j < |cs[i].tasks| ensures cs[i].tasks[j].columnId == cs[i].id {
      assert cs[i].tasks[j].id in TaskIdSet(cs[i].tasks);
    }
  }

  // ---------------------------------------------------------------------
  // Loading

  /** A loaded column lists exactly its stored tasks. */
  lemma LoadedColumnAgrees(c: ColumnWithTasks, tm: map<Id, Task>)
    requires TasksLoaded(c.tasks, tm, c.id)
    ensures ColumnAgrees(c, tm)
  {
    var ts := c.tasks;
    SortedDistinct(TaskIds(ts), TaskRanks(tm, c.id));
    forall k | k in TaskIdSet(ts) ensures k in StoredTaskIds(tm, c.id) {
      var j :| 0 <= j < |ts| && ts[j].id == k;
      assert TaskIds(ts)[j] in TaskRanks(tm, c.id);
    }
    forall k | k in StoredTaskIds(tm, c.id) ensures k in TaskIdSet(ts) {
      var j :| 0 <= j < |TaskIds(ts)| && TaskIds(ts)[j] == k;
      assert ts[j].id == k;
    }
  }

  /** A board loaded from tables without orphaned tasks agrees with them. */
  lemma LoadAgrees(cs: seq<ColumnWithTasks>, t: Tables)
    requires IsLoadOf(cs, t) && NoOrphans(t)
    ensures Agrees(cs, t)
  {
    LoadedAscending(cs, t);
    forall i | 0 <= i < |cs| ensures ColumnAgrees(cs[i], t.tasks) {
      LoadedColumnAgrees(cs[i], t.tasks);
    }
  }

  // ---------------------------------------------------------------------
  // Rewriting the task lists of one or two columns

  /** Every task of the list carries column id c. */
  ghost predicate OnColumn(ts: seq<Task>, c: Id) {
    forall j :: 0 <= j < |ts| ==> ts[j].columnId == c
  }

  /** What a rewrite of the lists at positions sc and tc (the same position
      for a move within one column) must satisfy: the other columns stay, the
      two keep their ids and together hold the same task ids, each new list
      shows its stored rows on its own column, and only those tasks' rows and
      no column row changed. */
  ghost predicate Rewrite(cs: seq<ColumnWithTasks>, t: Tables, cs': seq<ColumnWithTasks>, r: Tables, sc: nat, tc: nat)
  {
    && sc < |cs| && tc < |cs| && |cs'| == |cs|
    && (forall j :: 0 <= j < |cs| && j != sc && j != tc ==> cs'[j] == cs[j])
    && cs'[sc].id == cs[sc].id && cs'[tc].id == cs[tc].id
    && r.columns == t.columns && r.tasks.Keys == t.tasks.Keys
    && TaskIdSet(cs'[sc].tasks) + TaskIdSet(cs'[tc].tasks) == TaskIdSet(cs[sc].tasks) + TaskIdSet(cs[tc].tasks)
    && (forall k :: k in t.tasks && k !in TaskIdSet(cs[sc].tasks) + TaskIdSet(cs[tc].tasks) ==> r.tasks[k] == t.tasks[k])
    && ShowsStored(cs'[sc].tasks, r.tasks) && OnColumn(cs'[sc].tasks, cs[sc].id)
    && ShowsStored(cs'[tc].tasks, r.tasks) && OnColumn(cs'[tc].tasks, cs[tc].id)
  }

  /** Under a rewrite, the rewritten tasks sit on one of the two columns,
      before and after. */
  lemma RewrittenColumns(cs: seq<ColumnWithTasks>, t: Tables, cs': seq<ColumnWithTasks>, r: Tables, sc: nat, tc: nat)
    requires Agrees(cs, t) && Rewrite(cs, t, cs', r, sc, tc)
    ensures forall k :: k in TaskIdSet(cs[sc].tasks) + TaskIdSet(cs[tc].tasks) ==>
      && k in t.tasks && (t.tasks[k].columnId == cs[sc].id || t.tasks[k].columnId == cs[tc].id)
      && (r.tasks[k].columnId == cs[sc].id || r.tasks[k].columnId == cs[tc].id)
    ensures forall k :: k in TaskIdSet(cs'[sc].tasks) ==> r.tasks[k].columnId == cs[sc].id
    ensures forall k :: k in TaskIdSet(cs'[tc].tasks) ==> r.tasks[k].columnId == cs[tc].id
  {
    assert ColumnAgrees(cs[sc], t.tasks) && ColumnAgrees(cs[tc], t.tasks);
    forall k | k in TaskIdSet(cs'[sc].tasks) ensures r.tasks[k].columnId == cs[sc].id {
      var j :| 0 <= j < |cs'[sc].tasks| && cs'[sc].tasks[j].id == k;
    }
    forall k | k in TaskIdSet(cs'[tc].tasks) ensures r.tasks[k].columnId == cs[tc].id {
      var j :| 0 <= j < |cs'[tc].tasks| && cs'[tc].tasks[j].id == k;
    }
  }

  /** The stored tasks of column c after a rewrite are the ids the column
      now lists, when the rewrite moved only the ids `mine + theirs`, put
      `mine` on c and `theirs` on another column, and c's old tasks were
      among the moved ones. */
  lemma ClaimedIds(tm: map<Id, Task>, rm: map<Id, Task>, c: Id, other: Id, mine: set<Id>, theirs: set<Id>)
    requires rm.Keys == tm.Keys
    requires forall k :: k in tm && k !in mine + theirs ==> rm[k] == tm[k]
    requires forall k :: k in tm && tm[k].columnId == c ==> k in mine + theirs
    requires forall k :: k in mine ==> k in rm && rm[k].columnId == c
    requires forall k :: k in theirs ==> k in rm && rm[k].columnId == other
    requires other != c || theirs <= mine
    ensures StoredTaskIds(rm, c) == mine
  {
    assert forall k :: k in rm && k !in mine + theirs ==> rm[k] == tm[k];
  }

  /** A rewritten column agrees with the new tables. */
  lemma RewrittenColumnAgrees(cs: seq<ColumnWithTasks>, t: Tables, cs': seq<ColumnWithTasks>, r: Tables, sc: nat, tc: nat, p: nat)
    requires Agrees(cs, t) && Rewrite(cs, t, cs', r, sc, tc)
    requires p == sc || p == tc
    ensures ColumnAgrees(cs'[p], r.tasks)
  {
    var q := if p == sc then tc else sc;
    var mine, theirs := TaskIdSet(cs'[p].tasks), TaskIdSet(cs'[q].tasks);
    RewrittenColumns(cs, t, cs', r, sc, tc);
    assert q != p ==> cs[q].id != cs[p].id by {
      if q != p { assert ColumnIds(cs)[q] != ColumnIds(cs)[p]; }
    }
    assert ColumnAgrees(cs[p], t.tasks);
    forall k | k in t.tasks && t.tasks[k].columnId == cs[p].id ensures k in mine + theirs {
      assert k in StoredTaskIds(t.tasks, cs[p].id);
    }
    forall k | k in mine ensures k in r.tasks {
      var j :| 0 <= j < |cs'[p].tasks| && cs'[p].tasks[j].id == k;
    }
    forall k | k in theirs ensures k in r.tasks {
      var j :| 0 <= j < |cs'[q].tasks| && cs'[q].tasks[j].id == k;
    }
    ClaimedIds(t.tasks, r.tasks, cs[p].id, cs[q].id, mine, theirs);
  }

  /** A column that a rewrite leaves alone still agrees with the new tables. */
  lemma UntouchedColumnAgrees(cs: seq<ColumnWithTasks>, t: Tables, cs': seq<ColumnWithTasks>, r: Tables, sc: nat, tc: nat, i: nat)
    requires Agrees(cs, t) && Rewrite(cs, t, cs', r, sc, tc)
    requires i < |cs| && i != sc && i != tc
    ensures ColumnAgrees(cs'[i], r.tasks)
  {
    var c := cs[i];
    var moved := TaskIdSet(cs[sc].tasks) + TaskIdSet(cs[tc].tasks);
    RewrittenColumns(cs, t, cs', r, sc, tc);
    assert ColumnAgrees(c, t.tasks);
    assert c.id != cs[sc].id && c.id != cs[tc].id by {
      assert ColumnIds(cs)[i] != ColumnIds(cs)[sc] && ColumnIds(cs)[i] != ColumnIds(cs)[tc];
    }
    forall j | 0 <= j < |c.tasks| ensures c.tasks[j].id in r.tasks && r.tasks[c.tasks[j].id] == c.tasks[j] {
      assert c.tasks[j].id in StoredTaskIds(t.tasks, c.id);
    }
    forall k | k in r.tasks ensures k in StoredTaskIds(r.tasks, c.id) <==> k in StoredTaskIds(t.tasks, c.id) {
      if k !in moved { assert r.tasks[k] == t.tasks[k]; }
    }
  }

  /** A rewrite that satisfies `Rewrite` keeps the board and the tables in agreement. */
  lemma RewriteKeepsAgreement(cs: seq<ColumnWithTasks>, t: Tables, cs': seq<ColumnWithTasks>, r: Tables, sc: nat, tc: nat)
    requires Agrees(cs, t) && Rewrite(cs, t, cs', r, sc, tc)
    ensures Agrees(cs', r)
  {
    assert ColumnIds(cs') == ColumnIds(cs);
    RewrittenColumns(cs, t, cs', r, sc, tc);
    assert cs[sc].id in ColumnIds(cs) && cs[tc].id in ColumnIds(cs);
    forall k | k in r.tasks ensures r.tasks[k].columnId in r.columns {
      if k !in TaskIdSet(cs[sc].tasks) + TaskIdSet(cs[tc].tasks) { assert r.tasks[k] == t.tasks[k]; }
    }
    forall i | 0 <= i < |cs'| ensures ColumnAgrees(cs'[i], r.tasks) {
      if i == sc || i == tc {
        RewrittenColumnAgrees(cs, t, cs', r, sc, tc, i);
      } else {
        UntouchedColumnAgrees(cs, t, cs', r, sc, tc, i);
      }
    }
  }

  // ---------------------------------------------------------------------
  // Drag-end

  /** The ids of a moved list are those of the list. */
  lemma MoveKeepsTaskIdSet(ts: seq<Task>, from: nat, to: nat)
    requires from < |ts|
    ensures TaskIdSet(Move(ts, from, to)) == TaskIdSet(ts)
  {
    var m := Move(ts, from, to);
    forall k | k in TaskIdSet(m) ensures k in TaskIdSet(ts) {
      var i :| 0 <= i < |m| && m[i].id == k;
      MoveAt(ts, from, to, i);
    }
    forall k | k in TaskIdSet(ts) ensures k in TaskIdSet(m) {
      var j :| 0 <= j < |ts| && ts[j].id == k;
      assert ts[j] in multiset(m);
      var i :| 0 <= i < |m| && m[i] == ts[j];
    }
  }

  /** Renumbering keeps the ids, in order. */
  lemma RenumberKeepsTaskIds(ts: seq<Task>)
    ensures TaskIds(RenumberTasks(ts)) == TaskIds(ts)
    ensures TaskIdSet(RenumberTasks(ts)) == TaskIdSet(ts)
  {
    var r := RenumberTasks(ts);
    assert forall k :: 0 <= k < |ts| ==> TaskIds(r)[k] == TaskIds(ts)[k];
    forall k | k in TaskIdSet(ts) ensures k in TaskIdSet(r) {
      var j :| 0 <= j < |ts| && ts[j].id == k;
      assert r[j].id == k;
    }
  }

  /** A column move keeps the board and the tables in agreement: it permutes
      the columns with their task lists and writes column orders only. */
  lemma ColumnMoveAgrees(t: Tables, cs: seq<ColumnWithTasks>, a: Id, over: DragId)
    requires Agrees(cs, t) && ColumnMovePlan(cs, a, over).Reorder?
    ensures var p := ColumnMovePlan(cs, a, over);
      Agrees(p.columns, ApplyAll(t, p.writes))
  {
    ColumnMoveNoOp(cs, a, over);
    var o := over.id;
    ColumnMoveResult(cs, a, o);
    ColumnMoveKeepsIdsUnique(cs, a, o);
    ColumnMoveStored(t, cs, a, o);
    var from, to := IndexOfColumn(cs, a), IndexOfColumn(cs, o);
    var m := Move(cs, from, to);
    var p := ColumnMovePlan(cs, a, Col(o));
    var r := ApplyAll(t, p.writes);
    assert ColumnIds(p.columns) == Move(ColumnIds(cs), from, to) by {
      assert p.columns == RenumberColumns(m);
      RenumberKeepsColumnIds(m);
      ColumnIdsMove(cs, from, to);
    }
    forall k ensures k in ColumnIds(p.columns) <==> k in ColumnIds(cs) {
      assert k in multiset(ColumnIds(p.columns)) <==> k in multiset(ColumnIds(cs));
    }
    forall i | 0 <= i < |p.columns| ensures ColumnAgrees(p.columns[i], r.tasks) {
      MoveAt(cs, from, to, i);
      assert ColumnAgrees(cs[MoveSource(|cs|, from, to, i)], t.tasks);
    }
  }

  /** Where a task move finds its source and its target. */
  ghost predicate TaskMoveResolves(cs: seq<ColumnWithTasks>, a: Id, over: DragId) {
    LocateTask(cs, a).Some? && ResolveTarget(cs, over).Some?
  }

  /** Writing the orders of a list of stored tasks, in list order: each
      task is then stored as the renumbered list shows it, and no key, no
      column and no comment changes. */
  lemma OrderBatchStored(t: Tables, m: seq<Task>)
    requires ShowsStored(m, t.tasks)
    ensures var r := ApplyAll(t, TaskOrderWrites(m));
      && r.columns == t.columns && r.comments == t.comments && r.tasks.Keys == t.tasks.Keys
      && ShowsStored(RenumberTasks(m), r.tasks)
      && (forall k :: k in t.tasks && k !in TaskIdSet(m) ==> r.tasks[k] == t.tasks[k])
  {
    TaskOrderWritesEffect(t, m);
    RenumberKeepsTaskIds(m);
    forall k | k in t.tasks && k !in TaskIdSet(m) ensures IndexOfTask(m, k) == -1 {
      forall i | 0 <= i < |m| ensures m[i].id != k {
        assert m[i].id in TaskIdSet(m);
      }
    }
  }

  /** A permutation of a list of stored tasks is one too, with the same ids. */
  lemma MoveShowsStored(ts: seq<Task>, tm: map<Id, Task>, from: nat, to: nat)
    requires ShowsStored(ts, tm) && from < |ts|
    ensures ShowsStored(Move(ts, from, to), tm)
    ensures TaskIdSet(Move(ts, from, to)) == TaskIdSet(ts)
  {
    var m := Move(ts, from, to);
    TaskIdsMove(ts, from, to);
    MoveDistinct(TaskIds(ts), from, to);
    MoveKeepsTaskIdSet(ts, from, to);
    forall i | 0 <= i < |m| ensures m[i].id in tm && tm[m[i].id] == m[i] {
      MoveAt(ts, from, to, i);
    }
  }

  /** A new list for one column that satisfies the conditions of `Rewrite`
      makes the board with it a `Rewrite`. */
  lemma RewriteOfOne(cs: seq<ColumnWithTasks>, t: Tables, sc: nat, nts: seq<Task>, r: Tables)
    requires sc < |cs|
    requires r.columns == t.columns && r.tasks.Keys == t.tasks.Keys
    requires ShowsStored(nts, r.tasks) && OnColumn(nts, cs[sc].id)
    requires TaskIdSet(nts) == TaskIdSet(cs[sc].tasks)
    requires forall k :: k in t.tasks && k !in TaskIdSet(cs[sc].tasks) ==> r.tasks[k] == t.tasks[k]
    ensures Rewrite(cs, t, cs[sc := cs[sc].(tasks := nts)], r, sc, sc)
  {
    assert cs[sc := cs[sc].(tasks := nts)][sc].tasks == nts;
  }

  /** A move within one column, by positions: the column at sc moves its
      task at si to ti and the order batch is written; the result is a
      `Rewrite` of that one column. */
  lemma SameRewrite(t: Tables, cs: seq<ColumnWithTasks>, sc: nat, si: nat, ti: nat)
    requires sc < |cs| && si < |cs[sc].tasks|
    requires ShowsStored(cs[sc].tasks, t.tasks) && OnColumn(cs[sc].tasks, cs[sc].id)
    ensures var m := Move(cs[sc].tasks, si, ti);
      Rewrite(cs, t, cs[sc := cs[sc].(tasks := RenumberTasks(m))], ApplyAll(t, TaskOrderWrites(m)), sc, sc)
  {
    var ts := cs[sc].tasks;
    var m := Move(ts, si, ti);
    var nts := RenumberTasks(m);
    MoveShowsStored(ts, t.tasks, si, ti);
    OrderBatchStored(t, m);
    RenumberKeepsTaskIds(m);
    forall j | 0 <= j < |nts| ensures nts[j].columnId == cs[sc].id {
      MoveAt(ts, si, ti, j);
    }
    RewriteOfOne(cs, t, sc, nts, ApplyAll(t, TaskOrderWrites(m)));
  }

  /** After a move within one column is persisted, every task of that column
      is stored exactly as the board now shows it, the column holds the same
      tasks, and no other row changed (`Rewrite` of that column). */
  lemma SameColumnStored(t: Tables, cs: seq<ColumnWithTasks>, a: Id, over: DragId)
    requires Agrees(cs, t) && TaskMoveResolves(cs, a, over)
    requires var s, g := LocateTask(cs, a).value, ResolveTarget(cs, over).value;
      cs[s.column].id == cs[g.column].id && s.index != g.index
    ensures var s := LocateTask(cs, a).value;
      var p := TaskMovePlan(cs, a, over);
      && p.Reorder?
      && Rewrite(cs, t, p.columns, ApplyAll(t, p.writes), s.column, s.column)
  {
    SameColumnMove(cs, a, over);
    var s, g := LocateTask(cs, a).value, ResolveTarget(cs, over).value;
    assert ColumnAgrees(cs[s.column], t.tasks);
    AgreesCoversColumn(cs, t, s.column);
    SameRewrite(t, cs, s.column, s.index, g.index);
  }

  /** A move within one column keeps the board and the tables in agreement. */
  lemma SameColumnAgrees(t: Tables, cs: seq<ColumnWithTasks>, a: Id, over: DragId)
    requires Agrees(cs, t) && TaskMoveResolves(cs, a, over)
    requires var s, g := LocateTask(cs, a).value, ResolveTarget(cs, over).value;
      cs[s.column].id == cs[g.column].id && s.index != g.index
    ensures var p := TaskMovePlan(cs, a, over);
      Agrees(p.columns, ApplyAll(t, p.writes))
  {
    SameColumnStored(t, cs, a, over);
    var sc := LocateTask(cs, a).value.column;
    var p := TaskMovePlan(cs, a, over);
    RewriteKeepsAgreement(cs, t, p.columns, ApplyAll(t, p.writes), sc, sc);
  }

  /** The ids of a list with one task removed. */
  lemma TaskIdsRemove(ts: seq<Task>, i: nat)
    requires i < |ts|
    ensures TaskIds(RemoveAt(ts, i)) == RemoveAt(TaskIds(ts), i)
  {
    var a, b := TaskIds(RemoveAt(ts, i)), RemoveAt(TaskIds(ts), i);
    assert forall k :: 0 <= k < |a| ==> a[k] == b[k];
  }

  /** Dropping one task from a list of stored tasks leaves one, without that id. */
  lemma RemoveShowsStored(ts: seq<Task>, tm: map<Id, Task>, i: nat)
    requires ShowsStored(ts, tm) && i < |ts|
    ensures ShowsStored(RemoveAt(ts, i), tm)
    ensures TaskIdSet(RemoveAt(ts, i)) == TaskIdSet(ts) - {ts[i].id}
  {
    var r := RemoveAt(ts, i);
    TaskIdsRemove(ts, i);
    RemoveAtDistinct(TaskIds(ts), i);
    forall j | 0 <= j < |r| ensures r[j].id in tm && tm[r[j].id] == r[j] && r[j].id != ts[i].id {
      var j' := if j < i then j else j + 1;
      assert r[j] == ts[j'];
      assert TaskIds(ts)[j'] != TaskIds(ts)[i];
    }
    forall k | k in TaskIdSet(r) ensures k in TaskIdSet(ts) {
      var j :| 0 <= j < |r| && r[j].id == k;
      assert ts[if j < i then j else j + 1].id == k;
    }
    forall k | k in TaskIdSet(ts) - {ts[i].id} ensures k in TaskIdSet(r) {
      var j :| 0 <= j < |ts| && ts[j].id == k;
      assert r[if j < i then j else j - 1].id == k;
    }
  }

  /** Inserting an element the list lacks keeps it free of repeats. */
  lemma InsertAtDistinct<T>(s: seq<T>, i: nat, x: T)
    requires Distinct(s) && i <= |s| && x !in s
    ensures Distinct(InsertAt(s, i, x))
  {
    var r := InsertAt(s, i, x);
    forall k | 0 <= k < |r| && k != i ensures r[k] != x {
      assert r[k] == s[if k < i then k else k - 1];
    }
    forall a, b | 0 <= a < |r| && 0 <= b < |r| && a != i && b != i && r[a] == r[b] ensures a == b {
      assert s[if a < i then a else a - 1] == s[if b < i then b else b - 1];
    }
  }

  /** The ids of a list with one task inserted. */
  lemma TaskIdsInsert(ts: seq<Task>, i: nat, x: Task)
    requires i <= |ts|
    ensures TaskIds(InsertAt(ts, i, x)) == InsertAt(TaskIds(ts), i, x.id)
  {
    var a, b := TaskIds(InsertAt(ts, i, x)), InsertAt(TaskIds(ts), i, x.id);
    assert forall k :: 0 <= k < |a| ==> a[k] == b[k];
  }

  /** Adding a stored task whose id the list lacks keeps a list of stored tasks. */
  lemma InsertShowsStored(ts: seq<Task>, tm: map<Id, Task>, i: nat, x: Task)
    requires ShowsStored(ts, tm) && i <= |ts|
    requires x.id in tm && tm[x.id] == x && x.id !in TaskIdSet(ts)
    ensures ShowsStored(InsertAt(ts, i, x), tm)
    ensures TaskIdSet(InsertAt(ts, i, x)) == TaskIdSet(ts) + {x.id}
  {
    var r := InsertAt(ts, i, x);
    TaskIdsInsert(ts, i, x);
    assert x.id !in TaskIds(ts) by {
      forall j | 0 <= j < |ts| ensures TaskIds(ts)[j] != x.id {
        assert ts[j].id in TaskIdSet(ts);
      }
    }
    InsertAtDistinct(TaskIds(ts), i, x.id);
    forall j | 0 <= j < |r| ensures r[j].id in tm && tm[r[j].id] == r[j] {
      if j != i { assert r[j] == ts[if j < i then j else j - 1]; }
    }
    InsertTaskIdSet(ts, i, x);
  }

  /** The id set of a list with one task inserted. */
  lemma InsertTaskIdSet(ts: seq<Task>, i: nat, x: Task)
    requires i <= |ts|
    ensures TaskIdSet(InsertAt(ts, i, x)) == TaskIdSet(ts) + {x.id}
  {
    var r := InsertAt(ts, i, x);
    forall k | k in TaskIdSet(r) ensures k in TaskIdSet(ts) + {x.id} {
      var j :| 0 <= j < |r| && r[j].id == k;
      if j != i { assert ts[if j < i then j else j - 1].id == k; }
    }
    forall k | k in TaskIdSet(ts) ensures k in TaskIdSet(r) {
      var j :| 0 <= j < |ts| && ts[j].id == k;
      assert r[if j < i then j else j + 1].id == k;
    }
  }

  /** Placing a list of stored tasks on column c, in list order: each task
      is then stored as the placed list shows it, and no other row changes. */
  lemma PlacementBatchStored(t: Tables, m: seq<Task>, c: Id)
    requires ShowsStored(m, t.tasks)
    ensures var r := ApplyAll(t, TaskPlacementWrites(m, c));
      && r.columns == t.columns && r.comments == t.comments && r.tasks.Keys == t.tasks.Keys
      && ShowsStored(PlaceTasks(m, c), r.tasks)
      && TaskIdSet(PlaceTasks(m, c)) == TaskIdSet(m)
      && (forall k :: k in t.tasks && k !in TaskIdSet(m) ==> r.tasks[k] == t.tasks[k])
  {
    TaskPlacementWritesEffect(t, m, c);
    PlaceKeepsTaskIds(m, c);
    forall k | k in t.tasks && k !in TaskIdSet(m) ensures IndexOfTask(m, k) == -1 {
      forall i | 0 <= i < |m| ensures m[i].id != k {
        assert m[i].id in TaskIdSet(m);
      }
    }
  }

  /** Placing keeps the ids, in order. */
  lemma PlaceKeepsTaskIds(ts: seq<Task>, c: Id)
    ensures TaskIds(PlaceTasks(ts, c)) == TaskIds(ts)
    ensures TaskIdSet(PlaceTasks(ts, c)) == TaskIdSet(ts)
  {
    var r := PlaceTasks(ts, c);
    assert forall k :: 0 <= k < |ts| ==> TaskIds(r)[k] == TaskIds(ts)[k];
    forall k | k in TaskIdSet(ts) ensures k in TaskIdSet(r) {
      var j :| 0 <= j < |ts| && ts[j].id == k;
      assert r[j].id == k;
    }
  }

  /** A list of stored tasks stays one when only other rows change. */
  lemma ShowsStoredElsewhere(ts: seq<Task>, tm: map<Id, Task>, rm: map<Id, Task>, out: set<Id>)
    requires ShowsStored(ts, tm) && TaskIdSet(ts) !! out
    requires forall k :: k in tm && k !in out ==> k in rm && rm[k] == tm[k]
    ensures ShowsStored(ts, rm)
  {
    forall j | 0 <= j < |ts| ensures ts[j].id in rm && rm[ts[j].id] == ts[j] {
      assert ts[j].id in TaskIdSet(ts);
    }
  }

  /** The lists of a move across columns: the source without the dragged
      task and the target with it are lists of stored tasks with no id in
      common, and hold together the ids the two columns held. */
  lemma CrossListsDisjoint(tm: map<Id, Task>, src: seq<Task>, si: nat, tgt: seq<Task>, ti: nat, sid: Id, tid: Id)
    requires ShowsStored(src, tm) && ShowsStored(tgt, tm) && si < |src| && ti <= |tgt|
    requires OnColumn(src, sid) && OnColumn(tgt, tid) && sid != tid
    ensures var rem, ins := RemoveAt(src, si), InsertAt(tgt, ti, src[si]);
      && ShowsStored(rem, tm) && ShowsStored(ins, tm)
      && TaskIdSet(rem) !! TaskIdSet(ins)
      && TaskIdSet(rem) + TaskIdSet(ins) == TaskIdSet(src) + TaskIdSet(tgt)
  {
    var x := src[si];
    var rem, ins := RemoveAt(src, si), InsertAt(tgt, ti, x);
    assert forall k :: k in TaskIdSet(tgt) ==> tm[k].columnId == tid by {
      forall k | k in TaskIdSet(tgt) ensures tm[k].columnId == tid {
        var j :| 0 <= j < |tgt| && tgt[j].id == k;
      }
    }
    assert x.id !in TaskIdSet(tgt) by {
      assert tm[x.id].columnId == sid;
    }
    RemoveShowsStored(src, tm, si);
    InsertShowsStored(tgt, tm, ti, x);
    forall k | k in TaskIdSet(rem) ensures k !in TaskIdSet(tgt) {
      var j :| 0 <= j < |rem| && rem[j].id == k;
      assert tm[k].columnId == sid;
    }
  }

  /** The two batches of a move across columns, on the stored rows: the
      source list is renumbered without the dragged task and the target list,
      with it inserted, is placed on the target column; each task of the two
      new lists is then stored as shown, the two lists hold together the
      same ids as before, and no other row changed. */
  lemma CrossBatchStored(t: Tables, src: seq<Task>, si: nat, tgt: seq<Task>, ti: nat, sid: Id, tid: Id)
    requires ShowsStored(src, t.tasks) && ShowsStored(tgt, t.tasks) && si < |src| && ti <= |tgt|
    requires OnColumn(src, sid) && OnColumn(tgt, tid) && sid != tid
    ensures var rem, ins := RemoveAt(src, si), InsertAt(tgt, ti, src[si]);
      var r := ApplyAll(t, TaskOrderWrites(rem) + TaskPlacementWrites(ins, tid));
      && r.columns == t.columns && r.comments == t.comments && r.tasks.Keys == t.tasks.Keys
      && ShowsStored(RenumberTasks(rem), r.tasks) && ShowsStored(PlaceTasks(ins, tid), r.tasks)
      && TaskIdSet(RenumberTasks(rem)) + TaskIdSet(PlaceTasks(ins, tid)) == TaskIdSet(src) + TaskIdSet(tgt)
      && (forall k :: k in t.tasks && k !in TaskIdSet(src) + TaskIdSet(tgt) ==> r.tasks[k] == t.tasks[k])
  {
    var x := src[si];
    var rem, ins := RemoveAt(src, si), InsertAt(tgt, ti, x);
    CrossListsDisjoint(t.tasks, src, si, tgt, ti, sid, tid);
    var r1 := ApplyAll(t, TaskOrderWrites(rem));
    var r := ApplyAll(r1, TaskPlacementWrites(ins, tid));
    ApplyAllAppend(t, TaskOrderWrites(rem), TaskPlacementWrites(ins, tid));
    OrderBatchStored(t, rem);
    RenumberKeepsTaskIds(rem);
    ShowsStoredElsewhere(ins, t.tasks, r1.tasks, TaskIdSet(rem));
    PlacementBatchStored(r1, ins, tid);
    ShowsStoredElsewhere(RenumberTasks(rem), r1.tasks, r.tasks, TaskIdSet(ins));
  }

  /** Renumbering a list that lies on column c, less one task, leaves it on c. */
  lemma RemainingOnColumn(ts: seq<Task>, i: nat, c: Id)
    requires OnColumn(ts, c) && i < |ts|
    ensures OnColumn(RenumberTasks(RemoveAt(ts, i)), c)
  {
    var rem := RemoveAt(ts, i);
    forall j | 0 <= j < |rem| ensures rem[j].columnId == c {
      assert rem[j] == ts[if j < i then j else j + 1];
    }
  }

  /** New lists for two different columns that satisfy the conditions of
      `Rewrite` make the board with them a `Rewrite`. */
  lemma RewriteOfTwo(cs: seq<ColumnWithTasks>, t: Tables, sc: nat, tc: nat, ns: seq<Task>, nt: seq<Task>, r: Tables)
    requires sc < |cs| && tc < |cs| && sc != tc
    requires r.columns == t.columns && r.tasks.Keys == t.tasks.Keys
    requires ShowsStored(ns, r.tasks) && OnColumn(ns, cs[sc].id)
    requires ShowsStored(nt, r.tasks) && OnColumn(nt, cs[tc].id)
    requires TaskIdSet(ns) + TaskIdSet(nt) == TaskIdSet(cs[sc].tasks) + TaskIdSet(cs[tc].tasks)
    requires forall k :: k in t.tasks && k !in TaskIdSet(cs[sc].tasks) + TaskIdSet(cs[tc].tasks) ==> r.tasks[k] == t.tasks[k]
    ensures Rewrite(cs, t, cs[sc := cs[sc].(tasks := ns)][tc := cs[tc].(tasks := nt)], r, sc, tc)
  {
    var cols := cs[sc := cs[sc].(tasks := ns)][tc := cs[tc].(tasks := nt)];
    assert cols[sc].tasks == ns && cols[tc].tasks == nt;
  }

  /** A move across columns, by positions: the source at sc loses its task
      at si, the target at tc receives it at ti, and the two batches are
      written; the result is a `Rewrite` of the two columns. */
  lemma CrossRewrite(t: Tables, cs: seq<ColumnWithTasks>, sc: nat, si: nat, tc: nat, ti: nat)
    requires sc < |cs| && tc < |cs| && cs[sc].id != cs[tc].id
    requires si < |cs[sc].tasks| && ti <= |cs[tc].tasks|
    requires ShowsStored(cs[sc].tasks, t.tasks) && OnColumn(cs[sc].tasks, cs[sc].id)
    requires ShowsStored(cs[tc].tasks, t.tasks) && OnColumn(cs[tc].tasks, cs[tc].id)
    ensures var src, tgt := cs[sc], cs[tc];
      var rem, ins := RemoveAt(src.tasks, si), InsertAt(tgt.tasks, ti, src.tasks[si]);
      var cols := cs[sc := src.(tasks := RenumberTasks(rem))][tc := tgt.(tasks := PlaceTasks(ins, tgt.id))];
      Rewrite(cs, t, cols, ApplyAll(t, TaskOrderWrites(rem) + TaskPlacementWrites(ins, tgt.id)), sc, tc)
  {
    var src, tgt := cs[sc], cs[tc];
    var rem, ins := RemoveAt(src.tasks, si), InsertAt(tgt.tasks, ti, src.tasks[si]);
    CrossBatchStored(t, src.tasks, si, tgt.tasks, ti, src.id, tgt.id);
    RemainingOnColumn(src.tasks, si, src.id);
    RewriteOfTwo(cs, t, sc, tc, RenumberTasks(rem), PlaceTasks(ins, tgt.id),
      ApplyAll(t, TaskOrderWrites(rem) + TaskPlacementWrites(ins, tgt.id)));
  }

  /** After a move across columns is persisted, every task of the source and
      of the target column is stored exactly as the board now shows it, on
      its column, the two columns hold together the same tasks, and no other
      row changed (`Rewrite` of the two columns). */
  lemma CrossColumnStored(t: Tables, cs: seq<ColumnWithTasks>, a: Id, over: DragId)
    requires Agrees(cs, t) && TaskMoveResolves(cs, a, over)
    requires var s, g := LocateTask(cs, a).value, ResolveTarget(cs, over).value;
      cs[s.column].id != cs[g.column].id
    ensures var s, g := LocateTask(cs, a).value, ResolveTarget(cs, over).value;
      var p := TaskMovePlan(cs, a, over);
      && p.Reorder?
      && Rewrite(cs, t, p.columns, ApplyAll(t, p.writes), s.column, g.column)
  {
    var s, g := LocateTask(cs, a).value, ResolveTarget(cs, over).value;
    assert ColumnAgrees(cs[s.column], t.tasks) && ColumnAgrees(cs[g.column], t.tasks);
    AgreesCoversColumn(cs, t, s.column);
    AgreesCoversColumn(cs, t, g.column);
    CrossColumnPlan(cs, a, over);
    CrossRewrite(t, cs, s.column, s.index, g.column, g.index);
  }

  /** A move across columns keeps the board and the tables in agreement. */
  lemma CrossColumnAgrees(t: Tables, cs: seq<ColumnWithTasks>, a: Id, over: DragId)
    requires Agrees(cs, t) && TaskMoveResolves(cs, a, over)
    requires var s, g := LocateTask(cs, a).value, ResolveTarget(cs, over).value;
      cs[s.column].id != cs[g.column].id
    ensures var p := TaskMovePlan(cs, a, over);
      Agrees(p.columns, ApplyAll(t, p.writes))
  {
    CrossColumnStored(t, cs, a, over);
    var sc, tc := LocateTask(cs, a).value.column, ResolveTarget(cs, over).value.column;
    var p := TaskMovePlan(cs, a, over);
    RewriteKeepsAgreement(cs, t, p.columns, ApplyAll(t, p.writes), sc, tc);
  }

  /** Every drag-end that changes something keeps the board and the tables
      in agreement. */
  lemma DragEndAgrees(t: Tables, cs: seq<ColumnWithTasks>, active: DragId, over: Option<DragId>)
    requires Agrees(cs, t) && DragEndPlan(cs, active, over).Reorder?
    ensures var p := DragEndPlan(cs, active, over);
      Agrees(p.columns, ApplyAll(t, p.writes))
  {
    match active
    case Col(a) =>
      ColumnMoveAgrees(t, cs, a, over.value);
    case Tsk(a) =>
      var o := over.value;
      var s, g := LocateTask(cs, a).value, ResolveTarget(cs, o).value;
      if cs[s.column].id != cs[g.column].id {
        CrossColumnAgrees(t, cs, a, o);
      } else {
        SameColumnAgrees(t, cs, a, o);
      }
  }
}
