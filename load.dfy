/** Loading the board from the store: all column rows ascending by order,
    each with the task rows of that column ascending by order. The store
    returns rows in key order and the sort is stable, so equal orders are
    broken by the smaller key. */
module Loading {
  import opened Kanban
  import opened ListMove
  import opened Store

  /** Key a sorts before key b: smaller rank, or equal rank and smaller key. */
  predicate Before(rank: map<Id, int>, a: Id, b: Id)
    requires a in rank && b in rank
  {
    rank[a] < rank[b] || (rank[a] == rank[b] && a < b)
  }

  /** The keys are all ranked and strictly ascending. */
  ghost predicate SortedBy(s: seq<Id>, rank: map<Id, int>) {
    && (forall i :: 0 <= i < |s| ==> s[i] in rank)
    && (forall i, j :: 0 <= i < j < |s| ==> Before(rank, s[i], s[j]))
  }

  /** Inserting a new key into an ascending list keeps it ascending. */
  function InsertSorted(s: seq<Id>, x: Id, rank: map<Id, int>): (r: seq<Id>)
    requires SortedBy(s, rank) && x in rank && x !in s
    ensures SortedBy(r, rank)
    ensures forall y :: y in r <==> y in s || y == x
    ensures |r| == |s| + 1
    decreases |s|
  {
    if s == [] then [x]
    else if Before(rank, x, s[0]) then [x] + s
    else
      var rec := InsertSorted(s[1..], x, rank);
      assert forall k :: 0 <= k < |rec| ==> Before(rank, s[0], rec[k]) by {
        forall k | 0 <= k < |rec| ensures Before(rank, s[0], rec[k]) {
          if rec[k] != x {
            assert rec[k] in s[1..];
            var j :| 0 <= j < |s[1..]| && s[1..][j] == rec[k];
            assert s[j + 1] == rec[k];
          }
        }
      }
      [s[0]] + rec
  }

  /** Strictly ascending keys are distinct. */
  lemma SortedDistinct(s: seq<Id>, rank: map<Id, int>)
    requires SortedBy(s, rank)
    ensures Distinct(s)
  {
    forall i, j | 0 <= i < j < |s| ensures s[i] != s[j] {
      assert Before(rank, s[i], s[j]);
    }
  }

  /** The keys of a set listed once each, ascending by rank then key. */
  method SortKeys(keys: set<Id>, rank: map<Id, int>) returns (r: seq<Id>)
    requires keys <= rank.Keys
    ensures SortedBy(r, rank)
    ensures forall y :: y in r <==> y in keys
    ensures |r| == |keys|
  {
    r := [];
    var rest := keys;
    while rest != {}
      invariant rest <= keys && SortedBy(r, rank)
      invariant forall y :: y in r <==> y in keys && y !in rest
      invariant |r| + |rest| == |keys|
      decreases |rest|
    {
      var x :| x in rest;
      r := InsertSorted(r, x, rank);
      rest := rest - {x};
    }
  }

  function ColumnRanks(cm: map<Id, Column>): (rank: map<Id, int>)
    ensures rank.Keys == cm.Keys
  {
    map k | k in cm :: cm[k].order
  }

  /** The orders of the stored tasks of column c, by key. */
  function TaskRanks(tm: map<Id, Task>, c: Id): (rank: map<Id, int>)
    ensures forall k :: k in rank <==> k in tm && tm[k].columnId == c
  {
    map k | k in tm && tm[k].columnId == c :: tm[k].order
  }

  /** The list is exactly the stored tasks of column c, ascending by order. */
  ghost predicate TasksLoaded(ts: seq<Task>, tm: map<Id, Task>, c: Id) {
    && SortedBy(TaskIds(ts), TaskRanks(tm, c))
    && (forall k :: 0 <= k < |ts| ==> ts[k].id in tm && ts[k] == tm[ts[k].id])
    && (forall x :: x in tm && tm[x].columnId == c ==> x in TaskIds(ts))
  }

  /** The board is exactly the stored columns, ascending by order, each
      holding exactly its stored tasks ascending by order. */
  ghost predicate IsLoadOf(cs: seq<ColumnWithTasks>, t: Tables) {
    && SortedBy(ColumnIds(cs), ColumnRanks(t.columns))
    && (forall i :: 0 <= i < |cs| ==>
          cs[i].id in t.columns && cs[i].Row() == t.columns[cs[i].id]
          && TasksLoaded(cs[i].tasks, t.tasks, cs[i].id))
    && (forall k :: k in t.columns ==> k in ColumnIds(cs))
  }

  /** A loaded board lists its columns by ascending order and each column's
      tasks by ascending order; every task on a column carries that column's
      id; and no id occurs twice. */
  lemma LoadedAscending(cs: seq<ColumnWithTasks>, t: Tables)
    requires IsLoadOf(cs, t)
    ensures forall i, j :: 0 <= i < j < |cs| ==> cs[i].order <= cs[j].order
    ensures forall i, j, k :: 0 <= i < |cs| && 0 <= j < k < |cs[i].tasks| ==>
      cs[i].tasks[j].order <= cs[i].tasks[k].order
    ensures forall i, j :: 0 <= i < |cs| && 0 <= j < |cs[i].tasks| ==> cs[i].tasks[j].columnId == cs[i].id
    ensures UniqueColumnIds(cs)
    ensures forall i :: 0 <= i < |cs| ==> UniqueTaskIds(cs[i].tasks)
  {
    var ids := ColumnIds(cs);
    forall i, j | 0 <= i < j < |cs| ensures cs[i].order <= cs[j].order {
      assert Before(ColumnRanks(t.columns), ids[i], ids[j]);
    }
    forall i, j, k | 0 <= i < |cs| && 0 <= j < k < |cs[i].tasks|
      ensures cs[i].tasks[j].order <= cs[i].tasks[k].order
    {
      var tids := TaskIds(cs[i].tasks);
      assert Before(TaskRanks(t.tasks, cs[i].id), tids[j], tids[k]);
    }
    forall i, j | 0 <= i < |cs| && 0 <= j < |cs[i].tasks| ensures cs[i].tasks[j].columnId == cs[i].id {
      assert TaskIds(cs[i].tasks)[j] in TaskRanks(t.tasks, cs[i].id);
    }
    SortedDistinct(ids, ColumnRanks(t.columns));
    forall i | 0 <= i < |cs| ensures UniqueTaskIds(cs[i].tasks) {
      SortedDistinct(TaskIds(cs[i].tasks), TaskRanks(t.tasks, cs[i].id));
    }
  }

  /** `tasks.where("columnId").equals(c).sortBy("order")`. */
  method LoadTasks(db: Db, c: Id) returns (tasks: seq<Task>)
    requires db.Valid()
    ensures TasksLoaded(tasks, db.tasks, c)
  {
    var rank := TaskRanks(db.tasks, c);
    var tids := SortKeys(rank.Keys, rank);
    var stored := db.tasks;
    tasks := seq(|tids|, k requires 0 <= k < |tids| => stored[tids[k]]);
    assert TaskIds(tasks) == tids;
  }

  /** `fetchColumns`: reads every column row, sorted by order, and for each
      the task rows of that column, sorted by order. */
  method LoadBoard(db: Db) returns (cs: seq<ColumnWithTasks>)
    requires db.Valid()
    ensures IsLoadOf(cs, db.Contents())
  {
    ghost var t := db.Contents();
    var ids := SortKeys(db.columns.Keys, ColumnRanks(db.columns));
    cs := [];
    var i := 0;
    while i < |ids|
      invariant 0 <= i <= |ids| && |cs| == i
      invariant forall k :: 0 <= k < i ==> cs[k].id == ids[k] && ColumnLoaded(cs[k], t)
    {
      var row := db.columns[ids[i]];
      var tasks := LoadTasks(db, row.id);
      cs := cs + [WithTasks(row, tasks)];
      i := i + 1;
    }
    assert ColumnIds(cs) == ids;
  }

  /** One column of the board is its stored row with its stored tasks. */
  ghost predicate ColumnLoaded(c: ColumnWithTasks, t: Tables) {
    c.id in t.columns && c.Row() == t.columns[c.id] && TasksLoaded(c.tasks, t.tasks, c.id)
  }
}
