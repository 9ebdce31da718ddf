# Kanban board: a verified model of its data and drag-and-drop core

This project models the core of a single-board kanban web application. The
board holds columns, each column holds ordered task cards, and each task can
carry comments. Everything is kept in a browser key-value store with three
auto-increment tables (`columns`, `tasks`, `comments`). The board component
keeps the column list in memory. It issues store writes when the user adds or
edits a column, adds a card, empties or deletes a column, or drags a column
or a card to a new place.

The handlers exist twice in the repository: as the hooks
`src/hooks/useKanbanData.ts` and `src/hooks/useDragAndDrop.ts`, and inline in
`src/components/templates/HomePage.tsx` (lines 211-506). The two copies are
the same code, except that the inline copy also closes the column menu
(`menuColumnId`). The model is written once. The table below cites the hook
lines, and the HomePage lines where only the inline copy has the behaviour.

Modules:

- `Kanban` (`kanban.dfy`): the records (`Column`, `Task`, `Comment`, and the
  in-memory `ColumnWithTasks`) and `findIndex` by id.
- `ListMove` (`list_move.dfy`): `arrayMove` of the sortable drag-and-drop
  library (remove, then insert at the target clamped to the list, as `splice`
  does) and the one-element `splice` insert.
- `Store` (`store.dfy`): the store as a class `Db` whose fields are the three
  tables and the log of every write issued. The tables always equal the fold
  `ApplyAll` of the writes over the ghost field `initial`, the tables the store
  was opened with.
- `Batches` (`store_batches.dfy`): the batches of writes the handlers issue
  (order renumbering, re-parenting, the delete cascade) and their exact effect
  on the tables.
- `Reorder` and `ReorderFacts` (`reorder.dfy`, `reorder_facts.dfy`): the
  drag-end decision as a pure plan (`NoOp`, or a new column list plus the
  writes) and the properties of column and task moves.
- `Loading` (`load.dfy`): loading the board, with columns and each column's
  tasks ascending by `order`.
- `Agreement` (`agreement.dfy`): what it means for the board in memory to
  agree with the store (`Agrees`): distinct column ids that are exactly the
  stored column keys, no orphaned stored task, and each column listing
  exactly the stored tasks of that column, each as stored. Loading
  establishes it and every drag-end plan keeps it.
- `Board` (`board.dfy`): the class `KanbanBoard` with the component's state
  (columns, comment counts, drag ghosts, open menu). It holds the handlers as
  methods, and the loops of the handlers as methods proved against the pure
  plan and batch functions.

## Model

| member | source | states |
|---|---|---|
| Kanban.IndexOfColumn | src/hooks/useDragAndDrop.ts:57-58 | `findIndex` by column id: the first position holding the id, and -1 exactly when no column holds it |
| Kanban.IndexOfTask | src/hooks/useDragAndDrop.ts:87 | `findIndex` by task id: the first position holding the id, and -1 exactly when no task holds it |
| Kanban.IndexOfColumnDistinct | src/hooks/useDragAndDrop.ts:57-58 | with distinct column ids, the index found for a column's id is that column's own position |
| Kanban.IndexOfTaskDistinct | src/hooks/useDragAndDrop.ts:87 | with distinct task ids, the index found for a task's id is that task's own position |
| ListMove.RemoveAt | src/hooks/useDragAndDrop.ts:147-149 | removing one element: one shorter, the elements before it kept, the ones after it shifted down, and the multiset minus exactly that element |
| ListMove.InsertAt | src/hooks/useDragAndDrop.ts:150-151 | `splice(i, 0, x)`: x at i, the others shifted around it, the multiset plus x, and removing index i gives back the list |
| ListMove.Landing | src/hooks/useDragAndDrop.ts:62 | the index where a moved element lands: the target, clamped to the last index |
| ListMove.Move | src/hooks/useDragAndDrop.ts:62 | `arrayMove`: same length, the moved element at the landing index, a permutation, and the other elements in their old relative order |
| ListMove.MoveToSelf | src/hooks/useDragAndDrop.ts:62 | moving an element onto its own index leaves the list unchanged |
| ListMove.MoveSource | src/hooks/useDragAndDrop.ts:62 | for each position of the moved list, the old position it takes its element from, always inside the list |
| ListMove.MoveAt | src/hooks/useDragAndDrop.ts:62 | each element of a moved list is the element at its `MoveSource` position |
| ListMove.MoveDistinct | src/hooks/useDragAndDrop.ts:62 | a move of a list of distinct elements keeps them distinct |
| ListMove.RemoveAtDistinct | src/hooks/useDragAndDrop.ts:147-149 | removing one element of a list of distinct elements keeps the rest distinct |
| Store.CommentsWithout | src/hooks/useKanbanData.ts:94 | deleting the comments of one task removes exactly the comments with that task id and keeps the rest unchanged |
| Store.CommentsOf | src/hooks/useKanbanData.ts:42-45 | the comments counted for a task are exactly the stored comments with that task id |
| Store.ApplyFrame | src/hooks/useKanbanData.ts:85-99 | each write changes one table only (a column write leaves tasks and comments, a task write leaves columns and comments, the comments delete leaves columns and tasks), updates keep the key set, and only an insert adds a key |
| Store.ApplyAllSnoc | src/hooks/useKanbanData.ts:94-95 | a write issued after others applies to the tables the earlier writes produced |
| Store.ApplyAllAppend | src/hooks/useDragAndDrop.ts:153-171 | two batches awaited one after the other have the effect of the second batch applied to the result of the first |
| Store.Db.Open | src/lib/db.ts:10-19 | opening a store with well-keyed tables gives those tables and an empty log |
| Store.Db.Issue | src/hooks/useKanbanData.ts:85 | an update or delete by key appends itself to the log, changes the tables exactly as `Apply` says (an update of a missing key changes nothing), and keeps the tables well keyed |
| Store.Db.InsertColumn | src/hooks/useKanbanData.ts:59 | `columns.add` stores the row under the next auto-increment key, which was not in use, and logs the insert |
| Store.Db.InsertTask | src/hooks/useKanbanData.ts:72 | `tasks.add` stores the row under the next auto-increment key, which was not in use, and logs the insert |
| Store.Db.CountComments | src/hooks/useKanbanData.ts:42-45 | the count returned is the number of stored comments of that task |
| Batches.CascadeStep | src/hooks/useKanbanData.ts:92-97 | each further task of the cascade adds the delete of its comments and then its own delete, applied in that order |
| Batches.CascadeOrder | src/hooks/useKanbanData.ts:92-97 | the cascade issues the comments delete of the i-th task at position 2i and that task's delete right after it |
| Batches.ColumnOrderWritesEffect | src/hooks/useDragAndDrop.ts:70-75 | after the column-order writes, each listed stored column has the order written for it; unlisted columns, tasks and comments are untouched and no key appears or disappears |
| Batches.TaskOrderWritesEffect | src/hooks/useDragAndDrop.ts:132-138 | after the task-order writes, the stored task at list position i has order i; unlisted tasks, columns and comments are untouched |
| Batches.TaskPlacementWritesEffect | src/hooks/useDragAndDrop.ts:161-171 | after the placement writes, the stored task at list position i has the target column id and order i; everything else is untouched |
| Batches.CascadeEffect | src/hooks/useKanbanData.ts:92-97 | after the cascade, exactly the listed tasks and exactly the comments of those tasks are gone; columns and all other rows stay |
| Reorder.FindColumn | src/hooks/useDragAndDrop.ts:32 | `find` by column id: found exactly when some column has the id, and then it is a column of the board with that id |
| Reorder.AllTasks | src/hooks/useDragAndDrop.ts:36 | `flatMap` of the columns' tasks: as many tasks as the board holds, and exactly the tasks of its columns |
| Reorder.FindTask | src/hooks/useDragAndDrop.ts:36 | `find` by task id: found exactly when some task has the id, and then it is that task |
| Reorder.LocateTask | src/hooks/useDragAndDrop.ts:86-93 | the first column holding the task id and the task's index there; nothing exactly when no column holds it |
| Reorder.ResolveTarget | src/hooks/useDragAndDrop.ts:97-119 | a task target resolves to that task's place; a column target resolves to the position just past its last task (append); anything else, or an unknown id, resolves to nothing |
| Reorder.ReplaceTasks | src/hooks/useDragAndDrop.ts:140-144 | the `map` keeps every column's position and row and changes only the task list of the columns with the id, to the given list |
| Reorder.ReplaceTwo | src/hooks/useDragAndDrop.ts:173-183 | the two-way `map` keeps every column's row; a column with the source id gets the source list, otherwise one with the target id gets the target list, and every other column is unchanged |
| Reorder.ColumnMovePlan | src/hooks/useDragAndDrop.ts:51-75 | a column drop that changes anything has a column target other than the dragged column, keeps the number of columns, writes once per column, and leaves every column with its index as order |
| Reorder.TaskMovePlan | src/hooks/useDragAndDrop.ts:80-184 | a task drop that changes anything has found both the dragged task and the target, and keeps every column in its place with its row; only task lists change |
| Reorder.DragEndPlan | src/hooks/useDragAndDrop.ts:41-51 | a drop that changes anything has a drop target and a dragged column or task, and keeps the number of columns |
| Reorder.RenumberColumns | src/hooks/useDragAndDrop.ts:63-66 | the columns in the same order, each with its index as order |
| Reorder.RenumberTasks | src/hooks/useDragAndDrop.ts:132-138 | the tasks in the same order, each with its index as order |
| Reorder.PlaceTasks | src/hooks/useDragAndDrop.ts:161-171 | the tasks in the same order, each with the target column id and its index as order |
| Reorder.WithoutTask | src/hooks/useDragAndDrop.ts:147-149 | `filter` by id: exactly the tasks whose id differs |
| ReorderFacts.ColumnIdsMove | src/hooks/useDragAndDrop.ts:62 | moving columns moves their ids the same way |
| ReorderFacts.TaskIdsMove | src/hooks/useDragAndDrop.ts:126-130 | moving tasks moves their ids the same way |
| ReorderFacts.ReplaceTasksAt | src/hooks/useDragAndDrop.ts:140-144 | with distinct column ids, the `map` by id replaces the tasks at exactly one position |
| ReorderFacts.ReplaceTwoAt | src/hooks/useDragAndDrop.ts:173-183 | with distinct column ids, the two-way `map` replaces the source's and the target's tasks and nothing else |
| ReorderFacts.UniqueTaskIdsTail | src/hooks/useDragAndDrop.ts:147-149 | the tail of a list of distinct task ids is distinct and does not repeat the head's id |
| ReorderFacts.WithoutTaskRemovesOne | src/hooks/useDragAndDrop.ts:147-149 | with distinct task ids, filtering out the dragged task's id removes exactly that task and keeps the others in order |
| ReorderFacts.WithoutTaskSplit | src/hooks/useDragAndDrop.ts:147-149 | with distinct task ids, filtering out the id at position i leaves the tasks before it followed by the tasks after it |
| ReorderFacts.WithoutFirstTask | src/hooks/useDragAndDrop.ts:147-149 | with distinct task ids, filtering out the first task's id leaves exactly the other tasks |
| ReorderFacts.WithoutTaskKeepsAll | src/hooks/useDragAndDrop.ts:147-149 | filtering out an id no task carries keeps the list |
| ReorderFacts.TotalTasksUpdate | src/hooks/useDragAndDrop.ts:173-183 | replacing one column's tasks changes the board's task count by the difference in length |
| ReorderFacts.ColumnMoveNoOp | src/hooks/useDragAndDrop.ts:52-60 | a column drag does nothing exactly when the target is not a column, is the dragged column itself, or either id is not on the board |
| ReorderFacts.ColumnMoveResult | src/hooks/useDragAndDrop.ts:62-75 | a column move is a permutation with the dragged column at the target's index and the others in their relative order; every order becomes the index; one order write per column, in list order |
| ReorderFacts.ColumnMoveKeepsIdsUnique | src/hooks/useDragAndDrop.ts:62-66 | a column move keeps the column ids distinct |
| ReorderFacts.RenumberKeepsColumnIds | src/hooks/useDragAndDrop.ts:62-65 | renumbering the columns changes their orders only, never their ids or their sequence |
| ReorderFacts.ColumnMoveStored | src/hooks/useDragAndDrop.ts:68-75 | once the writes are applied, every column on the board has its new index as its stored order, and no task or comment changed |
| ReorderFacts.TaskMoveUnresolved | src/hooks/useDragAndDrop.ts:95-119 | a task drag does nothing when the dragged task or the drop target cannot be found |
| ReorderFacts.TaskMoveToSelf | src/hooks/useDragAndDrop.ts:123-124 | dropping a task on itself does nothing |
| ReorderFacts.SameColumnMove | src/hooks/useDragAndDrop.ts:123-144 | a move within a column changes only that column: its tasks are a permutation with the dragged task at the (clamped) target index, the others in their relative order, orders 0..n-1, one order write per task, and the task count is kept |
| ReorderFacts.CrossColumnPlan | src/hooks/useDragAndDrop.ts:145-183 | a move across columns replaces the source's tasks by the renumbered rest and the target's by the placed list with the task inserted; it writes the source's orders first, then every target task's column and order |
| ReorderFacts.CrossColumnMove | src/hooks/useDragAndDrop.ts:145-183 | the source loses exactly the dragged task and is renumbered; the target gains it at the index with the target's id; every target task carries the target's id and orders 0..n-1; other columns stay |
| ReorderFacts.CrossColumnConservesTasks | src/hooks/useDragAndDrop.ts:145-183 | a move across columns keeps the number of tasks on the board |
| Loading.InsertSorted | src/hooks/useKanbanData.ts:22 | inserting a key into an ascending key list keeps it ascending and adds exactly that key |
| Loading.SortedDistinct | src/hooks/useKanbanData.ts:22 | a strictly ascending key list has no repeated key |
| Loading.SortKeys | src/hooks/useKanbanData.ts:19-22 | the keys of a table listed once each, ascending by order, then by key |
| Loading.LoadTasks | src/hooks/useKanbanData.ts:24-27 | a column's task list is exactly the stored tasks with that column id, ascending by order |
| Loading.LoadBoard | src/hooks/useKanbanData.ts:17-31 | the board is exactly the stored columns ascending by order, each with exactly its stored tasks ascending by order |
| Loading.LoadedAscending | src/hooks/useKanbanData.ts:17-31 | a loaded board has ascending column orders and ascending task orders, every task carries its column's id, and no id repeats |
| Agreement.AgreesCoversColumn | src/hooks/useKanbanData.ts:90-97 | on an agreeing board, a column's list holds every stored task of that column, and every listed task carries the column's id, so the delete cascade over the list reaches them all |
| Agreement.LoadedColumnAgrees | src/hooks/useKanbanData.ts:24-27 | a column loaded with its tasks lists exactly the stored tasks of that column, each as stored, once |
| Agreement.LoadAgrees | src/hooks/useKanbanData.ts:17-31 | a board loaded from tables in which every task's column is stored agrees with those tables |
| Agreement.RewriteKeepsAgreement | src/hooks/useDragAndDrop.ts:123-183 | rewriting the lists of one or two columns keeps agreement when the two lists together keep their task ids, each shows its stored rows on its own column, and no other row changed |
| Agreement.MoveKeepsTaskIdSet | src/hooks/useDragAndDrop.ts:126-130 | `arrayMove` over tasks keeps the set of task ids |
| Agreement.RenumberKeepsTaskIds | src/hooks/useDragAndDrop.ts:132-138 | renumbering the tasks keeps their ids in order |
| Agreement.PlaceKeepsTaskIds | src/hooks/useDragAndDrop.ts:161-171 | re-parenting and renumbering the tasks keeps their ids in order |
| Agreement.RemoveShowsStored | src/hooks/useDragAndDrop.ts:147-149 | removing a task from a list of stored rows leaves stored rows and removes exactly its id |
| Agreement.InsertShowsStored | src/hooks/useDragAndDrop.ts:150-151 | inserting a stored task not yet listed keeps the list one of stored rows and adds exactly its id |
| Agreement.OrderBatchStored | src/hooks/useDragAndDrop.ts:132-138 | after the order writes of a list of stored tasks, each is stored as the renumbered list shows it; no key and no column or comment changes |
| Agreement.PlacementBatchStored | src/hooks/useDragAndDrop.ts:161-171 | after the placement writes of a list of stored tasks, each is stored as the placed list shows it; no key and no column or comment changes |
| Agreement.ColumnMoveAgrees | src/hooks/useDragAndDrop.ts:51-75 | a column move that changes anything, with its order writes applied, keeps the board and the store in agreement |
| Agreement.SameColumnStored | src/hooks/useDragAndDrop.ts:123-144 | a move within one column, with its order writes applied, rewrites only that column: its list shows every one of its tasks exactly as now stored |
| Agreement.SameColumnAgrees | src/hooks/useDragAndDrop.ts:123-144 | a move within one column keeps the board and the store in agreement |
| Agreement.CrossColumnStored | src/hooks/useDragAndDrop.ts:145-183 | a move across columns, with both batches applied, rewrites only the source and the target: each list shows its tasks exactly as now stored, on its own column, and no other task row changed |
| Agreement.CrossColumnAgrees | src/hooks/useDragAndDrop.ts:145-183 | a move across columns keeps the board and the store in agreement |
| Agreement.DragEndAgrees | src/hooks/useDragAndDrop.ts:41-186 | every drop that changes anything, with exactly its writes applied, keeps the board and the store in agreement |
| Board.LocateTaskLoop | src/hooks/useDragAndDrop.ts:86-93 | the loop with `break` finds what `LocateTask` specifies |
| Board.WriteColumnOrders | src/hooks/useDragAndDrop.ts:70-75 | the loop issues exactly the column-order writes, in list order, and the store ends at their fold |
| Board.WriteTaskOrders | src/hooks/useDragAndDrop.ts:132-138 | the loop issues exactly the task-order writes and returns the list renumbered in place |
| Board.WriteTaskPlacements | src/hooks/useDragAndDrop.ts:161-171 | the loop issues exactly the placement writes and returns the list with the target id and its indices set |
| Board.WriteCrossMove | src/hooks/useDragAndDrop.ts:153-171 | the source's order writes are all issued before the target's placement writes, and the store ends at the fold of the two batches in that order |
| Board.WriteColumnMove | src/hooks/useDragAndDrop.ts:51-75 | the column branch's lookups, move, renumbering and order writes amount to exactly `ColumnMovePlan`; a no-op plan issues nothing, a reorder issues exactly its writes |
| Board.DeleteTasksCascade | src/hooks/useKanbanData.ts:92-97 | the loop issues, for each task in turn, the delete of its comments and then its own delete |
| Board.CountCommentsFor | src/hooks/useKanbanData.ts:37-48 | the loop builds a fresh map with one entry per task on the board, each the number of that task's stored comments |
| Board.CommentCounts | src/hooks/useKanbanData.ts:38-50 | the counts map has exactly the board's task ids as keys, each mapped to its comment count |
| Board.MaxOrder | src/hooks/useKanbanData.ts:56 | `Math.max`: no smaller than any order, and equal to one of them |
| Board.NextOrder | src/hooks/useKanbanData.ts:55-57 | the new order: 0 on an empty list, otherwise one more than an existing order and above all of them |
| Board.AppendTask | src/hooks/useKanbanData.ts:73-79 | the column with the id gets the task appended; every other column is unchanged |
| Board.RemoveColumn | src/hooks/useKanbanData.ts:100 | `filter` by column id: exactly the other columns, not renumbered |
| Board.RemoveColumnKeepsAll | src/hooks/useKanbanData.ts:100 | filtering out an id no column carries keeps the board |
| Board.UniqueColumnIdsTail | src/hooks/useKanbanData.ts:100 | the tail of a board with distinct column ids is distinct and does not repeat the head's id |
| Board.RemoveColumnSplit | src/hooks/useKanbanData.ts:100 | with distinct ids, deleting the column at position i leaves the columns before it followed by the columns after it |
| Board.RemoveFirstColumn | src/hooks/useKanbanData.ts:100 | with distinct column ids, deleting the first column leaves exactly the other columns |
| Board.RemoveColumnRemovesOne | src/hooks/useKanbanData.ts:100 | with distinct ids, deleting a column removes exactly that column and keeps the others, with their orders, in order |
| Board.DeleteColumnLeavesNoOrphans | src/hooks/useKanbanData.ts:88-100 | cascading over a list that holds every stored task of a column and then deleting the column leaves no task pointing at it and no comment of a deleted task; other rows stay |
| Board.LoadedColumnHoldsItsTasks | src/hooks/useKanbanData.ts:24-27 | on a loaded board, a column's list holds every stored task of that column, so the cascade reaches them all |
| Board.DeleteColumnRows | src/hooks/useKanbanData.ts:88-99 | the store side of a column delete: the cascade over the given tasks, then the column row, exactly in that order |
| Board.AddColumnAgrees | src/hooks/useKanbanData.ts:53-61 | storing a column under a fresh key and appending it without tasks keeps agreement |
| Board.StoredTaskIdsAdd | src/hooks/useKanbanData.ts:72 | storing a task under a fresh key adds it to the stored tasks of its own column and of no other |
| Board.AddTaskAgrees | src/hooks/useKanbanData.ts:63-81 | storing a task under a fresh key and appending it to its column's list keeps agreement |
| Board.UpdateColumnAgrees | src/hooks/useKanbanData.ts:83-86 | storing a column's new title keeps agreement, as the title is not part of it |
| Board.DeleteColumnTables | src/hooks/useKanbanData.ts:88-99 | the cascade and then the column delete remove exactly the column row and the listed tasks |
| Board.DeleteColumnAgrees | src/hooks/useKanbanData.ts:88-101 | deleting a column, whether or not it is on the board, keeps agreement: the cascade over its list removes all of its stored tasks |
| Board.DeleteAllCardsAgrees | src/hooks/useKanbanData.ts:103-116 | emptying a column of the board keeps agreement: no stored task of it is left |
| Board.KanbanBoard.constructor | src/hooks/useKanbanData.ts:10-11 | the board starts empty, with no counts, no ghosts and no open menu |
| Board.KanbanBoard.DragStart | src/hooks/useDragAndDrop.ts:26-39 | the ghost is set to the dragged column or task when its id is on the board; otherwise both ghosts keep their value |
| Board.KanbanBoard.DragEnd | src/hooks/useDragAndDrop.ts:41-186 | both ghosts are cleared first; with no drop target nothing else happens; otherwise the board becomes the plan's columns and exactly the plan's writes are issued, or nothing changes for a no-op plan; agreement with the store is kept |
| Board.KanbanBoard.MoveColumn | src/hooks/useDragAndDrop.ts:50-77 | the column branch returns the plan it carried out, which is `ColumnMovePlan` of the board before the drop; the board becomes the plan's columns, and the ghosts, the counts and the menu are untouched |
| Board.KanbanBoard.MoveTask | src/hooks/useDragAndDrop.ts:79-185 | the task branch carries out `TaskMovePlan` exactly |
| Board.KanbanBoard.MoveWithinColumn | src/hooks/useDragAndDrop.ts:123-144 | the column gets the moved and renumbered tasks, and one order write per task is issued |
| Board.KanbanBoard.MoveAcrossColumns | src/hooks/useDragAndDrop.ts:145-184 | the source gets the renumbered rest and the target the placed list; the source's order writes come before the target's placement writes |
| Board.KanbanBoard.Load | src/hooks/useKanbanData.ts:17-33 | the board is a load of the store, agreeing with it when no stored task is orphaned, and the counts are those of the loaded tasks |
| Board.KanbanBoard.UpdateCommentCounts | src/hooks/useKanbanData.ts:35-51 | the counts become a fresh count of the given columns' tasks; no earlier entry survives |
| Board.KanbanBoard.CloseCommentsModal | src/components/templates/HomePage.tsx:328-332 | closing the comments dialog recounts the comments of the board's tasks |
| Board.KanbanBoard.AddColumn | src/hooks/useKanbanData.ts:53-61 | stores a column of board 1 with the next column order under a fresh key, and appends it without tasks; agreement is kept |
| Board.KanbanBoard.AddTask | src/hooks/useKanbanData.ts:63-81 | on an unknown column nothing changes; otherwise stores a task with the column's next task order under a fresh key, appends it to that column, and seeds its count with 0, which is its true comment count; agreement is kept |
| Board.KanbanBoard.UpdateColumn | src/hooks/useKanbanData.ts:83-86 | writes only the column's title; all other rows and tables stay, and agreement is kept |
| Board.KanbanBoard.OpenMenu | src/components/templates/HomePage.tsx:334-341 | opens the menu of the given column |
| Board.KanbanBoard.DeleteColumn | src/components/templates/HomePage.tsx:284-301 | a column on the board has its tasks' comments and tasks deleted first; the column row is deleted in any case, dropped from the board without renumbering, and the menu is closed; agreement is kept |
| Board.KanbanBoard.DeleteAllCards | src/components/templates/HomePage.tsx:303-321 | a column on the board has its tasks' comments and tasks deleted and its list emptied, and the column stays; an unknown column changes nothing; the menu is closed either way; agreement is kept |

## Left out

- Rendering, styling, the column menu's screen position, the comments dialog's own state, and the child components (`ColumnMenu`, `CommentsModal`, `TaskAdder`, `SortableColumn`, `SortableTask`, `CardWrapper`, `DragOverlayContent`). They draw or collect input and do not change the board's data.
- The pointer sensor's 3-pixel activation distance. It decides when a drag starts, which is outside the handlers.
- Concurrency and failure. Every store call is one atomic step, awaited in order, that always succeeds. A write that rejects midway through a loop, and handlers that interleave, are not modelled.
- Stale closures. The handlers read `columns` from the render they were created in but apply `setColumns(prev => …)` to the latest state. The model has a single current state, so it does not cover the two differing.
- Aliasing. The source assigns `order` and `columnId` on task objects that the previous state also holds. The model builds new values, so that sharing is not captured.
- The in-memory state update and the store writes of one handler happen in a fixed order in the source. The model states both at the end of the handler and does not expose their relative timing.
- `Date.now()` is the parameter `now` of `AddTask`.
- Drag identifiers (`column-N`, `task-N`) and the element's data type are decoded once into `DragId`. An id that parses to `NaN` is `Other` or is found nowhere, as in the source.
- The sortable library's `arrayMove` is modelled from what it does (remove, then `splice` at the target, which clamps to the end). Its code is not part of this model.
- The truthiness tests on ids (`if (task.id)`, `taskId !== undefined`, `col.id`) always pass, because stored keys start at 1. They are not modelled as branches.
- Trimming and emptiness checks on titles happen in the callers (`TaskAdder`, the column header) and are not part of this model.
- The `boards` table. No handler of the core reads or writes it, and columns are always created with board id 1.
- Adding and deleting comments, which only the comments dialog does.
- Loading.LoadBoard: rows with equal `order` are taken to come back in key order (the store returns rows by key and the sort is stable), so ties are broken by the smaller key.
- Board.KanbanBoard.UpdateColumn: stores the title only. The board's own copy of the title is edited keystroke by keystroke in the column header's `onChange` (`src/components/templates/HomePage.tsx:139-145`, `src/components/modules/SortableColumn.tsx:67-73`), which calls `setColumns` directly and is not part of this model; agreement does not cover titles.
- Board.KanbanBoard.Load: establishes agreement only when no stored task points at a missing column (`NoOrphans`). The source loads tasks column by column, so an orphaned task is never shown, and the board cannot list it.
- Id uniqueness on the board is a hypothesis of the lemmas that need it (`UniqueColumnIds`, `UniqueTaskIds`), not a precondition of the handlers. A loaded board satisfies it (`Loading.LoadedAscending`).
