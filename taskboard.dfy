/**
 * The Kanban board of the drag-and-drop tutorial (task-app/src/index.js):
 * the `App` component's state and its two drag handlers. `onDragStart`
 * records the home column's position; `onDragEnd` splices the dragged id out
 * of one list and into another — reordering columns, reordering the tasks of
 * one column, or moving a task between columns. `setState` is modelled as an
 * immediate assignment of the component's fields; rendering, styling and the
 * DOM side effects are not modelled.
 */
module TaskBoard {
  import opened Wrappers

  type TaskId = string
  type ColumnId = string

  /** An entry of `state.tasks`. */
  datatype Task = Task(id: TaskId, content: string)

  /** An entry of `state.columns`: its id, its title and the ids of its tasks, in order. */
  datatype Column = Column(id: ColumnId, title: string, taskIds: seq<TaskId>)

  /** A position reported by the drag library: a droppable and an index inside it. */
  datatype Location = Location(droppableId: string, index: nat)

  /** The argument of `onDragStart`. */
  datatype DragStart = DragStart(draggableId: string, dragType: string, source: Location)

  /** The argument of `onDragEnd`; no destination when the item was dropped outside any list. */
  datatype DropResult = DropResult(
    draggableId: string, dragType: string, source: Location, destination: Option<Location>)

  /** The component's state, as a value. `homeIndex` is None for `null` and for never set. */
  datatype Board = Board(
    columnOrder: seq<ColumnId>,
    columns: map<ColumnId, Column>,
    tasks: map<TaskId, Task>,
    homeIndex: Option<int>)

  /** The `type` of the droppable that holds the columns. */
  const ColumnType: string := "column"

  // ---------------------------------------------------------------------
  // Array.prototype.splice on a fresh copy, for in-range indices
  // ---------------------------------------------------------------------

  /** `copy.splice(i, 1)`: the sequence without its element at `i`. */
  function SpliceRemove<T>(s: seq<T>, i: nat): (r: seq<T>)
    requires i < |s|
    ensures |r| == |s| - 1
    ensures forall k :: 0 <= k < i ==> r[k] == s[k]
    ensures forall k :: i <= k < |r| ==> r[k] == s[k + 1]
    ensures multiset(r) + multiset{s[i]} == multiset(s)
  {
    assert s == s[..i] + [s[i]] + s[i + 1..];
    s[..i] + s[i + 1..]
  }

  /** `copy.splice(i, 0, x)`: the sequence with `x` inserted before position `i`. */
  function SpliceInsert<T>(s: seq<T>, i: nat, x: T): (r: seq<T>)
    requires i <= |s|
    ensures |r| == |s| + 1 && r[i] == x
    ensures forall k :: 0 <= k < i ==> r[k] == s[k]
    ensures forall k :: i < k < |r| ==> r[k] == s[k - 1]
    ensures multiset(r) == multiset(s) + multiset{x}
  {
    assert s == s[..i] + s[i..];
    s[..i] + [x] + s[i..]
  }

  /** Removing what was just inserted gives back the original. */
  lemma RemoveInserted<T>(s: seq<T>, i: nat, x: T)
    requires i <= |s|
    ensures SpliceRemove(SpliceInsert(s, i, x), i) == s
  {
    var r := SpliceRemove(SpliceInsert(s, i, x), i);
    assert forall k :: 0 <= k < |s| ==> r[k] == s[k];
  }

  /** Inserting what was just removed, where it was, gives back the original. */
  lemma InsertRemoved<T>(s: seq<T>, i: nat)
    requires i < |s|
    ensures SpliceInsert(SpliceRemove(s, i), i, s[i]) == s
  {
    var r := SpliceInsert(SpliceRemove(s, i), i, s[i]);
    assert forall k :: 0 <= k < |s| ==> r[k] == s[k];
  }

  /** The two splices of a drag: take the item at `from` out, put `x` in at `to`. */
  function Move<T>(s: seq<T>, from: nat, to: nat, x: T): seq<T>
    requires from < |s| && to < |s|
  {
    SpliceInsert(SpliceRemove(s, from), to, x)
  }

  /**
   * What a move does: same length, `x` at `to`, and taking `x` back out of
   * `to` leaves what taking the old item out of `from` left. When `x` is the
   * item at `from`, the result is a permutation of the input.
   */
  lemma MoveShape<T>(s: seq<T>, from: nat, to: nat, x: T)
    requires from < |s| && to < |s|
    ensures |Move(s, from, to, x)| == |s| && Move(s, from, to, x)[to] == x
    ensures SpliceRemove(Move(s, from, to, x), to) == SpliceRemove(s, from)
    ensures x == s[from] ==> multiset(Move(s, from, to, x)) == multiset(s)
  {
    RemoveInserted(SpliceRemove(s, from), to, x);
  }

  /** Dragging the item back from `to` to `from` restores the original order. */
  lemma MoveBack<T>(s: seq<T>, from: nat, to: nat)
    requires from < |s| && to < |s|
    ensures Move(Move(s, from, to, s[from]), to, from, s[from]) == s
  {
    MoveShape(s, from, to, s[from]);
    InsertRemoved(s, from);
  }

  // ---------------------------------------------------------------------
  // The board's invariant and what the drag library guarantees
  // ---------------------------------------------------------------------

  /** Every column is stored under its own id (`columns[id].id == id`). */
  predicate ColumnsKeyedById(columns: map<ColumnId, Column>) {
    forall k :: k in columns ==> columns[k].id == k
  }

  /** The result names the same droppable and index it started from. */
  predicate SameLocation(source: Location, destination: Location) {
    destination.droppableId == source.droppableId && destination.index == source.index
  }

  /**
   * What the drag library guarantees about a drop that reaches the splices:
   * the droppables exist, `source.index` is inside its list and
   * `destination.index` is at most the length of the list it is inserted into
   * (after the removal, when the list is the same one).
   */
  predicate DropInRange(b: Board, r: DropResult) {
    match r.destination
    case None => true
    case Some(dest) =>
      SameLocation(r.source, dest) ||
      if r.dragType == ColumnType then
        r.source.index < |b.columnOrder| && dest.index < |b.columnOrder|
      else
        r.source.droppableId in b.columns && dest.droppableId in b.columns &&
        r.source.index < |b.columns[r.source.droppableId].taskIds| &&
        if dest.droppableId == r.source.droppableId
        then dest.index < |b.columns[dest.droppableId].taskIds|
        else dest.index <= |b.columns[dest.droppableId].taskIds|
  }

  /** The dragged id is the item found at the source position. */
  predicate DraggedIdAtSource(b: Board, r: DropResult)
    requires DropInRange(b, r)
  {
    match r.destination
    case None => true
    case Some(dest) =>
      SameLocation(r.source, dest) ||
      if r.dragType == ColumnType then r.draggableId == b.columnOrder[r.source.index]
      else r.draggableId == b.columns[r.source.droppableId].taskIds[r.source.index]
  }

  // ---------------------------------------------------------------------
  // The handlers as functions on the state
  // ---------------------------------------------------------------------

  /**
   * `Array.prototype.indexOf`: the first position of `x` in `s`, or -1 when
   * `x` does not occur.
   */
  function IndexOf<T(==)>(s: seq<T>, x: T): (r: int)
    ensures -1 <= r < |s|
    ensures r == -1 <==> x !in s
    ensures 0 <= r ==> s[r] == x && x !in s[..r]
    decreases |s|
  {
    if s == [] then -1
    else if s[0] == x then 0
    else
      var rest := IndexOf(s[1..], x);
      if rest == -1 then -1
      else
        assert s[..rest + 1] == [s[0]] + s[1..][..rest];
        rest + 1
  }

  /** The state `onDragStart` leaves: the source droppable's position in the column order. */
  function DragStartState(b: Board, start: DragStart): Board {
    b.(homeIndex := Some(IndexOf(b.columnOrder, start.source.droppableId)))
  }

  /** The column drag: the dragged id moves from `from` to `to` in the column order. */
  function ReorderColumns(b: Board, from: nat, to: nat, draggableId: ColumnId): Board
    requires from < |b.columnOrder| && to < |b.columnOrder|
  {
    b.(columnOrder := Move(b.columnOrder, from, to, draggableId))
  }

  /** The task drag inside column `id`: the dragged id moves from `from` to `to`. */
  function ReorderTasks(b: Board, id: ColumnId, from: nat, to: nat, draggableId: TaskId): Board
    requires id in b.columns && from < |b.columns[id].taskIds| && to < |b.columns[id].taskIds|
  {
    var startCol := b.columns[id];
    var newColumn := startCol.(taskIds := Move(startCol.taskIds, from, to, draggableId));
    b.(columns := b.columns[newColumn.id := newColumn])
  }

  /** The task drag from column `s` to column `f`. */
  function MoveTask(b: Board, s: ColumnId, from: nat, f: ColumnId, to: nat, draggableId: TaskId): Board
    requires s in b.columns && f in b.columns
    requires from < |b.columns[s].taskIds| && to <= |b.columns[f].taskIds|
  {
    var startCol := b.columns[s];
    var finishCol := b.columns[f];
    var newStart := startCol.(taskIds := SpliceRemove(startCol.taskIds, from));
    var newFinish := finishCol.(taskIds := SpliceInsert(finishCol.taskIds, to, draggableId));
    b.(columns := b.columns[newStart.id := newStart][newFinish.id := newFinish])
  }

  /** The state `onDragEnd` leaves: `homeIndex` cleared, then the drop applied. */
  function DragEnd(b: Board, r: DropResult): Board
    requires DropInRange(b, r)
  {
    var cleared := b.(homeIndex := None);
    match r.destination
    case None => cleared
    case Some(dest) =>
      if SameLocation(r.source, dest) then cleared
      else if r.dragType == ColumnType then
        ReorderColumns(cleared, r.source.index, dest.index, r.draggableId)
      else if r.source.droppableId == dest.droppableId then
        ReorderTasks(cleared, r.source.droppableId, r.source.index, dest.index, r.draggableId)
      else
        MoveTask(cleared, r.source.droppableId, r.source.index, dest.droppableId, dest.index, r.draggableId)
  }

  // ---------------------------------------------------------------------
  // All task ids across the columns
  // ---------------------------------------------------------------------

  /** The multiset of the task ids of every column. */
  ghost function AllTaskIds(columns: map<ColumnId, Column>): multiset<TaskId>
    decreases |columns|
  {
    if columns == map[] then multiset{}
    else
      var k :| k in columns;
      assert |columns - {k}| < |columns| by { RemoveKeySize(columns, k); }
      multiset(columns[k].taskIds) + AllTaskIds(columns - {k})
  }

  /** The number of task ids across the columns. */
  ghost function TaskCount(columns: map<ColumnId, Column>): nat {
    |AllTaskIds(columns)|
  }

  lemma RemoveKeySize(columns: map<ColumnId, Column>, k: ColumnId)
    requires k in columns
    ensures |columns - {k}| == |columns| - 1
  {
    assert (columns - {k}).Keys == columns.Keys - {k};
    assert |columns.Keys - {k}| == |columns.Keys| - 1;
  }

  /** Any one column's ids can be split off the total. */
  lemma {:induction false} AllTaskIdsSplit(columns: map<ColumnId, Column>, k: ColumnId)
    requires k in columns
    ensures AllTaskIds(columns) == multiset(columns[k].taskIds) + AllTaskIds(columns - {k})
    decreases |columns|
  {
    var j :| j in columns && AllTaskIds(columns) == multiset(columns[j].taskIds) + AllTaskIds(columns - {j});
    if j != k {
      RemoveKeySize(columns, j);
      RemoveKeySize(columns, k);
      AllTaskIdsSplit(columns - {j}, k);
      AllTaskIdsSplit(columns - {k}, j);
      assert columns - {j} - {k} == columns - {k} - {j};
    }
  }

  /** Replacing one column changes the total by exactly that column's ids. */
  lemma AllTaskIdsUpdate(columns: map<ColumnId, Column>, k: ColumnId, c: Column)
    requires k in columns
    ensures AllTaskIds(columns[k := c]) + multiset(columns[k].taskIds)
         == AllTaskIds(columns) + multiset(c.taskIds)
  {
    AllTaskIdsSplit(columns, k);
    AllTaskIdsSplit(columns[k := c], k);
    assert columns[k := c] - {k} == columns - {k};
  }

  // ---------------------------------------------------------------------
  // What onDragEnd does, case by case
  // ---------------------------------------------------------------------

  /** Every drop clears `homeIndex`, keeps the tasks and keeps columns stored under their ids. */
  lemma DragEndKeepsInvariant(b: Board, r: DropResult)
    requires ColumnsKeyedById(b.columns) && DropInRange(b, r)
    ensures DragEnd(b, r).homeIndex == None && DragEnd(b, r).tasks == b.tasks
    ensures DragEnd(b, r).columns.Keys == b.columns.Keys
    ensures ColumnsKeyedById(DragEnd(b, r).columns)
  {
    var cleared := b.(homeIndex := None);
    match r.destination
    case None =>
    case Some(dest) =>
      if SameLocation(r.source, dest) {
      } else if r.dragType == ColumnType {
        assert DragEnd(b, r) == ReorderColumns(cleared, r.source.index, dest.index, r.draggableId);
      } else if dest.droppableId == r.source.droppableId {
        assert DragEnd(b, r) == ReorderTasks(cleared, r.source.droppableId, r.source.index, dest.index, r.draggableId);
      } else {
        assert DragEnd(b, r) == MoveTask(cleared, r.source.droppableId, r.source.index, dest.droppableId, dest.index, r.draggableId);
      }
  }

  /** A drop outside any list only resets `homeIndex`. */
  lemma NoDestinationOnlyClearsHome(b: Board, r: DropResult)
    requires r.destination == None
    ensures DragEnd(b, r) == b.(homeIndex := None)
  {
  }

  /** A drop back where the drag started only resets `homeIndex`. */
  lemma SameLocationOnlyClearsHome(b: Board, r: DropResult)
    requires r.destination.Some? && SameLocation(r.source, r.destination.value)
    ensures DragEnd(b, r) == b.(homeIndex := None)
  {
  }

  /**
   * Dragging a column: `draggableId` lands at the destination index, taking
   * it back out leaves the old order without its source item, the length is
   * kept, and the columns and tasks are untouched. When the dragged id is the
   * column at the source index, the new order is a permutation of the old.
   */
  lemma ColumnDragReorders(b: Board, r: DropResult)
    requires DropInRange(b, r) && r.dragType == ColumnType
    requires r.destination.Some? && !SameLocation(r.source, r.destination.value)
    ensures var nb := DragEnd(b, r); var to := r.destination.value.index;
      |nb.columnOrder| == |b.columnOrder| && nb.columnOrder[to] == r.draggableId &&
      SpliceRemove(nb.columnOrder, to) == SpliceRemove(b.columnOrder, r.source.index) &&
      nb.columns == b.columns && nb.tasks == b.tasks
    ensures DraggedIdAtSource(b, r) ==> multiset(DragEnd(b, r).columnOrder) == multiset(b.columnOrder)
  {
    MoveShape(b.columnOrder, r.source.index, r.destination.value.index, r.draggableId);
  }

  /** The drop that drags the item back from where it landed to where it came from. */
  function Reversed(r: DropResult): DropResult
    requires r.destination.Some?
  {
    r.(source := r.destination.value, destination := Some(r.source))
  }

  /** Dragging a column back to where it came from restores the column order. */
  lemma ColumnDragUndone(b: Board, r: DropResult)
    requires DropInRange(b, r) && DraggedIdAtSource(b, r) && r.dragType == ColumnType
    requires r.destination.Some? && !SameLocation(r.source, r.destination.value)
    ensures DropInRange(DragEnd(b, r), Reversed(r))
    ensures DragEnd(DragEnd(b, r), Reversed(r)).columnOrder == b.columnOrder
  {
    MoveShape(b.columnOrder, r.source.index, r.destination.value.index, r.draggableId);
    MoveBack(b.columnOrder, r.source.index, r.destination.value.index);
  }

  /**
   * Reordering inside one column: only that column's task ids change; the
   * dragged id lands at the destination index; taking it back out leaves the
   * old list without its source item; and when the dragged id is the task at
   * the source index, the column keeps the same multiset of ids. The column
   * order, the tasks and every other column are unchanged.
   */
  lemma ReorderWithinColumn(b: Board, r: DropResult)
    requires ColumnsKeyedById(b.columns) && DropInRange(b, r) && r.dragType != ColumnType
    requires r.destination.Some? && !SameLocation(r.source, r.destination.value)
    requires r.destination.value.droppableId == r.source.droppableId
    ensures var nb := DragEnd(b, r); var id := r.source.droppableId; var to := r.destination.value.index;
      var old_ := b.columns[id].taskIds; var new_ := nb.columns[id].taskIds;
      nb.columnOrder == b.columnOrder && nb.tasks == b.tasks &&
      nb.columns.Keys == b.columns.Keys &&
      (forall k :: k in b.columns && k != id ==> nb.columns[k] == b.columns[k]) &&
      nb.columns[id] == b.columns[id].(taskIds := new_) &&
      |new_| == |old_| && new_[to] == r.draggableId &&
      SpliceRemove(new_, to) == SpliceRemove(old_, r.source.index) &&
      (DraggedIdAtSource(b, r) ==> multiset(new_) == multiset(old_))
  {
    var id := r.source.droppableId;
    MoveShape(b.columns[id].taskIds, r.source.index, r.destination.value.index, r.draggableId);
  }

  /**
   * Taking `out` from one column and adding `in_` to another changes the
   * board-wide multiset of ids by exactly those two.
   */
  lemma AllTaskIdsTransfer(columns: map<ColumnId, Column>, s: ColumnId, f: ColumnId,
                           newStart: Column, newFinish: Column, out: TaskId, in_: TaskId)
    requires s in columns && f in columns && s != f
    requires multiset(newStart.taskIds) + multiset{out} == multiset(columns[s].taskIds)
    requires multiset(newFinish.taskIds) == multiset(columns[f].taskIds) + multiset{in_}
    ensures AllTaskIds(columns[s := newStart][f := newFinish]) + multiset{out}
         == AllTaskIds(columns) + multiset{in_}
  {
    var mid := columns[s := newStart];
    var newColumns := mid[f := newFinish];
    AllTaskIdsUpdate(columns, s, newStart);
    AllTaskIdsUpdate(mid, f, newFinish);
    var before, middle, after := AllTaskIds(columns), AllTaskIds(mid), AllTaskIds(newColumns);
    var oldS, newS := multiset(columns[s].taskIds), multiset(newStart.taskIds);
    var oldF, newF := multiset(columns[f].taskIds), multiset(newFinish.taskIds);
    assert middle + oldS == before + newS;
    assert after + oldF == middle + newF;
    forall t ensures (after + multiset{out})[t] == (before + multiset{in_})[t] {
      assert (middle + oldS)[t] == (before + newS)[t];
      assert (after + oldF)[t] == (middle + newF)[t];
      assert (newS + multiset{out})[t] == oldS[t];
      assert newF[t] == (oldF + multiset{in_})[t];
    }
  }

  /**
   * Moving a task to another column: the start column loses exactly its id
   * at the source index (putting it back restores the list), the finish
   * column gains `draggableId` at the destination index (taking it out
   * restores the list), and nothing else changes.
   */
  lemma MoveBetweenColumns(b: Board, r: DropResult)
    requires ColumnsKeyedById(b.columns) && DropInRange(b, r) && r.dragType != ColumnType
    requires r.destination.Some? && r.destination.value.droppableId != r.source.droppableId
    ensures var nb := DragEnd(b, r);
      var s := r.source.droppableId; var f := r.destination.value.droppableId;
      var i := r.source.index; var to := r.destination.value.index;
      nb.columnOrder == b.columnOrder && nb.tasks == b.tasks &&
      nb.columns.Keys == b.columns.Keys &&
      (forall k :: k in b.columns && k != s && k != f ==> nb.columns[k] == b.columns[k]) &&
      nb.columns[s] == b.columns[s].(taskIds := nb.columns[s].taskIds) &&
      nb.columns[f] == b.columns[f].(taskIds := nb.columns[f].taskIds) &&
      SpliceInsert(nb.columns[s].taskIds, i, b.columns[s].taskIds[i]) == b.columns[s].taskIds &&
      nb.columns[f].taskIds[to] == r.draggableId &&
      SpliceRemove(nb.columns[f].taskIds, to) == b.columns[f].taskIds
  {
    InsertRemoved(b.columns[r.source.droppableId].taskIds, r.source.index);
    RemoveInserted(b.columns[r.destination.value.droppableId].taskIds, r.destination.value.index, r.draggableId);
  }

  /**
   * A move between two columns keeps the number of task ids across the
   * board, and their multiset when the moved id is the one taken out.
   */
  lemma MoveTaskKeepsIds(b: Board, s: ColumnId, from: nat, f: ColumnId, to: nat, draggableId: TaskId)
    requires ColumnsKeyedById(b.columns) && s != f && s in b.columns && f in b.columns
    requires from < |b.columns[s].taskIds| && to <= |b.columns[f].taskIds|
    ensures TaskCount(MoveTask(b, s, from, f, to, draggableId).columns) == TaskCount(b.columns)
    ensures draggableId == b.columns[s].taskIds[from] ==>
      AllTaskIds(MoveTask(b, s, from, f, to, draggableId).columns) == AllTaskIds(b.columns)
  {
    var startCol := b.columns[s];
    var finishCol := b.columns[f];
    var newStart := startCol.(taskIds := SpliceRemove(startCol.taskIds, from));
    var newFinish := finishCol.(taskIds := SpliceInsert(finishCol.taskIds, to, draggableId));
    var newColumns := b.columns[s := newStart][f := newFinish];
    assert MoveTask(b, s, from, f, to, draggableId).columns == newColumns;
    AllTaskIdsTransfer(b.columns, s, f, newStart, newFinish, startCol.taskIds[from], draggableId);
    var out, in_ := multiset{startCol.taskIds[from]}, multiset{draggableId};
    assert |AllTaskIds(newColumns) + out| == TaskCount(newColumns) + 1;
    assert |AllTaskIds(b.columns) + in_| == TaskCount(b.columns) + 1;
    if draggableId == startCol.taskIds[from] {
      forall t ensures AllTaskIds(newColumns)[t] == AllTaskIds(b.columns)[t] {
        assert (AllTaskIds(newColumns) + out)[t] == (AllTaskIds(b.columns) + in_)[t];
      }
    }
  }

  /** A reorder inside one column keeps the task ids across the board when it moves the id it took out. */
  lemma ReorderTasksKeepsIds(b: Board, id: ColumnId, from: nat, to: nat)
    requires ColumnsKeyedById(b.columns) && id in b.columns
    requires from < |b.columns[id].taskIds| && to < |b.columns[id].taskIds|
    ensures AllTaskIds(ReorderTasks(b, id, from, to, b.columns[id].taskIds[from]).columns) == AllTaskIds(b.columns)
  {
    var startCol := b.columns[id];
    var newColumn := startCol.(taskIds := Move(startCol.taskIds, from, to, startCol.taskIds[from]));
    MoveShape(startCol.taskIds, from, to, startCol.taskIds[from]);
    AllTaskIdsUpdate(b.columns, id, newColumn);
    var m := multiset(startCol.taskIds);
    forall t ensures AllTaskIds(b.columns[id := newColumn])[t] == AllTaskIds(b.columns)[t] {
      assert (AllTaskIds(b.columns[id := newColumn]) + m)[t] == (AllTaskIds(b.columns) + m)[t];
    }
  }

  /**
   * Moving a task to another column keeps the number of task ids across the
   * board; when the dragged id is the task at the source index, it keeps
   * their multiset.
   */
  lemma MoveBetweenColumnsKeepsIds(b: Board, r: DropResult)
    requires ColumnsKeyedById(b.columns) && DropInRange(b, r) && r.dragType != ColumnType
    requires r.destination.Some? && r.destination.value.droppableId != r.source.droppableId
    ensures TaskCount(DragEnd(b, r).columns) == TaskCount(b.columns)
    ensures DraggedIdAtSource(b, r) ==> AllTaskIds(DragEnd(b, r).columns) == AllTaskIds(b.columns)
  {
    var dest := r.destination.value;
    var cleared := b.(homeIndex := None);
    assert DragEnd(b, r) == MoveTask(cleared, r.source.droppableId, r.source.index, dest.droppableId, dest.index, r.draggableId);
    MoveTaskKeepsIds(cleared, r.source.droppableId, r.source.index, dest.droppableId, dest.index, r.draggableId);
  }

  /**
   * Over every kind of drop, when the dragged id is the item at the source:
   * the column order and the task ids across the columns are permutations
   * of what they were.
   */
  lemma DragEndPermutes(b: Board, r: DropResult)
    requires ColumnsKeyedById(b.columns) && DropInRange(b, r) && DraggedIdAtSource(b, r)
    ensures multiset(DragEnd(b, r).columnOrder) == multiset(b.columnOrder)
    ensures AllTaskIds(DragEnd(b, r).columns) == AllTaskIds(b.columns)
  {
    var cleared := b.(homeIndex := None);
    match r.destination
    case None =>
    case Some(dest) =>
      if SameLocation(r.source, dest) {
      } else if r.dragType == ColumnType {
        MoveShape(b.columnOrder, r.source.index, dest.index, r.draggableId);
      } else if dest.droppableId == r.source.droppableId {
        assert DragEnd(b, r) == ReorderTasks(cleared, r.source.droppableId, r.source.index, dest.index, r.draggableId);
        ReorderTasksKeepsIds(cleared, r.source.droppableId, r.source.index, dest.index);
      } else {
        MoveBetweenColumnsKeepsIds(b, r);
      }
  }

  // ---------------------------------------------------------------------
  // The drop-disabled rule computed in render
  // ---------------------------------------------------------------------

  /**
   * `index < this.state.homeIndex`: with `homeIndex` null (coerced to 0) or
   * never set (NaN) no non-negative index is below it. The component computes
   * this flag but does not hand it on to the column, so it blocks nothing.
   */
  predicate IsDropDisabled(index: nat, homeIndex: Option<int>) {
    match homeIndex
    case None => false
    case Some(h) => index < h
  }

  /**
   * After a drag starts, column `i` is computed drop-disabled exactly when the
   * source droppable is a column that sits further right (its first
   * occurrence is after `i`); a drag whose source is not a column — the
   * column drag itself — disables nothing.
   */
  lemma DragStartDisablesLeftColumns(b: Board, start: DragStart, i: nat)
    requires i < |b.columnOrder|
    ensures var home := start.source.droppableId;
      IsDropDisabled(i, DragStartState(b, start).homeIndex)
      <==> home in b.columnOrder && home !in b.columnOrder[..i + 1]
  {
    var home := start.source.droppableId;
    var h := IndexOf(b.columnOrder, home);
    if 0 <= h {
      if i < h {
        assert b.columnOrder[..i + 1] == b.columnOrder[..h][..i + 1];
      } else {
        assert b.columnOrder[..i + 1][h] == home;
      }
    }
  }

  /** After any drop, no column is computed drop-disabled. */
  lemma NothingDisabledAfterDrop(b: Board, r: DropResult, i: nat)
    requires DropInRange(b, r)
    ensures !IsDropDisabled(i, DragEnd(b, r).homeIndex)
  {
  }

  // ---------------------------------------------------------------------
  // The component
  // ---------------------------------------------------------------------

  /** The `App` component: its state fields and its two drag handlers. */
  class App {
    var columnOrder: seq<ColumnId>
    var columns: map<ColumnId, Column>
    var tasks: map<TaskId, Task>
    var homeIndex: Option<int>

    /** The state as a value. */
    function State(): Board
      reads this
    {
      Board(columnOrder, columns, tasks, homeIndex)
    }

    ghost predicate Valid()
      reads this
    {
      ColumnsKeyedById(columns)
    }

    /** `state = initialData`; the initial data sets no `homeIndex`. */
    constructor (initial: Board)
      requires ColumnsKeyedById(initial.columns)
      ensures Valid() && State() == initial.(homeIndex := None)
    {
      columnOrder := initial.columnOrder;
      columns := initial.columns;
      tasks := initial.tasks;
      homeIndex := None;
    }

    /** `onDragStart`: remember where the source droppable sits in the column order. */
    method OnDragStart(start: DragStart)
      requires Valid()
      modifies this
      ensures Valid() && State() == DragStartState(old(State()), start)
    {
      homeIndex := Some(IndexOf(columnOrder, start.source.droppableId));
    }

    /** `onDragEnd`: clear `homeIndex`, then apply the drop with two splices on copies. */
    method OnDragEnd(result: DropResult)
      requires Valid() && DropInRange(State(), result)
      modifies this
      ensures Valid() && State() == DragEnd(old(State()), result)
    {
      DragEndKeepsInvariant(State(), result);
      homeIndex := None;
      if result.destination.None? {
        return;
      }
      var destination := result.destination.value;
      var source := result.source;
      if SameLocation(source, destination) {
        return;
      }

      if result.dragType == ColumnType {
        var newColumnOrder := columnOrder;
        newColumnOrder := SpliceRemove(newColumnOrder, source.index);
        newColumnOrder := SpliceInsert(newColumnOrder, destination.index, result.draggableId);
        columnOrder := newColumnOrder;
        return;
      }

      var startCol := columns[source.droppableId];
      var finishCol := columns[destination.droppableId];

      if source.droppableId == destination.droppableId {
        var newTaskIds := startCol.taskIds;
        newTaskIds := SpliceRemove(newTaskIds, source.index);
        newTaskIds := SpliceInsert(newTaskIds, destination.index, result.draggableId);
        var newColumn := startCol.(taskIds := newTaskIds);
        columns := columns[newColumn.id := newColumn];
        return;
      }

      var startTaskIds := startCol.taskIds;
      startTaskIds := SpliceRemove(startTaskIds, source.index);
      var newStart := startCol.(taskIds := startTaskIds);
      var finishTaskIds := finishCol.taskIds;
      finishTaskIds := SpliceInsert(finishTaskIds, destination.index, result.draggableId);
      var newFinish := finishCol.(taskIds := finishTaskIds);
      columns := columns[newStart.id := newStart][newFinish.id := newFinish];
    }

    /** The drop-disabled flag render computes for the column at `index`. */
    predicate ColumnDropDisabled(index: nat)
      reads this
    {
      IsDropDisabled(index, homeIndex)
    }
  }

  /**
   * A drag as the library drives it: start, then drop. Afterwards the board
   * is the drop applied to the starting board, and no column is disabled.
   */
  method DragAndDrop(app: App, start: DragStart, result: DropResult)
    requires app.Valid() && DropInRange(app.State(), result)
    modifies app
    ensures app.Valid() && app.State() == DragEnd(old(app.State()), result)
    ensures forall i: nat :: !app.ColumnDropDisabled(i)
  {
    app.OnDragStart(start);
    app.OnDragEnd(result);
  }
}
