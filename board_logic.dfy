/** The board's data and the pure transformations its handlers compute:
    each takes the current `columns` or `tasks` sequence and returns the one
    the handler stores. */
module BoardLogic {
  import opened Sequences
  import Decimal

  /** Column and task identifiers share one space of integers. */
  type Id = int

  datatype Column = Column(id: Id, title: string)

  datatype Task = Task(id: Id, content: string, columnId: Id)

  function ColumnIds(columns: seq<Column>): set<Id> {
    set c | c in columns :: c.id
  }

  function TaskIds(tasks: seq<Task>): set<Id> {
    set t | t in tasks :: t.id
  }

  /** The task ids in board order, with repetitions. */
  function TaskIdList(tasks: seq<Task>): seq<Id> {
    seq(|tasks|, i requires 0 <= i < |tasks| => tasks[i].id)
  }

  /** The board's referential invariant: every task names an existing column. */
  predicate TasksReferToColumns(columns: seq<Column>, tasks: seq<Task>) {
    forall t :: t in tasks ==> t.columnId in ColumnIds(columns)
  }

  /** The tasks a column shows, in board order. */
  function TasksOf(tasks: seq<Task>, columnId: Id): (r: seq<Task>)
    ensures IsSubsequence(r, tasks)
    ensures forall k :: 0 <= k < |r| ==> r[k].columnId == columnId
  {
    Filter(tasks, (t: Task) => t.columnId == columnId)
  }

  /** A column's view holds each of its tasks as often as the board does, and
      no task of another column. */
  lemma TasksOfCount(tasks: seq<Task>, columnId: Id, t: Task)
    ensures multiset(TasksOf(tasks, columnId))[t] ==
      if t.columnId == columnId then multiset(tasks)[t] else 0
  {
    FilterCount(tasks, (t: Task) => t.columnId == columnId, t);
  }

  /** Two equally long sequences whose elements agree position by position
      on `id` have the same set of ids. */
  lemma SameIdsSameIdSet<T>(a: seq<T>, b: seq<T>, id: T -> Id)
    requires |a| == |b| && forall i :: 0 <= i < |a| ==> id(a[i]) == id(b[i])
    ensures (set x | x in a :: id(x)) == (set x | x in b :: id(x))
  {
    IdSetIncluded(a, b, id);
    IdSetIncluded(b, a, id);
  }

  lemma IdSetIncluded<T>(a: seq<T>, b: seq<T>, id: T -> Id)
    requires |a| == |b| && forall i :: 0 <= i < |a| ==> id(a[i]) == id(b[i])
    ensures (set x | x in a :: id(x)) <= (set x | x in b :: id(x))
  {
    var ids, others := set x | x in a :: id(x), set x | x in b :: id(x);
    forall v | v in ids ensures v in others {
      var x :| x in a && id(x) == v;
      var i :| 0 <= i < |a| && a[i] == x;
      assert b[i] in b;
    }
  }

  // ---------------------------------------------------------------- columns

  /** The default title of the n-th column, `Column ${n}`. */
  function ColumnTitle(n: nat): string {
    "Column " + Decimal.NatToString(n)
  }

  /** `createNewColumn`: one column appended at the end, titled after the new
      number of columns; the old columns are an unchanged prefix. */
  function AppendColumn(columns: seq<Column>, id: Id): (r: seq<Column>)
    ensures |r| == |columns| + 1 && r[..|columns|] == columns
    ensures r[|columns|].id == id && r[|columns|].title == ColumnTitle(|columns| + 1)
    ensures ColumnIds(r) == ColumnIds(columns) + {id}
  {
    var r := columns + [Column(id, ColumnTitle(|columns| + 1))];
    assert forall c :: c in r <==> c in columns || c == r[|columns|];
    r
  }

  /** The column part of `deleteColumn`: the columns whose id differs from
      `id`, in their old order. */
  function RemoveColumn(columns: seq<Column>, id: Id): (r: seq<Column>)
    ensures IsSubsequence(r, columns)
    ensures forall k :: 0 <= k < |r| ==> r[k].id != id
  {
    Filter(columns, (c: Column) => c.id != id)
  }

  /** Every column with another id survives the deletion, as often as it
      occurred. */
  lemma RemoveColumnKeepsOthers(columns: seq<Column>, id: Id, c: Column)
    ensures multiset(RemoveColumn(columns, id))[c] == if c.id == id then 0 else multiset(columns)[c]
  {
    FilterCount(columns, (c: Column) => c.id != id, c);
  }

  lemma RemoveColumnIds(columns: seq<Column>, id: Id)
    ensures ColumnIds(RemoveColumn(columns, id)) == ColumnIds(columns) - {id}
  {
    var r := RemoveColumn(columns, id);
    forall c ensures c in r <==> c in columns && c.id != id {
      FilterMember(columns, (c: Column) => c.id != id, c);
    }
  }

  /** The task part of `deleteColumn`, the cascade: the tasks that do not
      belong to column `columnId`, in their old order. */
  function RemoveColumnTasks(tasks: seq<Task>, columnId: Id): (r: seq<Task>)
    ensures IsSubsequence(r, tasks)
    ensures forall k :: 0 <= k < |r| ==> r[k].columnId != columnId
  {
    Filter(tasks, (t: Task) => t.columnId != columnId)
  }

  /** Every task of another column survives the cascade, as often as it
      occurred. */
  lemma RemoveColumnTasksKeepsOthers(tasks: seq<Task>, columnId: Id, t: Task)
    ensures multiset(RemoveColumnTasks(tasks, columnId))[t] ==
      if t.columnId == columnId then 0 else multiset(tasks)[t]
  {
    FilterCount(tasks, (t: Task) => t.columnId != columnId, t);
  }

  /** The view of every other column is untouched by the cascade. */
  lemma {:induction false} RemoveColumnTasksKeepsOtherViews(tasks: seq<Task>, columnId: Id, other: Id)
    requires other != columnId
    ensures TasksOf(RemoveColumnTasks(tasks, columnId), other) == TasksOf(tasks, other)
  {
    FilterFilter(tasks, (t: Task) => t.columnId != columnId, (t: Task) => t.columnId == other);
  }

  /** `updateColumn`: the title of every column with id `id` becomes `title`;
      the length, the order, every id and every other column are kept. */
  function RenameColumn(columns: seq<Column>, id: Id, title: string): (r: seq<Column>)
    ensures |r| == |columns|
    ensures forall i :: 0 <= i < |r| ==> r[i].id == columns[i].id
    ensures forall i :: 0 <= i < |r| && columns[i].id == id ==> r[i].title == title
    ensures forall i :: 0 <= i < |r| && columns[i].id != id ==> r[i] == columns[i]
    ensures ColumnIds(r) == ColumnIds(columns)
  {
    var r := seq(|columns|, i requires 0 <= i < |columns| =>
      if columns[i].id == id then columns[i].(title := title) else columns[i]);
    SameIdsSameIdSet(r, columns, (c: Column) => c.id);
    r
  }

  /** Renaming twice is renaming once, to the later title. */
  lemma RenameColumnLastWins(columns: seq<Column>, id: Id, first: string, second: string)
    ensures RenameColumn(RenameColumn(columns, id, first), id, second) == RenameColumn(columns, id, second)
  {
  }

  /** The first index holding a column with id `id`, or -1 (`findIndex`). */
  function ColumnIndex(columns: seq<Column>, id: Id): (i: int)
    ensures -1 <= i < |columns|
    ensures 0 <= i ==> columns[i].id == id && forall k :: 0 <= k < i ==> columns[k].id != id
    ensures i == -1 <==> id !in ColumnIds(columns)
  {
    FindIndex(columns, (c: Column) => c.id == id)
  }

  /** The column reorder of `onDragEnd`: the column with id `activeId` moves to
      the index the column with id `overId` held; the others keep their
      relative order and nothing is gained or lost. */
  function ReorderColumns(columns: seq<Column>, activeId: Id, overId: Id): (r: seq<Column>)
    requires activeId in ColumnIds(columns) && overId in ColumnIds(columns)
    ensures |r| == |columns| && multiset(r) == multiset(columns)
    ensures r[ColumnIndex(columns, overId)] == columns[ColumnIndex(columns, activeId)]
    ensures r[ColumnIndex(columns, overId)].id == activeId
    ensures RemoveAt(r, ColumnIndex(columns, overId)) == RemoveAt(columns, ColumnIndex(columns, activeId))
    ensures ColumnIds(r) == ColumnIds(columns)
  {
    var r := ArrayMove(columns, ColumnIndex(columns, activeId), ColumnIndex(columns, overId));
    assert forall c :: c in r <==> c in columns by {
      forall c ensures c in r <==> c in columns {
        assert c in r <==> multiset(r)[c] > 0;
        assert c in columns <==> multiset(columns)[c] > 0;
      }
    }
    r
  }

  /** Dropping a column onto itself leaves the order as it was. */
  lemma ReorderColumnsOntoItself(columns: seq<Column>, id: Id)
    requires id in ColumnIds(columns)
    ensures ReorderColumns(columns, id, id) == columns
  {
    ArrayMoveSelf(columns, ColumnIndex(columns, id));
  }

  // ------------------------------------------------------------------ tasks

  /** The default content of the n-th task, `Task ${n}`. */
  function TaskContent(n: nat): string {
    "Task " + Decimal.NatToString(n)
  }

  /** `createTask`: one task appended at the end, in column `columnId`, with
      content numbered after the new number of tasks on the whole board. */
  function AppendTask(tasks: seq<Task>, columnId: Id, id: Id): (r: seq<Task>)
    ensures |r| == |tasks| + 1 && r[..|tasks|] == tasks
    ensures r[|tasks|] == Task(id, TaskContent(|tasks| + 1), columnId)
    ensures TaskIds(r) == TaskIds(tasks) + {id}
  {
    var r := tasks + [Task(id, TaskContent(|tasks| + 1), columnId)];
    assert forall t :: t in r <==> t in tasks || t == r[|tasks|];
    r
  }

  /** `deleteTask`: the tasks whose id differs from `id`, in their old order. */
  function RemoveTask(tasks: seq<Task>, id: Id): (r: seq<Task>)
    ensures IsSubsequence(r, tasks)
    ensures forall k :: 0 <= k < |r| ==> r[k].id != id
  {
    Filter(tasks, (t: Task) => t.id != id)
  }

  /** Every task with another id survives, as often as it occurred. */
  lemma RemoveTaskKeepsOthers(tasks: seq<Task>, id: Id, t: Task)
    ensures multiset(RemoveTask(tasks, id))[t] == if t.id == id then 0 else multiset(tasks)[t]
  {
    FilterCount(tasks, (t: Task) => t.id != id, t);
  }

  /** `updateTask`: the content of every task with id `id` becomes `content`;
      the length, the order, every id, every column and every other task are
      kept. */
  function EditTask(tasks: seq<Task>, id: Id, content: string): (r: seq<Task>)
    ensures |r| == |tasks|
    ensures forall i :: 0 <= i < |r| ==> r[i].id == tasks[i].id && r[i].columnId == tasks[i].columnId
    ensures forall i :: 0 <= i < |r| && tasks[i].id == id ==> r[i].content == content
    ensures forall i :: 0 <= i < |r| && tasks[i].id != id ==> r[i] == tasks[i]
    ensures TaskIds(r) == TaskIds(tasks)
  {
    var r := seq(|tasks|, i requires 0 <= i < |tasks| =>
      if tasks[i].id != id then tasks[i] else tasks[i].(content := content));
    SameIdsSameIdSet(r, tasks, (t: Task) => t.id);
    r
  }

  /** Editing twice is editing once, to the later content. */
  lemma EditTaskLastWins(tasks: seq<Task>, id: Id, first: string, second: string)
    ensures EditTask(EditTask(tasks, id, first), id, second) == EditTask(tasks, id, second)
  {
  }

  /** The first index holding a task with id `id`, or -1 (`findIndex`). */
  function TaskIndex(tasks: seq<Task>, id: Id): (i: int)
    ensures -1 <= i < |tasks|
    ensures 0 <= i ==> tasks[i].id == id && forall k :: 0 <= k < i ==> tasks[k].id != id
    ensures i == -1 <==> id !in TaskIds(tasks)
  {
    FindIndex(tasks, (t: Task) => t.id == id)
  }

  /** The task-over-task case of `onDragOver`: the dragged task takes the
      column of the task it is over and moves to that task's index; the other
      tasks keep their relative order and are otherwise unchanged. */
  function TaskOverTask(tasks: seq<Task>, activeId: Id, overId: Id): (r: seq<Task>)
    requires activeId in TaskIds(tasks) && overId in TaskIds(tasks)
    ensures |r| == |tasks|
    ensures var from, to := TaskIndex(tasks, activeId), TaskIndex(tasks, overId);
      r[to] == tasks[from].(columnId := tasks[to].columnId) &&
      RemoveAt(r, to) == RemoveAt(tasks, from)
  {
    var from, to := TaskIndex(tasks, activeId), TaskIndex(tasks, overId);
    var reassigned := tasks[from := tasks[from].(columnId := tasks[to].columnId)];
    assert RemoveAt(reassigned, from) == RemoveAt(tasks, from);
    ArrayMove(reassigned, from, to)
  }

  /** The dragged task lands next to the task it was dragged over: that task
      ends just before it when dragged downwards and just after it when
      dragged upwards. */
  lemma TaskOverTaskAdjacent(tasks: seq<Task>, activeId: Id, overId: Id)
    requires activeId in TaskIds(tasks) && overId in TaskIds(tasks) && activeId != overId
    ensures var from, to := TaskIndex(tasks, activeId), TaskIndex(tasks, overId);
      var r := TaskOverTask(tasks, activeId, overId);
      (from < to ==> r[to - 1] == tasks[to]) &&
      (to < from ==> to + 1 < |r| && r[to + 1] == tasks[to])
  {
    var from, to := TaskIndex(tasks, activeId), TaskIndex(tasks, overId);
    var r := TaskOverTask(tasks, activeId, overId);
    if from < to {
      assert RemoveAt(r, to)[to - 1] == r[to - 1];
      assert RemoveAt(tasks, from)[to - 1] == tasks[to];
    } else if to < from {
      assert RemoveAt(r, to)[to] == r[to + 1];
      assert RemoveAt(tasks, from)[to] == tasks[to];
    }
  }

  lemma TaskIdListRemoveAt(tasks: seq<Task>, i: nat)
    requires i < |tasks|
    ensures TaskIdList(RemoveAt(tasks, i)) == RemoveAt(TaskIdList(tasks), i)
  {
  }

  /** Listing the ids commutes with moving an element. */
  lemma TaskIdListArrayMove(tasks: seq<Task>, from: nat, to: nat)
    requires from < |tasks| && to < |tasks|
    ensures TaskIdList(ArrayMove(tasks, from, to)) == ArrayMove(TaskIdList(tasks), from, to)
  {
    var moved := ArrayMove(tasks, from, to);
    TaskIdListRemoveAt(moved, to);
    TaskIdListRemoveAt(tasks, from);
    ArrayMoveUnique(TaskIdList(tasks), from, to, TaskIdList(moved));
  }

  /** Task-over-task keeps the multiset of task ids. */
  lemma TaskOverTaskKeepsTaskIds(tasks: seq<Task>, activeId: Id, overId: Id)
    requires activeId in TaskIds(tasks) && overId in TaskIds(tasks)
    ensures multiset(TaskIdList(TaskOverTask(tasks, activeId, overId))) == multiset(TaskIdList(tasks))
  {
    var from, to := TaskIndex(tasks, activeId), TaskIndex(tasks, overId);
    var reassigned := tasks[from := tasks[from].(columnId := tasks[to].columnId)];
    assert TaskIdList(reassigned) == TaskIdList(tasks);
    TaskIdListArrayMove(reassigned, from, to);
  }

  /** The task-over-column case of `onDragOver`: only the dragged task's column
      changes, to `columnId`; the order stays, since the move it makes is from
      the task's index to itself. */
  function TaskOverColumn(tasks: seq<Task>, activeId: Id, columnId: Id): (r: seq<Task>)
    requires activeId in TaskIds(tasks)
    ensures |r| == |tasks|
    ensures var i := TaskIndex(tasks, activeId);
      r[i] == tasks[i].(columnId := columnId) &&
      forall k :: 0 <= k < |r| && k != i ==> r[k] == tasks[k]
  {
    var i := TaskIndex(tasks, activeId);
    var reassigned := tasks[i := tasks[i].(columnId := columnId)];
    ArrayMoveSelf(reassigned, i);
    ArrayMove(reassigned, i, i)
  }

  // -------------------------------------------------- referential invariant

  lemma AppendColumnKeepsRefs(columns: seq<Column>, tasks: seq<Task>, id: Id)
    requires TasksReferToColumns(columns, tasks)
    ensures TasksReferToColumns(AppendColumn(columns, id), tasks)
  {
  }

  /** The cascade is what keeps the invariant when a column goes. */
  lemma RemoveColumnKeepsRefs(columns: seq<Column>, tasks: seq<Task>, id: Id)
    requires TasksReferToColumns(columns, tasks)
    ensures TasksReferToColumns(RemoveColumn(columns, id), RemoveColumnTasks(tasks, id))
  {
    RemoveColumnIds(columns, id);
    var rest := RemoveColumnTasks(tasks, id);
    forall t | t in rest ensures t.columnId in ColumnIds(columns) - {id} {
      FilterMember(tasks, (t: Task) => t.columnId != id, t);
    }
  }

  /** Without the cascade a task of the deleted column would name a column
      that no longer exists. */
  lemma RemoveColumnAloneBreaksRefs(columns: seq<Column>, tasks: seq<Task>, id: Id, t: Task)
    requires t in tasks && t.columnId == id
    ensures !TasksReferToColumns(RemoveColumn(columns, id), tasks)
  {
    RemoveColumnIds(columns, id);
  }

  lemma RenameColumnKeepsRefs(columns: seq<Column>, tasks: seq<Task>, id: Id, title: string)
    requires TasksReferToColumns(columns, tasks)
    ensures TasksReferToColumns(RenameColumn(columns, id, title), tasks)
  {
  }

  lemma ReorderColumnsKeepsRefs(columns: seq<Column>, tasks: seq<Task>, activeId: Id, overId: Id)
    requires activeId in ColumnIds(columns) && overId in ColumnIds(columns)
    requires TasksReferToColumns(columns, tasks)
    ensures TasksReferToColumns(ReorderColumns(columns, activeId, overId), tasks)
  {
  }

  /** `createTask` keeps the invariant when it is given an existing column, as
      its one caller, the column's "Add Task" button, does. */
  lemma AppendTaskKeepsRefs(columns: seq<Column>, tasks: seq<Task>, columnId: Id, id: Id)
    requires TasksReferToColumns(columns, tasks) && columnId in ColumnIds(columns)
    ensures TasksReferToColumns(columns, AppendTask(tasks, columnId, id))
  {
    var r := AppendTask(tasks, columnId, id);
    assert forall t :: t in r ==> t in tasks || t == r[|tasks|];
  }

  lemma RemoveTaskKeepsRefs(columns: seq<Column>, tasks: seq<Task>, id: Id)
    requires TasksReferToColumns(columns, tasks)
    ensures TasksReferToColumns(columns, RemoveTask(tasks, id))
  {
    forall t | t in RemoveTask(tasks, id) ensures t in tasks {
      FilterMember(tasks, (t: Task) => t.id != id, t);
    }
  }

  lemma EditTaskKeepsRefs(columns: seq<Column>, tasks: seq<Task>, id: Id, content: string)
    requires TasksReferToColumns(columns, tasks)
    ensures TasksReferToColumns(columns, EditTask(tasks, id, content))
  {
    var r := EditTask(tasks, id, content);
    forall t | t in r ensures t.columnId in ColumnIds(columns) {
      var i :| 0 <= i < |r| && r[i] == t;
      assert tasks[i] in tasks;
    }
  }

  /** Task-over-task copies a column id some task already had. */
  lemma TaskOverTaskKeepsRefs(columns: seq<Column>, tasks: seq<Task>, activeId: Id, overId: Id)
    requires activeId in TaskIds(tasks) && overId in TaskIds(tasks)
    requires TasksReferToColumns(columns, tasks)
    ensures TasksReferToColumns(columns, TaskOverTask(tasks, activeId, overId))
  {
    var from, to := TaskIndex(tasks, activeId), TaskIndex(tasks, overId);
    var r := TaskOverTask(tasks, activeId, overId);
    forall t | t in r ensures t.columnId in ColumnIds(columns) {
      var k :| 0 <= k < |r| && r[k] == t;
      assert tasks[to] in tasks;
      if k < to {
        assert RemoveAt(r, to)[k] == r[k];
      } else if k > to {
        assert RemoveAt(r, to)[k - 1] == r[k];
      }
    }
  }

  /** Task-over-column keeps the invariant when the column it names exists. */
  lemma TaskOverColumnKeepsRefs(columns: seq<Column>, tasks: seq<Task>, activeId: Id, columnId: Id)
    requires activeId in TaskIds(tasks) && columnId in ColumnIds(columns)
    requires TasksReferToColumns(columns, tasks)
    ensures TasksReferToColumns(columns, TaskOverColumn(tasks, activeId, columnId))
  {
    var r := TaskOverColumn(tasks, activeId, columnId);
    forall t | t in r ensures t.columnId in ColumnIds(columns) {
      var k :| 0 <= k < |r| && r[k] == t;
      assert tasks[k] in tasks;
    }
  }

  // ------------------------------------------------------------ round trips

  /** Deleting a column just created, before it has tasks, restores the
      column sequence. */
  lemma RemoveColumnUndoesAppend(columns: seq<Column>, id: Id)
    requires id !in ColumnIds(columns)
    ensures RemoveColumn(AppendColumn(columns, id), id) == columns
  {
    var keep := (c: Column) => c.id != id;
    FilterSnoc(columns, Column(id, ColumnTitle(|columns| + 1)), keep);
    FilterKeepsAll(columns, keep);
  }

  /** On a valid board no task names a column id that is not in use, so the
      cascade of deleting a column just created under a fresh id keeps every
      task: together with `RemoveColumnUndoesAppend`, the board comes back. */
  lemma RemoveColumnTasksOfFreshId(columns: seq<Column>, tasks: seq<Task>, id: Id)
    requires TasksReferToColumns(columns, tasks) && id !in ColumnIds(columns)
    ensures RemoveColumnTasks(tasks, id) == tasks
  {
    FilterKeepsAll(tasks, (t: Task) => t.columnId != id);
  }

  /** Deleting a task just created restores the task sequence. */
  lemma RemoveTaskUndoesAppend(tasks: seq<Task>, columnId: Id, id: Id)
    requires id !in TaskIds(tasks)
    ensures RemoveTask(AppendTask(tasks, columnId, id), id) == tasks
  {
    var keep := (t: Task) => t.id != id;
    FilterSnoc(tasks, Task(id, TaskContent(|tasks| + 1), columnId), keep);
    FilterKeepsAll(tasks, keep);
  }

  // -------------------------------------------------------------- scenarios

  /** Two columns, one task in the first; deleting the first column leaves
      the second column and no task. */
  lemma DeleteColumnScenario(taskId: Id)
    ensures var columns := AppendColumn(AppendColumn([], 1), 2);
      var tasks := AppendTask([], 1, taskId);
      RemoveColumn(columns, 1) == [Column(2, ColumnTitle(2))] &&
      RemoveColumnTasks(tasks, 1) == []
  {
    var first, second := Column(1, ColumnTitle(1)), Column(2, ColumnTitle(2));
    var columns := AppendColumn(AppendColumn([], 1), 2);
    assert columns == [first, second];
    assert columns[1..] == [second] && [second][1..] == [];
    var tasks := AppendTask([], 1, taskId);
    assert tasks[1..] == [];
  }

  lemma FirstAndLastIndex(a: Column, b: Column, c: Column)
    requires a.id != b.id && b.id != c.id && a.id != c.id
    ensures a.id in ColumnIds([a, b, c]) && c.id in ColumnIds([a, b, c])
    ensures ColumnIndex([a, b, c], a.id) == 0 && ColumnIndex([a, b, c], c.id) == 2
  {
    var columns := [a, b, c];
    assert columns[0] == a && columns[1] == b && columns[2] == c;
    assert a in columns && c in columns;
  }

  /** Three columns with distinct ids: dragging the first onto the third gives
      the second, the third, the first. */
  lemma ReorderColumnsScenario(a: Column, b: Column, c: Column)
    requires a.id != b.id && b.id != c.id && a.id != c.id
    ensures a.id in ColumnIds([a, b, c]) && c.id in ColumnIds([a, b, c])
    ensures ReorderColumns([a, b, c], a.id, c.id) == [b, c, a]
  {
    FirstAndLastIndex(a, b, c);
    assert RemoveAt([a, b, c], 0) == [b, c] == RemoveAt([b, c, a], 2);
    ArrayMoveUnique([a, b, c], 0, 2, [b, c, a]);
  }
}
