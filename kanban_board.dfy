/** The board component's state and its event handlers. The four state cells
    become the fields of `Board`; each handler overwrites the cells it sets
    with the sequence the matching function of `BoardLogic` computes. */
module KanbanBoard {
  import opened BoardLogic

  datatype Option<T> = None | Some(value: T)

  /** What a draggable carries (`data.current`): its type tag, "Column" or
      "Task" for the board's own draggables, and the entity. */
  datatype DragData = DragData(kind: string, column: Option<Column>, task: Option<Task>)

  /** The `active` or `over` side of a drag event: the draggable's id and its
      data, which may be absent. */
  datatype Draggable = Draggable(id: Id, data: Option<DragData>)

  /** The `data.current?.type === kind` test. */
  predicate IsKind(d: Draggable, kind: string) {
    d.data.Some? && d.data.value.kind == kind
  }

  /** The guard `onDragOver` passes before it touches the tasks: there is an
      `over`, it is not the dragged item itself, and a task is dragged. */
  predicate TaskDraggedOverOther(active: Draggable, over: Option<Draggable>) {
    over.Some? && active.id != over.value.id && IsKind(active, "Task")
  }

  class Board {
    var columns: seq<Column>
    var tasks: seq<Task>
    var activeColumn: Option<Column>
    var activeTask: Option<Task>

    /** Every task names an existing column. */
    ghost predicate Valid()
      reads this
    {
      TasksReferToColumns(columns, tasks)
    }

    /** The board starts empty, with nothing dragged. */
    constructor ()
      ensures columns == [] && tasks == []
      ensures activeColumn == None && activeTask == None
      ensures Valid()
    {
      columns, tasks := [], [];
      activeColumn, activeTask := None, None;
    }

    /** `createNewColumn`, with the id `generateId` would draw passed in. */
    method CreateNewColumn(id: Id)
      modifies this`columns
      ensures columns == AppendColumn(old(columns), id)
      ensures old(Valid()) ==> Valid()
    {
      if Valid() {
        AppendColumnKeepsRefs(columns, tasks, id);
      }
      columns := AppendColumn(columns, id);
    }

    /** `deleteColumn`: the column goes, and with it its tasks. */
    method DeleteColumn(id: Id)
      modifies this`columns, this`tasks
      ensures columns == RemoveColumn(old(columns), id)
      ensures tasks == RemoveColumnTasks(old(tasks), id)
      ensures old(Valid()) ==> Valid()
    {
      if Valid() {
        RemoveColumnKeepsRefs(columns, tasks, id);
      }
      columns := RemoveColumn(columns, id);
      tasks := RemoveColumnTasks(tasks, id);
    }

    /** `updateColumn`. */
    method UpdateColumn(id: Id, title: string)
      modifies this`columns
      ensures columns == RenameColumn(old(columns), id, title)
      ensures old(Valid()) ==> Valid()
    {
      columns := RenameColumn(columns, id, title);
    }

    /** `createTask`, with the id `generateId` would draw passed in. The board
        stays valid when `columnId` names an existing column, as it does at the
        only call site. */
    method CreateTask(columnId: Id, id: Id)
      modifies this`tasks
      ensures tasks == AppendTask(old(tasks), columnId, id)
      ensures old(Valid()) && columnId in ColumnIds(columns) ==> Valid()
    {
      if Valid() && columnId in ColumnIds(columns) {
        AppendTaskKeepsRefs(columns, tasks, columnId, id);
      }
      tasks := AppendTask(tasks, columnId, id);
    }

    /** `deleteTask`. */
    method DeleteTask(id: Id)
      modifies this`tasks
      ensures tasks == RemoveTask(old(tasks), id)
      ensures old(Valid()) ==> Valid()
    {
      if Valid() {
        RemoveTaskKeepsRefs(columns, tasks, id);
      }
      tasks := RemoveTask(tasks, id);
    }

    /** `updateTask`. */
    method UpdateTask(id: Id, content: string)
      modifies this`tasks
      ensures tasks == EditTask(old(tasks), id, content)
      ensures old(Valid()) ==> Valid()
    {
      if Valid() {
        EditTaskKeepsRefs(columns, tasks, id, content);
      }
      tasks := EditTask(tasks, id, content);
    }

    /** `onDragStart`: a dragged column or task is recorded in its slot; a
        draggable of any other kind changes nothing. */
    method OnDragStart(active: Draggable)
      modifies this`activeColumn, this`activeTask
      ensures IsKind(active, "Column") ==>
        activeColumn == active.data.value.column && activeTask == old(activeTask)
      ensures IsKind(active, "Task") ==>
        activeTask == active.data.value.task && activeColumn == old(activeColumn)
      ensures !IsKind(active, "Column") && !IsKind(active, "Task") ==>
        activeColumn == old(activeColumn) && activeTask == old(activeTask)
      ensures old(Valid()) ==> Valid()
    {
      if IsKind(active, "Column") {
        activeColumn := active.data.value.column;
        return;
      }
      if IsKind(active, "Task") {
        activeTask := active.data.value.task;
        return;
      }
    }

    /** `onDragEnd`: both slots are cleared whatever happens next; when there
        is an `over` other than the dragged item, the dragged column moves to
        the index of the column it is over. */
    method OnDragEnd(active: Draggable, over: Option<Draggable>)
      requires over.Some? && active.id != over.value.id ==>
        active.id in ColumnIds(columns) && over.value.id in ColumnIds(columns)
      modifies this`activeColumn, this`activeTask, this`columns
      ensures activeColumn == None && activeTask == None
      ensures over.None? || active.id == over.value.id ==> columns == old(columns)
      ensures over.Some? && active.id != over.value.id ==>
        columns == ReorderColumns(old(columns), active.id, over.value.id)
      ensures old(Valid()) ==> Valid()
    {
      activeColumn := None;
      activeTask := None;
      if over.None? {
        return;
      }
      var activeColumnId, overColumnId := active.id, over.value.id;
      if activeColumnId == overColumnId {
        return;
      }
      if Valid() {
        ReorderColumnsKeepsRefs(columns, tasks, activeColumnId, overColumnId);
      }
      columns := ReorderColumns(columns, activeColumnId, overColumnId);
    }

    /** `onDragOver`: a task dragged over another task takes that task's column
        and index; a task dragged over a column takes that column; nothing else
        changes the tasks. The board stays valid when a column dragged over is
        an existing one, as the board's own column draggables are. */
    method OnDragOver(active: Draggable, over: Option<Draggable>)
      requires (TaskDraggedOverOther(active, over) &&
                (IsKind(over.value, "Task") || IsKind(over.value, "Column"))) ==> active.id in TaskIds(tasks)
      requires TaskDraggedOverOther(active, over) && IsKind(over.value, "Task") ==>
        over.value.id in TaskIds(tasks)
      modifies this`tasks
      ensures !TaskDraggedOverOther(active, over) ==> tasks == old(tasks)
      ensures TaskDraggedOverOther(active, over) && IsKind(over.value, "Task") ==>
        tasks == TaskOverTask(old(tasks), active.id, over.value.id)
      ensures TaskDraggedOverOther(active, over) && IsKind(over.value, "Column") ==>
        tasks == TaskOverColumn(old(tasks), active.id, over.value.id)
      ensures (TaskDraggedOverOther(active, over) &&
               !IsKind(over.value, "Task") && !IsKind(over.value, "Column")) ==> tasks == old(tasks)
      ensures (old(Valid()) &&
               (over.Some? && IsKind(over.value, "Column") ==> over.value.id in ColumnIds(columns))) ==> Valid()
    {
      if over.None? {
        return;
      }
      var activeId, overId := active.id, over.value.id;
      if activeId == overId {
        return;
      }
      var isActiveTask := IsKind(active, "Task");
      var isOverTask := IsKind(over.value, "Task");
      if !isActiveTask {
        return;
      }

      // A task dragged over another task.
      if isActiveTask && isOverTask {
        if Valid() {
          TaskOverTaskKeepsRefs(columns, tasks, activeId, overId);
        }
        tasks := TaskOverTask(tasks, activeId, overId);
      }

      var isOverColumn := IsKind(over.value, "Column");

      // A task dragged over a column.
      if isActiveTask && isOverColumn {
        if Valid() && overId in ColumnIds(columns) {
          TaskOverColumnKeepsRefs(columns, tasks, activeId, overId);
        }
        tasks := TaskOverColumn(tasks, activeId, overId);
      }
    }
  }
}
