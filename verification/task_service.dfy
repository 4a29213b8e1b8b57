/**
 * The task service: input validation and the field-merge rules applied
 * before the repository is asked to write. Read-only service calls pass
 * straight through to the repository and are modelled there.
 */
module TaskService {
  import opened Results
  import opened Uuids
  import opened TaskModel
  import opened TaskRepo
  import TaskRepoLemmas

  /** `validateTaskData`: a title is required first, then content. */
  function ValidateTaskData(title: string, content: string): (r: Option<Error>)
    ensures r.None? <==> title != [] && content != []
    ensures title == [] ==> r == Some(TaskTitleEmpty)
    ensures title != [] && content == [] ==> r == Some(TaskContentEmpty)
  {
    if |title| == 0 then Some(TaskTitleEmpty)
    else if |content| == 0 then Some(TaskContentEmpty)
    else None
  }

  /** The `model.Task` literal `CreateTask` builds, with its defaults for status and priority. */
  function NewTask(title: string, content: string, status: string, priority: string, due: Option<int>): Task
  {
    ZeroTask.(title := title, content := content,
              status := if status == "" then DefaultStatus else status,
              priority := if priority == "" then DefaultPriority else priority,
              due := due)
  }

  /**
   * `CreateTask`: validates, fills in the default status and priority and
   * stores a fresh task; the store's error, if any, is returned unchanged.
   * The task returned is the caller's copy, not the stored row.
   */
  function CreateTask(st: Store, title: string, content: string, status: string, priority: string,
                      due: Option<int>, newId: Uuid): (r: Result<Saved>)
    requires newId != Nil
    ensures ValidateTaskData(title, content).Some? ==> r == Err(ValidateTaskData(title, content).value)
    ensures ValidateTaskData(title, content).None? ==>
              var row := NewTask(title, content, status, priority, due).(id := newId);
              && (StoreRow(row).Err? ==> r == Err(StoreRow(row).error))
              && (StoreRow(row).Ok? && Stored(st.tasks, newId) ==> r == Err(DuplicateKey))
              && (StoreRow(row).Ok? && !Stored(st.tasks, newId) ==> r.Ok?)
    ensures r.Ok? ==> var t := r.value.task;
                      && t.id == newId && t.title == title && t.content == content && t.due == due
                      && (status != "" ==> t.status == status) && (status == "" ==> t.status == DefaultStatus)
                      && (priority != "" ==> t.priority == priority)
                      && (priority == "" ==> t.priority == DefaultPriority)
                      && t.tags == [] && !t.archived
    ensures r.Ok? ==> StoreRow(r.value.task).Ok?
                      && r.value.store == st.(tasks := st.tasks + [StoreRow(r.value.task).value])
  {
    match ValidateTaskData(title, content)
    case Some(e) => Err(e)
    case None => Create(st, NewTask(title, content, status, priority, due), newId)
  }

  /**
   * A created task is read back, by its text id, as its columns stored it:
   * exactly as `CreateTask` returned it when every value fits its column.
   */
  lemma CreateThenGet(st: Store, title: string, content: string, status: string, priority: string,
                      due: Option<int>, newId: Uuid)
    requires Valid(st) && newId != Nil
    requires CreateTask(st, title, content, status, priority, due, newId).Ok?
    ensures var s := CreateTask(st, title, content, status, priority, due, newId).value;
            && Valid(s.store)
            && GetByID(s.store, ToString(s.task.id)) == StoreRow(s.task)
            && (Fits(s.task) ==> GetByID(s.store, ToString(s.task.id)) == Ok(s.task))
  {
    var s := CreateTask(st, title, content, status, priority, due, newId).value;
    var t := NewTask(title, content, status, priority, due);
    assert Create(st, t, newId).value == s;
    TaskRepoLemmas.CreateKeepsValid(st, t, newId);
    GetByIDOfStored(s.store, |st.tasks|);
  }

  /** The task `UpdateTask` writes back: the read task with the new values merged in. */
  function Merge(before: Task, title: string, content: string, status: string, priority: string,
                 due: Option<int>): Task
  {
    before.(title := title, content := content,
            status := if status != "" then status else before.status,
            priority := if priority != "" then priority else before.priority,
            due := due)
  }

  /**
   * `UpdateTask`: the task is read first (so a bad id wins over bad input),
   * then title and content are required; an empty status or priority keeps
   * the stored value, and the due date is always replaced, also by none.
   * The write fails when a column refuses a new value.
   */
  function UpdateTask(st: Store, id: string, title: string, content: string, status: string,
                      priority: string, due: Option<int>): (r: Result<Saved>)
    ensures GetByID(st, id).Err? ==> r == Err(GetByID(st, id).error)
    ensures GetByID(st, id).Ok? && title == [] ==> r == Err(TaskTitleEmpty)
    ensures GetByID(st, id).Ok? && title != [] && content == [] ==> r == Err(TaskContentEmpty)
    ensures GetByID(st, id).Ok? && title != [] && content != [] ==>
              var t := Merge(GetByID(st, id).value, title, content, status, priority, due);
              && (StoreRow(t).Err? ==> r == Err(StoreRow(t).error))
              && (StoreRow(t).Ok? ==> r.Ok?)
    ensures r.Ok? ==> var before := GetByID(st, id).value;
                      var t := r.value.task;
                      && t.id == before.id && t.title == title && t.content == content && t.due == due
                      && (status != "" ==> t.status == status) && (status == "" ==> t.status == before.status)
                      && (priority != "" ==> t.priority == priority)
                      && (priority == "" ==> t.priority == before.priority)
                      && t.tags == before.tags && t.archived == before.archived
                      && t.createdAt == before.createdAt && t.updatedAt == before.updatedAt
    ensures r.Ok? ==> Update(st, r.value.task) == Ok(r.value.store)
    ensures r.Ok? ==> var s := r.value.store;
                      && s.tagTable == st.tagTable && s.nextTagId == st.nextTagId
                      && |s.tasks| == |st.tasks|
                      && forall i :: 0 <= i < |st.tasks| ==>
                           s.tasks[i] == if st.tasks[i].id == r.value.task.id
                                         then StoreRow(r.value.task).value.(tags := st.tasks[i].tags)
                                         else st.tasks[i]
  {
    var task :- GetByID(st, id);
    if title == "" then Err(TaskTitleEmpty)
    else if content == "" then Err(TaskContentEmpty)
    else
      var t := Merge(task, title, content, status, priority, due);
      assert Stored(st.tasks, t.id) by {
        var i :| 0 <= i < |st.tasks| && st.tasks[i] == task;
      }
      match Update(st, t)
      case Ok(st') => Ok(Saved(t, st'))
      case Err(e) => Err(e)
  }

  /**
   * What `Update` does to a row read from the store: a value a column
   * refuses fails the write; otherwise that row becomes `t` as its columns
   * store it, and every other row, the tag table and the tag counter stay.
   */
  lemma UpdateStoredRow(st: Store, i: int, t: Task)
    requires IdsUnique(st.tasks) && 0 <= i < |st.tasks|
    requires t.id == st.tasks[i].id && t.tags == st.tasks[i].tags
    ensures StoreRow(t).Err? ==> Update(st, t) == Err(StoreRow(t).error)
    ensures StoreRow(t).Ok? ==>
              && Update(st, t).Ok?
              && var s := Update(st, t).value;
              && s.tagTable == st.tagTable && s.nextTagId == st.nextTagId
              && |s.tasks| == |st.tasks| && s.tasks[i] == StoreRow(t).value
              && (forall j :: 0 <= j < |st.tasks| && j != i ==> s.tasks[j] == st.tasks[j])
              && IdsUnique(s.tasks)
  {
    if StoreRow(t).Ok? {
      FindUnique(st.tasks, i);
      var s := Update(st, t).value;
      assert forall j :: 0 <= j < |st.tasks| ==> s.tasks[j].id == st.tasks[j].id;
    }
  }

  /** Writing the same task twice leaves the store as the first write left it. */
  lemma UpdateIdempotent(st: Store, i: int, t: Task)
    requires IdsUnique(st.tasks) && 0 <= i < |st.tasks|
    requires t.id == st.tasks[i].id && t.tags == st.tasks[i].tags
    requires StoreRow(t).Ok?
    ensures Update(st, t).Ok? && Update(Update(st, t).value, t) == Update(st, t)
  {
    UpdateStoredRow(st, i, t);
    var s := Update(st, t).value;
    UpdateStoredRow(s, i, t);
    assert Update(s, t).value.tasks == s.tasks;
  }

  /**
   * After `UpdateTask` the task reads back as returned, and no other task,
   * tag or tag link changes.
   */
  lemma UpdateTaskThenGet(st: Store, id: string, title: string, content: string, status: string,
                          priority: string, due: Option<int>)
    requires Valid(st)
    requires UpdateTask(st, id, title, content, status, priority, due).Ok?
    ensures var s := UpdateTask(st, id, title, content, status, priority, due).value;
            && Valid(s.store)
            && GetByID(s.store, id) == StoreRow(s.task)
            && (Fits(s.task) ==> GetByID(s.store, id) == Ok(s.task))
            && s.store.tagTable == st.tagTable
            && |s.store.tasks| == |st.tasks|
            && forall j :: 0 <= j < |st.tasks| && st.tasks[j].id != s.task.id ==> s.store.tasks[j] == st.tasks[j]
  {
    var s := UpdateTask(st, id, title, content, status, priority, due).value;
    var before := GetByID(st, id).value;
    var i :| 0 <= i < |st.tasks| && st.tasks[i] == before;
    UpdateStoredRow(st, i, s.task);
    assert s.store == Update(st, s.task).value;
    TaskRepoLemmas.UpdateKeepsValid(st, s.task);
    TaskRepoLemmas.GetByIDAt(s.store, id, i);
  }

  /**
   * `ChangeStatus`: an empty status is refused before any lookup; otherwise
   * only the status of the task changes, and the write fails when the
   * status column refuses the value.
   */
  function ChangeStatus(st: Store, id: string, status: string): (r: Result<Saved>)
    ensures status == "" ==> r == Err(StatusEmpty)
    ensures status != "" && GetByID(st, id).Err? ==> r == Err(GetByID(st, id).error)
    ensures status != "" && GetByID(st, id).Ok? ==>
              var t := GetByID(st, id).value.(status := status);
              && (StoreRow(t).Err? ==> r == Err(StoreRow(t).error))
              && (StoreRow(t).Ok? ==> r.Ok?)
    ensures r.Ok? ==> r.value.task == GetByID(st, id).value.(status := status)
    ensures r.Ok? ==> Update(st, r.value.task) == Ok(r.value.store)
    ensures r.Ok? ==> var s := r.value.store;
                      && s.tagTable == st.tagTable && s.nextTagId == st.nextTagId
                      && |s.tasks| == |st.tasks|
                      && forall i :: 0 <= i < |st.tasks| ==>
                           s.tasks[i] == if st.tasks[i].id == r.value.task.id
                                         then StoreRow(r.value.task).value.(tags := st.tasks[i].tags)
                                         else st.tasks[i]
  {
    if status == "" then Err(StatusEmpty)
    else
      var task :- GetByID(st, id);
      var t := task.(status := status);
      assert Stored(st.tasks, t.id) by {
        var i :| 0 <= i < |st.tasks| && st.tasks[i] == task;
      }
      match Update(st, t)
      case Ok(st') => Ok(Saved(t, st'))
      case Err(e) => Err(e)
  }

  /** `ChangePriority`: as `ChangeStatus`, for the priority. */
  function ChangePriority(st: Store, id: string, priority: string): (r: Result<Saved>)
    ensures priority == "" ==> r == Err(PriorityEmpty)
    ensures priority != "" && GetByID(st, id).Err? ==> r == Err(GetByID(st, id).error)
    ensures priority != "" && GetByID(st, id).Ok? ==>
              var t := GetByID(st, id).value.(priority := priority);
              && (StoreRow(t).Err? ==> r == Err(StoreRow(t).error))
              && (StoreRow(t).Ok? ==> r.Ok?)
    ensures r.Ok? ==> r.value.task == GetByID(st, id).value.(priority := priority)
    ensures r.Ok? ==> Update(st, r.value.task) == Ok(r.value.store)
    ensures r.Ok? ==> var s := r.value.store;
                      && s.tagTable == st.tagTable && s.nextTagId == st.nextTagId
                      && |s.tasks| == |st.tasks|
                      && forall i :: 0 <= i < |st.tasks| ==>
                           s.tasks[i] == if st.tasks[i].id == r.value.task.id
                                         then StoreRow(r.value.task).value.(tags := st.tasks[i].tags)
                                         else st.tasks[i]
  {
    if priority == "" then Err(PriorityEmpty)
    else
      var task :- GetByID(st, id);
      var t := task.(priority := priority);
      assert Stored(st.tasks, t.id) by {
        var i :| 0 <= i < |st.tasks| && st.tasks[i] == task;
      }
      match Update(st, t)
      case Ok(st') => Ok(Saved(t, st'))
      case Err(e) => Err(e)
  }

  /** `ChangeStatus` on the row an id names, with a status the column accepts. */
  lemma ChangeStatusAt(st: Store, id: string, status: string, i: int)
    requires IdsUnique(st.tasks) && 0 <= i < |st.tasks| && Parse(id) == Some(st.tasks[i].id)
    requires status != "" && StoreRow(st.tasks[i].(status := status)).Ok?
    ensures Update(st, st.tasks[i].(status := status)).Ok?
    ensures ChangeStatus(st, id, status)
            == Ok(Saved(st.tasks[i].(status := status), Update(st, st.tasks[i].(status := status)).value))
  {
    TaskRepoLemmas.GetByIDAt(st, id, i);
    UpdateStoredRow(st, i, st.tasks[i].(status := status));
  }

  /**
   * After `ChangeStatus` the task reads back as its columns stored it, and
   * is listed under the status as stored: the new status itself when it
   * fits the column.
   */
  lemma ChangeStatusThenFind(st: Store, id: string, status: string)
    requires Valid(st)
    requires ChangeStatus(st, id, status).Ok?
    ensures var s := ChangeStatus(st, id, status).value;
            && StoreRow(s.task).Ok? && FitVarchar(status, StatusWidth).Ok?
            && GetByID(s.store, id) == StoreRow(s.task)
            && StoreRow(s.task).value.status == FitVarchar(status, StatusWidth).value
            && StoreRow(s.task).value in FindByStatus(s.store, FitVarchar(status, StatusWidth).value)
            && (|status| <= StatusWidth ==> s.task in FindByStatus(s.store, status))
  {
    var before := GetByID(st, id).value;
    var i :| 0 <= i < |st.tasks| && st.tasks[i] == before;
    var t := before.(status := status);
    ChangeStatusAt(st, id, status, i);
    UpdateStoredRow(st, i, t);
    var s1 := Update(st, t).value;
    TaskRepoLemmas.GetByIDAt(s1, id, i);
    assert s1.tasks[i] in s1.tasks;
  }

  /** Setting the status a second time to the same value changes nothing more. */
  lemma ChangeStatusIdempotent(st: Store, id: string, status: string)
    requires Valid(st)
    requires ChangeStatus(st, id, status).Ok?
    ensures var s := ChangeStatus(st, id, status).value;
            ChangeStatus(s.store, id, status) == Ok(s)
  {
    var before := GetByID(st, id).value;
    var i :| 0 <= i < |st.tasks| && st.tasks[i] == before;
    var t := before.(status := status);
    ChangeStatusAt(st, id, status, i);
    UpdateStoredRow(st, i, t);
    var s1 := Update(st, t).value;
    assert s1.tasks[i].(status := status) == t;
    ChangeStatusAt(s1, id, status, i);
    UpdateIdempotent(st, i, t);
  }

  /**
   * After `ChangePriority` the task reads back as its columns stored it,
   * and is listed under the priority as stored: the new priority itself
   * when it fits the column.
   */
  lemma ChangePriorityThenFind(st: Store, id: string, priority: string)
    requires Valid(st)
    requires ChangePriority(st, id, priority).Ok?
    ensures var s := ChangePriority(st, id, priority).value;
            && StoreRow(s.task).Ok? && FitVarchar(priority, PriorityWidth).Ok?
            && GetByID(s.store, id) == StoreRow(s.task)
            && StoreRow(s.task).value.priority == FitVarchar(priority, PriorityWidth).value
            && StoreRow(s.task).value in FindByPriority(s.store, FitVarchar(priority, PriorityWidth).value)
            && (|priority| <= PriorityWidth ==> s.task in FindByPriority(s.store, priority))
  {
    var before := GetByID(st, id).value;
    var i :| 0 <= i < |st.tasks| && st.tasks[i] == before;
    TaskRepoLemmas.GetByIDAt(st, id, i);
    var t := before.(priority := priority);
    UpdateStoredRow(st, i, t);
    var s1 := Update(st, t).value;
    assert ChangePriority(st, id, priority) == Ok(Saved(t, s1));
    TaskRepoLemmas.GetByIDAt(s1, id, i);
    assert s1.tasks[i] in s1.tasks;
  }
}
