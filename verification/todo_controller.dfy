/** `ToDoController`: a signed-in user's private task list. Only the user
    who entered a task may change or delete it. Nothing is written to the
    audit log here. */
module ToDoController {
  import opened Base
  import opened Tables
  import opened Schema
  import opened Ordering
  import opened Claims

  /** The request body of add and edit: the task text and its date. */
  datatype ToDoSaveEditDto = ToDoSaveEditDto(task: string, taskDateTime: int)

  /** `DateTime.MinValue` and `DateTime.MaxValue` in ticks. */
  const MinDateTime := 0
  const MaxDateTime := 3155378975999999999

  /** The three sort keys of the listing: completion (open tasks first),
      then the date of an open task ascending (`MaxValue` for a completed
      one), then the date of a completed task descending (`MinValue` for an
      open one). */
  function CompletedKey(t: Row<ToDo>): int {
    if t.data.isCompleted then 1 else 0
  }

  function OpenDateKey(t: Row<ToDo>): int {
    if !t.data.isCompleted then t.data.taskDateTime else MaxDateTime
  }

  function DoneDateKey(t: Row<ToDo>): int {
    if t.data.isCompleted then t.data.taskDateTime else MinDateTime
  }

  /** `OrderBy(completed).ThenBy(openDate).ThenByDescending(doneDate)`:
      `a` may precede `b`. */
  predicate ListedBefore(a: Row<ToDo>, b: Row<ToDo>) {
    || CompletedKey(a) < CompletedKey(b)
    || (CompletedKey(a) == CompletedKey(b) && OpenDateKey(a) < OpenDateKey(b))
    || (CompletedKey(a) == CompletedKey(b) && OpenDateKey(a) == OpenDateKey(b) && DoneDateKey(a) >= DoneDateKey(b))
  }

  lemma ListedBeforeIsTotalPreorder()
    ensures TotalPreorder(ListedBefore)
  {
  }

  function OwnedBy(userId: int): (p: Row<ToDo> -> bool)
    ensures forall t :: p(t) <==> t.data.entryByUserId == userId
  {
    (t: Row<ToDo>) => t.data.entryByUserId == userId
  }

  /** `ToDoList`: the caller's tasks in listing order, each exactly as
      often as in the table. */
  function ToDoList(db: Db, caller: Principal): (r: Response<seq<Row<ToDo>>>)
    ensures r.Ok? && |r.body| <= |db.todos.rows|
    ensures forall t :: multiset(r.body)[t] == if t.data.entryByUserId == CallerId(caller) then multiset(db.todos.rows)[t] else 0
  {
    Ok(Sort(Where(db.todos.rows, OwnedBy(CallerId(caller))), ListedBefore))
  }

  /** What `ListedBefore` says about two tasks of the same completion. */
  lemma ListedBeforeMeans(a: Row<ToDo>, b: Row<ToDo>)
    requires ListedBefore(a, b)
    ensures !b.data.isCompleted ==> !a.data.isCompleted
    ensures !a.data.isCompleted && !b.data.isCompleted ==> a.data.taskDateTime <= b.data.taskDateTime
    ensures a.data.isCompleted && b.data.isCompleted ==> a.data.taskDateTime >= b.data.taskDateTime
  {
  }

  /** Open tasks come before completed ones, open ones oldest first and
      completed ones newest first. */
  lemma ToDoListOrdered(db: Db, caller: Principal)
    ensures var r := ToDoList(db, caller).body;
      && (forall i, j :: 0 <= i < j < |r| && !r[j].data.isCompleted ==> !r[i].data.isCompleted)
      && (forall i, j :: 0 <= i < j < |r| && !r[i].data.isCompleted && !r[j].data.isCompleted ==>
            r[i].data.taskDateTime <= r[j].data.taskDateTime)
      && (forall i, j :: 0 <= i < j < |r| && r[i].data.isCompleted && r[j].data.isCompleted ==>
            r[i].data.taskDateTime >= r[j].data.taskDateTime)
  {
    var r := ToDoList(db, caller).body;
    ListedBeforeIsTotalPreorder();
    SortSorted(Where(db.todos.rows, OwnedBy(CallerId(caller))), ListedBefore);
    forall i, j | 0 <= i < j < |r|
      ensures !r[j].data.isCompleted ==> !r[i].data.isCompleted
      ensures !r[i].data.isCompleted && !r[j].data.isCompleted ==> r[i].data.taskDateTime <= r[j].data.taskDateTime
      ensures r[i].data.isCompleted && r[j].data.isCompleted ==> r[i].data.taskDateTime >= r[j].data.taskDateTime
    {
      ListedBeforeMeans(r[i], r[j]);
    }
  }

  /** `AddToDoTask`: an open task of the caller, assigned for its own
      date. */
  function NewToDo(caller: Principal, dto: ToDoSaveEditDto): ToDo {
    ToDo(dto.task, dto.taskDateTime, dto.taskDateTime, false, CallerId(caller))
  }

  function AddToDo(db: Db, caller: Principal, dto: ToDoSaveEditDto): (o: Outcome<Row<ToDo>>)
    ensures o.response.Ok? ==> o.response.body.id == db.todos.nextId && o.db == db.(todos := Insert(db.todos, o.response.body.data))
    ensures !o.response.Ok? ==> o.db == db
  {
    var t := NewToDo(caller, dto);
    match SaveChanges(db.(todos := Insert(db.todos, t)))
    case Failure(e) => Outcome(ServerError(e.message), db)
    case Success(db1) => Outcome(Ok(Row(db.todos.nextId, t)), db1)
  }

  /** Adding always succeeds: the new task is open, assigned for the date
      given, owned by the caller, and shows up in the caller's list. */
  lemma AddToDoStored(db: Db, caller: Principal, dto: ToDoSaveEditDto)
    requires Valid(db)
    ensures var o := AddToDo(db, caller, dto);
      && o.response.Ok?
      && Valid(o.db)
      && o.response.body.data.task == dto.task
      && o.response.body.data.taskDateTime == dto.taskDateTime
      && o.response.body.data.taskAssignedForDateTime == dto.taskDateTime
      && !o.response.body.data.isCompleted
      && o.response.body.data.entryByUserId == CallerId(caller)
      && Find(o.db.todos, db.todos.nextId) == Some(o.response.body.data)
      && o.response.body in ToDoList(o.db, caller).body
  {
    var t := NewToDo(caller, dto);
    ToDoChangesValid(db, t, 0);
    InsertFound(db.todos, t, 0);
    var o := AddToDo(db, caller, dto);
    assert Row(db.todos.nextId, t) in o.db.todos.rows;
    assert multiset(ToDoList(o.db, caller).body)[Row(db.todos.nextId, t)] > 0;
  }

  /** The guard every changing action shares: the task exists (else 404)
      and the caller entered it (else 403). */
  function Guard(db: Db, caller: Principal, taskId: int): (r: Response<ToDo>)
    ensures r.NotFound? <==> taskId !in Ids(db.todos)
    ensures r.Forbid? <==> taskId in Ids(db.todos) && Find(db.todos, taskId).value.entryByUserId != CallerId(caller)
    ensures r.Ok? ==> Find(db.todos, taskId) == Some(r.body) && r.body.entryByUserId == CallerId(caller)
  {
    match Find(db.todos, taskId)
    case None => NotFound("")
    case Some(t) => if t.entryByUserId != CallerId(caller) then Forbid else Ok(t)
  }

  /** Saves a changed task of the caller's. */
  function SaveToDo(db: Db, taskId: int, t: ToDo): (o: Outcome<Row<ToDo>>)
    ensures o.response.Ok? ==> o.response.body == Row(taskId, t) && o.db == db.(todos := Replace(db.todos, taskId, t))
    ensures !o.response.Ok? ==> o.db == db
  {
    match SaveChanges(db.(todos := Replace(db.todos, taskId, t)))
    case Failure(e) => Outcome(ServerError(e.message), db)
    case Success(db1) => Outcome(Ok(Row(taskId, t)), db1)
  }

  /** `UpdateToDoTaskDetails`: new text and date. */
  function EditToDo(db: Db, caller: Principal, taskId: int, dto: ToDoSaveEditDto): (o: Outcome<Row<ToDo>>)
    ensures o.response.NotFound? <==> taskId !in Ids(db.todos)
    ensures o.response.Forbid? <==> taskId in Ids(db.todos) && Find(db.todos, taskId).value.entryByUserId != CallerId(caller)
    ensures !o.response.Ok? ==> o.db == db
  {
    match Guard(db, caller, taskId)
    case Ok(t) => SaveToDo(db, taskId, t.(task := dto.task, taskDateTime := dto.taskDateTime))
    case NotFound(m) => Outcome(NotFound(m), db)
    case _ => Outcome(Forbid, db)
  }

  /** An edit by the owner changes the text and date of that task only:
      its assigned date, completion and owner stay, and so do the other
      tasks. */
  lemma EditToDoStored(db: Db, caller: Principal, taskId: int, dto: ToDoSaveEditDto)
    requires Valid(db)
    requires taskId in Ids(db.todos) && Find(db.todos, taskId).value.entryByUserId == CallerId(caller)
    ensures var o := EditToDo(db, caller, taskId, dto);
      var before := Find(db.todos, taskId).value;
      && o.response.Ok?
      && Valid(o.db)
      && Find(o.db.todos, taskId) == Some(ToDo(dto.task, dto.taskDateTime, before.taskAssignedForDateTime,
                                              before.isCompleted, before.entryByUserId))
      && (forall other :: other != taskId ==> Find(o.db.todos, other) == Find(db.todos, other))
      && o.db.(todos := db.todos) == db
  {
    var before := Find(db.todos, taskId).value;
    var t := before.(task := dto.task, taskDateTime := dto.taskDateTime);
    ToDoChangesValid(db, t, taskId);
    forall other ensures other != taskId ==> Find(Replace(db.todos, taskId, t), other) == Find(db.todos, other) {
      ReplaceFound(db.todos, taskId, t, other);
    }
  }

  /** `CompleteToDoTask`. */
  function CompleteToDo(db: Db, caller: Principal, taskId: int): (o: Outcome<Row<ToDo>>)
    ensures o.response.NotFound? <==> taskId !in Ids(db.todos)
    ensures o.response.Forbid? <==> taskId in Ids(db.todos) && Find(db.todos, taskId).value.entryByUserId != CallerId(caller)
    ensures !o.response.Ok? ==> o.db == db
  {
    match Guard(db, caller, taskId)
    case Ok(t) => SaveToDo(db, taskId, t.(isCompleted := true))
    case NotFound(m) => Outcome(NotFound(m), db)
    case _ => Outcome(Forbid, db)
  }

  /** Completing marks that task done and changes nothing else. */
  lemma CompleteToDoStored(db: Db, caller: Principal, taskId: int)
    requires Valid(db)
    requires taskId in Ids(db.todos) && Find(db.todos, taskId).value.entryByUserId == CallerId(caller)
    ensures var o := CompleteToDo(db, caller, taskId);
      var before := Find(db.todos, taskId).value;
      && o.response.Ok?
      && Valid(o.db)
      && Find(o.db.todos, taskId) == Some(ToDo(before.task, before.taskDateTime, before.taskAssignedForDateTime,
                                              true, before.entryByUserId))
      && (forall other :: other != taskId ==> Find(o.db.todos, other) == Find(db.todos, other))
      && o.db.(todos := db.todos) == db
  {
    var before := Find(db.todos, taskId).value;
    var t := before.(isCompleted := true);
    ToDoChangesValid(db, t, taskId);
    forall other ensures other != taskId ==> Find(Replace(db.todos, taskId, t), other) == Find(db.todos, other) {
      ReplaceFound(db.todos, taskId, t, other);
    }
  }

  /** Completing a task twice answers the same and leaves the same
      database as completing it once. */
  lemma CompleteToDoIdempotent(db: Db, caller: Principal, taskId: int)
    requires Valid(db)
    ensures var o := CompleteToDo(db, caller, taskId);
      var o2 := CompleteToDo(o.db, caller, taskId);
      o2 == o
  {
    var o := CompleteToDo(db, caller, taskId);
    if taskId in Ids(db.todos) && Find(db.todos, taskId).value.entryByUserId == CallerId(caller) {
      CompleteToDoStored(db, caller, taskId);
      var t := Find(o.db.todos, taskId).value;
      assert t.isCompleted;
      ReplaceSame(o.db.todos, taskId, t);
      assert o.db.(todos := Replace(o.db.todos, taskId, t.(isCompleted := true))) == o.db;
    }
  }

  /** `DeleteToDoTask`. */
  function DeleteToDo(db: Db, caller: Principal, taskId: int): (o: Outcome<()>)
    ensures o.response.NotFound? <==> taskId !in Ids(db.todos)
    ensures o.response.Forbid? <==> taskId in Ids(db.todos) && Find(db.todos, taskId).value.entryByUserId != CallerId(caller)
    ensures !o.response.Ok? ==> o.db == db
  {
    match Guard(db, caller, taskId)
    case Ok(_) =>
      (match SaveChanges(db.(todos := RemoveId(db.todos, taskId)))
       case Failure(e) => Outcome(ServerError(e.message), db)
       case Success(db1) => Outcome(Ok(()), db1))
    case NotFound(m) => Outcome(NotFound(m), db)
    case _ => Outcome(Forbid, db)
  }

  /** The owner's delete removes exactly that task; asking again finds
      nothing. */
  lemma DeleteToDoRemoves(db: Db, caller: Principal, taskId: int)
    requires Valid(db)
    requires taskId in Ids(db.todos) && Find(db.todos, taskId).value.entryByUserId == CallerId(caller)
    ensures var o := DeleteToDo(db, caller, taskId);
      && o.response.Ok?
      && Valid(o.db)
      && Ids(o.db.todos) == Ids(db.todos) - {taskId}
      && (forall other :: other != taskId ==> Find(o.db.todos, other) == Find(db.todos, other))
      && o.db.(todos := db.todos) == db
      && DeleteToDo(o.db, caller, taskId).response == NotFound("")
  {
    RemoveLeafValid(db, taskId);
    RemoveIdKeys(db.todos, taskId);
    forall other ensures other != taskId ==> Find(RemoveId(db.todos, taskId), other) == Find(db.todos, other) {
      RemoveIdFound(db.todos, taskId, other);
    }
  }
}
