/** The rules of tasks/TaskService.java as functions of the table: what each
    operation returns or throws, and the table it leaves behind. TaskServices
    runs the same steps on the store object and is proved equal to these. */
module TaskLifecycle {
  import opened Domain
  import opened TaskEntities
  import opened TaskMapper
  import opened TaskRepository

  type Outcome<T> = Step<T, Table>

  /** A list of entities mapped with fromEntityToDomain; a list's order is
      not modelled, so tasks are keyed by id. */
  function ToDomainAll(found: map<int, Row>): (r: map<int, Task>)
    ensures r.Keys == found.Keys
  {
    map k | k in found :: FromEntityToDomain(found[k])
  }

  /** getTaskById (TaskService.java:29-34). */
  function GetTaskById(t: Table, id: int): Result<Task> {
    if id in t.rows then Ok(FromEntityToDomain(t.rows[id])) else Err(EntityNotFound)
  }

  /** getAllTasks (TaskService.java:37-40) without the page. */
  function GetAllTasks(t: Table): map<int, Task> {
    ToDomainAll(t.rows)
  }

  /** createNewTask (TaskService.java:43-56). */
  function CreateNewTask(t: Table, taskToCreate: Task, now: Time): Outcome<Task> {
    if taskToCreate.deadLineDate.None? then Step(Err(NullPointer), t)
    else if taskToCreate.deadLineDate.value < now then Step(Err(IllegalArgument), t)
    else
      var saved := SaveRow(t, FromDomainToEntity(taskToCreate).(status := Some(CREATED)));
      Step(Ok(FromEntityToDomain(saved.row)), saved.table)
  }

  /** deleteTask (TaskService.java:59-65). */
  function DeleteTask(t: Table, id: int): Outcome<()> {
    if id !in t.rows then Step(Err(EntityNotFound), t)
    else Step(Ok(()), DeleteRow(t, t.rows[id].id))
  }

  /** editTask (TaskService.java:68-92): the guards in source order. */
  function EditTask(t: Table, id: int, dataToUpdate: Task, now: Time): Outcome<Task> {
    if id !in t.rows then Step(Err(EntityNotFound), t)
    else if t.rows[id].status == Some(DONE) then Step(Err(IllegalState), t)
    else if dataToUpdate.status == Some(CREATED) then Step(Err(IllegalArgument), t)
    else if dataToUpdate.deadLineDate.None? then Step(Err(NullPointer), t)
    else if dataToUpdate.deadLineDate.value < now then Step(Err(IllegalArgument), t)
    else
      var saved := SaveRow(t, FromDomainToEntity(dataToUpdate).(id := t.rows[id].id, status := Some(UPDATED)));
      Step(Ok(FromEntityToDomain(saved.row)), saved.table)
  }

  /** The IN_PROGRESS count of the task's assignee, as the start guard reads it. */
  function ActiveOfAssignee(t: Table, id: int): nat
    requires id in t.rows
  {
    CountOfAssigneeInStatus(t.rows, t.rows[id].assignedUserId, Some(IN_PROGRESS))
  }

  /** switchTaskToInProgress (TaskService.java:95-106): no look at the current status. */
  function SwitchTaskToInProgress(t: Table, id: int): Outcome<()> {
    if id !in t.rows then Step(Err(EntityNotFound), t)
    else if ActiveOfAssignee(t, id) > 4 then Step(Err(IllegalState), t)
    else Step(Ok(()), Table(SetStatusRows(t.rows, Some(id), Some(IN_PROGRESS)), t.nextId))
  }

  /** getAllTasksOfOneAssignedUser (TaskService.java:109-116). */
  function GetAllTasksOfOneAssignedUser(t: Table, assignedUserId: Option<int>): Result<map<int, Task>> {
    var tasks := ToDomainAll(EntitiesOfAssignee(t.rows, assignedUserId));
    if |tasks| == 0 then Err(NoSuchElement) else Ok(tasks)
  }

  /** The guard of getTaskDone (TaskService.java:123-126). */
  predicate MissingRequiredField(e: Row) {
    || e.creatorId == None || e.creatorId == Some(0)
    || e.assignedUserId == None || e.assignedUserId == Some(0)
    || e.deadLineDate == None
  }

  /** getTaskDone (TaskService.java:119-150): no look at the current status. */
  function GetTaskDone(t: Table, id: int, now: Time): Outcome<Task> {
    if id !in t.rows then Step(Err(EntityNotFound), t)
    else if MissingRequiredField(t.rows[id]) then Step(Err(IllegalArgument), t)
    else
      var saved := SaveRow(t, t.rows[id].(status := Some(DONE), doneDataTime := Some(now)));
      Step(Ok(FromEntityToDomain(saved.row)), saved.table)
  }

  /** A Spring Data PageRequest: the page size and the zero-based page number. */
  datatype PageRequest = PageRequest(pageSize: int, pageNumber: int)

  /** Pageable.ofSize: a page size below one is refused. */
  function OfSize(pageSize: int): Result<PageRequest> {
    if pageSize < 1 then Err(IllegalArgument) else Ok(PageRequest(pageSize, 0))
  }

  /** Pageable.withPage: a negative page number is refused. */
  function WithPage(page: PageRequest, pageNumber: int): Result<PageRequest> {
    if pageNumber < 0 then Err(IllegalArgument) else Ok(page.(pageNumber := pageNumber))
  }

  /** The Pageable that searchAllByFilter builds (TaskService.java:154-159),
      with page size 10 and page number 0 for fields left out. */
  function PageableOf(filter: TaskSearchFilter): Result<PageRequest> {
    var pageSize := if filter.pageSize.Some? then filter.pageSize.value else 10;
    var pageNumber := if filter.pageNum.Some? then filter.pageNum.value else 0;
    match OfSize(pageSize)
    case Err(e) => Err(e)
    case Ok(page) => WithPage(page, pageNumber)
  }

  /** searchAllByFilter (TaskService.java:152-174) without the page slicing:
      an invalid page throws before the query runs. */
  function SearchAllByFilter(t: Table, filter: TaskSearchFilter): Result<map<int, Task>> {
    if PageableOf(filter).Err? then Err(IllegalArgument)
    else
      var found := RowsMatchingFilter(t.rows, filter.creatorId, filter.assignedUserId,
                                      filter.status, filter.priority);
      if |found| == 0 then Err(EntityNotFound) else Ok(ToDomainAll(found))
  }

  // ---------------------------------------------------------------------------
  // The operations that change the table, and runs of them

  datatype Op =
    | Create(taskToCreate: Task, now: Time)
    | Edit(id: int, dataToUpdate: Task, now: Time)
    | Delete(id: int)
    | Start(id: int)
    | Complete(id: int, now: Time)

  function Apply(t: Table, op: Op): Table {
    match op
    case Create(x, now) => CreateNewTask(t, x, now).after
    case Edit(id, x, now) => EditTask(t, id, x, now).after
    case Delete(id) => DeleteTask(t, id).after
    case Start(id) => SwitchTaskToInProgress(t, id).after
    case Complete(id, now) => GetTaskDone(t, id, now).after
  }

  function Run(t: Table, ops: seq<Op>): Table
    decreases |ops|
  {
    if ops == [] then t else Run(Apply(t, ops[0]), ops[1..])
  }

  /** A freshly created, empty store. */
  const EmptyTable: Table := Table(map[], 1)

  // ---------------------------------------------------------------------------
  // Lookups and not-found

  /** Every operation on an absent id throws EntityNotFound and leaves the table alone. */
  lemma AbsentIdIsNotFound(t: Table, id: int, x: Task, now: Time)
    requires id !in t.rows
    ensures GetTaskById(t, id) == Err(EntityNotFound)
    ensures DeleteTask(t, id) == Step(Err(EntityNotFound), t)
    ensures EditTask(t, id, x, now) == Step(Err(EntityNotFound), t)
    ensures SwitchTaskToInProgress(t, id) == Step(Err(EntityNotFound), t)
    ensures GetTaskDone(t, id, now) == Step(Err(EntityNotFound), t)
  {
  }

  /** A successful delete removes exactly that id; a lookup then fails. */
  lemma DeleteRemovesExactlyThatId(t: Table, id: int)
    requires WellFormed(t) && id in t.rows
    ensures DeleteTask(t, id).result.Ok?
    ensures DeleteTask(t, id).after == Table(t.rows - {id}, t.nextId)
    ensures GetTaskById(DeleteTask(t, id).after, id) == Err(EntityNotFound)
  {
  }

  // ---------------------------------------------------------------------------
  // createNewTask

  /** A deadline strictly before now is rejected and nothing is saved. */
  lemma CreateRejectsPastDeadline(t: Table, x: Task, now: Time)
    requires x.deadLineDate.Some? && x.deadLineDate.value < now
    ensures CreateNewTask(t, x, now) == Step(Err(IllegalArgument), t)
  {
  }

  /** Any other deadline, now itself included, is accepted: the task is stored
      with status CREATED whatever the payload's status, under a new id when
      the payload has none, and can be read back. */
  lemma CreateStoresCreated(t: Table, x: Task, now: Time)
    requires WellFormed(t)
    requires x.deadLineDate.Some? && x.deadLineDate.value >= now
    ensures var s := CreateNewTask(t, x, now);
      && s.result.Ok?
      && s.result.value.status == Some(CREATED)
      && s.result.value.id.Some?
      && s.after.rows == t.rows[s.result.value.id.value := FromDomainToEntity(s.result.value)]
      && GetTaskById(s.after, s.result.value.id.value) == s.result
      && WellFormed(s.after)
    ensures x.id.None? ==>
      var s := CreateNewTask(t, x, now);
      && s.result.value == x.(id := Some(t.nextId), status := Some(CREATED))
      && t.nextId !in t.rows
  {
  }

  /** For a payload that passed validation, the stored task has no creation
      time: createNewTask never sets createDateTime. */
  lemma CreateLeavesCreateTimeNull(t: Table, x: Task, now: Time)
    requires WellFormed(t) && ValidPayload(x, now)
    ensures var s := CreateNewTask(t, x, now);
      && s.result.Ok?
      && s.result.value.status == Some(CREATED)
      && s.result.value.createDateTime.None?
      && s.result.value.doneDataTime.None?
      && s.result.value.id == Some(t.nextId)
  {
  }

  // ---------------------------------------------------------------------------
  // editTask

  /** The guards of editTask in their order; none of the error paths saves. */
  lemma EditGuardOrder(t: Table, id: int, x: Task, now: Time)
    requires id in t.rows
    ensures t.rows[id].status == Some(DONE) ==>
      EditTask(t, id, x, now) == Step(Err(IllegalState), t)
    ensures t.rows[id].status != Some(DONE) && x.status == Some(CREATED) ==>
      EditTask(t, id, x, now) == Step(Err(IllegalArgument), t)
    ensures t.rows[id].status != Some(DONE) && x.status != Some(CREATED)
            && x.deadLineDate.Some? && x.deadLineDate.value < now ==>
      EditTask(t, id, x, now) == Step(Err(IllegalArgument), t)
    ensures EditTask(t, id, x, now).result.Err? ==> EditTask(t, id, x, now).after == t
  {
  }

  /** A successful edit stores the payload under the original id with status
      UPDATED, even when the payload asked for IN_PROGRESS or DONE; the
      creation time comes from the payload, not from the stored task. */
  lemma EditStoresPayload(t: Table, id: int, x: Task, now: Time)
    requires WellFormed(t) && id in t.rows
    requires t.rows[id].status != Some(DONE) && x.status != Some(CREATED)
    requires x.deadLineDate.Some? && x.deadLineDate.value >= now
    ensures var s := EditTask(t, id, x, now);
      && s.result == Ok(x.(id := Some(id), status := Some(UPDATED)))
      && s.after == Table(t.rows[id := FromDomainToEntity(s.result.value)], t.nextId)
      && s.result.value.createDateTime == x.createDateTime
  {
  }

  // ---------------------------------------------------------------------------
  // switchTaskToInProgress

  /** Above four IN_PROGRESS tasks of the assignee, start is rejected and
      nothing changes. */
  lemma StartRejectsAboveFour(t: Table, id: int)
    requires id in t.rows && ActiveOfAssignee(t, id) > 4
    ensures SwitchTaskToInProgress(t, id) == Step(Err(IllegalState), t)
  {
  }

  /** Otherwise only this task's status changes, whatever it was (DONE
      included), and every other column, doneDataTime among them, is kept. */
  lemma StartChangesOnlyStatus(t: Table, id: int)
    requires id in t.rows && ActiveOfAssignee(t, id) <= 4
    ensures var s := SwitchTaskToInProgress(t, id);
      && s.result.Ok?
      && s.after == Table(t.rows[id := t.rows[id].(status := Some(IN_PROGRESS))], t.nextId)
  {
  }

  /** Reopening a DONE task keeps its doneDataTime: a task can be IN_PROGRESS
      and carry a completion time. */
  lemma ReopenKeepsDoneTime(t: Table, id: int)
    requires id in t.rows && t.rows[id].status == Some(DONE) && t.rows[id].doneDataTime.Some?
    requires ActiveOfAssignee(t, id) <= 4
    ensures var s := SwitchTaskToInProgress(t, id);
      && s.result.Ok?
      && s.after.rows[id].status == Some(IN_PROGRESS)
      && s.after.rows[id].doneDataTime == t.rows[id].doneDataTime
  {
  }

  /** A task without an assignee is always admitted: the guard's count
      compares with null and finds nothing. */
  lemma StartAdmitsUnassigned(t: Table, id: int)
    requires id in t.rows && t.rows[id].assignedUserId.None?
    ensures SwitchTaskToInProgress(t, id).result.Ok?
  {
    CountOfNullAssigneeIsZero(t.rows, Some(IN_PROGRESS));
  }

  /** Starting a task that was not IN_PROGRESS raises its assignee's count by
      exactly one. */
  lemma StartCountsUp(t: Table, id: int, u: int)
    requires id in t.rows && t.rows[id].assignedUserId == Some(u)
    requires t.rows[id].status != Some(IN_PROGRESS)
    requires ActiveOfAssignee(t, id) <= 4
    ensures CountOfAssigneeInStatus(SwitchTaskToInProgress(t, id).after.rows, Some(u), Some(IN_PROGRESS))
         == CountOfAssigneeInStatus(t.rows, Some(u), Some(IN_PROGRESS)) + 1
  {
    var rows' := SwitchTaskToInProgress(t, id).after.rows;
    var before := CountedKeys(t.rows, Some(u), Some(IN_PROGRESS));
    var after := CountedKeys(rows', Some(u), Some(IN_PROGRESS));
    assert id !in before;
    forall k
      ensures k in after <==> k in before + {id}
    {
    }
    assert after == before + {id};
  }

  // ---------------------------------------------------------------------------
  // getTaskDone

  /** A missing creator, assignee or deadline is rejected and nothing is saved. */
  lemma DoneRejectsMissingFields(t: Table, id: int, now: Time)
    requires id in t.rows && MissingRequiredField(t.rows[id])
    ensures GetTaskDone(t, id, now) == Step(Err(IllegalArgument), t)
  {
  }

  /** Otherwise the task is saved under the same id with status DONE and
      doneDataTime now, every other column as it was. */
  lemma DoneStoresDone(t: Table, id: int, now: Time)
    requires WellFormed(t) && id in t.rows && !MissingRequiredField(t.rows[id])
    ensures var s := GetTaskDone(t, id, now);
      && s.result == Ok(FromEntityToDomain(t.rows[id]).(status := Some(DONE), doneDataTime := Some(now)))
      && s.after == Table(t.rows[id := t.rows[id].(status := Some(DONE), doneDataTime := Some(now))], t.nextId)
  {
  }

  /** Completing twice keeps the second time: doneDataTime is overwritten on
      every call, and a DONE task can be completed again. */
  lemma DoneTwiceKeepsLatestTime(t: Table, id: int, first: Time, second: Time)
    requires WellFormed(t) && id in t.rows && !MissingRequiredField(t.rows[id])
    ensures var once := GetTaskDone(t, id, first).after;
      var twice := GetTaskDone(once, id, second);
      && twice.result.Ok?
      && twice.after.rows[id].doneDataTime == Some(second)
      && twice.after.rows[id].status == Some(DONE)
  {
    DoneStoresDone(t, id, first);
  }

  // ---------------------------------------------------------------------------
  // Listing and search

  /** Listing by assignee fails with NoSuchElement exactly when the assignee
      has no task, and otherwise returns exactly that assignee's tasks. */
  lemma ListByAssignee(t: Table, assignedUserId: Option<int>)
    ensures var r := GetAllTasksOfOneAssignedUser(t, assignedUserId);
      r.Err? <==> (forall k :: k in t.rows ==> t.rows[k].assignedUserId != assignedUserId)
    ensures var r := GetAllTasksOfOneAssignedUser(t, assignedUserId);
      r.Err? ==> r.error == NoSuchElement
    ensures var r := GetAllTasksOfOneAssignedUser(t, assignedUserId);
      r.Ok? ==> forall k :: k in r.value <==> k in t.rows && t.rows[k].assignedUserId == assignedUserId
    ensures var r := GetAllTasksOfOneAssignedUser(t, assignedUserId);
      r.Ok? ==> forall k :: k in r.value ==> r.value[k] == FromEntityToDomain(t.rows[k])
  {
    var found := EntitiesOfAssignee(t.rows, assignedUserId);
    if forall k :: k in t.rows ==> t.rows[k].assignedUserId != assignedUserId {
      assert found.Keys == {};
    } else {
      var k :| k in t.rows && t.rows[k].assignedUserId == assignedUserId;
      assert k in found;
    }
  }

  /** The page is refused exactly when its size, 10 if left out, is below one
      or its number, 0 if left out, is negative; otherwise it holds those two. */
  lemma PageableDefaults(filter: TaskSearchFilter)
    ensures PageableOf(filter).Err? <==>
      || (filter.pageSize.Some? && filter.pageSize.value < 1)
      || (filter.pageNum.Some? && filter.pageNum.value < 0)
    ensures PageableOf(filter).Ok? ==>
      PageableOf(filter).value == PageRequest(if filter.pageSize.None? then 10 else filter.pageSize.value,
                                              if filter.pageNum.None? then 0 else filter.pageNum.value)
  {
  }

  /** Leaving both page fields out searches like asking for page 0 of size 10,
      and neither is ever refused; any valid page gives the same matches. */
  lemma SearchPagingDefaults(t: Table, filter: TaskSearchFilter)
    ensures SearchAllByFilter(t, filter.(pageSize := None, pageNum := None))
         == SearchAllByFilter(t, filter.(pageSize := Some(10), pageNum := Some(0)))
    ensures SearchAllByFilter(t, filter.(pageSize := None, pageNum := None)) != Err(IllegalArgument)
    ensures PageableOf(filter).Ok? ==>
      SearchAllByFilter(t, filter) == SearchAllByFilter(t, filter.(pageSize := None, pageNum := None))
  {
    SearchByFilter(t, filter.(pageSize := None, pageNum := None));
  }

  /** The search throws IllegalArgumentException exactly when the page is
      invalid; otherwise EntityNotFound exactly when no row matches, and
      otherwise the rows matching the four filter fields as given. */
  lemma SearchByFilter(t: Table, filter: TaskSearchFilter)
    ensures SearchAllByFilter(t, filter) == Err(IllegalArgument) <==>
      || (filter.pageSize.Some? && filter.pageSize.value < 1)
      || (filter.pageNum.Some? && filter.pageNum.value < 0)
    ensures SearchAllByFilter(t, filter) == Err(EntityNotFound) <==>
      && PageableOf(filter).Ok?
      && (forall k :: k in t.rows ==>
            !MatchesFilter(t.rows[k], filter.creatorId, filter.assignedUserId, filter.status, filter.priority))
    ensures var r := SearchAllByFilter(t, filter);
      r.Err? ==> r.error == IllegalArgument || r.error == EntityNotFound
    ensures var r := SearchAllByFilter(t, filter);
      r.Ok? ==> r.value == ToDomainAll(RowsMatchingFilter(t.rows, filter.creatorId,
                                          filter.assignedUserId, filter.status, filter.priority))
  {
    PageableDefaults(filter);
    var found := RowsMatchingFilter(t.rows, filter.creatorId, filter.assignedUserId,
                                    filter.status, filter.priority);
    if forall k :: k in t.rows ==>
         !MatchesFilter(t.rows[k], filter.creatorId, filter.assignedUserId, filter.status, filter.priority)
    {
      assert found.Keys == {};
    } else {
      var k :| k in t.rows &&
        MatchesFilter(t.rows[k], filter.creatorId, filter.assignedUserId, filter.status, filter.priority);
      assert k in found;
    }
  }

  // ---------------------------------------------------------------------------
  // The capacity invariant

  lemma CreatePreservesCapacity(t: Table, x: Task, now: Time)
    requires WithinCapacity(t.rows)
    ensures WithinCapacity(CreateNewTask(t, x, now).after.rows)
  {
    if x.deadLineDate.Some? && x.deadLineDate.value >= now {
      var saved := SaveRow(t, FromDomainToEntity(x).(status := Some(CREATED)));
      WriteInactiveKeepsCapacity(t.rows, saved.row.id.value, saved.row);
    }
  }

  lemma EditPreservesCapacity(t: Table, id: int, x: Task, now: Time)
    requires WithinCapacity(t.rows)
    ensures WithinCapacity(EditTask(t, id, x, now).after.rows)
  {
    if EditTask(t, id, x, now).result.Ok? {
      var saved := SaveRow(t, FromDomainToEntity(x).(id := t.rows[id].id, status := Some(UPDATED)));
      WriteInactiveKeepsCapacity(t.rows, saved.row.id.value, saved.row);
    }
  }

  lemma DonePreservesCapacity(t: Table, id: int, now: Time)
    requires WithinCapacity(t.rows)
    ensures WithinCapacity(GetTaskDone(t, id, now).after.rows)
  {
    if GetTaskDone(t, id, now).result.Ok? {
      var saved := SaveRow(t, t.rows[id].(status := Some(DONE), doneDataTime := Some(now)));
      WriteInactiveKeepsCapacity(t.rows, saved.row.id.value, saved.row);
    }
  }

  lemma DeletePreservesCapacity(t: Table, id: int)
    requires WithinCapacity(t.rows)
    ensures WithinCapacity(DeleteTask(t, id).after.rows)
  {
    if id in t.rows && t.rows[id].id.Some? {
      RemoveKeepsCapacity(t.rows, {t.rows[id].id.value});
    }
  }

  /** The start guard admits at four or fewer, so the assignee ends with at
      most five; nobody else's count moves. */
  lemma StartPreservesCapacity(t: Table, id: int)
    requires WithinCapacity(t.rows)
    ensures WithinCapacity(SwitchTaskToInProgress(t, id).after.rows)
  {
    var s := SwitchTaskToInProgress(t, id);
    if s.result.Ok? {
      var rows' := s.after.rows;
      forall u: int
        ensures CountOfAssigneeInStatus(rows', Some(u), Some(IN_PROGRESS)) <= Capacity
      {
        var before := CountedKeys(t.rows, Some(u), Some(IN_PROGRESS));
        var after := CountedKeys(rows', Some(u), Some(IN_PROGRESS));
        if t.rows[id].assignedUserId == Some(u) {
          SubsetCardinality(after, before + {id});
        } else {
          SubsetCardinality(after, before);
        }
      }
    }
  }

  lemma ApplyPreservesCapacity(t: Table, op: Op)
    requires WithinCapacity(t.rows)
    ensures WithinCapacity(Apply(t, op).rows)
  {
    match op
    case Create(x, now) => CreatePreservesCapacity(t, x, now);
    case Edit(id, x, now) => EditPreservesCapacity(t, id, x, now);
    case Delete(id) => DeletePreservesCapacity(t, id);
    case Start(id) => StartPreservesCapacity(t, id);
    case Complete(id, now) => DonePreservesCapacity(t, id, now);
  }

  lemma {:induction false} RunPreservesCapacity(t: Table, ops: seq<Op>)
    requires WithinCapacity(t.rows)
    ensures WithinCapacity(Run(t, ops).rows)
    decreases |ops|
  {
    if ops != [] {
      ApplyPreservesCapacity(t, ops[0]);
      RunPreservesCapacity(Apply(t, ops[0]), ops[1..]);
    }
  }

  /** Whatever sequence of operations runs on a new store, no assignee ever
      holds more than five IN_PROGRESS tasks. */
  lemma NoAssigneeExceedsCapacity(ops: seq<Op>, u: int)
    ensures CountOfAssigneeInStatus(Run(EmptyTable, ops).rows, Some(u), Some(IN_PROGRESS)) <= Capacity
  {
    assert CountedKeys(EmptyTable.rows, Some(u), Some(IN_PROGRESS)) == {};
    RunPreservesCapacity(EmptyTable, ops);
  }

  // ---------------------------------------------------------------------------
  // The store invariant

  lemma ApplyPreservesWellFormed(t: Table, op: Op)
    requires WellFormed(t)
    ensures WellFormed(Apply(t, op))
  {
  }

  lemma {:induction false} RunPreservesWellFormed(t: Table, ops: seq<Op>)
    requires WellFormed(t)
    ensures WellFormed(Run(t, ops))
    decreases |ops|
  {
    if ops != [] {
      ApplyPreservesWellFormed(t, ops[0]);
      RunPreservesWellFormed(Apply(t, ops[0]), ops[1..]);
    }
  }
}
