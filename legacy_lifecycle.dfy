/** The rules of service/TaskService.java, the older service, as functions of
    its table, with the properties that set it apart from tasks/TaskService.java. */
module LegacyLifecycle {
  import opened Domain
  import opened LegacyModel

  type Outcome<T> = Step<T, LegacyTable>

  /** The probe that getAllEntityTasksOfOneUserByAssignedUserId builds. */
  function AssigneeProbe(assignedUserId: Option<int>): LegacyRow {
    EmptyProbe.(assignedUserId := assignedUserId)
  }

  /** getAllEntityTasksOfOneUserByAssignedUserId (TaskService.java:137-142):
      with a null assignee the probe is empty and finds every row. */
  function TasksOfAssignee(t: LegacyTable, assignedUserId: Option<int>): map<int, LegacyRow> {
    RowsMatchingExample(t.rows, AssigneeProbe(assignedUserId))
  }

  function GetTaskById(t: LegacyTable, id: int): Result<LegacyTask> {
    if id in t.rows then Ok(FromEntityToDomain(t.rows[id])) else Err(EntityNotFound)
  }

  function GetAllTasks(t: LegacyTable): map<int, LegacyTask> {
    ToDomainAll(t.rows)
  }

  /** createNewTask: no deadline check; the creation time is now. */
  function CreateNewTask(t: LegacyTable, taskToCreate: LegacyTask, now: Time): Outcome<LegacyTask> {
    if taskToCreate.id.Some? then Step(Err(IllegalArgument), t)
    else if taskToCreate.status.Some? then Step(Err(IllegalArgument), t)
    else
      var saved := SaveRow(t, LegacyRow(None, taskToCreate.creatorId, taskToCreate.assignedUserId,
                                        Some(CREATED), Some(now), taskToCreate.deadLineDate,
                                        taskToCreate.priority));
      Step(Ok(FromEntityToDomain(saved.row)), saved.table)
  }

  function DeleteTask(t: LegacyTable, id: int): Outcome<()> {
    if id !in t.rows then Step(Err(EntityNotFound), t)
    else Step(Ok(()), DeleteRow(t, t.rows[id].id))
  }

  /** editTask: keeps the stored id and creation time. */
  function EditTask(t: LegacyTable, id: int, dataToUpdate: LegacyTask): Outcome<LegacyTask> {
    if id !in t.rows then Step(Err(EntityNotFound), t)
    else if t.rows[id].status == Some(DONE) then Step(Err(IllegalState), t)
    else if dataToUpdate.status.Some? then Step(Err(IllegalState), t)
    else
      var stored := t.rows[id];
      var saved := SaveRow(t, LegacyRow(stored.id, dataToUpdate.creatorId, dataToUpdate.assignedUserId,
                                        Some(UPDATED), stored.createDateTime, dataToUpdate.deadLineDate,
                                        dataToUpdate.priority));
      Step(Ok(FromEntityToDomain(saved.row)), saved.table)
  }

  /** switchTaskToInProgress: the count is of all the assignee's tasks. */
  function SwitchTaskToInProgress(t: LegacyTable, id: int): Outcome<LegacyTask> {
    if id !in t.rows then Step(Err(EntityNotFound), t)
    else if t.rows[id].assignedUserId == None || t.rows[id].assignedUserId == Some(0) then
      Step(Err(IllegalState), t)
    else if |TasksOfAssignee(t, t.rows[id].assignedUserId)| > 4 then Step(Err(IllegalState), t)
    else
      var saved := SaveRow(t, t.rows[id].(status := Some(IN_PROGRESS)));
      Step(Ok(FromEntityToDomain(saved.row)), saved.table)
  }

  function GetAllTasksOfOneUserAssignedUser(t: LegacyTable, assignedUserId: Option<int>): Result<map<int, LegacyTask>> {
    var tasks := ToDomainAll(TasksOfAssignee(t, assignedUserId));
    if |tasks| == 0 then Err(NoSuchElement) else Ok(tasks)
  }

  datatype Op =
    | Create(taskToCreate: LegacyTask, now: Time)
    | Edit(id: int, dataToUpdate: LegacyTask)
    | Delete(id: int)
    | Start(id: int)

  function Apply(t: LegacyTable, op: Op): LegacyTable {
    match op
    case Create(x, now) => CreateNewTask(t, x, now).after
    case Edit(id, x) => EditTask(t, id, x).after
    case Delete(id) => DeleteTask(t, id).after
    case Start(id) => SwitchTaskToInProgress(t, id).after
  }

  function Run(t: LegacyTable, ops: seq<Op>): LegacyTable
    decreases |ops|
  {
    if ops == [] then t else Run(Apply(t, ops[0]), ops[1..])
  }

  const EmptyTable: LegacyTable := LegacyTable(map[], 1)

  // ---------------------------------------------------------------------------
  // Properties

  /** Every operation on an absent id throws EntityNotFound and changes nothing. */
  lemma AbsentIdIsNotFound(t: LegacyTable, id: int, x: LegacyTask)
    requires id !in t.rows
    ensures GetTaskById(t, id) == Err(EntityNotFound)
    ensures DeleteTask(t, id) == Step(Err(EntityNotFound), t)
    ensures EditTask(t, id, x) == Step(Err(EntityNotFound), t)
    ensures SwitchTaskToInProgress(t, id) == Step(Err(EntityNotFound), t)
  {
  }

  lemma DeleteRemovesExactlyThatId(t: LegacyTable, id: int)
    requires WellFormed(t) && id in t.rows
    ensures DeleteTask(t, id) == Step(Ok(()), LegacyTable(t.rows - {id}, t.nextId))
    ensures GetTaskById(DeleteTask(t, id).after, id) == Err(EntityNotFound)
  {
  }

  /** A payload with an id is rejected first, then one with a status. */
  lemma CreateGuards(t: LegacyTable, x: LegacyTask, now: Time)
    ensures x.id.Some? ==> CreateNewTask(t, x, now) == Step(Err(IllegalArgument), t)
    ensures x.id.None? && x.status.Some? ==> CreateNewTask(t, x, now) == Step(Err(IllegalArgument), t)
    ensures CreateNewTask(t, x, now).result.Ok? <==> x.id.None? && x.status.None?
  {
  }

  /** Otherwise a new row is stored under a fresh id with status CREATED and
      creation time now, whatever the deadline, past ones included. */
  lemma CreateStoresCreated(t: LegacyTable, x: LegacyTask, now: Time)
    requires WellFormed(t) && x.id.None? && x.status.None?
    ensures var s := CreateNewTask(t, x, now);
      && t.nextId !in t.rows
      && s.result == Ok(LegacyTask(Some(t.nextId), x.creatorId, x.assignedUserId, Some(CREATED),
                                   Some(now), x.deadLineDate, x.priority))
      && s.after.rows.Keys == t.rows.Keys + {t.nextId}
      && s.after.rows == t.rows[t.nextId := LegacyRow(Some(t.nextId), x.creatorId, x.assignedUserId,
                                                       Some(CREATED), Some(now), x.deadLineDate, x.priority)]
      && GetTaskById(s.after, t.nextId) == s.result
      && WellFormed(s.after)
  {
  }

  /** The guards of editTask in order: DONE, then any payload status. */
  lemma EditGuardOrder(t: LegacyTable, id: int, x: LegacyTask)
    requires id in t.rows
    ensures t.rows[id].status == Some(DONE) ==> EditTask(t, id, x) == Step(Err(IllegalState), t)
    ensures t.rows[id].status != Some(DONE) && x.status.Some? ==> EditTask(t, id, x) == Step(Err(IllegalState), t)
    ensures EditTask(t, id, x).result.Ok? <==> t.rows[id].status != Some(DONE) && x.status.None?
  {
  }

  /** A successful edit keeps the stored id and creation time, writes status
      UPDATED and takes the other fields from the payload. */
  lemma EditKeepsIdAndCreateTime(t: LegacyTable, id: int, x: LegacyTask)
    requires WellFormed(t) && id in t.rows
    requires t.rows[id].status != Some(DONE) && x.status.None?
    ensures var s := EditTask(t, id, x);
      && s.result == Ok(LegacyTask(Some(id), x.creatorId, x.assignedUserId, Some(UPDATED),
                                   t.rows[id].createDateTime, x.deadLineDate, x.priority))
      && s.after == LegacyTable(t.rows[id := LegacyRow(Some(id), x.creatorId, x.assignedUserId, Some(UPDATED),
                                                      t.rows[id].createDateTime, x.deadLineDate, x.priority)],
                                t.nextId)
  {
  }

  /** A missing or zero assignee is rejected before anything is counted. */
  lemma StartRequiresAssignee(t: LegacyTable, id: int)
    requires id in t.rows
    requires t.rows[id].assignedUserId == None || t.rows[id].assignedUserId == Some(0)
    ensures SwitchTaskToInProgress(t, id) == Step(Err(IllegalState), t)
  {
  }

  /** The count covers every task of the assignee, this one and DONE ones
      included: start is rejected exactly when the assignee has more than four
      tasks of any status. */
  lemma StartCountsEveryStatus(t: LegacyTable, id: int, u: int)
    requires id in t.rows && t.rows[id].assignedUserId == Some(u) && u != 0
    ensures id in TasksOfAssignee(t, Some(u))
    ensures forall k :: k in TasksOfAssignee(t, Some(u)) <==> k in t.rows && t.rows[k].assignedUserId == Some(u)
    ensures SwitchTaskToInProgress(t, id).result.Err? <==> |TasksOfAssignee(t, Some(u))| > 4
    ensures SwitchTaskToInProgress(t, id).result.Err? ==> SwitchTaskToInProgress(t, id).after == t
  {
  }

  /** An admitted start saves the task with status IN_PROGRESS and every other
      field as it was. */
  lemma StartChangesOnlyStatus(t: LegacyTable, id: int)
    requires WellFormed(t) && id in t.rows
    requires SwitchTaskToInProgress(t, id).result.Ok?
    ensures var s := SwitchTaskToInProgress(t, id);
      && s.result.value == FromEntityToDomain(t.rows[id]).(status := Some(IN_PROGRESS))
      && s.after == LegacyTable(t.rows[id := t.rows[id].(status := Some(IN_PROGRESS))], t.nextId)
  {
  }

  /** Listing fails with NoSuchElement exactly when nothing matches; a given
      assignee gets exactly their tasks, a null one gets every task. */
  lemma ListByAssignee(t: LegacyTable, assignedUserId: Option<int>)
    ensures var r := GetAllTasksOfOneUserAssignedUser(t, assignedUserId);
      r.Err? <==> |TasksOfAssignee(t, assignedUserId)| == 0
    ensures var r := GetAllTasksOfOneUserAssignedUser(t, assignedUserId);
      r.Err? ==> r.error == NoSuchElement
    ensures var r := GetAllTasksOfOneUserAssignedUser(t, assignedUserId);
      r.Ok? ==> forall k :: k in r.value <==>
                  k in t.rows && (assignedUserId.None? || t.rows[k].assignedUserId == assignedUserId)
    ensures var r := GetAllTasksOfOneUserAssignedUser(t, assignedUserId);
      assignedUserId.None? && r.Ok? ==> r.value == GetAllTasks(t)
  {
    if assignedUserId.None? {
      EmptyProbeMatchesAll(t.rows);
    }
  }

  // ---------------------------------------------------------------------------
  // The capacity invariant holds here too: only start writes IN_PROGRESS, and
  // it admits only at four or fewer tasks of any status.

  lemma WriteInactiveKeepsCapacity(rows: map<int, LegacyRow>, k: int, r: LegacyRow)
    requires WithinCapacity(rows) && r.status != Some(IN_PROGRESS)
    ensures WithinCapacity(rows[k := r])
  {
    var rows' := rows[k := r];
    forall u: int
      ensures |ActiveKeys(rows', u)| <= 5
    {
      SubsetCardinality(ActiveKeys(rows', u), ActiveKeys(rows, u));
    }
  }

  lemma StartPreservesCapacity(t: LegacyTable, id: int)
    requires WellFormed(t) && WithinCapacity(t.rows)
    ensures WithinCapacity(SwitchTaskToInProgress(t, id).after.rows)
  {
    var s := SwitchTaskToInProgress(t, id);
    if s.result.Ok? {
      var rows' := s.after.rows;
      var v := t.rows[id].assignedUserId.value;
      forall u: int
        ensures |ActiveKeys(rows', u)| <= 5
      {
        if u == v {
          var all := TasksOfAssignee(t, Some(v));
          forall k | k in ActiveKeys(rows', u)
            ensures k in all.Keys
          {
          }
          SubsetCardinality(ActiveKeys(rows', u), all.Keys);
        } else {
          SubsetCardinality(ActiveKeys(rows', u), ActiveKeys(t.rows, u));
        }
      }
    }
  }

  lemma ApplyPreservesInvariants(t: LegacyTable, op: Op)
    requires WellFormed(t) && WithinCapacity(t.rows)
    ensures WellFormed(Apply(t, op)) && WithinCapacity(Apply(t, op).rows)
  {
    match op
    case Create(x, now) =>
      var s := CreateNewTask(t, x, now);
      if s.result.Ok? {
        WriteInactiveKeepsCapacity(t.rows, s.result.value.id.value,
                                   SaveRow(t, LegacyRow(None, x.creatorId, x.assignedUserId, Some(CREATED),
                                                        Some(now), x.deadLineDate, x.priority)).row);
      }
    case Edit(id, x) =>
      var s := EditTask(t, id, x);
      if s.result.Ok? {
        EditKeepsIdAndCreateTime(t, id, x);
        WriteInactiveKeepsCapacity(t.rows, id, s.after.rows[id]);
      }
    case Delete(id) =>
      if id in t.rows {
        var rows' := t.rows - {id};
        forall u: int
          ensures |ActiveKeys(rows', u)| <= 5
        {
          SubsetCardinality(ActiveKeys(rows', u), ActiveKeys(t.rows, u));
        }
      }
    case Start(id) =>
      StartPreservesCapacity(t, id);
  }

  lemma {:induction false} RunPreservesInvariants(t: LegacyTable, ops: seq<Op>)
    requires WellFormed(t) && WithinCapacity(t.rows)
    ensures WellFormed(Run(t, ops)) && WithinCapacity(Run(t, ops).rows)
    decreases |ops|
  {
    if ops != [] {
      ApplyPreservesInvariants(t, ops[0]);
      RunPreservesInvariants(Apply(t, ops[0]), ops[1..]);
    }
  }

  /** From a new store, no assignee ever holds more than five IN_PROGRESS tasks. */
  lemma NoAssigneeExceedsCapacity(ops: seq<Op>, u: int)
    ensures |ActiveKeys(Run(EmptyTable, ops).rows, u)| <= 5
  {
    assert ActiveKeys(EmptyTable.rows, u) == {};
    RunPreservesInvariants(EmptyTable, ops);
  }
}
