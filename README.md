# Task manager: the task lifecycle, modelled in Dafny

The task manager keeps tasks in a table.
- A task has a creator, an assignee, a status (CREATED, UPDATED, IN_PROGRESS, DONE), a creation time, a deadline, a priority and a completion time.
- A service puts each task through its lifecycle: create, edit, start (switch to IN_PROGRESS), complete (DONE), delete, plus lookups, lists and a filtered search.
- A capacity rule limits how many IN_PROGRESS tasks one assignee may hold.

The code base has two versions of the service. This project models both, and also the small seeded in-memory map store.

The project is layered like the code:
- `domain.dfy` (Domain): nullable values (`Option`), time as whole seconds, the two enums, the exceptions as a `Result`, and the REST records.
- `task_entity.dfy` (TaskEntities): the mutable entity as a class with setters.
- `task_mapper.dfy` (TaskMapper): the field-by-field mapper and its round trips.
- `task_repository.dfy` (TaskRepository):
  - the table (`rows` keyed by id, plus an id counter);
  - the JPQL queries as functions;
  - the store object whose methods the service calls.
- `task_lifecycle.dfy` (TaskLifecycle):
  - every operation of the current service as a function from a table to the result and the new table;
  - the properties of those functions, among them that no assignee ever holds more than five IN_PROGRESS tasks.
- `task_service.dfy` (TaskServices): the service class. It fetches entities, changes them through setters and saves them, as the Java code does. Each method is proved to return, and to leave behind, exactly what TaskLifecycle says.
- `legacy_model.dfy`, `legacy_lifecycle.dfy` and `legacy_service.dfy` (LegacyModel, LegacyLifecycle, LegacyServices): the same three layers for the older service. It has seven-field tasks, stricter create and edit guards, and a capacity count over every status.
- `seeded_repository.dfy` (SeededRepository): the HashMap store with its three seeded tasks.

Semantics fixed by the model:
- Null is `None`.
- A JPQL comparison `col = :p` with a null `p` is never true. So `countByAssignedUserIdAndStatus(null, s)` is 0.
- The derived query `findAllEntitiesByAssignedUserId(null)` becomes `IS NULL`.
- A query-by-example ignores null probe fields, so the older service's probe with a null assignee finds every task.
- `isBefore` on a null deadline throws. The model gives this as `NullPointer`.
- `save` of an entity with a null id inserts it under the next value of a counter. Any other id replaces, or inserts, the row under that id, and the counter moves past the id. The counter stands in for the identity column.

The code departs from the stated intent in the following places, and the model follows the code:
- A deadline equal to now is accepted (`CreateStoresCreated`).
- `editTask` takes the creation time from the payload, so it does not keep the stored one (`EditStoresPayload`).
- `createNewTask` never sets a creation time (`CreateLeavesCreateTimeNull`).
- Start does not check the current status. A DONE task is reopened and keeps its completion time (`ReopenKeepsDoneTime`).
- Every completion overwrites the completion time (`DoneTwiceKeepsLatestTime`).
- A task with a null assignee is always admitted by start (`StartAdmitsUnassigned`).

## Model

| member | source | states |
|---|---|---|
| Domain.PlusDays | src/main/java/org/example/taskmanager/repository/Repository.java:25-27 | adding a positive number of days moves a time strictly later |
| TaskEntities.TaskEntity.Empty | src/main/java/org/example/taskmanager/tasks/TaskEntity.java:47-48 | the no-argument constructor leaves every column null |
| TaskEntities.TaskEntity.constructor | src/main/java/org/example/taskmanager/tasks/TaskEntity.java:50-65 | each of the ten arguments lands in the field of the same name |
| TaskEntities.TaskEntity.SetId | src/main/java/org/example/taskmanager/tasks/TaskEntity.java:73-75 | only the id changes, to the argument |
| TaskEntities.TaskEntity.SetTitle | src/main/java/org/example/taskmanager/tasks/TaskEntity.java:81-83 | only the title changes, to the argument |
| TaskEntities.TaskEntity.SetDescription | src/main/java/org/example/taskmanager/tasks/TaskEntity.java:89-91 | only the description changes, to the argument |
| TaskEntities.TaskEntity.SetCreatorId | src/main/java/org/example/taskmanager/tasks/TaskEntity.java:97-99 | only the creator changes, to the argument |
| TaskEntities.TaskEntity.SetAssignedUserId | src/main/java/org/example/taskmanager/tasks/TaskEntity.java:105-107 | only the assignee changes, to the argument |
| TaskEntities.TaskEntity.SetStatus | src/main/java/org/example/taskmanager/tasks/TaskEntity.java:113-115 | only the status changes, and the value assigned is returned |
| TaskEntities.TaskEntity.SetCreateDateTime | src/main/java/org/example/taskmanager/tasks/TaskEntity.java:121-123 | only the creation time changes, to the argument |
| TaskEntities.TaskEntity.SetDeadLineDate | src/main/java/org/example/taskmanager/tasks/TaskEntity.java:129-131 | only the deadline changes, to the argument |
| TaskEntities.TaskEntity.SetPriority | src/main/java/org/example/taskmanager/tasks/TaskEntity.java:137-139 | only the priority changes, to the argument |
| TaskEntities.TaskEntity.SetDoneDataTime | src/main/java/org/example/taskmanager/tasks/TaskEntity.java:145-147 | only the completion time changes, to the argument |
| TaskMapper.FromEntityToDomain | src/main/java/org/example/taskmanager/tasks/TaskMapper.java:6-19 | the definition of fromEntityToDomain; its properties are EntityToDomainCopiesFields, DomainRoundTrip, EntityRoundTrip and FromEntityToDomainInjective |
| TaskMapper.FromDomainToEntity | src/main/java/org/example/taskmanager/tasks/TaskMapper.java:21-34 | the definition of fromDomainToEntity; its properties are DomainToEntityCopiesFields and the two round trips |
| TaskMapper.NewEntityFromDomain | src/main/java/org/example/taskmanager/tasks/TaskMapper.java:21-34 | fromDomainToEntity allocates a new entity holding the record's fields |
| TaskMapper.DomainRoundTrip | src/main/java/org/example/taskmanager/tasks/TaskMapper.java:6-34 | record to entity and back gives the same record |
| TaskMapper.EntityRoundTrip | src/main/java/org/example/taskmanager/tasks/TaskMapper.java:6-34 | entity to record and back gives the same column values |
| TaskMapper.EntityToDomainCopiesFields | src/main/java/org/example/taskmanager/tasks/TaskMapper.java:6-19 | each column goes to the record field of the same name, null staying null |
| TaskMapper.DomainToEntityCopiesFields | src/main/java/org/example/taskmanager/tasks/TaskMapper.java:21-34 | each record field goes to the column of the same name, null staying null |
| TaskMapper.FromEntityToDomainInjective | src/main/java/org/example/taskmanager/tasks/TaskMapper.java:6-19 | distinct entities give distinct records |
| TaskRepository.EntitiesOfAssignee | src/main/java/org/example/taskmanager/tasks/TaskRepository.java:18 | the definition of findAllEntitiesByAssignedUserId; characterised by FindAllFindsAssigneeRows and FindAllOfNullAssignee |
| TaskRepository.CountOfAssigneeInStatus | src/main/java/org/example/taskmanager/tasks/TaskRepository.java:21-29 | the definition of countByAssignedUserIdAndStatus; characterised by CountIsSearchSize and CountOfNullAssigneeIsZero |
| TaskRepository.SetStatusRows | src/main/java/org/example/taskmanager/tasks/TaskRepository.java:32-41 | the definition of the status update; characterised by SetStatusChangesOnlyThatRow |
| TaskRepository.RowsMatchingFilter | src/main/java/org/example/taskmanager/tasks/TaskRepository.java:45-57 | the definition of searchAllByFilter; characterised by SearchFindsMatchingRows, SearchIsIntersection and AllNullFilterMatchesAll |
| TaskRepository.SaveRow | src/main/java/org/example/taskmanager/tasks/TaskRepository.java:15 | save stores the row under its id (a fresh one when null) and returns it with the id set, keeping every row stored under its own id |
| TaskRepository.DeleteRow | src/main/java/org/example/taskmanager/tasks/TaskRepository.java:15 | delete of an entity with an id removes that one row and keeps the counter; an entity with a null id leaves the table as it is |
| TaskRepository.TaskStore.constructor | src/main/java/org/example/taskmanager/tasks/TaskRepository.java:15 | a new store is empty |
| TaskRepository.TaskStore.FindById | src/main/java/org/example/taskmanager/tasks/TaskRepository.java:15 | findById gives a new entity equal to the stored row, or null exactly when the id is absent |
| TaskRepository.TaskStore.FindAll | src/main/java/org/example/taskmanager/tasks/TaskRepository.java:15 | findAll gives every row |
| TaskRepository.TaskStore.Save | src/main/java/org/example/taskmanager/tasks/TaskRepository.java:15 | the table becomes SaveRow of the entity, and a new entity holding the stored row is returned |
| TaskRepository.TaskStore.Delete | src/main/java/org/example/taskmanager/tasks/TaskRepository.java:15 | the table becomes DeleteRow of the entity's id |
| TaskRepository.TaskStore.FindAllEntitiesByAssignedUserId | src/main/java/org/example/taskmanager/tasks/TaskRepository.java:18 | returns the rows whose assignee equals the argument (IS NULL for null) |
| TaskRepository.TaskStore.CountByAssignedUserIdAndStatus | src/main/java/org/example/taskmanager/tasks/TaskRepository.java:21-29 | returns the number of rows whose assignee and status equal the non-null arguments |
| TaskRepository.TaskStore.SetStatus | src/main/java/org/example/taskmanager/tasks/TaskRepository.java:32-41 | only the status of row id changes; an absent id changes nothing; the store invariant is kept |
| TaskRepository.TaskStore.SearchAllByFilter | src/main/java/org/example/taskmanager/tasks/TaskRepository.java:45-57 | returns the rows the filter's WHERE clause admits |
| TaskRepository.SetStatusChangesOnlyThatRow | src/main/java/org/example/taskmanager/tasks/TaskRepository.java:32-41 | setStatus keeps the keys and every other row, and changes only the status column of row id; a null or absent id changes nothing |
| TaskRepository.SearchIsIntersection | src/main/java/org/example/taskmanager/tasks/TaskRepository.java:45-51 | the filter's result is the intersection of its four one-field filters |
| TaskRepository.SearchFindsMatchingRows | src/main/java/org/example/taskmanager/tasks/TaskRepository.java:45-57 | a row is found exactly when it equals every non-null filter field, and it is found unchanged |
| TaskRepository.AllNullFilterMatchesAll | src/main/java/org/example/taskmanager/tasks/TaskRepository.java:47-50 | an all-null filter returns the whole table |
| TaskRepository.CountIsSearchSize | src/main/java/org/example/taskmanager/tasks/TaskRepository.java:21-29 | for a given assignee and status the count equals the size of the unpaged search on those two fields |
| TaskRepository.CountOfNullAssigneeIsZero | src/main/java/org/example/taskmanager/tasks/TaskRepository.java:24 | a null assignee counts 0, however many rows have no assignee |
| TaskRepository.FindAllIsSearchByAssignee | src/main/java/org/example/taskmanager/tasks/TaskRepository.java:18 | for a given assignee the derived query and the search agree |
| TaskRepository.FindAllOfNullAssignee | src/main/java/org/example/taskmanager/tasks/TaskRepository.java:18 | for null the derived query finds exactly the unassigned rows |
| TaskRepository.FindAllFindsAssigneeRows | src/main/java/org/example/taskmanager/tasks/TaskRepository.java:18 | the derived query returns exactly, and unchanged, the rows of that assignee |
| TaskRepository.WriteInactiveKeepsCounts | src/main/java/org/example/taskmanager/tasks/TaskRepository.java:21-29 | writing a row that is not IN_PROGRESS never raises an assignee's IN_PROGRESS count |
| TaskRepository.WriteInactiveKeepsCapacity | src/main/java/org/example/taskmanager/tasks/TaskRepository.java:21-29 | writing a row that is not IN_PROGRESS keeps every assignee within five |
| TaskRepository.RemoveKeepsCapacity | src/main/java/org/example/taskmanager/tasks/TaskRepository.java:21-29 | removing rows keeps every assignee within five |
| TaskLifecycle.ToDomainAll | src/main/java/org/example/taskmanager/tasks/TaskService.java:110-112 | mapping a list of entities to records drops none |
| TaskLifecycle.GetTaskById | src/main/java/org/example/taskmanager/tasks/TaskService.java:29-34 | the definition of getTaskById; characterised by AbsentIdIsNotFound |
| TaskLifecycle.GetAllTasks | src/main/java/org/example/taskmanager/tasks/TaskService.java:37-40 | the definition of getAllTasks without the page; every row mapped to a record |
| TaskLifecycle.CreateNewTask | src/main/java/org/example/taskmanager/tasks/TaskService.java:43-56 | the definition of createNewTask; characterised by CreateRejectsPastDeadline, CreateStoresCreated and CreateLeavesCreateTimeNull |
| TaskLifecycle.DeleteTask | src/main/java/org/example/taskmanager/tasks/TaskService.java:59-65 | the definition of deleteTask; characterised by AbsentIdIsNotFound and DeleteRemovesExactlyThatId |
| TaskLifecycle.EditTask | src/main/java/org/example/taskmanager/tasks/TaskService.java:68-92 | the definition of editTask; characterised by EditGuardOrder and EditStoresPayload |
| TaskLifecycle.SwitchTaskToInProgress | src/main/java/org/example/taskmanager/tasks/TaskService.java:95-106 | the definition of switchTaskToInProgress; characterised by StartRejectsAboveFour, StartChangesOnlyStatus, StartAdmitsUnassigned and StartCountsUp |
| TaskLifecycle.GetAllTasksOfOneAssignedUser | src/main/java/org/example/taskmanager/tasks/TaskService.java:109-116 | the definition of getAllTasksOfOneAssignedUser; characterised by ListByAssignee |
| TaskLifecycle.GetTaskDone | src/main/java/org/example/taskmanager/tasks/TaskService.java:119-150 | the definition of getTaskDone; characterised by DoneRejectsMissingFields, DoneStoresDone and DoneTwiceKeepsLatestTime |
| TaskLifecycle.PageableOf | src/main/java/org/example/taskmanager/tasks/TaskService.java:154-159 | the definition of the Pageable built for the search; characterised by PageableDefaults |
| TaskLifecycle.SearchAllByFilter | src/main/java/org/example/taskmanager/tasks/TaskService.java:152-174 | the definition of searchAllByFilter without the page slicing; characterised by SearchByFilter and SearchPagingDefaults |
| TaskLifecycle.AbsentIdIsNotFound | src/main/java/org/example/taskmanager/tasks/TaskService.java:29-122 | getTaskById, deleteTask, editTask, switchTaskToInProgress and getTaskDone throw EntityNotFound on an absent id and leave the table unchanged |
| TaskLifecycle.DeleteRemovesExactlyThatId | src/main/java/org/example/taskmanager/tasks/TaskService.java:59-65 | a delete of a present id succeeds, removes exactly that id, and a lookup then fails |
| TaskLifecycle.CreateRejectsPastDeadline | src/main/java/org/example/taskmanager/tasks/TaskService.java:46-48 | a deadline before now throws IllegalArgument and saves nothing |
| TaskLifecycle.CreateStoresCreated | src/main/java/org/example/taskmanager/tasks/TaskService.java:43-56 | any other deadline, now included, is accepted: the task is stored as CREATED whatever the payload status, under a fresh id when it has none, and reads back |
| TaskLifecycle.CreateLeavesCreateTimeNull | src/main/java/org/example/taskmanager/tasks/TaskService.java:50-55 | a validated payload is stored as CREATED under the next id with no creation and no completion time |
| TaskLifecycle.EditGuardOrder | src/main/java/org/example/taskmanager/tasks/TaskService.java:74-82 | DONE throws IllegalState, then payload CREATED throws IllegalArgument, then a past deadline throws IllegalArgument; no error path saves |
| TaskLifecycle.EditStoresPayload | src/main/java/org/example/taskmanager/tasks/TaskService.java:84-91 | a successful edit stores the payload under the original id with UPDATED, whatever status it asked for, and takes the creation time from the payload |
| TaskLifecycle.StartRejectsAboveFour | src/main/java/org/example/taskmanager/tasks/TaskService.java:100-103 | above four IN_PROGRESS tasks of the assignee, start throws IllegalState and changes nothing |
| TaskLifecycle.StartChangesOnlyStatus | src/main/java/org/example/taskmanager/tasks/TaskService.java:100-104 | otherwise only this task's status becomes IN_PROGRESS, whatever it was |
| TaskLifecycle.ReopenKeepsDoneTime | src/main/java/org/example/taskmanager/tasks/TaskService.java:95-106 | a DONE task can be started and keeps its completion time |
| TaskLifecycle.StartAdmitsUnassigned | src/main/java/org/example/taskmanager/tasks/TaskService.java:100-104 | a task with a null assignee is always admitted |
| TaskLifecycle.StartCountsUp | src/main/java/org/example/taskmanager/tasks/TaskService.java:100-104 | starting a task that was not IN_PROGRESS raises its assignee's count by exactly one |
| TaskLifecycle.DoneRejectsMissingFields | src/main/java/org/example/taskmanager/tasks/TaskService.java:123-130 | a null or zero creator or assignee, or a null deadline, throws IllegalArgument and saves nothing |
| TaskLifecycle.DoneStoresDone | src/main/java/org/example/taskmanager/tasks/TaskService.java:132-147 | otherwise the task is saved under its id with DONE and completion time now, every other column kept |
| TaskLifecycle.DoneTwiceKeepsLatestTime | src/main/java/org/example/taskmanager/tasks/TaskService.java:138-144 | completing twice succeeds and keeps the second time |
| TaskLifecycle.ListByAssignee | src/main/java/org/example/taskmanager/tasks/TaskService.java:109-116 | NoSuchElement exactly when the assignee has no task; otherwise exactly that assignee's tasks |
| TaskLifecycle.PageableDefaults | src/main/java/org/example/taskmanager/tasks/TaskService.java:154-159 | building the Pageable fails exactly when the page size, 10 if null, is below 1 or the page number, 0 if null, is negative; otherwise it holds those two values |
| TaskLifecycle.SearchPagingDefaults | src/main/java/org/example/taskmanager/tasks/TaskService.java:152-174 | a search with null page fields is the search for page 0 of size 10 and is never refused for its page; any valid page finds the same matches |
| TaskLifecycle.SearchByFilter | src/main/java/org/example/taskmanager/tasks/TaskService.java:152-174 | IllegalArgument exactly when the page is invalid; EntityNotFound exactly when the page is valid and no row matches; otherwise the rows matching the four fields passed through unchanged |
| TaskLifecycle.CreatePreservesCapacity | src/main/java/org/example/taskmanager/tasks/TaskService.java:51 | create keeps every assignee within five IN_PROGRESS tasks |
| TaskLifecycle.EditPreservesCapacity | src/main/java/org/example/taskmanager/tasks/TaskService.java:86 | edit keeps every assignee within five |
| TaskLifecycle.DonePreservesCapacity | src/main/java/org/example/taskmanager/tasks/TaskService.java:138 | completion keeps every assignee within five |
| TaskLifecycle.DeletePreservesCapacity | src/main/java/org/example/taskmanager/tasks/TaskService.java:59-65 | delete keeps every assignee within five |
| TaskLifecycle.StartPreservesCapacity | src/main/java/org/example/taskmanager/tasks/TaskService.java:100-104 | start, admitting at four or fewer, keeps every assignee within five |
| TaskLifecycle.ApplyPreservesCapacity | src/main/java/org/example/taskmanager/tasks/TaskService.java:43-150 | every state-changing operation keeps every assignee within five |
| TaskLifecycle.RunPreservesCapacity | src/main/java/org/example/taskmanager/tasks/TaskService.java:43-150 | any sequence of operations keeps every assignee within five |
| TaskLifecycle.NoAssigneeExceedsCapacity | src/main/java/org/example/taskmanager/tasks/TaskService.java:100-104 | from a new store, no assignee ever holds more than five IN_PROGRESS tasks |
| TaskLifecycle.ApplyPreservesWellFormed | src/main/java/org/example/taskmanager/tasks/TaskService.java:43-150 | every operation keeps each row stored under its own id |
| TaskLifecycle.RunPreservesWellFormed | src/main/java/org/example/taskmanager/tasks/TaskService.java:43-150 | any sequence of operations keeps each row stored under its own id |
| TaskServices.TaskService.constructor | src/main/java/org/example/taskmanager/tasks/TaskService.java:24-26 | the service uses the store it is given |
| TaskServices.TaskService.GetTaskById | src/main/java/org/example/taskmanager/tasks/TaskService.java:29-34 | returns what TaskLifecycle.GetTaskById gives |
| TaskServices.TaskService.GetAllTasks | src/main/java/org/example/taskmanager/tasks/TaskService.java:37-40 | returns every task, mapped to records |
| TaskServices.TaskService.CreateNewTask | src/main/java/org/example/taskmanager/tasks/TaskService.java:43-56 | result and new table are those of TaskLifecycle.CreateNewTask |
| TaskServices.TaskService.DeleteTask | src/main/java/org/example/taskmanager/tasks/TaskService.java:59-65 | result and new table are those of TaskLifecycle.DeleteTask |
| TaskServices.TaskService.EditTask | src/main/java/org/example/taskmanager/tasks/TaskService.java:68-92 | result and new table are those of TaskLifecycle.EditTask |
| TaskServices.TaskService.SwitchTaskToInProgress | src/main/java/org/example/taskmanager/tasks/TaskService.java:95-106 | result and new table are those of TaskLifecycle.SwitchTaskToInProgress |
| TaskServices.TaskService.GetAllTasksOfOneAssignedUser | src/main/java/org/example/taskmanager/tasks/TaskService.java:109-116 | returns what TaskLifecycle.GetAllTasksOfOneAssignedUser gives |
| TaskServices.TaskService.GetTaskDone | src/main/java/org/example/taskmanager/tasks/TaskService.java:119-150 | result and new table are those of TaskLifecycle.GetTaskDone |
| TaskServices.TaskService.SearchAllByFilter | src/main/java/org/example/taskmanager/tasks/TaskService.java:152-174 | returns what TaskLifecycle.SearchAllByFilter gives |
| LegacyModel.FromEntityToDomain | src/main/java/org/example/taskmanager/service/TaskService.java:158-167 | the definition of fromEntityToDomain; characterised by FromEntityToDomainInjective |
| LegacyModel.ToDomainAll | src/main/java/org/example/taskmanager/service/TaskService.java:43-48 | mapping a list of entities to records drops none |
| LegacyModel.FromEntityToDomainInjective | src/main/java/org/example/taskmanager/service/TaskService.java:158-168 | distinct entities give distinct records |
| LegacyModel.SaveRow | src/main/java/org/example/taskmanager/service/TaskService.java:68 | save stores the row under its id (a fresh one when null) and returns it with the id set |
| LegacyModel.DeleteRow | src/main/java/org/example/taskmanager/service/TaskService.java:78 | delete of an entity with an id removes that one row and keeps the counter; an entity with a null id leaves the table as it is |
| LegacyModel.EmptyProbeMatchesAll | src/main/java/org/example/taskmanager/service/TaskService.java:137-142 | an example whose fields are all null matches every row |
| LegacyModel.AssigneeProbeFindsAssigneeRows | src/main/java/org/example/taskmanager/service/TaskService.java:137-142 | a probe holding only an assignee finds exactly that assignee's rows, of every status |
| LegacyModel.ActiveAmongAllOfAssignee | src/main/java/org/example/taskmanager/service/TaskService.java:118-121 | the all-status count bounds the assignee's IN_PROGRESS count |
| LegacyModel.LegacyStore.constructor | src/main/java/org/example/taskmanager/repository/TaskRepository.java:6 | a new store is empty |
| LegacyModel.LegacyStore.FindById | src/main/java/org/example/taskmanager/service/TaskService.java:37-38 | findById gives the stored row, or nothing exactly when the id is absent |
| LegacyModel.LegacyStore.FindAll | src/main/java/org/example/taskmanager/service/TaskService.java:44 | findAll gives every row |
| LegacyModel.LegacyStore.FindAllByExample | src/main/java/org/example/taskmanager/service/TaskService.java:140-141 | findAll(Example.of(probe)) gives the rows equal to every non-null probe field |
| LegacyModel.LegacyStore.Save | src/main/java/org/example/taskmanager/service/TaskService.java:68 | the table becomes SaveRow of the entity, which is returned as stored |
| LegacyModel.LegacyStore.Delete | src/main/java/org/example/taskmanager/service/TaskService.java:78 | the table becomes DeleteRow of the entity's id |
| LegacyLifecycle.TasksOfAssignee | src/main/java/org/example/taskmanager/service/TaskService.java:137-142 | the definition of getAllEntityTasksOfOneUserByAssignedUserId; characterised by AssigneeProbeFindsAssigneeRows and EmptyProbeMatchesAll |
| LegacyLifecycle.GetTaskById | src/main/java/org/example/taskmanager/service/TaskService.java:36-41 | the definition of getTaskById; characterised by AbsentIdIsNotFound |
| LegacyLifecycle.GetAllTasks | src/main/java/org/example/taskmanager/service/TaskService.java:43-48 | the definition of getAllTasks; every row mapped to a record |
| LegacyLifecycle.CreateNewTask | src/main/java/org/example/taskmanager/service/TaskService.java:51-70 | the definition of createNewTask; characterised by CreateGuards and CreateStoresCreated |
| LegacyLifecycle.DeleteTask | src/main/java/org/example/taskmanager/service/TaskService.java:74-79 | the definition of deleteTask; characterised by AbsentIdIsNotFound and DeleteRemovesExactlyThatId |
| LegacyLifecycle.EditTask | src/main/java/org/example/taskmanager/service/TaskService.java:83-107 | the definition of editTask; characterised by EditGuardOrder and EditKeepsIdAndCreateTime |
| LegacyLifecycle.SwitchTaskToInProgress | src/main/java/org/example/taskmanager/service/TaskService.java:109-134 | the definition of switchTaskToInProgress; characterised by StartRequiresAssignee, StartCountsEveryStatus and StartChangesOnlyStatus |
| LegacyLifecycle.GetAllTasksOfOneUserAssignedUser | src/main/java/org/example/taskmanager/service/TaskService.java:146-155 | the definition of getAllTasksOfOneUserAssignedUser; characterised by ListByAssignee |
| LegacyLifecycle.AbsentIdIsNotFound | src/main/java/org/example/taskmanager/service/TaskService.java:36-112 | lookup, delete, edit and start throw EntityNotFound on an absent id and change nothing |
| LegacyLifecycle.DeleteRemovesExactlyThatId | src/main/java/org/example/taskmanager/service/TaskService.java:74-79 | a delete of a present id removes exactly that id |
| LegacyLifecycle.CreateGuards | src/main/java/org/example/taskmanager/service/TaskService.java:53-58 | a non-null id throws IllegalArgument, then a non-null status; create succeeds exactly when both are null |
| LegacyLifecycle.CreateStoresCreated | src/main/java/org/example/taskmanager/service/TaskService.java:59-69 | otherwise a row is stored under a fresh id as CREATED with creation time now and the payload's other fields, whatever the deadline; every other row is unchanged |
| LegacyLifecycle.EditGuardOrder | src/main/java/org/example/taskmanager/service/TaskService.java:85-93 | DONE throws IllegalState, then any payload status throws IllegalState; edit succeeds exactly when neither applies |
| LegacyLifecycle.EditKeepsIdAndCreateTime | src/main/java/org/example/taskmanager/service/TaskService.java:94-106 | a successful edit keeps the stored id and creation time, writes UPDATED and takes the rest from the payload |
| LegacyLifecycle.StartRequiresAssignee | src/main/java/org/example/taskmanager/service/TaskService.java:114-117 | a null or zero assignee throws IllegalState before any count |
| LegacyLifecycle.StartCountsEveryStatus | src/main/java/org/example/taskmanager/service/TaskService.java:118-121 | the count covers all the assignee's tasks, this one included; start fails exactly when there are more than four, changing nothing |
| LegacyLifecycle.StartChangesOnlyStatus | src/main/java/org/example/taskmanager/service/TaskService.java:122-133 | an admitted start saves the task as IN_PROGRESS with every other field kept |
| LegacyLifecycle.ListByAssignee | src/main/java/org/example/taskmanager/service/TaskService.java:146-155 | NoSuchElement exactly when nothing matches; a given assignee gets exactly their tasks, null gets every task |
| LegacyLifecycle.WriteInactiveKeepsCapacity | src/main/java/org/example/taskmanager/service/TaskService.java:59-104 | writing a row that is not IN_PROGRESS keeps every assignee within five |
| LegacyLifecycle.StartPreservesCapacity | src/main/java/org/example/taskmanager/service/TaskService.java:118-133 | start, admitting at four or fewer tasks of any status, keeps every assignee within five IN_PROGRESS |
| LegacyLifecycle.ApplyPreservesInvariants | src/main/java/org/example/taskmanager/service/TaskService.java:51-134 | every state-changing operation keeps rows under their ids and every assignee within five |
| LegacyLifecycle.RunPreservesInvariants | src/main/java/org/example/taskmanager/service/TaskService.java:51-134 | any sequence of operations does the same |
| LegacyLifecycle.NoAssigneeExceedsCapacity | src/main/java/org/example/taskmanager/service/TaskService.java:118-121 | from a new store, no assignee ever holds more than five IN_PROGRESS tasks |
| LegacyServices.TaskService.constructor | src/main/java/org/example/taskmanager/service/TaskService.java:31-33 | the service uses the store it is given |
| LegacyServices.TaskService.GetTaskById | src/main/java/org/example/taskmanager/service/TaskService.java:36-41 | returns what LegacyLifecycle.GetTaskById gives |
| LegacyServices.TaskService.GetAllTasks | src/main/java/org/example/taskmanager/service/TaskService.java:43-48 | returns every task, mapped to records |
| LegacyServices.TaskService.CreateNewTask | src/main/java/org/example/taskmanager/service/TaskService.java:51-70 | result and new table are those of LegacyLifecycle.CreateNewTask |
| LegacyServices.TaskService.DeleteTask | src/main/java/org/example/taskmanager/service/TaskService.java:74-79 | result and new table are those of LegacyLifecycle.DeleteTask |
| LegacyServices.TaskService.EditTask | src/main/java/org/example/taskmanager/service/TaskService.java:83-107 | result and new table are those of LegacyLifecycle.EditTask |
| LegacyServices.TaskService.SwitchTaskToInProgress | src/main/java/org/example/taskmanager/service/TaskService.java:109-134 | result and new table are those of LegacyLifecycle.SwitchTaskToInProgress |
| LegacyServices.TaskService.GetAllEntityTasksOfOneUserByAssignedUserId | src/main/java/org/example/taskmanager/service/TaskService.java:137-142 | returns the rows matching a probe that holds only the entity's assignee |
| LegacyServices.TaskService.GetAllTasksOfOneUserAssignedUser | src/main/java/org/example/taskmanager/service/TaskService.java:146-155 | returns what LegacyLifecycle.GetAllTasksOfOneUserAssignedUser gives |
| SeededRepository.Seed | src/main/java/org/example/taskmanager/repository/Repository.java:24-28 | the definition of the three seeded tasks; characterised by SeedContents |
| SeededRepository.SeedContents | src/main/java/org/example/taskmanager/repository/Repository.java:24-28 | the seed holds exactly keys 1, 2 and 3 under their own ids: task 1 CREATED, tasks 2 and 3 IN_PROGRESS, all by and for user 1, created now, due later |
| SeededRepository.AtomicLong.constructor | src/main/java/org/example/taskmanager/repository/Repository.java:23 | a new counter holds 0 |
| SeededRepository.Lookup | src/main/java/org/example/taskmanager/repository/Repository.java:40 | get answers null for an absent key, and any non-null answer is the value stored under the key |
| SeededRepository.LookupAfterPut | src/main/java/org/example/taskmanager/repository/Repository.java:39-45 | after a put, get of that key answers the value put and every other key answers what it did before |
| SeededRepository.TaskHashMap.constructor | src/main/java/org/example/taskmanager/repository/Repository.java:24-28 | the copy constructor holds exactly the given entries |
| SeededRepository.TaskHashMap.Get | src/main/java/org/example/taskmanager/repository/Repository.java:40 | answers Lookup of the key, null keys included |
| SeededRepository.TaskHashMap.Put | src/main/java/org/example/taskmanager/repository/Repository.java:44 | the key now maps to the value, null or not; the previous answer of get is returned |
| SeededRepository.Repository.constructor | src/main/java/org/example/taskmanager/repository/Repository.java:22-29 | both arguments are ignored: the counter and the map are new objects, the counter at 0 and the map holding the seed |
| SeededRepository.Repository.GetIdCounter | src/main/java/org/example/taskmanager/repository/Repository.java:31-33 | returns the repository's own counter object, not a copy |
| SeededRepository.Repository.GetRepository | src/main/java/org/example/taskmanager/repository/Repository.java:35-37 | returns the repository's own map object, so a put through it changes the repository |
| SeededRepository.Repository.GetTaskById | src/main/java/org/example/taskmanager/repository/Repository.java:39-41 | what the map's get answers for the key: the stored task, or null (no exception) for an absent key; a null key is a key like any other |
| SeededRepository.Repository.CreateNewTask | src/main/java/org/example/taskmanager/repository/Repository.java:43-45 | the task, possibly null, is stored under the key, possibly null and not necessarily its id, overwriting any task there; other keys are unchanged |

## Left out

- Controllers, the exception handler and HTTP status mapping: routing only. NoSuchElementException has no handler of its own there.
- Bean validation on the REST record runs in the framework before the service. It appears only as the predicate `ValidPayload`, which `CreateLeavesCreateTimeNull` assumes.
- Database NOT NULL constraints on the entity's columns are not modelled. A save that the database would refuse, such as a task without a creation time, succeeds in the model.
- Concurrency and `@Transactional`: each operation is one atomic step. The count-then-update race in start is not modelled.
- The clock: `LocalDateTime.now()` is an integer parameter `now`, in seconds. Calendar arithmetic is not modelled.
- `Long` ids and counts are unbounded integers. Overflow of the identity column or of the `int` count is not modelled.
- Pagination: building the Pageable is modelled (`TaskLifecycle.PageableOf`). A page size below 1 or a negative page number throws IllegalArgumentException before the query runs (`TaskLifecycle.SearchByFilter`). Slicing a page out of the result, and the order of results, are not modelled. There is no ORDER BY, so the order is unspecified. Lists are modelled as maps keyed by id.
- TaskLifecycle.SearchAllByFilter, TaskServices.TaskService.SearchAllByFilter and TaskServices.TaskService.GetAllTasks: these return every match, not one page. For the search, a valid page beyond the last one returns the matches here, where the source throws EntityNotFoundException for its empty page.
- Id generation: an identity column is stood in for by a counter. Saving an entity whose id is not in the table inserts it under that id. The JPA provider might generate a new id instead.
- `@Modifying(clearAutomatically = true)` and the persistence context: entities returned by the store are detached copies, so changing one never changes the table.
- SeededRepository.Seed: `Repository.java:25-27` reads `LocalDateTime.now()` six times. `SeededRepository.Seed` takes one reading `now` for all of them, so the three seeded tasks share one creation time and their deadlines are counted from it.
- Domain.ValidPayload: `@NotBlank` is checked with four whitespace characters (space, tab, newline, carriage return), while Character.isWhitespace knows more. `@Size` counts UTF-16 code units, while the model counts characters.
- SeededRepository.Repository.GetIdCounter: the counter is reduced to its value. No AtomicLong operation other than the constructor is modelled, because the repository never calls one.
- SeededRepository.Repository.GetRepository and GetIdCounter: the objects are shared by reference, but the model has no other owner that could change them concurrently. HashMap's hashing, iteration order and resizing are not modelled.
- `service/TaskService.java:126` passes the result of the void `setStatus` of the older entity as a constructor argument, which does not compile. It is modelled as intended: set the status to IN_PROGRESS and use that value.
- The older variant's `model/TaskEntity.java` is modelled as a value (`LegacyModel.LegacyRow`), not an object. Its setters are not separate members.
- repository/TaskRepository.java is an empty interface. Its JpaRepository methods are those of `LegacyModel.LegacyStore`.
- Logging is left out.
- AppConfig bean wiring is left out.
