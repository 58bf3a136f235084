/** tasks/TaskService.java as the Java code runs it: one store object, entity
    objects fetched from it, changed through their setters and saved back.
    Each method is proved to return and leave behind exactly what the
    matching function of TaskLifecycle says. */
module TaskServices {
  import opened Domain
  import opened TaskEntities
  import opened TaskMapper
  import opened TaskRepository
  import TaskLifecycle

  class TaskService {
    const taskRepository: TaskStore

    constructor (taskRepository: TaskStore)
      ensures this.taskRepository == taskRepository
    {
      this.taskRepository := taskRepository;
    }

    method GetTaskById(id: int) returns (r: Result<Task>)
      ensures r == TaskLifecycle.GetTaskById(taskRepository.State(), id)
    {
      var taskEntity := taskRepository.FindById(id);
      if taskEntity == null {
        return Err(EntityNotFound);
      }
      r := Ok(FromEntityToDomain(taskEntity.Snapshot()));
    }

    method GetAllTasks() returns (tasks: map<int, Task>)
      ensures tasks == TaskLifecycle.GetAllTasks(taskRepository.State())
    {
      var allEntities := taskRepository.FindAll();
      tasks := TaskLifecycle.ToDomainAll(allEntities);
    }

    /** The clock reading the source takes with LocalDateTime.now() is the parameter now. */
    method CreateNewTask(taskToCreate: Task, now: Time) returns (r: Result<Task>)
      requires taskRepository.Valid()
      modifies taskRepository
      ensures taskRepository.Valid()
      ensures Step(r, taskRepository.State())
           == TaskLifecycle.CreateNewTask(old(taskRepository.State()), taskToCreate, now)
    {
      if taskToCreate.deadLineDate.None? {
        return Err(NullPointer);
      }
      if taskToCreate.deadLineDate.value < now {
        return Err(IllegalArgument);
      }
      var entityToSave := NewEntityFromDomain(taskToCreate);
      var _ := entityToSave.SetStatus(Some(CREATED));
      var savedEntity := taskRepository.Save(entityToSave);
      r := Ok(FromEntityToDomain(savedEntity.Snapshot()));
    }

    method DeleteTask(id: int) returns (r: Result<()>)
      requires taskRepository.Valid()
      modifies taskRepository
      ensures taskRepository.Valid()
      ensures Step(r, taskRepository.State()) == TaskLifecycle.DeleteTask(old(taskRepository.State()), id)
    {
      var entityToDelete := taskRepository.FindById(id);
      if entityToDelete == null {
        return Err(EntityNotFound);
      }
      taskRepository.Delete(entityToDelete);
      r := Ok(());
    }

    method EditTask(id: int, dataToUpdate: Task, now: Time) returns (r: Result<Task>)
      requires taskRepository.Valid()
      modifies taskRepository
      ensures taskRepository.Valid()
      ensures Step(r, taskRepository.State())
           == TaskLifecycle.EditTask(old(taskRepository.State()), id, dataToUpdate, now)
    {
      var taskEntity := taskRepository.FindById(id);
      if taskEntity == null {
        return Err(EntityNotFound);
      }
      if taskEntity.status == Some(DONE) {
        return Err(IllegalState);
      }
      if dataToUpdate.status == Some(CREATED) {
        return Err(IllegalArgument);
      }
      if dataToUpdate.deadLineDate.None? {
        return Err(NullPointer);
      }
      if dataToUpdate.deadLineDate.value < now {
        return Err(IllegalArgument);
      }
      var taskToUpdate := NewEntityFromDomain(dataToUpdate);
      taskToUpdate.SetId(taskEntity.id);
      var _ := taskToUpdate.SetStatus(Some(UPDATED));
      var updatedTask := taskRepository.Save(taskToUpdate);
      r := Ok(FromEntityToDomain(updatedTask.Snapshot()));
    }

    method SwitchTaskToInProgress(id: int) returns (r: Result<()>)
      requires taskRepository.Valid()
      modifies taskRepository
      ensures taskRepository.Valid()
      ensures Step(r, taskRepository.State())
           == TaskLifecycle.SwitchTaskToInProgress(old(taskRepository.State()), id)
    {
      var entity := taskRepository.FindById(id);
      if entity == null {
        return Err(EntityNotFound);
      }
      var countEntities := taskRepository.CountByAssignedUserIdAndStatus(entity.assignedUserId, Some(IN_PROGRESS));
      if countEntities > 4 {
        return Err(IllegalState);
      }
      taskRepository.SetStatus(Some(id), Some(IN_PROGRESS));
      r := Ok(());
    }

    method GetAllTasksOfOneAssignedUser(assignedUserId: Option<int>) returns (r: Result<map<int, Task>>)
      ensures r == TaskLifecycle.GetAllTasksOfOneAssignedUser(taskRepository.State(), assignedUserId)
    {
      var found := taskRepository.FindAllEntitiesByAssignedUserId(assignedUserId);
      var tasks := TaskLifecycle.ToDomainAll(found);
      if |tasks| == 0 {
        return Err(NoSuchElement);
      }
      r := Ok(tasks);
    }

    /** The entity read from the store is a detached copy: the setStatus call
        on it changes nothing stored, and its return value goes into the new
        entity that is saved. */
    method GetTaskDone(id: int, now: Time) returns (r: Result<Task>)
      requires taskRepository.Valid()
      modifies taskRepository
      ensures taskRepository.Valid()
      ensures Step(r, taskRepository.State())
           == TaskLifecycle.GetTaskDone(old(taskRepository.State()), id, now)
    {
      var entity := taskRepository.FindById(id);
      if entity == null {
        return Err(EntityNotFound);
      }
      if || entity.creatorId == None || entity.creatorId == Some(0)
         || entity.assignedUserId == None || entity.assignedUserId == Some(0)
         || entity.deadLineDate == None
      {
        return Err(IllegalArgument);
      }
      var status := entity.SetStatus(Some(DONE));
      var entityToUpdate := new TaskEntity(entity.id, entity.title, entity.description, entity.creatorId,
                                           entity.assignedUserId, status, entity.createDateTime,
                                           entity.deadLineDate, entity.priority, Some(now));
      var updatedEntity := taskRepository.Save(entityToUpdate);
      r := Ok(FromEntityToDomain(updatedEntity.Snapshot()));
    }

    method SearchAllByFilter(filter: TaskSearchFilter) returns (r: Result<map<int, Task>>)
      ensures r == TaskLifecycle.SearchAllByFilter(taskRepository.State(), filter)
    {
      var pageSize := if filter.pageSize.Some? then filter.pageSize.value else 10;
      var pageNumber := if filter.pageNum.Some? then filter.pageNum.value else 0;
      var sized := TaskLifecycle.OfSize(pageSize);
      if sized.Err? {
        return Err(sized.error);
      }
      var pageable := TaskLifecycle.WithPage(sized.value, pageNumber);
      if pageable.Err? {
        return Err(pageable.error);
      }
      var allEntities := taskRepository.SearchAllByFilter(filter.creatorId, filter.assignedUserId,
                                                          filter.status, filter.priority);
      if |allEntities| == 0 {
        return Err(EntityNotFound);
      }
      r := Ok(TaskLifecycle.ToDomainAll(allEntities));
    }
  }
}
