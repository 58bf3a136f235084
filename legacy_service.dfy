/** service/TaskService.java as the Java code runs it, over one LegacyStore;
    each method is proved to return and leave behind what LegacyLifecycle says. */
module LegacyServices {
  import opened Domain
  import opened LegacyModel
  import LegacyLifecycle

  class TaskService {
    const taskRepository: LegacyStore

    constructor (taskRepository: LegacyStore)
      ensures this.taskRepository == taskRepository
    {
      this.taskRepository := taskRepository;
    }

    method GetTaskById(id: int) returns (r: Result<LegacyTask>)
      ensures r == LegacyLifecycle.GetTaskById(taskRepository.State(), id)
    {
      var taskEntity := taskRepository.FindById(id);
      if taskEntity.None? {
        return Err(EntityNotFound);
      }
      r := Ok(FromEntityToDomain(taskEntity.value));
    }

    method GetAllTasks() returns (tasks: map<int, LegacyTask>)
      ensures tasks == LegacyLifecycle.GetAllTasks(taskRepository.State())
    {
      var allEntities := taskRepository.FindAll();
      tasks := ToDomainAll(allEntities);
    }

    /** The clock reading the source takes with LocalDateTime.now() is the parameter now. */
    method CreateNewTask(taskToCreate: LegacyTask, now: Time) returns (r: Result<LegacyTask>)
      requires taskRepository.Valid()
      modifies taskRepository
      ensures taskRepository.Valid()
      ensures Step(r, taskRepository.State())
           == LegacyLifecycle.CreateNewTask(old(taskRepository.State()), taskToCreate, now)
    {
      if taskToCreate.id.Some? {
        return Err(IllegalArgument);
      }
      if taskToCreate.status.Some? {
        return Err(IllegalArgument);
      }
      var entityToSave := LegacyRow(None, taskToCreate.creatorId, taskToCreate.assignedUserId,
                                    Some(CREATED), Some(now), taskToCreate.deadLineDate,
                                    taskToCreate.priority);
      var savedEntity := taskRepository.Save(entityToSave);
      r := Ok(FromEntityToDomain(savedEntity));
    }

    method DeleteTask(id: int) returns (r: Result<()>)
      requires taskRepository.Valid()
      modifies taskRepository
      ensures taskRepository.Valid()
      ensures Step(r, taskRepository.State()) == LegacyLifecycle.DeleteTask(old(taskRepository.State()), id)
    {
      var entityToDelete := taskRepository.FindById(id);
      if entityToDelete.None? {
        return Err(EntityNotFound);
      }
      taskRepository.Delete(entityToDelete.value);
      r := Ok(());
    }

    method EditTask(id: int, dataToUpdate: LegacyTask) returns (r: Result<LegacyTask>)
      requires taskRepository.Valid()
      modifies taskRepository
      ensures taskRepository.Valid()
      ensures Step(r, taskRepository.State())
           == LegacyLifecycle.EditTask(old(taskRepository.State()), id, dataToUpdate)
    {
      var found := taskRepository.FindById(id);
      if found.None? {
        return Err(EntityNotFound);
      }
      var taskEntity := found.value;
      if taskEntity.status == Some(DONE) {
        return Err(IllegalState);
      }
      if dataToUpdate.status.Some? {
        return Err(IllegalState);
      }
      var entityToUpdate := LegacyRow(taskEntity.id, dataToUpdate.creatorId, dataToUpdate.assignedUserId,
                                      Some(UPDATED), taskEntity.createDateTime, dataToUpdate.deadLineDate,
                                      dataToUpdate.priority);
      var updatedEntity := taskRepository.Save(entityToUpdate);
      r := Ok(FromEntityToDomain(updatedEntity));
    }

    /** The source passes the result of the void setStatus as a constructor
        argument, which does not compile; modelled as intended: set the
        loaded entity's status to IN_PROGRESS and use that value. */
    method SwitchTaskToInProgress(id: int) returns (r: Result<LegacyTask>)
      requires taskRepository.Valid()
      modifies taskRepository
      ensures taskRepository.Valid()
      ensures Step(r, taskRepository.State())
           == LegacyLifecycle.SwitchTaskToInProgress(old(taskRepository.State()), id)
    {
      var found := taskRepository.FindById(id);
      if found.None? {
        return Err(EntityNotFound);
      }
      var entity := found.value;
      if entity.assignedUserId == None || entity.assignedUserId == Some(0) {
        return Err(IllegalState);
      }
      var tasksOfUser := GetAllEntityTasksOfOneUserByAssignedUserId(entity);
      var sumOfTasksPerOne := |tasksOfUser|;
      if sumOfTasksPerOne > 4 {
        return Err(IllegalState);
      }
      entity := entity.(status := Some(IN_PROGRESS));
      var entityToSwitch := LegacyRow(entity.id, entity.creatorId, entity.assignedUserId, entity.status,
                                      entity.createDateTime, entity.deadLineDate, entity.priority);
      var switched := taskRepository.Save(entityToSwitch);
      r := Ok(FromEntityToDomain(switched));
    }

    method GetAllEntityTasksOfOneUserByAssignedUserId(entity: LegacyRow) returns (found: map<int, LegacyRow>)
      ensures found == LegacyLifecycle.TasksOfAssignee(taskRepository.State(), entity.assignedUserId)
    {
      var probe := EmptyProbe;
      probe := probe.(assignedUserId := entity.assignedUserId);
      found := taskRepository.FindAllByExample(probe);
    }

    method GetAllTasksOfOneUserAssignedUser(assignedUserId: Option<int>) returns (r: Result<map<int, LegacyTask>>)
      ensures r == LegacyLifecycle.GetAllTasksOfOneUserAssignedUser(taskRepository.State(), assignedUserId)
    {
      var probe := EmptyProbe.(assignedUserId := assignedUserId);
      var found := GetAllEntityTasksOfOneUserByAssignedUserId(probe);
      var tasks := ToDomainAll(found);
      if |tasks| == 0 {
        return Err(NoSuchElement);
      }
      r := Ok(tasks);
    }
  }
}
