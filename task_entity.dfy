/** tasks/TaskEntity.java: the mutable JPA entity behind the "tasks" table. */
module TaskEntities {
  import opened Domain

  /** The ten column values of one TaskEntity: what the table persists, and
      what Snapshot() reads off an object. */
  datatype Row = Row(
    id: Option<int>,
    title: Option<string>,
    description: Option<string>,
    creatorId: Option<int>,
    assignedUserId: Option<int>,
    status: Option<Status>,
    createDateTime: Option<Time>,
    deadLineDate: Option<Time>,
    priority: Option<Priority>,
    doneDataTime: Option<Time>)

  /** Every column null. */
  const NullRow: Row := Row(None, None, None, None, None, None, None, None, None, None)

  /** The Java getters are reads of these fields. */
  class TaskEntity {
    var id: Option<int>
    var title: Option<string>
    var description: Option<string>
    var creatorId: Option<int>
    var assignedUserId: Option<int>
    var status: Option<Status>
    var createDateTime: Option<Time>
    var deadLineDate: Option<Time>
    var priority: Option<Priority>
    var doneDataTime: Option<Time>

    /** The object's current column values. */
    function Snapshot(): Row
      reads this
    {
      Row(id, title, description, creatorId, assignedUserId, status,
          createDateTime, deadLineDate, priority, doneDataTime)
    }

    /** The no-argument constructor: every field stays null. */
    constructor Empty()
      ensures Snapshot() == NullRow
    {
      id, title, description, creatorId, assignedUserId := None, None, None, None, None;
      status, createDateTime, deadLineDate, priority, doneDataTime := None, None, None, None, None;
    }

    /** The ten-argument constructor: each argument goes to the field of the same name. */
    constructor (id: Option<int>, title: Option<string>, description: Option<string>,
                 creatorId: Option<int>, assignedUserId: Option<int>, status: Option<Status>,
                 createDateTime: Option<Time>, deadLineDate: Option<Time>,
                 priority: Option<Priority>, doneDataTime: Option<Time>)
      ensures Snapshot() == Row(id, title, description, creatorId, assignedUserId, status,
                                createDateTime, deadLineDate, priority, doneDataTime)
    {
      this.id := id;
      this.title := title;
      this.description := description;
      this.creatorId := creatorId;
      this.assignedUserId := assignedUserId;
      this.status := status;
      this.createDateTime := createDateTime;
      this.deadLineDate := deadLineDate;
      this.priority := priority;
      this.doneDataTime := doneDataTime;
    }

    method SetId(id: Option<int>)
      modifies this`id
      ensures Snapshot() == old(Snapshot()).(id := id)
    {
      this.id := id;
    }

    method SetTitle(title: Option<string>)
      modifies this`title
      ensures Snapshot() == old(Snapshot()).(title := title)
    {
      this.title := title;
    }

    method SetDescription(description: Option<string>)
      modifies this`description
      ensures Snapshot() == old(Snapshot()).(description := description)
    {
      this.description := description;
    }

    method SetCreatorId(creatorId: Option<int>)
      modifies this`creatorId
      ensures Snapshot() == old(Snapshot()).(creatorId := creatorId)
    {
      this.creatorId := creatorId;
    }

    method SetAssignedUserId(assignedUserId: Option<int>)
      modifies this`assignedUserId
      ensures Snapshot() == old(Snapshot()).(assignedUserId := assignedUserId)
    {
      this.assignedUserId := assignedUserId;
    }

    /** Unlike the other setters, this one returns the value it assigns. */
    method SetStatus(status: Option<Status>) returns (newStatus: Option<Status>)
      modifies this`status
      ensures Snapshot() == old(Snapshot()).(status := status)
      ensures newStatus == status
    {
      this.status := status;
      newStatus := this.status;
    }

    method SetCreateDateTime(createDateTime: Option<Time>)
      modifies this`createDateTime
      ensures Snapshot() == old(Snapshot()).(createDateTime := createDateTime)
    {
      this.createDateTime := createDateTime;
    }

    method SetDeadLineDate(deadLineDate: Option<Time>)
      modifies this`deadLineDate
      ensures Snapshot() == old(Snapshot()).(deadLineDate := deadLineDate)
    {
      this.deadLineDate := deadLineDate;
    }

    method SetPriority(priority: Option<Priority>)
      modifies this`priority
      ensures Snapshot() == old(Snapshot()).(priority := priority)
    {
      this.priority := priority;
    }

    method SetDoneDataTime(doneDataTime: Option<Time>)
      modifies this`doneDataTime
      ensures Snapshot() == old(Snapshot()).(doneDataTime := doneDataTime)
    {
      this.doneDataTime := doneDataTime;
    }
  }
}
