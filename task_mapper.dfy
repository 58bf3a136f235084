/** tasks/TaskMapper.java: field-by-field copies between the REST record and
    the entity. An entity is represented here by its column values (Row). */
module TaskMapper {
  import opened Domain
  import opened TaskEntities

  function FromEntityToDomain(e: Row): Task {
    Task(e.id, e.title, e.description, e.creatorId, e.assignedUserId, e.status,
         e.createDateTime, e.deadLineDate, e.priority, e.doneDataTime)
  }

  function FromDomainToEntity(t: Task): Row {
    Row(t.id, t.title, t.description, t.creatorId, t.assignedUserId, t.status,
        t.createDateTime, t.deadLineDate, t.priority, t.doneDataTime)
  }

  /** fromDomainToEntity as the Java code runs it: a new object through the
      ten-argument constructor. */
  method NewEntityFromDomain(t: Task) returns (e: TaskEntity)
    ensures fresh(e)
    ensures e.Snapshot() == FromDomainToEntity(t)
  {
    e := new TaskEntity(t.id, t.title, t.description, t.creatorId, t.assignedUserId, t.status,
                        t.createDateTime, t.deadLineDate, t.priority, t.doneDataTime);
  }

  lemma DomainRoundTrip(t: Task)
    ensures FromEntityToDomain(FromDomainToEntity(t)) == t
  {
  }

  lemma EntityRoundTrip(e: Row)
    ensures FromDomainToEntity(FromEntityToDomain(e)) == e
  {
  }

  /** Each column lands in the record field of the same name; null stays null
      (in particular id, status and doneDataTime get no default). */
  lemma EntityToDomainCopiesFields(e: Row)
    ensures var t := FromEntityToDomain(e);
      && t.id == e.id && t.title == e.title && t.description == e.description
      && t.creatorId == e.creatorId && t.assignedUserId == e.assignedUserId
      && t.status == e.status && t.createDateTime == e.createDateTime
      && t.deadLineDate == e.deadLineDate && t.priority == e.priority
      && t.doneDataTime == e.doneDataTime
  {
  }

  /** Each record field lands in the column of the same name; null stays null. */
  lemma DomainToEntityCopiesFields(t: Task)
    ensures var e := FromDomainToEntity(t);
      && e.id == t.id && e.title == t.title && e.description == t.description
      && e.creatorId == t.creatorId && e.assignedUserId == t.assignedUserId
      && e.status == t.status && e.createDateTime == t.createDateTime
      && e.deadLineDate == t.deadLineDate && e.priority == t.priority
      && e.doneDataTime == t.doneDataTime
  {
  }

  /** Distinct entities give distinct records: nothing is dropped. */
  lemma FromEntityToDomainInjective(a: Row, b: Row)
    ensures FromEntityToDomain(a) == FromEntityToDomain(b) ==> a == b
  {
  }
}
