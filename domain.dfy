/** Values shared by the task services: nullable references, the two enums,
    the exceptions the services throw, and the records the REST layer exchanges. */
module Domain {

  /** A Java reference that may be null. */
  datatype Option<+T> = None | Some(value: T)

  /** A java.time.LocalDateTime, as whole seconds on one time line. */
  type Time = int

  const SecondsPerDay: int := 86400

  /** LocalDateTime.plusDays */
  function PlusDays(t: Time, days: int): (r: Time)
    ensures days > 0 ==> r > t
  {
    t + days * SecondsPerDay
  }

  datatype Status = CREATED | UPDATED | IN_PROGRESS | DONE

  datatype Priority = LOW | MEDIUM | HIGH

  /** The exceptions the services throw, by class. */
  datatype Error =
    | EntityNotFound   // jakarta.persistence.EntityNotFoundException
    | IllegalArgument  // IllegalArgumentException
    | IllegalState     // IllegalStateException
    | NoSuchElement    // java.util.NoSuchElementException
    | NullPointer      // a method called on a null field (deadLineDate().isBefore(...))

  /** A value, or the exception thrown instead of returning it. */
  datatype Result<+T> = Ok(value: T) | Err(error: Error)

  /** What one service operation returns, and the store it leaves behind. */
  datatype Step<+T, +S> = Step(result: Result<T>, after: S)

  /** tasks/Task.java: the record the REST layer exchanges. */
  datatype Task = Task(
    id: Option<int>,
    title: Option<string>,
    description: Option<string>,
    creatorId: Option<int>,
    assignedUserId: Option<int>,
    status: Option<Status>,
    createDateTime: Option<Time>,
    deadLineDate: Option<Time>,
    priority: Option<Priority>,
    doneDataTime: Option<Time>)

  /** tasks/TaskSearchFilter.java: every field may be left out. */
  datatype TaskSearchFilter = TaskSearchFilter(
    creatorId: Option<int>,
    assignedUserId: Option<int>,
    status: Option<Status>,
    priority: Option<Priority>,
    pageSize: Option<int>,
    pageNum: Option<int>)

  /** The whitespace that makes a title blank: space, tab, newline and
      carriage return. Character.isWhitespace also counts the other Unicode
      space separators and control separators. */
  predicate IsWhitespace(c: char) {
    c == ' ' || c == '\t' || c == '\n' || c == '\r'
  }

  /** @NotBlank: not null and holding some character that is not whitespace. */
  predicate NotBlank(s: Option<string>) {
    s.Some? && exists i :: 0 <= i < |s.value| && !IsWhitespace(s.value[i])
  }

  /** The bean-validation annotations on tasks/Task.java, which the framework
      checks before a payload reaches the service. */
  predicate ValidPayload(t: Task, now: Time) {
    && t.id.None?
    && NotBlank(t.title) && |t.title.value| <= 100
    && (t.description.Some? ==> |t.description.value| <= 500)
    && t.creatorId.Some? && t.creatorId.value > 0
    && t.assignedUserId.Some? && t.assignedUserId.value > 0
    && t.status.None?
    && t.createDateTime.None?
    && t.deadLineDate.Some? && t.deadLineDate.value > now
    && t.priority.Some?
    && t.doneDataTime.None?
  }

  function Max(a: int, b: int): int { if a < b then b else a }

  /** |a| <= |b| when a is a subset of b. */
  lemma SubsetCardinality<T>(a: set<T>, b: set<T>)
    requires a <= b
    ensures |a| <= |b|
  {
    assert b == a + (b - a);
    assert a * (b - a) == {};
  }
}
