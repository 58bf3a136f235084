/** tasks/TaskRepository.java: the "tasks" table behind a JpaRepository, the
    three JPQL queries and the derived query over it, and the store object the
    service talks to (findById, save, delete, setStatus). */
module TaskRepository {
  import opened Domain
  import opened TaskEntities

  /** The table, keyed by id, and the identity counter that hands out new ids. */
  datatype Table = Table(rows: map<int, Row>, nextId: int)

  /** Every row sits under its own id, and the counter is above every key, so a
      generated id is never one already in use. */
  predicate WellFormed(t: Table) {
    forall k :: k in t.rows ==> t.rows[k].id == Some(k) && k < t.nextId
  }

  /** The most IN_PROGRESS tasks one assignee may hold. */
  const Capacity: nat := 5

  // ---------------------------------------------------------------------------
  // Queries

  /** JPQL `column = :param`: a comparison with null is never true in SQL. */
  predicate ColumnEquals<T(==)>(column: Option<T>, param: Option<T>) {
    param.Some? && column == param
  }

  /** JPQL `(:param IS NULL OR column = :param)`. */
  predicate FilterField<T(==)>(column: Option<T>, param: Option<T>) {
    param.None? || ColumnEquals(column, param)
  }

  /** findAllEntitiesByAssignedUserId is a derived query: Spring Data turns a
      null argument into `IS NULL`, so null finds the unassigned rows. */
  function EntitiesOfAssignee(rows: map<int, Row>, assignedUserId: Option<int>): map<int, Row> {
    map k | k in rows && rows[k].assignedUserId == assignedUserId :: rows[k]
  }

  /** The keys of the rows countByAssignedUserIdAndStatus counts. */
  function CountedKeys(rows: map<int, Row>, assignedUserId: Option<int>, status: Option<Status>): set<int> {
    set k | k in rows && ColumnEquals(rows[k].assignedUserId, assignedUserId) && ColumnEquals(rows[k].status, status)
  }

  /** countByAssignedUserIdAndStatus (TaskRepository.java:21-29). */
  function CountOfAssigneeInStatus(rows: map<int, Row>, assignedUserId: Option<int>, status: Option<Status>): nat {
    |CountedKeys(rows, assignedUserId, status)|
  }

  /** The WHERE clause of searchAllByFilter (TaskRepository.java:45-51). */
  predicate MatchesFilter(r: Row, creatorId: Option<int>, assignedUserId: Option<int>,
                          status: Option<Status>, priority: Option<Priority>)
  {
    && FilterField(r.creatorId, creatorId)
    && FilterField(r.assignedUserId, assignedUserId)
    && FilterField(r.status, status)
    && FilterField(r.priority, priority)
  }

  /** searchAllByFilter without the page: every row the WHERE clause admits. */
  function RowsMatchingFilter(rows: map<int, Row>, creatorId: Option<int>, assignedUserId: Option<int>,
                             status: Option<Status>, priority: Option<Priority>): map<int, Row>
  {
    map k | k in rows && MatchesFilter(rows[k], creatorId, assignedUserId, status, priority) :: rows[k]
  }

  /** Every assignee holds at most Capacity IN_PROGRESS tasks. */
  ghost predicate WithinCapacity(rows: map<int, Row>) {
    forall u: int :: CountOfAssigneeInStatus(rows, Some(u), Some(IN_PROGRESS)) <= Capacity
  }

  // ---------------------------------------------------------------------------
  // Writes, as functions of the table

  /** The table after a save, and the row as stored. */
  datatype Saved = Saved(table: Table, row: Row)

  /** save: a null id inserts under a newly generated id; any other id
      replaces (or inserts) the row under that id. The counter is kept above
      every key, standing in for the database's identity column. */
  function SaveRow(t: Table, r: Row): (s: Saved)
    ensures s.row.id.Some? && s.table.rows == t.rows[s.row.id.value := s.row]
    ensures r.id.None? ==> s.row == r.(id := Some(t.nextId))
    ensures r.id.Some? ==> s.row == r
    ensures WellFormed(t) && r.id.None? ==> s.row.id.value !in t.rows
    ensures WellFormed(t) ==> WellFormed(s.table)
  {
    match r.id
    case None =>
      var stored := r.(id := Some(t.nextId));
      Saved(Table(t.rows[t.nextId := stored], t.nextId + 1), stored)
    case Some(k) =>
      Saved(Table(t.rows[k := r], Max(t.nextId, k + 1)), r)
  }

  /** delete(entity): removes the row under the entity's id, if there is one. */
  function DeleteRow(t: Table, id: Option<int>): (t': Table)
    ensures id.Some? ==> t' == Table(t.rows - {id.value}, t.nextId)
    ensures id.None? ==> t' == t
    ensures forall k :: k in t'.rows <==> k in t.rows && Some(k) != id
    ensures WellFormed(t) ==> WellFormed(t')
  {
    if id.Some? then Table(t.rows - {id.value}, t.nextId) else t
  }

  /** The JPQL update of setStatus (TaskRepository.java:32-41); a null id
      matches no row. */
  function SetStatusRows(rows: map<int, Row>, id: Option<int>, status: Option<Status>): map<int, Row> {
    if id.Some? && id.value in rows then rows[id.value := rows[id.value].(status := status)] else rows
  }

  // ---------------------------------------------------------------------------
  // The store object

  class TaskStore {
    var rows: map<int, Row>
    var nextId: int

    function State(): Table
      reads this
    {
      Table(rows, nextId)
    }

    predicate Valid()
      reads this
    {
      WellFormed(State())
    }

    /** An empty table whose identity column starts at 1. */
    constructor ()
      ensures Valid() && rows == map[] && nextId == 1
    {
      rows, nextId := map[], 1;
    }

    /** findById: a detached copy of the row, or null (Optional.empty). */
    method FindById(id: int) returns (e: TaskEntity?)
      ensures e != null <==> id in rows
      ensures e != null ==> fresh(e) && e.Snapshot() == rows[id]
    {
      if id in rows {
        var r := rows[id];
        e := new TaskEntity(r.id, r.title, r.description, r.creatorId, r.assignedUserId, r.status,
                            r.createDateTime, r.deadLineDate, r.priority, r.doneDataTime);
      } else {
        e := null;
      }
    }

    /** findAll without the page: every row. */
    method FindAll() returns (found: map<int, Row>)
      ensures found == rows
    {
      found := rows;
    }

    /** findAllEntitiesByAssignedUserId. */
    method FindAllEntitiesByAssignedUserId(assignedUserId: Option<int>) returns (found: map<int, Row>)
      ensures found == EntitiesOfAssignee(rows, assignedUserId)
    {
      found := EntitiesOfAssignee(rows, assignedUserId);
    }

    /** countByAssignedUserIdAndStatus. */
    method CountByAssignedUserIdAndStatus(assignedUserId: Option<int>, status: Option<Status>) returns (count: nat)
      ensures count == CountOfAssigneeInStatus(rows, assignedUserId, status)
    {
      count := CountOfAssigneeInStatus(rows, assignedUserId, status);
    }

    /** searchAllByFilter without the page. */
    method SearchAllByFilter(creatorId: Option<int>, assignedUserId: Option<int>,
                             status: Option<Status>, priority: Option<Priority>) returns (found: map<int, Row>)
      ensures found == RowsMatchingFilter(rows, creatorId, assignedUserId, status, priority)
    {
      found := RowsMatchingFilter(rows, creatorId, assignedUserId, status, priority);
    }

    /** save: returns the entity as stored, with its id filled in. */
    method Save(e: TaskEntity) returns (saved: TaskEntity)
      requires Valid()
      modifies this
      ensures Valid()
      ensures fresh(saved)
      ensures State() == SaveRow(old(State()), e.Snapshot()).table
      ensures saved.Snapshot() == SaveRow(old(State()), e.Snapshot()).row
    {
      var s := SaveRow(State(), e.Snapshot());
      rows, nextId := s.table.rows, s.table.nextId;
      var r := s.row;
      saved := new TaskEntity(r.id, r.title, r.description, r.creatorId, r.assignedUserId, r.status,
                              r.createDateTime, r.deadLineDate, r.priority, r.doneDataTime);
    }

    method Delete(e: TaskEntity)
      requires Valid()
      modifies this
      ensures Valid()
      ensures State() == DeleteRow(old(State()), e.id)
    {
      var t := DeleteRow(State(), e.id);
      rows := t.rows;
    }

    /** setStatus: changes only the status of row id; every other column and
        every other row stays as it was, and an absent id changes nothing. */
    method SetStatus(id: Option<int>, status: Option<Status>)
      modifies this
      ensures rows == SetStatusRows(old(rows), id, status) && nextId == old(nextId)
      ensures rows.Keys == old(rows).Keys
      ensures forall k :: k in rows && Some(k) != id ==> rows[k] == old(rows)[k]
      ensures id.Some? && id.value in rows ==> rows[id.value] == old(rows)[id.value].(status := status)
      ensures old(Valid()) ==> Valid()
    {
      rows := SetStatusRows(rows, id, status);
    }
  }

  // ---------------------------------------------------------------------------
  // Properties of the queries

  /** The filter is the intersection of its four one-field filters. */
  lemma SearchIsIntersection(rows: map<int, Row>, creatorId: Option<int>, assignedUserId: Option<int>,
                             status: Option<Status>, priority: Option<Priority>)
    ensures RowsMatchingFilter(rows, creatorId, assignedUserId, status, priority).Keys
         == RowsMatchingFilter(rows, creatorId, None, None, None).Keys
          * RowsMatchingFilter(rows, None, assignedUserId, None, None).Keys
          * RowsMatchingFilter(rows, None, None, status, None).Keys
          * RowsMatchingFilter(rows, None, None, None, priority).Keys
  {
    var all := RowsMatchingFilter(rows, creatorId, assignedUserId, status, priority);
    var byCreator := RowsMatchingFilter(rows, creatorId, None, None, None);
    var byAssignee := RowsMatchingFilter(rows, None, assignedUserId, None, None);
    var byStatus := RowsMatchingFilter(rows, None, None, status, None);
    var byPriority := RowsMatchingFilter(rows, None, None, None, priority);
    forall k
      ensures k in all.Keys <==> k in byCreator.Keys * byAssignee.Keys * byStatus.Keys * byPriority.Keys
    {
    }
  }

  /** Each row found by the search is a row of the table, unchanged, and it
      equals every filter field that was given. */
  lemma SearchFindsMatchingRows(rows: map<int, Row>, creatorId: Option<int>, assignedUserId: Option<int>,
                                status: Option<Status>, priority: Option<Priority>, k: int)
    ensures var found := RowsMatchingFilter(rows, creatorId, assignedUserId, status, priority);
      k in found <==>
        && k in rows
        && (creatorId.Some? ==> rows[k].creatorId == creatorId)
        && (assignedUserId.Some? ==> rows[k].assignedUserId == assignedUserId)
        && (status.Some? ==> rows[k].status == status)
        && (priority.Some? ==> rows[k].priority == priority)
    ensures var found := RowsMatchingFilter(rows, creatorId, assignedUserId, status, priority);
      k in found ==> found[k] == rows[k]
  {
  }

  /** An all-null filter admits every row. */
  lemma AllNullFilterMatchesAll(rows: map<int, Row>)
    ensures RowsMatchingFilter(rows, None, None, None, None) == rows
  {
    var found := RowsMatchingFilter(rows, None, None, None, None);
    forall k | k in rows
      ensures k in found && found[k] == rows[k]
    {
      assert MatchesFilter(rows[k], None, None, None, None);
    }
    assert found.Keys == rows.Keys;
  }

  /** The count is the size of the unpaged search on assignee and status. */
  lemma CountIsSearchSize(rows: map<int, Row>, assignedUserId: int, status: Status)
    ensures CountOfAssigneeInStatus(rows, Some(assignedUserId), Some(status))
         == |RowsMatchingFilter(rows, None, Some(assignedUserId), Some(status), None)|
  {
    var found := RowsMatchingFilter(rows, None, Some(assignedUserId), Some(status), None);
    var counted := CountedKeys(rows, Some(assignedUserId), Some(status));
    forall k
      ensures k in found.Keys <==> k in counted
    {
    }
    assert found.Keys == counted;
  }

  /** A null assignee is counted as holding nothing, however many rows have a
      null assignee (SQL `= NULL` is never true). */
  lemma CountOfNullAssigneeIsZero(rows: map<int, Row>, status: Option<Status>)
    ensures CountOfAssigneeInStatus(rows, None, status) == 0
  {
    var counted := CountedKeys(rows, None, status);
    assert forall k :: k !in counted;
    assert counted == {};
  }

  /** For a given assignee, the derived query and the filter agree. */
  lemma FindAllIsSearchByAssignee(rows: map<int, Row>, assignedUserId: int)
    ensures EntitiesOfAssignee(rows, Some(assignedUserId))
         == RowsMatchingFilter(rows, None, Some(assignedUserId), None, None)
  {
    var found := EntitiesOfAssignee(rows, Some(assignedUserId));
    var searched := RowsMatchingFilter(rows, None, Some(assignedUserId), None, None);
    forall k
      ensures k in found <==> k in searched
    {
    }
    assert found.Keys == searched.Keys;
  }

  /** For a null assignee they do not: the derived query finds exactly the
      unassigned rows, where the filter finds every row. */
  lemma FindAllOfNullAssignee(rows: map<int, Row>, k: int)
    ensures k in EntitiesOfAssignee(rows, None) <==> k in rows && rows[k].assignedUserId.None?
  {
  }

  /** The derived query returns exactly the rows of that assignee. */
  lemma FindAllFindsAssigneeRows(rows: map<int, Row>, assignedUserId: Option<int>, k: int)
    ensures var found := EntitiesOfAssignee(rows, assignedUserId);
      (k in found <==> k in rows && rows[k].assignedUserId == assignedUserId)
      && (k in found ==> found[k] == rows[k])
  {
  }

  /** Writing a row that is not IN_PROGRESS under any key never raises an
      assignee's IN_PROGRESS count. */
  lemma WriteInactiveKeepsCounts(rows: map<int, Row>, k: int, r: Row, u: int)
    requires r.status != Some(IN_PROGRESS)
    ensures CountOfAssigneeInStatus(rows[k := r], Some(u), Some(IN_PROGRESS))
         <= CountOfAssigneeInStatus(rows, Some(u), Some(IN_PROGRESS))
  {
    SubsetCardinality(CountedKeys(rows[k := r], Some(u), Some(IN_PROGRESS)),
                      CountedKeys(rows, Some(u), Some(IN_PROGRESS)));
  }

  lemma WriteInactiveKeepsCapacity(rows: map<int, Row>, k: int, r: Row)
    requires WithinCapacity(rows)
    requires r.status != Some(IN_PROGRESS)
    ensures WithinCapacity(rows[k := r])
  {
    forall u: int
      ensures CountOfAssigneeInStatus(rows[k := r], Some(u), Some(IN_PROGRESS)) <= Capacity
    {
      WriteInactiveKeepsCounts(rows, k, r, u);
    }
  }

  /** Removing rows never raises a count. */
  lemma RemoveKeepsCapacity(rows: map<int, Row>, ks: set<int>)
    requires WithinCapacity(rows)
    ensures WithinCapacity(rows - ks)
  {
    forall u: int
      ensures CountOfAssigneeInStatus(rows - ks, Some(u), Some(IN_PROGRESS)) <= Capacity
    {
      SubsetCardinality(CountedKeys(rows - ks, Some(u), Some(IN_PROGRESS)),
                        CountedKeys(rows, Some(u), Some(IN_PROGRESS)));
    }
  }

  /** setStatus changes the status of row id and nothing else: the same keys,
      every other row and every other column as they were, and no change at
      all for an absent or null id. */
  lemma SetStatusChangesOnlyThatRow(rows: map<int, Row>, id: Option<int>, status: Option<Status>, k: int)
    ensures SetStatusRows(rows, id, status).Keys == rows.Keys
    ensures k in rows && Some(k) != id ==> SetStatusRows(rows, id, status)[k] == rows[k]
    ensures k in rows && Some(k) == id ==> SetStatusRows(rows, id, status)[k] == rows[k].(status := status)
    ensures (id.None? || id.value !in rows) ==> SetStatusRows(rows, id, status) == rows
  {
  }
}
