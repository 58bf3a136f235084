/** The data and the store of the older variant: model/Task.java,
    model/TaskEntity.java (seven fields, no title, description or completion
    time) and the JpaRepository behind repository/TaskRepository.java. The
    entity is read, copied and saved as a value. */
module LegacyModel {
  import opened Domain

  /** model/Task.java */
  datatype LegacyTask = LegacyTask(
    id: Option<int>,
    creatorId: Option<int>,
    assignedUserId: Option<int>,
    status: Option<Status>,
    createDateTime: Option<Time>,
    deadLineDate: Option<Time>,
    priority: Option<Priority>)

  /** model/TaskEntity.java: the seven column values of one entity. */
  datatype LegacyRow = LegacyRow(
    id: Option<int>,
    creatorId: Option<int>,
    assignedUserId: Option<int>,
    status: Option<Status>,
    createDateTime: Option<Time>,
    deadLineDate: Option<Time>,
    priority: Option<Priority>)

  /** The no-argument constructor: every field null. */
  const EmptyProbe: LegacyRow := LegacyRow(None, None, None, None, None, None, None)

  /** The service's private fromEntityToDomain. */
  function FromEntityToDomain(e: LegacyRow): LegacyTask {
    LegacyTask(e.id, e.creatorId, e.assignedUserId, e.status, e.createDateTime, e.deadLineDate, e.priority)
  }

  /** A list of entities mapped with fromEntityToDomain, keyed by id. */
  function ToDomainAll(found: map<int, LegacyRow>): (r: map<int, LegacyTask>)
    ensures r.Keys == found.Keys
  {
    map k | k in found :: FromEntityToDomain(found[k])
  }

  /** Each column lands in the field of the same name: distinct entities give
      distinct records. */
  lemma FromEntityToDomainInjective(a: LegacyRow, b: LegacyRow)
    ensures FromEntityToDomain(a) == FromEntityToDomain(b) ==> a == b
  {
  }

  // ---------------------------------------------------------------------------
  // The table

  datatype LegacyTable = LegacyTable(rows: map<int, LegacyRow>, nextId: int)

  /** Every row is stored under its own id, below the next generated one. */
  predicate WellFormed(t: LegacyTable) {
    forall k :: k in t.rows ==> t.rows[k].id == Some(k) && k < t.nextId
  }

  /** Query by example: a row matches when it equals every non-null field of
      the probe; null probe fields are ignored. */
  predicate MatchesExample(r: LegacyRow, probe: LegacyRow) {
    && (probe.id.None? || r.id == probe.id)
    && (probe.creatorId.None? || r.creatorId == probe.creatorId)
    && (probe.assignedUserId.None? || r.assignedUserId == probe.assignedUserId)
    && (probe.status.None? || r.status == probe.status)
    && (probe.createDateTime.None? || r.createDateTime == probe.createDateTime)
    && (probe.deadLineDate.None? || r.deadLineDate == probe.deadLineDate)
    && (probe.priority.None? || r.priority == probe.priority)
  }

  /** findAll(Example.of(probe)) */
  function RowsMatchingExample(rows: map<int, LegacyRow>, probe: LegacyRow): map<int, LegacyRow> {
    map k | k in rows && MatchesExample(rows[k], probe) :: rows[k]
  }

  /** The IN_PROGRESS rows of assignee u: what the capacity rule limits. */
  function ActiveKeys(rows: map<int, LegacyRow>, u: int): set<int> {
    set k | k in rows && rows[k].assignedUserId == Some(u) && rows[k].status == Some(IN_PROGRESS)
  }

  ghost predicate WithinCapacity(rows: map<int, LegacyRow>) {
    forall u: int :: |ActiveKeys(rows, u)| <= 5
  }

  datatype Saved = Saved(table: LegacyTable, row: LegacyRow)

  /** save: a null id inserts under the next generated id; any other id
      replaces or inserts the row under that key. */
  function SaveRow(t: LegacyTable, r: LegacyRow): (s: Saved)
    ensures s.row.id.Some? && s.table.rows == t.rows[s.row.id.value := s.row]
    ensures r.id.None? ==> s.row == r.(id := Some(t.nextId))
    ensures r.id.Some? ==> s.row == r
    ensures WellFormed(t) && r.id.None? ==> t.nextId !in t.rows
    ensures WellFormed(t) ==> WellFormed(s.table)
  {
    if r.id.None? then
      var row := r.(id := Some(t.nextId));
      Saved(LegacyTable(t.rows[t.nextId := row], t.nextId + 1), row)
    else
      Saved(LegacyTable(t.rows[r.id.value := r], Max(t.nextId, r.id.value + 1)), r)
  }

  /** delete: removes the row with the entity's id, if any. */
  function DeleteRow(t: LegacyTable, id: Option<int>): (t': LegacyTable)
    ensures id.Some? ==> t' == LegacyTable(t.rows - {id.value}, t.nextId)
    ensures id.None? ==> t' == t
    ensures WellFormed(t) ==> WellFormed(t')
  {
    if id.Some? then LegacyTable(t.rows - {id.value}, t.nextId) else t
  }

  /** An all-null probe matches every row. */
  lemma EmptyProbeMatchesAll(rows: map<int, LegacyRow>)
    ensures RowsMatchingExample(rows, EmptyProbe) == rows
  {
    var found := RowsMatchingExample(rows, EmptyProbe);
    forall k | k in rows
      ensures k in found && found[k] == rows[k]
    {
      assert MatchesExample(rows[k], EmptyProbe);
    }
    assert found.Keys == rows.Keys;
  }

  /** A probe with only an assignee finds exactly that assignee's rows, of
      every status. */
  lemma AssigneeProbeFindsAssigneeRows(rows: map<int, LegacyRow>, u: int, k: int)
    ensures var found := RowsMatchingExample(rows, EmptyProbe.(assignedUserId := Some(u)));
      (k in found <==> k in rows && rows[k].assignedUserId == Some(u))
      && (k in found ==> found[k] == rows[k])
  {
  }

  /** The IN_PROGRESS tasks of an assignee are among all of them, so the
      all-status count bounds the IN_PROGRESS count. */
  lemma ActiveAmongAllOfAssignee(rows: map<int, LegacyRow>, u: int)
    ensures |ActiveKeys(rows, u)| <= |RowsMatchingExample(rows, EmptyProbe.(assignedUserId := Some(u)))|
  {
    var probe := EmptyProbe.(assignedUserId := Some(u));
    var all := RowsMatchingExample(rows, probe);
    forall k | k in ActiveKeys(rows, u)
      ensures k in all.Keys
    {
      assert MatchesExample(rows[k], probe);
    }
    SubsetCardinality(ActiveKeys(rows, u), all.Keys);
  }

  /** findById and friends on the JpaRepository of the older variant. */
  class LegacyStore {
    var rows: map<int, LegacyRow>
    var nextId: int

    function State(): LegacyTable
      reads this
    {
      LegacyTable(rows, nextId)
    }

    predicate Valid()
      reads this
    {
      WellFormed(State())
    }

    constructor ()
      ensures Valid() && rows == map[] && nextId == 1
    {
      rows, nextId := map[], 1;
    }

    method FindById(id: int) returns (e: Option<LegacyRow>)
      ensures e.Some? <==> id in rows
      ensures e.Some? ==> e.value == rows[id]
    {
      if id in rows {
        e := Some(rows[id]);
      } else {
        e := None;
      }
    }

    method FindAll() returns (found: map<int, LegacyRow>)
      ensures found == rows
    {
      found := rows;
    }

    method FindAllByExample(probe: LegacyRow) returns (found: map<int, LegacyRow>)
      ensures found == RowsMatchingExample(rows, probe)
    {
      found := RowsMatchingExample(rows, probe);
    }

    method Save(e: LegacyRow) returns (saved: LegacyRow)
      requires Valid()
      modifies this
      ensures Valid()
      ensures State() == SaveRow(old(State()), e).table
      ensures saved == SaveRow(old(State()), e).row
    {
      var s := SaveRow(State(), e);
      rows, nextId := s.table.rows, s.table.nextId;
      saved := s.row;
    }

    method Delete(e: LegacyRow)
      requires Valid()
      modifies this
      ensures Valid()
      ensures State() == DeleteRow(old(State()), e.id)
    {
      rows := DeleteRow(State(), e.id).rows;
    }
  }
}
