/** repository/Repository.java: an in-memory HashMap of model tasks, seeded
    with three tasks when it is built, next to an id counter that nothing
    reads. Both are objects the repository hands out by reference. */
module SeededRepository {
  import opened Domain
  import opened LegacyModel

  /** java.util.concurrent.atomic.AtomicLong, reduced to the value the
      repository gives it: new AtomicLong() holds 0. */
  class AtomicLong {
    var value: int

    constructor ()
      ensures value == 0
    {
      value := 0;
    }
  }

  /** What HashMap.get answers: the value under the key, or null for an
      absent key. A key may be null, and so may a value. */
  function Lookup(contents: map<Option<int>, Option<LegacyTask>>, key: Option<int>): (v: Option<LegacyTask>)
    ensures key !in contents ==> v.None?
    ensures v.Some? ==> key in contents && contents[key] == v
  {
    if key in contents then contents[key] else None
  }

  /** After a put, the key answers the value put and every other key answers
      what it did before. */
  lemma LookupAfterPut(contents: map<Option<int>, Option<LegacyTask>>, key: Option<int>,
                       value: Option<LegacyTask>, other: Option<int>)
    ensures Lookup(contents[key := value], key) == value
    ensures other != key ==> Lookup(contents[key := value], other) == Lookup(contents, other)
  {
  }

  /** java.util.HashMap<Long, Task>: null keys and null values allowed. */
  class TaskHashMap {
    var contents: map<Option<int>, Option<LegacyTask>>

    /** new HashMap<>(m): a copy of m. */
    constructor (initial: map<Option<int>, Option<LegacyTask>>)
      ensures contents == initial
    {
      contents := initial;
    }

    method Get(key: Option<int>) returns (v: Option<LegacyTask>)
      ensures v == Lookup(contents, key)
    {
      if key in contents {
        v := contents[key];
      } else {
        v := None;
      }
    }

    /** Stores value under key, replacing any earlier value, and answers what
        get would have answered before. */
    method Put(key: Option<int>, value: Option<LegacyTask>) returns (previous: Option<LegacyTask>)
      modifies this
      ensures contents == old(contents)[key := value]
      ensures previous == Lookup(old(contents), key)
    {
      previous := Lookup(contents, key);
      contents := contents[key := value];
    }
  }

  /** The three tasks the constructor puts in the map, all created now by
      user 1 for user 1. */
  function Seed(now: Time): map<Option<int>, Option<LegacyTask>> {
    map[Some(1) := Some(LegacyTask(Some(1), Some(1), Some(1), Some(CREATED), Some(now), Some(PlusDays(now, 10)), Some(LOW))),
        Some(2) := Some(LegacyTask(Some(2), Some(1), Some(1), Some(IN_PROGRESS), Some(now), Some(PlusDays(now, 5)), Some(MEDIUM))),
        Some(3) := Some(LegacyTask(Some(3), Some(1), Some(1), Some(IN_PROGRESS), Some(now), Some(PlusDays(now, 3)), Some(LOW)))]
  }

  /** The seed holds exactly keys 1, 2 and 3, each a non-null task stored
      under its own id; task 1 is CREATED, tasks 2 and 3 are IN_PROGRESS,
      every deadline lies ahead, and user 1 creates and is assigned all three. */
  lemma SeedContents(now: Time)
    ensures Seed(now).Keys == {Some(1), Some(2), Some(3)}
    ensures forall k :: k in Seed(now) ==> Seed(now)[k].Some? && Seed(now)[k].value.id == k
    ensures Seed(now)[Some(1)].value.status == Some(CREATED)
    ensures Seed(now)[Some(2)].value.status == Some(IN_PROGRESS)
    ensures Seed(now)[Some(3)].value.status == Some(IN_PROGRESS)
    ensures forall k :: k in Seed(now) ==>
      var task := Seed(now)[k].value;
      && task.creatorId == Some(1) && task.assignedUserId == Some(1)
      && task.createDateTime == Some(now)
      && task.deadLineDate.Some? && task.deadLineDate.value > now
  {
  }

  class Repository {
    const idCounter: AtomicLong
    const repository: TaskHashMap

    /** Both arguments are ignored: the counter and the map are new objects,
        the counter at 0 and the map holding the seed. The clock reading
        taken by LocalDateTime.now() is the parameter now. */
    constructor (idCounter: AtomicLong?, repository: TaskHashMap?, now: Time)
      ensures fresh(this.idCounter) && fresh(this.repository)
      ensures this.idCounter.value == 0
      ensures this.repository.contents == Seed(now)
    {
      this.idCounter := new AtomicLong();
      this.repository := new TaskHashMap(Seed(now));
    }

    /** The counter object itself, not a copy of its value. */
    method GetIdCounter() returns (c: AtomicLong)
      ensures c == idCounter
    {
      c := idCounter;
    }

    /** The map object itself: a caller's put through it changes this
        repository. */
    method GetRepository() returns (m: TaskHashMap)
      ensures m == repository
    {
      m := repository;
    }

    /** map.get: null, not an exception, for an absent key. */
    method GetTaskById(id: Option<int>) returns (t: Option<LegacyTask>)
      ensures t == Lookup(repository.contents, id)
    {
      t := repository.Get(id);
    }

    /** map.put: the key need not be the task's id; an existing key is
        overwritten. */
    method CreateNewTask(id: Option<int>, task: Option<LegacyTask>)
      modifies repository
      ensures repository.contents == old(repository.contents)[id := task]
      ensures Lookup(repository.contents, id) == task
      ensures forall k :: k != id ==> Lookup(repository.contents, k) == Lookup(old(repository.contents), k)
    {
      var _ := repository.Put(id, task);
    }
  }
}
