/**
 * The database the server keeps through its ORM, reduced to what the core
 * uses: three tables (Playbook, Inventory, Task), inserts that assign the
 * next primary key, the lookup of a task by its `task_id`, and targeted
 * column updates. No row is ever deleted, so a table is a sequence whose row
 * at index k has primary key k + 1. Each call either succeeds or fails as a
 * whole; the failure is an input (`fault`), since it comes from the database.
 */
module Store {
  import opened Wrappers

  /** An artefact file: `file` inside the directory of task `taskId` under the data root. */
  datatype Path = Path(taskId: string, file: string)

  datatype PlaybookRow = PlaybookRow(id: nat, name: string, path: Path, creator: string)

  datatype InventoryRow = InventoryRow(id: nat, name: string, path: Path, creator: string)

  datatype TaskRow = TaskRow(
    id: nat,
    taskId: string,
    name: string,
    status: nat,
    updatedAt: int,
    playbookId: nat,
    inventoryId: nat,
    userId: nat,
    error: string)

  /** Task lifecycle codes stored in the status column. */
  const Pending: nat := 0
  const Running: nat := 1
  const Succeeded: nat := 2
  const Failed: nat := 3

  /** What gorm reports when `First` matches no row. */
  const RecordNotFound: string := "record not found"

  /** The columns one `Updates` call writes; `error` is None when that column is not part of the update. */
  datatype Columns = Columns(status: nat, updatedAt: int, error: Option<string>)

  /** Two rows agree on everything an update may not touch: key, task id, name, foreign keys. */
  predicate SameIdentity(a: TaskRow, b: TaskRow)
  {
    a.id == b.id && a.taskId == b.taskId && a.name == b.name &&
    a.playbookId == b.playbookId && a.inventoryId == b.inventoryId && a.userId == b.userId
  }

  /** A row after an update that writes `c`. */
  function Apply(row: TaskRow, c: Columns): (r: TaskRow)
    ensures SameIdentity(row, r)
    ensures c.error.None? ==> r.error == row.error
  {
    row.(status := c.status, updatedAt := c.updatedAt,
         error := if c.error.Some? then c.error.value else row.error)
  }

  /**
   * The row `First(&task, "task_id = ?", taskId)` loads: the one with the
   * lowest primary key among those whose task_id matches.
   */
  function FirstIndex(rows: seq<TaskRow>, taskId: string): (r: Option<nat>)
    ensures r.None? <==> forall k :: 0 <= k < |rows| ==> rows[k].taskId != taskId
    ensures r.Some? ==> r.value < |rows| && rows[r.value].taskId == taskId
    ensures r.Some? ==> forall k :: 0 <= k < r.value ==> rows[k].taskId != taskId
  {
    if rows == [] then None
    else if rows[0].taskId == taskId then Some(0)
    else match FirstIndex(rows[1..], taskId)
      case None => None
      case Some(k) => Some(k + 1)
  }

  /** The condition of a targeted update: `Where("task_id = ?", ...)` or `Where("id = ?", ...)`. */
  datatype Where = TaskIdIs(taskId: string) | IdIs(id: nat)

  predicate Matches(w: Where, row: TaskRow)
  {
    match w
    case TaskIdIs(taskId) => row.taskId == taskId
    case IdIs(id) => row.id == id
  }

  /**
   * The table after `Where(...).Updates(c)`: every row the condition matches
   * gets the written columns, every other row is left as it was.
   */
  function UpdatedWhere(rows: seq<TaskRow>, w: Where, c: Columns): (r: seq<TaskRow>)
    ensures |r| == |rows|
    ensures forall k :: 0 <= k < |rows| ==> SameIdentity(rows[k], r[k])
    ensures forall k :: 0 <= k < |rows| && !Matches(w, rows[k]) ==> r[k] == rows[k]
    ensures forall k :: 0 <= k < |rows| && Matches(w, rows[k]) ==>
              r[k].status == c.status && r[k].updatedAt == c.updatedAt &&
              r[k].error == (if c.error.Some? then c.error.value else rows[k].error)
  {
    seq(|rows|, k requires 0 <= k < |rows| => if Matches(w, rows[k]) then Apply(rows[k], c) else rows[k])
  }

  /** Repeating an update changes nothing more: the second write finds the columns already set. */
  lemma UpdatedWhereIdempotent(rows: seq<TaskRow>, w: Where, c: Columns)
    ensures UpdatedWhere(UpdatedWhere(rows, w, c), w, c) == UpdatedWhere(rows, w, c)
  {
    var once := UpdatedWhere(rows, w, c);
    var twice := UpdatedWhere(once, w, c);
    forall k | 0 <= k < |rows|
      ensures twice[k] == once[k]
    {
      assert Matches(w, once[k]) == Matches(w, rows[k]);
    }
  }

  /**
   * Of two updates through the same condition, the later one decides every
   * column it writes; the error column keeps the earlier write when the later
   * one leaves it out.
   */
  lemma UpdatedWhereLastWins(rows: seq<TaskRow>, w: Where, c1: Columns, c2: Columns)
    ensures UpdatedWhere(UpdatedWhere(rows, w, c1), w, c2)
         == UpdatedWhere(rows, w, c2.(error := if c2.error.Some? then c2.error else c1.error))
  {
    var first := UpdatedWhere(rows, w, c1);
    var both := UpdatedWhere(first, w, c2);
    forall k | 0 <= k < |rows|
      ensures both[k] == UpdatedWhere(rows, w, c2.(error := if c2.error.Some? then c2.error else c1.error))[k]
    {
      assert Matches(w, first[k]) == Matches(w, rows[k]);
    }
  }

  /** Primary keys 1, 2, 3, ... in insertion order. */
  predicate Numbered(rows: seq<TaskRow>)
  {
    forall k :: 0 <= k < |rows| ==> rows[k].id == k + 1
  }

  class Database {
    var playbooks: seq<PlaybookRow>
    var inventories: seq<InventoryRow>
    var tasks: seq<TaskRow>

    /** Every table's keys are its insertion positions, counted from 1. */
    ghost predicate Valid()
      reads this
    {
      (forall k :: 0 <= k < |playbooks| ==> playbooks[k].id == k + 1) &&
      (forall k :: 0 <= k < |inventories| ==> inventories[k].id == k + 1) &&
      Numbered(tasks)
    }

    constructor ()
      ensures Valid()
      ensures playbooks == [] && inventories == [] && tasks == []
    {
      playbooks, inventories, tasks := [], [], [];
    }

    /** `db.Create(&playbook)`: on success the row gets the next key, which is returned. */
    method CreatePlaybook(name: string, path: Path, creator: string, fault: Option<string>)
      returns (r: Result<nat, string>)
      requires Valid()
      modifies this`playbooks
      ensures Valid()
      ensures fault.Some? ==> r == Failure(fault.value) && playbooks == old(playbooks)
      ensures fault.None? ==>
                r == Success(|old(playbooks)| + 1) &&
                playbooks == old(playbooks) + [PlaybookRow(|old(playbooks)| + 1, name, path, creator)]
    {
      if fault.Some? {
        return Failure(fault.value);
      }
      var id := |playbooks| + 1;
      playbooks := playbooks + [PlaybookRow(id, name, path, creator)];
      r := Success(id);
    }

    /** `db.Create(&inventory)`. */
    method CreateInventory(name: string, path: Path, creator: string, fault: Option<string>)
      returns (r: Result<nat, string>)
      requires Valid()
      modifies this`inventories
      ensures Valid()
      ensures fault.Some? ==> r == Failure(fault.value) && inventories == old(inventories)
      ensures fault.None? ==>
                r == Success(|old(inventories)| + 1) &&
                inventories == old(inventories) + [InventoryRow(|old(inventories)| + 1, name, path, creator)]
    {
      if fault.Some? {
        return Failure(fault.value);
      }
      var id := |inventories| + 1;
      inventories := inventories + [InventoryRow(id, name, path, creator)];
      r := Success(id);
    }

    /** `db.Create(&task)`: `row` is stored with the next key, and the stored row is returned. */
    method CreateTask(row: TaskRow, fault: Option<string>) returns (r: Result<TaskRow, string>)
      requires Valid()
      modifies this`tasks
      ensures Valid()
      ensures fault.Some? ==> r == Failure(fault.value) && tasks == old(tasks)
      ensures fault.None? ==>
                r == Success(row.(id := |old(tasks)| + 1)) &&
                tasks == old(tasks) + [row.(id := |old(tasks)| + 1)]
    {
      if fault.Some? {
        return Failure(fault.value);
      }
      var stored := row.(id := |tasks| + 1);
      tasks := tasks + [stored];
      r := Success(stored);
    }

    /**
     * `First(&task, "task_id = ?", taskId)`: the matching row with the lowest
     * key, "record not found" when none matches, the fault when the query fails.
     */
    method First(taskId: string, fault: Option<string>) returns (r: Result<TaskRow, string>)
      requires Valid()
      ensures fault.Some? ==> r == Failure(fault.value)
      ensures fault.None? && FirstIndex(tasks, taskId).None? ==> r == Failure(RecordNotFound)
      ensures fault.None? && FirstIndex(tasks, taskId).Some? ==>
                r == Success(tasks[FirstIndex(tasks, taskId).value])
      ensures r.Success? ==> r.value in tasks && r.value.taskId == taskId
    {
      if fault.Some? {
        return Failure(fault.value);
      }
      var found := FirstIndex(tasks, taskId);
      if found.None? {
        return Failure(RecordNotFound);
      }
      r := Success(tasks[found.value]);
    }

    /** `Where(...).Updates(c)`: the whole update happens, or on a fault none of it. */
    method UpdateWhere(w: Where, c: Columns, fault: Option<string>) returns (err: Option<string>)
      requires Valid()
      modifies this`tasks
      ensures Valid()
      ensures err == fault
      ensures tasks == if fault.Some? then old(tasks) else UpdatedWhere(old(tasks), w, c)
    {
      err := fault;
      if fault.None? {
        tasks := UpdatedWhere(tasks, w, c);
      }
    }
  }
}
