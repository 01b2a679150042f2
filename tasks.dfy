/**
 * `createTask`: render and write the two artefacts of a new task, then
 * insert its Playbook, Inventory and Task rows, in that order. The fresh
 * task id, the clock and every file-system or database failure are inputs.
 */
module Tasks {
  import opened Wrappers
  import opened Variants
  import opened Materialise
  import opened Store

  /** The failure, if any, of each step `createTask` checks; None means the step succeeds. */
  datatype CreateFaults = CreateFaults(
    playbookWrite: Option<string>,
    playbookInsert: Option<string>,
    inventoryWrite: Option<string>,
    inventoryInsert: Option<string>,
    taskInsert: Option<string>)

  const Creator: string := "admin"
  const DefaultUser: nat := 1
  const PlaybookFile: string := "site.yaml"
  const InventoryFile: string := "inventory.ini"

  /** The errors reported for an inventory write that failed; creation goes on after it. */
  function WriteErrors(fault: Option<string>): seq<string>
  {
    if fault.Some? then [fault.value] else []
  }

  /**
   * One submission. Returns the files written (path to content), the errors
   * handed to the HTTP response in order, and the Task row when one was created.
   */
  method CreateTask(db: Database, v: Variant, name: string, playbookBody: string, inventoryBody: string,
                    taskId: string, now: int, faults: CreateFaults)
    returns (files: map<Path, string>, errors: seq<string>, created: Option<TaskRow>)
    requires db.Valid()
    modifies db
    ensures db.Valid()
    // A Task row exists at the end exactly when the playbook was written and all three inserts
    // succeeded; a failed inventory write does not prevent it.
    ensures created.Some? <==>
              faults.playbookWrite.None? && faults.playbookInsert.None? &&
              faults.inventoryInsert.None? && faults.taskInsert.None?
    // A failed playbook write aborts before anything is stored.
    ensures faults.playbookWrite.Some? ==>
              files == map[] && errors == [faults.playbookWrite.value] && unchanged(db)
    ensures faults.playbookWrite.None? ==>
              Path(taskId, PlaybookFile) in files &&
              files[Path(taskId, PlaybookFile)] == PlaybookText(v, playbookBody)
    // A failed playbook insert aborts with only the playbook file written.
    ensures faults.playbookWrite.None? && faults.playbookInsert.Some? ==>
              files.Keys == {Path(taskId, PlaybookFile)} &&
              errors == [faults.playbookInsert.value] && unchanged(db)
    ensures faults.playbookWrite.None? && faults.playbookInsert.None? ==>
              db.playbooks == old(db.playbooks) +
                [PlaybookRow(|old(db.playbooks)| + 1, name, Path(taskId, PlaybookFile), Creator)] &&
              files.Keys == {Path(taskId, PlaybookFile)} +
                (if faults.inventoryWrite.None? then {Path(taskId, InventoryFile)} else {}) &&
              (faults.inventoryWrite.None? ==> files[Path(taskId, InventoryFile)] == InventoryText(inventoryBody))
    ensures faults.playbookWrite.None? && faults.playbookInsert.None? && faults.inventoryInsert.Some? ==>
              db.inventories == old(db.inventories) && db.tasks == old(db.tasks) &&
              errors == WriteErrors(faults.inventoryWrite) + [faults.inventoryInsert.value]
    ensures faults.playbookWrite.None? && faults.playbookInsert.None? && faults.inventoryInsert.None? ==>
              db.inventories == old(db.inventories) +
                [InventoryRow(|old(db.inventories)| + 1, name, Path(taskId, InventoryFile), Creator)]
    ensures faults.playbookWrite.None? && faults.playbookInsert.None? && faults.inventoryInsert.None? &&
            faults.taskInsert.Some? ==>
              db.tasks == old(db.tasks) &&
              errors == WriteErrors(faults.inventoryWrite) + [faults.taskInsert.value]
    // A new task is Pending, owned by the default user, and linked to the two rows just inserted.
    ensures created.Some? ==>
              created.value == TaskRow(|old(db.tasks)| + 1, taskId, name, Pending, now,
                                       |old(db.playbooks)| + 1, |old(db.inventories)| + 1, DefaultUser, "") &&
              db.tasks == old(db.tasks) + [created.value] &&
              errors == WriteErrors(faults.inventoryWrite)
  {
    files, errors, created := map[], [], None;

    var w := RenderPlaybook(v, playbookBody);
    var playbookPath := Path(taskId, PlaybookFile);
    if faults.playbookWrite.Some? {
      errors := [faults.playbookWrite.value];
      return;
    }
    files := files[playbookPath := w];

    var playbook := db.CreatePlaybook(name, playbookPath, Creator, faults.playbookInsert);
    if playbook.Failure? {
      errors := errors + [playbook.error];
      return;
    }

    // The same buffer, reset and reused for the inventory.
    w := [];
    w := w + InventoryHeader;
    w := w + inventoryBody;
    var inventoryPath := Path(taskId, InventoryFile);
    if faults.inventoryWrite.Some? {
      errors := errors + [faults.inventoryWrite.value];
    } else {
      files := files[inventoryPath := w];
    }

    var inventory := db.CreateInventory(name, inventoryPath, Creator, faults.inventoryInsert);
    if inventory.Failure? {
      errors := errors + [inventory.error];
      return;
    }

    var row := TaskRow(0, taskId, name, Pending, now, playbook.value, inventory.value, DefaultUser, "");
    var task := db.CreateTask(row, faults.taskInsert);
    if task.Failure? {
      errors := errors + [task.error];
      return;
    }
    created := Some(task.value);
  }
}
