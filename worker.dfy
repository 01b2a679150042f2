/**
 * The task worker: `startRunAnsiblePlaybookService` takes task ids off the
 * run queue one at a time, loads the task, marks it Running, runs the
 * playbook and writes the terminal status back through `updateTask`. The
 * queue is a finite sequence of ids (closing the channel ends it); the
 * outcome of every database call and of the external run is an input, one
 * `Attempt` per id taken.
 */
module Worker {
  import opened Wrappers
  import opened Variants
  import opened Store

  /** What each stage of `runAnsiblePlaybook` reports; None is success. */
  datatype RunStages = RunStages(
    exec: Option<string>,     // the ansible-playbook process: exit status, timeout
    parse: Option<string>,    // main.go: parsing the JSON stdout stream
    marshal: Option<string>,  // main.go: re-encoding the parsed result
    read: Option<string>,     // cmd/web/main.go: reading the captured output buffer (a bytes.Buffer never fails it)
    write: Option<string>)    // writing result.json

  /** The outcome of one dequeued id: failures of the three database calls, the clock, and the run. */
  datatype Attempt = Attempt(
    lookupFault: Option<string>,
    markFault: Option<string>,
    markedAt: int,
    run: RunStages,
    updateFault: Option<string>,
    finishedAt: int)

  const ReadFailurePrefix: string := "failed to read result: "

  /** The first failure in a chain of steps that each return early on error. */
  function FirstFailure(steps: seq<Option<string>>): (r: Option<string>)
    ensures r.None? <==> forall i :: 0 <= i < |steps| ==> steps[i].None?
    ensures r.Some? ==> exists i :: 0 <= i < |steps| && steps[i] == r &&
                          forall j :: 0 <= j < i ==> steps[j].None?
  {
    if steps == [] then None
    else if steps[0].Some? then steps[0]
    else
      var r := FirstFailure(steps[1..]);
      assert r.Some? ==> exists i :: 0 <= i < |steps[1..]| && steps[1..][i] == r &&
                          forall j :: 0 <= j < i ==> steps[1..][j].None?;
      assert forall i :: 0 <= i < |steps[1..]| ==> steps[1..][i] == steps[i + 1];
      r
  }

  /**
   * The error `runAnsiblePlaybook` returns. In main.go every stage returns
   * early, so the run fails with the first stage that failed. In
   * cmd/web/main.go an execution failure and a failed result write are only
   * logged; the only error returned is a failed read of the output buffer.
   */
  function RunAnsiblePlaybook(v: Variant, st: RunStages): (err: Option<string>)
    ensures v == Root ==> err == FirstFailure([st.exec, st.parse, st.marshal, st.write])
    ensures v == Web ==> (err.Some? <==> st.read.Some?)
    ensures v == Web && st.read.Some? ==> err == Some(ReadFailurePrefix + st.read.value)
  {
    match v
    case Root =>
      assert FirstFailure([st.write]) == st.write by { assert [st.write][1..] == []; }
      assert FirstFailure([st.marshal, st.write]) == if st.marshal.Some? then st.marshal else st.write by {
        assert [st.marshal, st.write][1..] == [st.write];
      }
      assert FirstFailure([st.parse, st.marshal, st.write])
          == if st.parse.Some? then st.parse else FirstFailure([st.marshal, st.write]) by {
        assert [st.parse, st.marshal, st.write][1..] == [st.marshal, st.write];
      }
      assert FirstFailure([st.exec, st.parse, st.marshal, st.write])
          == if st.exec.Some? then st.exec else FirstFailure([st.parse, st.marshal, st.write]) by {
        assert [st.exec, st.parse, st.marshal, st.write][1..] == [st.parse, st.marshal, st.write];
      }
      if st.exec.Some? then st.exec
      else if st.parse.Some? then st.parse
      else if st.marshal.Some? then st.marshal
      else st.write
    case Web =>
      if st.read.Some? then Some(ReadFailurePrefix + st.read.value) else None
  }

  /** The in-memory task after the run: Failed with the message, or Succeeded (the web copy also clears the message). */
  function Finish(v: Variant, task: TaskRow, err: Option<string>): (r: TaskRow)
    ensures SameIdentity(task, r) && r.updatedAt == task.updatedAt
    ensures r.status == (if err.Some? then Failed else Succeeded)
    ensures r.error == (if err.Some? then err.value else if v == Web then "" else task.error)
  {
    if err.Some? then task.(status := Failed, error := err.value)
    else if v == Web then task.(status := Succeeded, error := "")
    else task.(status := Succeeded)
  }

  /** The columns `updateTask` writes: status and timestamp, and in the web copy also the error text. */
  function UpdateColumns(v: Variant, task: TaskRow, now: int): (c: Columns)
    ensures c.status == task.status && c.updatedAt == now
    ensures c.error.Some? <==> v == Web
    ensures c.error.Some? ==> c.error.value == task.error
  {
    Columns(task.status, now, if v == Web then Some(task.error) else None)
  }

  /** `updateTask`: a targeted update of the row whose primary key is the task's. */
  method UpdateTask(db: Database, v: Variant, task: TaskRow, now: int, fault: Option<string>)
    returns (err: Option<string>)
    requires db.Valid()
    modifies db`tasks
    ensures db.Valid()
    ensures err == fault
    ensures db.tasks == if fault.Some? then old(db.tasks)
                        else UpdatedWhere(old(db.tasks), IdIs(task.id), UpdateColumns(v, task, now))
  {
    err := db.UpdateWhere(IdIs(task.id), UpdateColumns(v, task, now), fault);
  }

  /** The task table after the worker handles one dequeued id. */
  function Processed(v: Variant, rows: seq<TaskRow>, taskId: string, a: Attempt): (r: seq<TaskRow>)
    ensures |r| == |rows|
    ensures forall k :: 0 <= k < |rows| ==> SameIdentity(rows[k], r[k])
    ensures a.lookupFault.Some? || a.markFault.Some? || FirstIndex(rows, taskId).None? ==> r == rows
  {
    if a.lookupFault.Some? then rows
    else match FirstIndex(rows, taskId)
      case None => rows
      case Some(k) =>
        if a.markFault.Some? then rows
        else
          var marked := UpdatedWhere(rows, TaskIdIs(taskId), Columns(Running, a.markedAt, None));
          var task := Finish(v, rows[k], RunAnsiblePlaybook(v, a.run));
          if a.updateFault.Some? then marked
          else UpdatedWhere(marked, IdIs(task.id), UpdateColumns(v, task, a.finishedAt))
  }

  /** The task table after the worker has taken every id of `queue`, in order. */
  function Served(v: Variant, rows: seq<TaskRow>, queue: seq<string>, attempts: seq<Attempt>): (r: seq<TaskRow>)
    requires |attempts| == |queue|
    ensures |r| == |rows|
    decreases |queue|
  {
    if queue == [] then rows
    else
      var n := |queue| - 1;
      Processed(v, Served(v, rows, queue[..n], attempts[..n]), queue[n], attempts[n])
  }

  /**
   * One iteration of the worker loop. Every failure ends the iteration early
   * (it is only logged), so a bad id never stops the loop.
   */
  method ProcessOne(db: Database, v: Variant, taskId: string, a: Attempt)
    requires db.Valid()
    modifies db`tasks
    ensures db.Valid()
    ensures db.tasks == Processed(v, old(db.tasks), taskId, a)
  {
    var found := db.First(taskId, a.lookupFault);
    if found.Failure? {
      return;
    }
    var task := found.value;

    var err := db.UpdateWhere(TaskIdIs(taskId), Columns(Running, a.markedAt, None), a.markFault);
    if err.Some? {
      return;
    }

    var runErr := RunAnsiblePlaybook(v, a.run);
    if runErr.Some? {
      task := task.(status := Failed, error := runErr.value);
    } else {
      task := task.(status := Succeeded);
      if v == Web {
        task := task.(error := "");
      }
    }
    err := UpdateTask(db, v, task, a.finishedAt, a.updateFault);
  }

  /** `startRunAnsiblePlaybookService`: take ids until the queue is closed. */
  method Serve(db: Database, v: Variant, queue: seq<string>, attempts: seq<Attempt>)
    requires db.Valid()
    requires |attempts| == |queue|
    modifies db`tasks
    ensures db.Valid()
    ensures db.tasks == Served(v, old(db.tasks), queue, attempts)
  {
    var i := 0;
    while i < |queue|
      invariant 0 <= i <= |queue|
      invariant db.Valid()
      invariant db.tasks == Served(v, old(db.tasks), queue[..i], attempts[..i])
    {
      assert queue[..i + 1][..i] == queue[..i];
      assert attempts[..i + 1][..i] == attempts[..i];
      ProcessOne(db, v, queue[i], attempts[i]);
      i := i + 1;
    }
    assert queue[..i] == queue && attempts[..i] == attempts;
  }

  // ---------------------------------------------------------------------------
  // What one iteration does to the table

  /**
   * Handling an id never adds or removes rows, never changes a row's key,
   * task id, name or foreign keys, and leaves rows of other tasks untouched.
   */
  lemma ProcessedFrame(v: Variant, rows: seq<TaskRow>, taskId: string, a: Attempt)
    requires Numbered(rows)
    ensures var r := Processed(v, rows, taskId, a);
      |r| == |rows| && Numbered(r) &&
      (forall k :: 0 <= k < |rows| ==> SameIdentity(rows[k], r[k])) &&
      (forall k :: 0 <= k < |rows| && rows[k].taskId != taskId ==> r[k] == rows[k])
  {
  }

  /** An id that names no task changes nothing; the loop simply goes on to the next id. */
  lemma ProcessedUnknown(v: Variant, rows: seq<TaskRow>, taskId: string, a: Attempt)
    requires forall k :: 0 <= k < |rows| ==> rows[k].taskId != taskId
    ensures Processed(v, rows, taskId, a) == rows
  {
  }

  /**
   * A known task whose database calls all succeed ends Failed when the run
   * returned an error and Succeeded otherwise, stamped with the finishing
   * time. The error column is written with the run's message (or cleared)
   * only by the web copy; the top-level copy leaves it as it was.
   */
  lemma ProcessedOutcome(v: Variant, rows: seq<TaskRow>, taskId: string, a: Attempt, k: nat)
    requires Numbered(rows)
    requires FirstIndex(rows, taskId) == Some(k)
    requires a.lookupFault.None? && a.markFault.None? && a.updateFault.None?
    ensures var r := Processed(v, rows, taskId, a);
      var err := RunAnsiblePlaybook(v, a.run);
      k < |r| &&
      r[k].status == (if err.Some? then Failed else Succeeded) &&
      r[k].updatedAt == a.finishedAt &&
      r[k].error == (if v == Root then rows[k].error else if err.Some? then err.value else "") &&
      forall j :: 0 <= j < |rows| && j != k && rows[j].taskId == taskId ==> r[j].status == Running
  {
    var marked := UpdatedWhere(rows, TaskIdIs(taskId), Columns(Running, a.markedAt, None));
    assert marked[k].id == k + 1;
  }

  /**
   * When the final update fails, every row of the task is left Running: the
   * worker logs the error and moves on, and nothing retries.
   */
  lemma ProcessedStuckRunning(v: Variant, rows: seq<TaskRow>, taskId: string, a: Attempt)
    requires a.lookupFault.None? && a.markFault.None? && a.updateFault.Some?
    ensures var r := Processed(v, rows, taskId, a);
      |r| == |rows| &&
      forall k :: 0 <= k < |rows| && rows[k].taskId == taskId ==> r[k].status == Running
  {
  }

  /** A failed lookup or a failed Running update leaves the table as it was. */
  lemma ProcessedEarlyFailure(v: Variant, rows: seq<TaskRow>, taskId: string, a: Attempt)
    requires a.lookupFault.Some? || a.markFault.Some?
    ensures Processed(v, rows, taskId, a) == rows
  {
  }

  // ---------------------------------------------------------------------------
  // What the whole loop does to the table

  lemma {:induction false} ServedFrame(v: Variant, rows: seq<TaskRow>, queue: seq<string>, attempts: seq<Attempt>)
    requires Numbered(rows) && |attempts| == |queue|
    ensures var r := Served(v, rows, queue, attempts);
      |r| == |rows| && Numbered(r) &&
      forall k :: 0 <= k < |rows| ==> SameIdentity(rows[k], r[k])
  {
    if queue != [] {
      var n := |queue| - 1;
      ServedFrame(v, rows, queue[..n], attempts[..n]);
      ProcessedFrame(v, Served(v, rows, queue[..n], attempts[..n]), queue[n], attempts[n]);
    }
  }

  /**
   * A task whose id is never queued keeps its row exactly: a finished task is
   * only run again, and set back to Running, after a new run trigger.
   */
  lemma {:induction false} ServedUntouched(v: Variant, rows: seq<TaskRow>, queue: seq<string>,
                                           attempts: seq<Attempt>, k: nat)
    requires Numbered(rows) && |attempts| == |queue|
    requires k < |rows| && rows[k].taskId !in queue
    ensures var r := Served(v, rows, queue, attempts);
      k < |r| && r[k] == rows[k]
  {
    if queue != [] {
      var n := |queue| - 1;
      assert forall x :: x in queue[..n] ==> x in queue;
      ServedUntouched(v, rows, queue[..n], attempts[..n], k);
      ServedFrame(v, rows, queue[..n], attempts[..n]);
      ProcessedFrame(v, Served(v, rows, queue[..n], attempts[..n]), queue[n], attempts[n]);
    }
  }

  /** Only statuses 1, 2 and 3 are ever written: a task the worker has touched is never Pending again. */
  lemma {:induction false} ServedNeverPending(v: Variant, rows: seq<TaskRow>, queue: seq<string>,
                                              attempts: seq<Attempt>, k: nat)
    requires Numbered(rows) && |attempts| == |queue|
    requires k < |rows| && rows[k].status != Pending
    ensures var r := Served(v, rows, queue, attempts);
      k < |r| && r[k].status != Pending
  {
    if queue != [] {
      var n := |queue| - 1;
      ServedNeverPending(v, rows, queue[..n], attempts[..n], k);
      ServedFrame(v, rows, queue[..n], attempts[..n]);
    }
  }

  /** Statuses stay within the four lifecycle codes. */
  lemma {:induction false} ServedStatusesInRange(v: Variant, rows: seq<TaskRow>, queue: seq<string>,
                                                 attempts: seq<Attempt>)
    requires Numbered(rows) && |attempts| == |queue|
    requires forall k :: 0 <= k < |rows| ==> rows[k].status <= Failed
    ensures var r := Served(v, rows, queue, attempts);
      forall k :: 0 <= k < |r| ==> r[k].status <= Failed
  {
    if queue != [] {
      var n := |queue| - 1;
      ServedStatusesInRange(v, rows, queue[..n], attempts[..n]);
      ServedFrame(v, rows, queue[..n], attempts[..n]);
    }
  }

  /**
   * In main.go the failure message is set on the in-memory task but
   * `updateTask` does not write the error column, so no run ever changes it.
   */
  lemma {:induction false} RootNeverWritesError(rows: seq<TaskRow>, queue: seq<string>, attempts: seq<Attempt>)
    requires Numbered(rows) && |attempts| == |queue|
    ensures var r := Served(Root, rows, queue, attempts);
      |r| == |rows| && forall k :: 0 <= k < |rows| ==> r[k].error == rows[k].error
  {
    if queue != [] {
      var n := |queue| - 1;
      RootNeverWritesError(rows, queue[..n], attempts[..n]);
      ServedFrame(Root, rows, queue[..n], attempts[..n]);
    }
  }

  /** Taking one more id handles it on the table the earlier ids left. */
  lemma ServedSnoc(v: Variant, rows: seq<TaskRow>, queue: seq<string>, attempts: seq<Attempt>, x: string, a: Attempt)
    requires |attempts| == |queue|
    ensures Served(v, rows, queue + [x], attempts + [a]) == Processed(v, Served(v, rows, queue, attempts), x, a)
  {
    var q, qa := queue + [x], attempts + [a];
    assert q[..|q| - 1] == queue && qa[..|qa| - 1] == attempts;
  }

  /** An unknown id at the end of the queue leaves the table as the ids before it left it. */
  lemma ServedThroughUnknown(v: Variant, rows: seq<TaskRow>, before: seq<string>, beforeAttempts: seq<Attempt>,
                             bad: string, badAttempt: Attempt)
    requires Numbered(rows) && |beforeAttempts| == |before|
    requires forall k :: 0 <= k < |rows| ==> rows[k].taskId != bad
    ensures Served(v, rows, before + [bad], beforeAttempts + [badAttempt]) == Served(v, rows, before, beforeAttempts)
  {
    var q, qa := before + [bad], beforeAttempts + [badAttempt];
    assert q[..|q| - 1] == before && qa[..|qa| - 1] == beforeAttempts;
    var mid := Served(v, rows, before, beforeAttempts);
    ServedFrame(v, rows, before, beforeAttempts);
    assert forall k :: 0 <= k < |mid| ==> mid[k].taskId != bad by {
      assert forall k :: 0 <= k < |rows| ==> SameIdentity(rows[k], mid[k]);
    }
  }

  /**
   * An id that names no task can be dropped from the queue without changing
   * the result: the ids before and after it are handled exactly as if it
   * had never been sent.
   */
  lemma {:induction false} ServedSkipsUnknown(v: Variant, rows: seq<TaskRow>,
                                              before: seq<string>, beforeAttempts: seq<Attempt>,
                                              bad: string, badAttempt: Attempt,
                                              after: seq<string>, afterAttempts: seq<Attempt>)
    requires Numbered(rows)
    requires |beforeAttempts| == |before| && |afterAttempts| == |after|
    requires forall k :: 0 <= k < |rows| ==> rows[k].taskId != bad
    ensures Served(v, rows, before + [bad] + after, beforeAttempts + [badAttempt] + afterAttempts)
         == Served(v, rows, before + after, beforeAttempts + afterAttempts)
  {
    if after == [] {
      assert before + [bad] + after == before + [bad];
      assert beforeAttempts + [badAttempt] + afterAttempts == beforeAttempts + [badAttempt];
      assert before + after == before && beforeAttempts + afterAttempts == beforeAttempts;
      ServedThroughUnknown(v, rows, before, beforeAttempts, bad, badAttempt);
    } else {
      var n := |after| - 1;
      var x, xa := after[n], afterAttempts[n];
      ServedSkipsUnknown(v, rows, before, beforeAttempts, bad, badAttempt, after[..n], afterAttempts[..n]);
      assert after == after[..n] + [x] && afterAttempts == afterAttempts[..n] + [xa];
      assert before + [bad] + after == (before + [bad] + after[..n]) + [x];
      assert beforeAttempts + [badAttempt] + afterAttempts == (beforeAttempts + [badAttempt] + afterAttempts[..n]) + [xa];
      assert before + after == (before + after[..n]) + [x];
      assert beforeAttempts + afterAttempts == (beforeAttempts + afterAttempts[..n]) + [xa];
      ServedSnoc(v, rows, before + [bad] + after[..n], beforeAttempts + [badAttempt] + afterAttempts[..n], x, xa);
      ServedSnoc(v, rows, before + after[..n], beforeAttempts + afterAttempts[..n], x, xa);
    }
  }

  // ---------------------------------------------------------------------------
  // The run outcome in the web copy

  /**
   * In cmd/web/main.go the run reports success whatever the execution and the
   * result write did: only the buffer read can make it fail.
   */
  lemma WebRunIgnoresExecution(st: RunStages)
    ensures RunAnsiblePlaybook(Web, st) == RunAnsiblePlaybook(Web, st.(exec := None, write := None))
    ensures st.read.None? ==> RunAnsiblePlaybook(Web, st).None?
  {
  }

  /**
   * Consequently, in the web copy a task whose playbook failed to execute
   * still ends Succeeded with an empty error, as long as the buffer read and
   * the database calls succeed; in main.go the same execution failure ends Failed.
   */
  lemma ExecutionFailureOutcome(rows: seq<TaskRow>, taskId: string, a: Attempt, k: nat)
    requires Numbered(rows)
    requires FirstIndex(rows, taskId) == Some(k)
    requires a.lookupFault.None? && a.markFault.None? && a.updateFault.None?
    requires a.run.exec.Some? && a.run.read.None?
    ensures var r := Processed(Web, rows, taskId, a);
      k < |r| && r[k].status == Succeeded && r[k].error == ""
    ensures var r := Processed(Root, rows, taskId, a);
      k < |r| && r[k].status == Failed && r[k].error == rows[k].error
  {
    ProcessedOutcome(Web, rows, taskId, a, k);
    ProcessedOutcome(Root, rows, taskId, a, k);
  }

  /**
   * The web copy's `updateTask` writes the error column, so a run whose output
   * could not be read leaves the task Failed with the wrapped read error.
   */
  lemma WebRecordsError(rows: seq<TaskRow>, taskId: string, a: Attempt, k: nat)
    requires Numbered(rows)
    requires FirstIndex(rows, taskId) == Some(k)
    requires a.lookupFault.None? && a.markFault.None? && a.updateFault.None?
    requires a.run.read.Some?
    ensures var r := Processed(Web, rows, taskId, a);
      k < |r| && r[k].status == Failed && r[k].error == ReadFailurePrefix + a.run.read.value
  {
    ProcessedOutcome(Web, rows, taskId, a, k);
  }
}
