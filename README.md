# ansible-runner-web, modelled in Dafny

ansible-runner-web is a small web front-end for Ansible. An operator submits a
task name, a playbook body (the list of steps) and an inventory body (the
target hosts). The server writes a playbook file and an inventory file for
the task, records Playbook, Inventory and Task rows, and later, on a run
trigger, queues the task id. A worker takes ids off the queue, marks the task
Running, runs `ansible-playbook`, and records Succeeded or Failed.

The repository has two near-identical copies of the server, `main.go` and
`cmd/web/main.go`. The model is written once and takes a `Variant` (`Root`
for `main.go`, `Web` for `cmd/web/main.go`) wherever the copies differ:

- the playbook header (`Root` adds a `gather_facts: false` line);
- the columns `updateTask` writes (only `Web` writes the error text);
- when a run counts as failed (`Web` fails only when reading the captured output fails).

Where a row below cites `main.go`, the `Web` behaviour comes from the matching
lines of `cmd/web/main.go`:

| `main.go` | `cmd/web/main.go` | code |
|---|---|---|
| 194-256 | 199-260 | `createTask` |
| 302-312 | 306-317 | `updateTask` |
| 314-357 | 319-362 | worker loop |
| 359-425 | 364-411 | `runAnsiblePlaybook` |

Modules:

- `Text` — `strings.ReplaceAll(s, "\r", "")`, `strings.Split(s, "\n")`, its inverse `Join`, and the two-space indentation.
- `Materialise` — the rendered playbook and inventory text. The buffer loop that builds the playbook is proved equal to a specification function. Lemmas give the header, the absence of `\r`, the exact line mapping and line count, and a round trip back to the body.
- `Store` — the database. It has three tables held as sequences, where the row at index k has primary key k + 1 (rows are never deleted). It also has the task lookup by `task_id`, the two targeted column updates, and a `Database` class whose methods change the tables in place.
- `Tasks` — `createTask`: the order of its steps, where it stops early, and the rows and files it produces.
- `Worker` — `updateTask`, `runAnsiblePlaybook` as an outcome over abstract stage results, one loop iteration, and the whole loop over a finite queue. Each loop method is proved against a specification function, and lemmas state the lifecycle properties of that function.

Inputs the model takes as parameters:

- the fresh task id (a uuid in the source);
- the clock (`time.Now()`);
- the success or failure of every file write and database call;
- the result of each stage of the external run.

## Model

| member | source | states |
|---|---|---|
| Text.StripCR | main.go:204 | The result has no `\r`. Its length is the input's minus the number of `\r`. Every other character occurs as often as in the input. A CR-free input is returned unchanged. |
| Text.StripCRAppend | main.go:204 | Removing carriage returns commutes with concatenation. |
| Text.Split | main.go:205 | Splitting on `\n` gives one piece more than there are `\n` (so `""` gives `[""]`), and no piece contains `\n`. |
| Text.JoinSplit | main.go:205 | Joining the pieces with `\n` gives back the input exactly. |
| Text.SplitJoin | main.go:205 | Split undoes Join for pieces that contain no `\n`. |
| Text.SplitIndent | main.go:205-207 | Splitting the emitted block on `\n` gives `"  " + p` for every piece p, in order, then the empty remainder. |
| Materialise.Header | main.go:201-203 | The skeleton has no carriage return and ends with a newline, so the first step starts a line of its own. |
| Materialise.HeaderShape | main.go:201-203 | The skeleton is `- hosts: servers`, then `  tasks:`. The `Root` copy puts `  gather_facts: false` between them; `cmd/web/main.go:206-207` puts nothing. |
| Materialise.PlaybookText | main.go:200-207 | The rendered playbook begins with the variant's header. |
| Materialise.RenderPlaybook | main.go:200-207 | The buffer loop (header lines, then `"  " + piece + "\n"` per piece of the CR-stripped body) builds exactly PlaybookText. |
| Materialise.PlaybookHasNoCR | main.go:204-207 | The rendered playbook contains no `\r`, whatever the body. |
| Materialise.PlaybookLines | main.go:205-207 | After the header, the text is the concatenation of `"  " + L + "\n"` over the pieces L of the CR-stripped body. Its lines are exactly `"  " + L`, in order. |
| Materialise.PlaybookLineCount | main.go:204-207 | The playbook has the header's newlines plus (number of `\n` in the submitted body + 1). |
| Materialise.EmptyBody | main.go:204-207 | An empty body renders as the header followed by the single line `"  \n"`. |
| Materialise.UnindentIndent | main.go:205-207 | Un-indenting an emitted block gives back its pieces joined by `\n`. |
| Materialise.PlaybookRoundTrip | main.go:204-207 | Reading a rendered playbook back (drop the header, un-indent, rejoin) gives the CR-stripped body. |
| Materialise.TwoLineBody | cmd/web/main.go:208-211 | A body of two CR- and LF-free lines renders as the header followed by both lines, each indented by two spaces. |
| Materialise.RootPingExample | main.go:200-207 | The body `- name: ping\n  ping:` renders as `- hosts: servers`, `  gather_facts: false`, `  tasks:`, `  - name: ping`, `    ping:`, each line ended by `\n`. |
| Materialise.WebPingExample | cmd/web/main.go:205-211 | The same body renders as `- hosts: servers`, `  tasks:`, `  - name: ping`, `    ping:`, with no `gather_facts` line. |
| Materialise.InventoryText | main.go:225-227 | The inventory is `[servers]\n` followed by the body, unchanged. |
| Materialise.InventoryVerbatim | cmd/web/main.go:229-231 | The inventory keeps every `\r` of the body. It adds no newline beyond the header's, and it ends where the body ends. |
| Store.FirstIndex | main.go:327 | The lookup selects the matching row with the lowest primary key, and finds none exactly when no row has that task_id. |
| Store.UpdatedWhere | main.go:333-336 | Every row the condition matches (same task_id, or same primary key) gets the written status and timestamp. It gets the written error text when the update includes that column, and keeps its own otherwise. Rows the condition does not match are unchanged, and no key or foreign key changes. |
| Store.UpdatedWhereIdempotent | main.go:333-336 | A property of the targeted update itself: repeating the same update changes nothing further. |
| Store.UpdatedWhereLastWins | main.go:303-307 | A property of the targeted update itself: of two updates through the same condition, the later decides every column it writes. The error text keeps the earlier write exactly when the later update leaves that column out. |
| Store.Database.CreatePlaybook | main.go:215-223 | A successful insert appends the row under the next key and returns that key. A failed insert changes nothing. |
| Store.Database.CreateInventory | main.go:233-241 | The same, for the Inventory table. |
| Store.Database.CreateTask | main.go:243-254 | The same, for the Task table; the stored row is returned. |
| Store.Database.First | main.go:326-331 | Returns the row FirstIndex selects. Otherwise it fails with "record not found", or with the database fault. |
| Store.Database.UpdateWhere | main.go:333-340 | The table becomes UpdatedWhere of the old table, or stays unchanged when the update fails. |
| Tasks.CreateTask | main.go:194-256 | A failed playbook write aborts before any row or inventory file exists. A failed inventory write is reported but does not stop creation. A Task row exists exactly when the playbook write and all three inserts succeed. The new task is Pending, belongs to user 1, and points to the playbook and inventory rows just inserted. |
| Worker.RunAnsiblePlaybook | main.go:359-425 | `Root` returns the first failing stage (execute, parse, marshal, write), or success when none failed. `Web` fails exactly when reading the output buffer fails, with the message `failed to read result: ` + error. |
| Worker.Finish | main.go:343-348 | The in-memory task after the run is Failed exactly when the run returned an error, and Succeeded otherwise. It then carries the error message; on success `Web` clears the message and `Root` keeps it. Keys, links and timestamp are unchanged. |
| Worker.UpdateColumns | cmd/web/main.go:307-312 | `updateTask` writes the task's status and the given time. It writes the error column exactly in `Web`, and then with the task's own message. |
| Worker.UpdateTask | main.go:302-312 | Only the task's own row changes, and only in its status and timestamp; `Web` also writes the error text. |
| Worker.Processed | main.go:326-353 | One iteration keeps the row count and every row's identity. A failed lookup, a failed Running update or an unknown id leaves the table exactly as it was. |
| Worker.Served | main.go:319-356 | The loop over the whole queue keeps the row count. |
| Worker.ProcessOne | main.go:321-353 | One iteration turns the table into Processed of the old table. |
| Worker.Serve | main.go:314-357 | Taking every id until the queue closes turns the table into Served of the old table. The loop ends when the queue ends. |
| Worker.ProcessedFrame | main.go:326-353 | One iteration adds and removes no rows. It never changes a key, task_id, name or foreign key, and it leaves rows of other tasks untouched. |
| Worker.ProcessedUnknown | main.go:326-331 | An id that names no task changes nothing. |
| Worker.ProcessedOutcome | main.go:342-353 | If the database calls succeed, the task ends Failed when the run returned an error and Succeeded otherwise, stamped with the finishing time. `Web` sets the error text to the message or ""; `Root` keeps the old text. Any other rows with that task_id stay Running. |
| Worker.ProcessedStuckRunning | main.go:350-353 | If the final update fails, the task stays Running. |
| Worker.ProcessedEarlyFailure | main.go:327-340 | If the lookup or the Running update fails, the table is unchanged. |
| Worker.ServedFrame | main.go:319-356 | The whole loop keeps the row count, the keys, the task_ids and the foreign keys. |
| Worker.ServedUntouched | main.go:319-356 | A task whose id is never queued keeps its row exactly. A finished task is run again, and set back to Running, only after a new run trigger. |
| Worker.ServedNeverPending | main.go:333-348 | A task that is not Pending is never set back to Pending. |
| Worker.ServedStatusesInRange | main.go:333-348 | Statuses stay among the four codes 0 to 3. |
| Worker.RootNeverWritesError | main.go:302-311 | In `Root`, no run ever changes a task's error column. |
| Worker.ServedSkipsUnknown | main.go:326-331 | Removing an unknown id from anywhere in the queue leaves the result unchanged: one bad id does not disturb the rest. |
| Worker.WebRunIgnoresExecution | cmd/web/main.go:397-410 | In `Web`, the run's result does not depend on execution failure or result-write failure. It succeeds whenever the buffer read succeeds. |
| Worker.ExecutionFailureOutcome | cmd/web/main.go:347-354 | A failed execution with a successful read ends Succeeded with an empty error in `Web`, but Failed in `Root`. |
| Worker.WebRecordsError | cmd/web/main.go:306-317 | In `Web`, a failed read leaves the task Failed, with `failed to read result: ` + error in the error column. The model allows this read failure, although the program cannot produce it (see Left out). |

## Findings

| source | as written | input that shows it | evidently intended | confidence | as-written member | corrected member |
|---|---|---|---|---|---|---|
| main.go:302-307 | At line 345 the worker puts the run's error message on the in-memory task, but `updateTask` writes only Status and UpdatedAt. The message is never stored. | Any run that returns an error, for example a failed `ansible-playbook` execution. | The failure message is stored in the error column, as the corrected copy in `cmd/web/main.go:306-312` does. | high; not executed | Worker.RootNeverWritesError | Worker.ProcessedOutcome |

The corrected definition is the `Web` column set of `Worker.UpdateColumns`. `Worker.ProcessedOutcome` proves that with it, a run that returns an error leaves the message in the task's error column.

## Behaviour worth noting

- Of the two file writes, only a failed playbook write aborts task creation. A failed inventory write is reported, but the Inventory and Task rows are still created, because there is no `return` after that error (`main.go:229-232`).
- In `cmd/web/main.go`, a failed or timed-out execution is only logged, and the captured output is still written as `result.json`. The task ends Succeeded (see `Worker.ExecutionFailureOutcome`).
- `main.go` never stores the failure message (see Findings).

## Left out

- The HTTP layer is left out: gin routing, `showIndex`, `showTask`, `showResult`, the run-trigger handler and the HTML templates. The trigger only sends an id, which the model takes as an element of the queue.
- The ORM is left out: gorm and sqlite, `setupDB`, AutoMigrate and Preload. The database is the `Store.Database` class, and every call's failure is an input.
- Worker.UpdateTask: the model writes the error column even when the text is empty. gorm's `Updates` with a struct skips zero-valued fields, so the real ORM may leave an older message in place when a `Web` run succeeds.
- The external run is left out: the go-ansible command builder, extra vars, SSH options, the JSON stdout callback, result parsing and the contents of `result.json`. Each stage is an abstract success or failure (`Worker.RunStages`), and only the error the run returns is modelled.
- Worker.RunStages: the `read` stage may fail in the model, but `cmd/web/main.go:401` reads from a `bytes.Buffer`, whose reads never fail. The program's `Web` run therefore always returns no error. The model admits a failure the program cannot produce, and `Worker.WebRecordsError` describes that path.
- Timeouts are left out: the 10- and 30-minute contexts are wall-clock behaviour. A timeout is one way the execute stage can fail.
- Concurrency is left out: the two worker goroutines, the unbuffered channel's blocking send (admission backpressure), the WaitGroup, signal handling and server shutdown. The model is one sequential consumer of a finite queue, where closing the channel means the sequence ends. The interleaving of two workers on the same table is not captured.
- Files are left out: `writeFile`, `os.MkdirAll`, `filepath.Join` and `readFile`. A path is the opaque pair (task id, file name). A failed write leaves no file in the model; the real `os.Create` may leave an empty or partial file.
- uuid generation and the clock are left out. The task id and the timestamps are parameters. Uniqueness of task ids is not assumed; duplicates behave as the queries would treat them.
- Go strings are byte strings and the model's are `seq<char>`. `\r` and `\n` are single bytes that never occur inside a multi-byte UTF-8 sequence, so splitting and stripping behave the same.
- `cmd/runner/main.go` is not part of this model. It parses flags and invokes Ansible once, with no logic of its own.
