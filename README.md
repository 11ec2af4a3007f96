# Telegram to-do bot: task store, JSON variant and add-task dialog

The bot keeps a per-user to-do list. Users add tasks by writing text, and manage them with `/list`, `/done <n>`, `/delete <n>`, `/clear_all`, `/done_all` and `/export`. This Dafny project models its three pieces of bookkeeping and proves what they promise.

- **The PostgreSQL + Redis store** (`db_connect.py`). This is the `TaskStore` class in `db_connect.dfy`.
  - It holds:
    - the `tasks` table as a sequence of rows `(id, user_id, text, done, created_at, task_id_in_list)`, in insertion order;
    - the SERIAL counter;
    - a clock standing in for `NOW()`, which only moves forward;
    - the Redis map from `tasks:<user_id>` to either a decodable task list or an undecodable value.
  - Each SQL statement is a function over the row sequence in `table.dfy`: SELECT and COUNT, DELETE, `UPDATE … SET done`, and the `ROW_NUMBER() OVER (ORDER BY created_at)` renumbering.
  - The class invariant has four parts:
    - rows are in creation order;
    - every user's positions are exactly `1..N` in that order;
    - ids and timestamps lie below their counters;
    - every decodable cache entry equals its user's current rows in position order.
  - Every operation keeps the invariant. Each states:
    - its exact result;
    - the user's new list;
    - the cache afterwards;
    - that no other user's rows change.
- **The older JSON-file variant** (`bot.py`), in `bot.dfy`.
  - `add_task`, `mark_done` and `delete_task` work on the map loaded from `tasks.json`. They return what is stored afterwards.
  - The renumbering loop of `delete_task` carries its invariants.
  - `format_tasks` is proved to be readable back when no task text contains a newline: splitting its output then gives one line per task, and each line parses back to that task's status, id and text. `handle_all_messages` stores `message.text` as it is, so a multi-line message yields a task whose listing spans several lines.
  - The command-or-new-task decision of `handle_all_messages` is proved: text starting with `/` never creates a task.
- **The add-task dialog and the command helpers** (`bot_functions.py`), in `bot_functions.dfy`.
  - The `Dialogs` class holds `user_state`. `AddTaskMessage` moves a sender from no entry to `waiting_surname`, then to `waiting_task`, then back to no entry, saving the task on the last step only.
  - The `/done` and `/delete` argument checks (`ParseArgs`) are modelled.
  - The three-way reply choice of `/clear_all` and `/done_all` (`SelectOutcome`) is modelled.

Supporting modules:
- `decimal.dfy`: Python's `str(int)` and `int(str)`, with `int(str(n)) == n`.
- `pytext.dfy`: `str.strip`, `str.split()` and `"\n".join`, with a split on one character that reads joined text back.
- `wrappers.dfy`: `Option`.

Inputs the source gets from outside are parameters:
- `dbUp` says whether `get_db_conn` connected.
- `saveOk` and `exportOk` are the results of `save_tasks` and `export_to_csv`.
- `now` is `datetime.now().isoformat()`.

Facts about the code that the model keeps:
- `save_task_to_db` reads `MAX` and inserts without a lock, so the model is sequential only.
- The dialog's last step saves whatever text arrives, including an empty one; nothing in bot_functions.py rejects it.
- `mark_done_in_db` reports success for a task that is already done. The `/done` reply for `False` still says "not found or already done", but with the database up that reply only ever means "not found".

## Model

| member | source | states |
|---|---|---|
| Decimal.NatToString | db_connect.py:38-39 | the decimal digits of a natural number: at least one digit, and a leading zero only for 0 |
| Decimal.Show | bot.py:106 | `str(n)` consists of digits and a minus sign only |
| Decimal.ParseInt | bot_functions.py:89-93 | `int(s)` succeeds only on an optional sign followed by digits, and the sign decides the sign of the value |
| Decimal.ParseIntAccepts | bot_functions.py:89-93 | `int(s)` succeeds exactly on digit strings with or without a leading `+` or `-`, and gives their base-ten value, negated after `-` (`int("007") == 7`, `int("+5") == 5`) |
| Decimal.DigitsValueOfNatToString | bot_functions.py:90 | reading back the digits of `n` gives `n` |
| Decimal.ParseShow | bot_functions.py:89-93 | `int(str(n)) == n`: a position the bot prints is read back as the same number |
| Decimal.ShowInjective | bot.py:100 | two integers print the same exactly when they are equal, so per-user keys never collide |
| Decimal.ShowHasNoSeparator | bot.py:190 | a printed integer holds no full stop, blank or newline |
| PyText.TrimStart | bot_functions.py:187 | drops exactly the leading whitespace: the rest is a suffix that starts with a non-blank |
| PyText.TrimEnd | bot_functions.py:187 | drops exactly the trailing whitespace: the rest is a prefix that ends with a non-blank |
| PyText.Strip | bot_functions.py:187 | `text.strip()` is the slice between the blanks at both ends, empty exactly when the text is all blank |
| PyText.StripShape | bot_functions.py:187 | trimming the start then the end yields that slice |
| PyText.Word | bot_functions.py:85 | the first word is the longest blank-free prefix |
| PyText.Tokens | bot_functions.py:85 | every word of `text.split()` is non-empty and blank-free |
| PyText.TokensEmpty | bot_functions.py:85-86 | `text.split()` is empty exactly when the text is all blanks |
| PyText.TokensCoverText | bot_functions.py:85 | the words of `text.split()`, written one after another, are exactly the text's non-blank characters in order |
| PyText.WordOfPrefix | bot_functions.py:85 | a blank-free prefix followed by a blank or nothing is the first word |
| PyText.TokensOfBlankThenWord | bot_functions.py:85 | a blank then one word splits into that word |
| PyText.TokensOfTwoWords | bot_functions.py:85-86 | `"a b".split() == ["a", "b"]` for blank-free non-empty words |
| PyText.IndexOf | bot.py:190 | finds the first occurrence of a character, or reports that there is none |
| PyText.IndexOfFirst | bot.py:190 | the first occurrence is the one with no earlier occurrence |
| PyText.SplitOn | bot.py:191 | splitting on a character gives at least one part, and no part contains the separator |
| PyText.SplitJoin | bot.py:191 | splitting a `"\n".join` of parts without newlines gives the parts back |
| TaskTable.Select | db_connect.py:85-91 | the rows satisfying a WHERE clause, in table order (no contract of its own; `FilterMembers`, `SelectAppend` and `ChronoFilters` state its properties) |
| TaskTable.Owned | db_connect.py:86-91 | the rows with `user_id = u`, in table order (no contract of its own; `SelectWithinOwner` and `OwnedAfterDelete` state its properties) |
| TaskTable.Count | db_connect.py:222-225 | `COUNT(*)`, the number of selected rows, also the rowcount of an UPDATE or DELETE with that WHERE (no contract of its own; `DeleteCount` and `NothingSelected` state its properties) |
| TaskTable.DeleteWhere | db_connect.py:178-181 | the rows not satisfying the WHERE clause, in table order (no contract of its own; `DeleteCount`, `FilterMembers` and `OwnedAfterDelete` state its properties) |
| TaskTable.SetDoneWhere | db_connect.py:272-275 | every row, with `done` set on the matching ones (no contract of its own; `SetDoneChangesOnlyDone` and `OwnedAfterSetDone` state its properties) |
| TaskTable.Renumber | db_connect.py:187-199 | each row of `u` gets one more than the number of `u`'s rows created before it (no contract of its own; `RenumberChangesOnlyPositions` and `RenumberOwned` state its properties) |
| TaskTable.Snapshot | db_connect.py:84-98 | the loaded list has one task per row of the user |
| TaskTable.DeleteCount | db_connect.py:178-184 | the rowcount of a DELETE is at most the table size, and the DELETE removes exactly that many rows |
| TaskTable.SetDoneChangesOnlyDone | db_connect.py:149-151 | `UPDATE … SET done = TRUE` keeps the row count, changes no column but `done`, and sets it on exactly the matching rows |
| TaskTable.RenumberChangesOnlyPositions | db_connect.py:187-199 | the renumbering UPDATE keeps the row count, changes no column but `task_id_in_list`, and leaves other users' rows as they were |
| TaskTable.MaxPosition | db_connect.py:115-119 | `SELECT MAX(task_id_in_list)` is NULL exactly on no rows; otherwise it bounds every position and is one of them |
| TaskTable.NextPosition | db_connect.py:115-120 | `(max or 0) + 1` exceeds every position of the user's rows, and is 1 when there are none |
| TaskTable.SelectAppend | db_connect.py:115-127 | a filter over appended rows is the filter over each part |
| TaskTable.DeleteWhereAppend | db_connect.py:176-179 | a DELETE over appended rows is the DELETE over each part |
| TaskTable.FilterSingle | db_connect.py:115-127 | a single row is selected exactly when it matches and deleted exactly when it matches |
| TaskTable.NoMatch | db_connect.py:149-154 | a WHERE that matches no row selects nothing and deletes nothing |
| TaskTable.NoMatchAround | db_connect.py:176-179 | when only row `i` matches, the rows before and after it are untouched |
| TaskTable.UniqueMatch | db_connect.py:176-179 | when exactly row `i` matches, SELECT gives that row and DELETE removes it alone |
| TaskTable.SelectAgree | db_connect.py:149-151 | two WHERE clauses that agree on every row select the same rows |
| TaskTable.NothingSelected | db_connect.py:152-154 | a statement whose count is 0 matches no row, so its UPDATE and DELETE change nothing |
| TaskTable.AllMatch | db_connect.py:233-236 | a WHERE that matches every row selects all of them and deletes all of them |
| TaskTable.SelectWithinOwner | db_connect.py:149-151 | every WHERE fixes `user_id`, so it selects only among that user's rows |
| TaskTable.OwnedAfterDelete | db_connect.py:176-179 | a DELETE for one user changes no other user's rows and acts on that user's rows alone |
| TaskTable.OwnedAfterSetDone | db_connect.py:149-151 | an `UPDATE … SET done` for one user changes no other user's rows and acts on that user's rows alone |
| TaskTable.RankIsPlace | db_connect.py:186-196 | with rows in creation order, `ROW_NUMBER() OVER (ORDER BY created_at)` of a row is its place among the user's rows |
| TaskTable.RelabelSnoc | db_connect.py:186-196 | renumbering a list with one more task renumbers the old list and gives the new task the next position |
| TaskTable.RenumberPrefix | db_connect.py:186-196 | the renumbering UPDATE numbers every prefix of the user's rows from 1 and leaves other users alone |
| TaskTable.RenumberStep | db_connect.py:186-196 | one more table row keeps every user's renumbered rows in step with the original ones |
| TaskTable.RenumberOwned | db_connect.py:186-196 | the renumbering UPDATE numbers the user's rows `1..N` in order and changes no other user's rows |
| TaskTable.NumberedAt | db_connect.py:149-154 | on a list numbered `1..N`, position `p` matches exactly one row when `1 <= p <= N` and none otherwise |
| TaskTable.NumberedMax | db_connect.py:115-119 | on a list numbered `1..N`, `MAX(task_id_in_list)` is N, or NULL when there are no rows |
| TaskTable.NextPositionOfNumbered | db_connect.py:115-120 | `(max or 0) + 1` is N + 1 on a list numbered `1..N` |
| TaskTable.FilterMembers | db_connect.py:176-179 | SELECT keeps only matching rows of the table and DELETE keeps only non-matching ones |
| TaskTable.ChronoSnoc | db_connect.py:121-127 | inserting a row newer than every row keeps the table in creation order |
| TaskTable.ChronoFilters | db_connect.py:176-179 | SELECT and DELETE keep creation order |
| TaskTable.PositionsFollowCreation | db_connect.py:186-196 | on a numbered table a user's positions increase with `created_at` |
| DbConnect.CacheKey | db_connect.py:38-39 | the key is `"tasks:"` followed by the user id |
| DbConnect.CacheKeyInjective | db_connect.py:38-39 | different users have different cache keys |
| DbConnect.InvalidateRestoresCoherence | db_connect.py:41-47 | deleting the key of the only user whose rows changed leaves every remaining cache entry current |
| DbConnect.StoreKeepsCoherence | db_connect.py:97 | caching a freshly loaded list keeps every cache entry current |
| DbConnect.DenseAfterWrite | db_connect.py:186-199 | a write that renumbers its user `1..N` and leaves others alone keeps every user's positions dense |
| DbConnect.BelowFilters | db_connect.py:176-179 | a DELETE keeps ids and timestamps below their counters |
| DbConnect.OwnedBelongs | db_connect.py:88 | the rows loaded for a user all belong to that user |
| DbConnect.PointwiseKeepsOrder | db_connect.py:149-151 | an UPDATE that leaves ids and timestamps alone keeps creation order and the counter bounds |
| DbConnect.PositionCount | db_connect.py:149-154 | on a dense table, `(user_id, position)` matches one row when the position is in `1..N` and none otherwise, in which case nothing changes |
| DbConnect.PendingCount | db_connect.py:262-269 | the pending count counts only the user's rows that are not done, and when it is 0 they are all done |
| DbConnect.SaveStep | db_connect.py:115-130 | the INSERT at `MAX + 1` keeps the store invariant, appends to that user alone, and gives position N + 1 |
| DbConnect.MarkDoneStep | db_connect.py:149-157 | the UPDATE at an existing position keeps the invariant and sets `done` on that one task only |
| DbConnect.DeleteStep | db_connect.py:176-201 | the DELETE and renumbering keep the invariant and leave the user's survivors numbered `1..N-1` in order |
| DbConnect.ClearStep | db_connect.py:222-238 | the count is the user's row count, and the DELETE empties that user's list alone while keeping the invariant |
| DbConnect.DoneAllStep | db_connect.py:272-277 | the UPDATE marks every task of the user done, changes nothing else, and keeps the invariant |
| DbConnect.TaskStore.constructor | db_connect.py:49-75 | an empty table and an empty cache satisfy the invariant |
| DbConnect.TaskStore.Valid | db_connect.py:49-75 | the store invariant: rows in creation order, every user's positions `1..N` in that order, ids and timestamps below their counters, and every decodable cache entry equal to its user's current rows |
| DbConnect.TaskStore.Invalidate | db_connect.py:41-47 | removes the user's cache key and nothing else |
| DbConnect.TaskStore.Save | db_connect.py:106-137 | returns position `N + 1` and appends exactly one row, with the next id and a newer timestamp, advancing both counters by one; invalidates the user's key; `None` and no change without a connection |
| DbConnect.TaskStore.MarkDone | db_connect.py:139-165 | True exactly when the position exists, even for a task already done; sets `done` on that task alone and invalidates; otherwise False with table and cache unchanged |
| DbConnect.TaskStore.Delete | db_connect.py:167-209 | False with nothing changed when the position does not exist; otherwise removes that task, renumbers the survivors `1..N-1` in creation order and invalidates |
| DbConnect.TaskStore.ClearAll | db_connect.py:210-247 | `(True, count before)` and the user has no rows afterwards; with count 0 neither table nor cache is touched; `(False, 0)` without a connection |
| DbConnect.TaskStore.DoneAll | db_connect.py:251-286 | `(True, number not done before)`, and every task of the user is done afterwards; with 0 pending nothing is touched |
| DbConnect.TaskStore.Load | db_connect.py:77-104 | returns the user's tasks in position order, numbered `1..N`, and caches them; `[]` and no cache write without a connection |
| DbConnect.TaskStore.Get | db_connect.py:290-306 | a decodable cache entry is returned without touching the table; otherwise the list is loaded and cached; either way the result is the user's current tasks in position order |
| DbConnect.DeleteScenario | db_connect.py:106-209 | three adds give positions 1, 2 and 3; deleting position 2 leaves "buy milk" at 1 and "pay rent" at 2 |
| DbConnect.ClearScenario | db_connect.py:210-247 | clearing a user with two tasks reports 2; another user's task stays at position 1 |
| DbConnect.MissingScenario | db_connect.py:139-184 | with one task stored, position 99 is not marked done and position 0 is not deleted |
| Bot.GetUserTasks | bot.py:97-100 | the list stored under `str(user_id)`, or `[]` when there is none (no contract of its own; `GetAfterStore` states how writes affect it) |
| Bot.GetAfterStore | bot.py:97-100 | after one user's list is written, `get_user_tasks` gives that list for that user and the old list for everyone else |
| Bot.UserKey | bot.py:100 | the key of a user's list is `str(user_id)`, which `int()` reads back as that id |
| Bot.RelabelIds | bot.py:165-167 | renumbering gives ids `1..n` and keeps the length |
| Bot.FindId | bot.py:152-160 | finds the first task with the id, or reports that none has it |
| Bot.FindIdInDense | bot.py:152-160 | on ids `1..n` the task with id `k` is at index `k-1`, and ids outside `1..n` are not found |
| Bot.AddTask | bot.py:103-126 | appends `{id: len+1, text, done: False}` to the user's list, created if absent; the file changes only if the save succeeds; the id is returned only if save and export both succeed; dense ids stay dense; other users are unchanged |
| Bot.MarkDone | bot.py:128-143 | sets `done` on the first task with the id only; False with the file untouched when there is none; the result is save-and-export success |
| Bot.DeleteTask | bot.py:145-181 | removes only the first task with the id and renumbers the rest `1..n-1` in their order; False with the file untouched when there is none |
| Bot.Listing | bot.py:187-190 | one line per task, in list order |
| Bot.FormatTasks | bot.py:183-191 | the no-tasks message for an empty list; otherwise one `"[✓] id. text"` or `"[⬜] id. text"` line per task, joined by newlines, starting with a bracket |
| Bot.StatusMark | bot.py:189 | a three-character bracketed mark, `✓` exactly for a done task and `⬜` exactly for an open one |
| Bot.Line | bot.py:190 | a line starts with the status mark and a blank and ends with the task text |
| PyText.Join | bot.py:191 | a join starts with its first part, followed by the separator when there is a second part |
| Bot.JoinStartsWithFirst | bot.py:191 | a join starts with the first character of its first part |
| Bot.ParseLineOfLine | bot.py:189-190 | each formatted line reads back as the task's status, id and text |
| Bot.LineHasNoNewline | bot.py:190 | a line has no newline when the task text has none |
| Bot.FormatReadsBack | bot.py:183-191 | when no task text contains a newline, splitting the output on newlines gives one line per task, in order, each reading back as that task |
| Bot.Classify | bot.py:261-278 | text starting with `/` never becomes a task: an exactly listed command is passed on and any other one gets the unknown-command help; every other text becomes a task |
| Bot.HandleAllMessages | bot.py:258-285 | commands leave the file untouched; other text is added as a task and the reply carries the new id, or reports failure |
| BotFunctions.Dialogs.constructor | bot_functions.py:39 | `user_state` starts empty |
| BotFunctions.Dialogs.AddTaskMessage | bot_functions.py:184-230 | no entry and non-empty text opens `waiting_surname` with that text; no entry and empty text changes nothing; `waiting_surname` stores the surname and moves to `waiting_task` without saving; `waiting_task` saves the current text once (one new row, both counters advanced, the user's key invalidated) and removes the entry whatever the result; only the sender's entry changes |
| BotFunctions.ParseArgs | bot_functions.py:85-93 | usage unless the message splits into exactly two words; otherwise the number, or "not a number" when the second word does not parse |
| BotFunctions.ParseArgsOfCommand | bot_functions.py:85-93 | `"/done " + str(n)` yields the number n |
| BotFunctions.ParseArgsOfBareCommand | bot_functions.py:85-88 | a bare command yields the usage reply |
| BotFunctions.DoneCommand | bot_functions.py:83-101 | the store is called only with a well-formed argument; the reply is "done" exactly when the position exists |
| BotFunctions.DeleteCommand | bot_functions.py:104-122 | the store is called only with a well-formed argument; on success the survivors are renumbered |
| BotFunctions.SelectOutcome | bot_functions.py:128-135 | failure exactly when unsuccessful, the count exactly when successful with a positive count, otherwise "nothing to do" |
| BotFunctions.ClearAllCommand | bot_functions.py:124-138 | the count of deleted tasks, "nothing to delete", or failure, and the user's list is empty afterwards |
| BotFunctions.DoneAllCommand | bot_functions.py:141-155 | the count of tasks that were pending, "nothing to mark", or failure, and all the user's tasks are done afterwards |

## Left out

- Connections and configuration are not modelled: `get_db_conn`, the Redis client, environment variables and timeouts (db_connect.py:14-36). A failed connection is the `dbUp` flag.
- The SQL engine is not modelled. Rows are a sequence in insertion order, and `created_at` is a strictly increasing counter, so `ROW_NUMBER()` has no ties.
- Concurrency is not modelled. `SELECT MAX` followed by `INSERT` takes no lock, so concurrent inserts can race; the model runs one operation at a time.
- Cache failure paths are not modelled:
  - `invalidate_cache` swallows errors;
  - `redis_client.get` is unguarded;
  - a failed `set` makes `load_tasks_from_db` return `[]`.

  Redis calls are taken to succeed.
- Undecodable cache values (`Corrupt`) are only ever written from outside. The model handles them on read, as a miss, and never produces them.
- JSON text is not modelled. A cache value is a task list or `Corrupt`.
- Dates are not modelled:
  - `created_at` is a counter rather than a timestamp;
  - `isoformat` in `load_tasks_from_db` is omitted;
  - the `datetime.now()` stamp of the JSON variant is an opaque string input.
- Bot.AddTask: a failed save is taken to leave `tasks.json` as it was. In the source `save_tasks` opens the file with `'w'` before `json.dump` (bot.py:58-59), so a save that fails during the dump has already truncated it, and the next `load_tasks` reads `{}` (bot.py:46-48).
- Bot.MarkDone: a failed save is taken to leave `tasks.json` as it was, for the same reason as `Bot.AddTask`.
- Bot.DeleteTask: a failed save is taken to leave `tasks.json` as it was, for the same reason as `Bot.AddTask`.
- File and CSV I/O in bot.py (`load_tasks`, `save_tasks`, `export_to_csv`) are inputs and outputs. Each operation receives the map `load_tasks` returned. The success of saving and exporting are boolean inputs. The CSV content is not modelled.
- Telegram plumbing is not modelled: `reply_to`, `send_document`, polling and restart loops, logging, token checks, and the order in which handlers are tried.
  - The bot.py handlers `start`, `add`, `list_tasks`, `done`, `delete` and `export` are left out with it. Each only wires parsing to the operations modelled here.
  - The bot_functions.py handlers `start`, `list_tasks` and `export_tasks` are left out for the same reason.
  - Replies are values of a `Reply` or `Outcome` datatype rather than the Russian texts.
- `format_tasks` in bot_functions.py (bot_functions.py:41-54) is not modelled. It differs from the bot.py formatter in its status marks, in printing `task_id_in_list` where bot.py prints `id`, and in appending the formatted creation date, and dates are not modelled.
- `init_db` (db_connect.py:49-75) is modelled only as the empty store of the constructor.
- create_table.py is not part of this model. It is a one-shot DDL script whose SQL literal is not terminated.
- Python's `int()` accepts underscores, surrounding whitespace and non-ASCII digits. `Decimal.ParseInt` accepts an optional sign followed by ASCII digits only.
- `PyText.IsSpace` follows `str.isspace` for the code points it lists.
