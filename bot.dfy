/**
 * The JSON-file variant of the bot: `tasks.json` holds a map from
 * `str(user_id)` to that user's list of tasks, each with a per-user `id`.
 *
 * Each operation receives the map `load_tasks` read, works on a copy of the
 * user's list step by step as the Python does, and returns what is in the file
 * afterwards; whether `save_tasks` and `export_to_csv` succeeded are inputs,
 * and so is the `datetime.now().isoformat()` stamp of a new task.
 */
module Bot {
  import opened Wrappers
  import opened Decimal
  import opened PyText
  import TaskTable

  /** One entry of a user's list in `tasks.json`. */
  datatype JsonTask = JsonTask(id: int, text: string, done: bool, createdAt: string)

  /** The whole of `tasks.json`. */
  type TasksFile = map<string, seq<JsonTask>>

  /** The key of a user's list: `str(user_id)`, which reads back as the user's id. */
  function UserKey(u: int): (k: string)
    ensures ParseInt(k) == Some(u)
  {
    ParseShow(u);
    Show(u)
  }

  /** `get_user_tasks(user_id)`: the stored list, or `[]` when the user has none. */
  function GetUserTasks(file: TasksFile, u: int): seq<JsonTask>
  {
    if UserKey(u) in file then file[UserKey(u)] else []
  }

  /** Writing one user's list leaves every other user's lookup as it was. */
  lemma GetAfterStore(file: TasksFile, u: int, ts: seq<JsonTask>, v: int)
    ensures GetUserTasks(file[UserKey(u) := ts], v) == if v == u then ts else GetUserTasks(file, v)
  {
    ShowInjective(u, v);
  }

  /** The ids of a list are 1..n in list order. */
  predicate DenseIds(ts: seq<JsonTask>) {
    forall k :: 0 <= k < |ts| ==> ts[k].id == k + 1
  }

  /** `ts` with every task given its place in `ts` (from 1) as id. */
  function RelabelIds(ts: seq<JsonTask>): (r: seq<JsonTask>)
    ensures |r| == |ts| && DenseIds(r)
  {
    seq(|ts|, k requires 0 <= k < |ts| => ts[k].(id := k + 1))
  }

  /** The index of the first task whose id is `id`, if any. */
  function FindId(ts: seq<JsonTask>, id: int): (r: Option<nat>)
    ensures r.Some? ==> r.value < |ts| && ts[r.value].id == id
    ensures r.Some? ==> forall k :: 0 <= k < r.value ==> ts[k].id != id
    ensures r.None? ==> forall k :: 0 <= k < |ts| ==> ts[k].id != id
  {
    if ts == [] then None
    else if ts[0].id == id then Some(0)
    else
      match FindId(ts[1..], id)
      case None => None
      case Some(i) => Some(i + 1)
  }

  /** On a densely numbered list the task with id `n` is at index `n - 1`, and there is none outside 1..n. */
  lemma FindIdInDense(ts: seq<JsonTask>, id: int)
    requires DenseIds(ts)
    ensures FindId(ts, id) == if 1 <= id <= |ts| then Some(id - 1) else None
  {
    if 1 <= id <= |ts| {
      assert ts[id - 1].id == id;
    }
  }

  /**
   * `add_task(user_id, text)`: append `{id: len(list) + 1, text, done: False}`
   * to the user's list (created when absent). The file takes the new list
   * only when the save succeeds, and a failed save is taken to leave it as it
   * was; the id is returned only when the export after it succeeds too.
   */
  method AddTask(file: TasksFile, u: int, text: string, now: string, saveOk: bool, exportOk: bool)
    returns (id: Option<int>, stored: TasksFile)
    ensures var ts := GetUserTasks(file, u);
      stored == if saveOk then file[UserKey(u) := ts + [JsonTask(|ts| + 1, text, false, now)]] else file
    ensures id == if saveOk && exportOk then Some(|GetUserTasks(file, u)| + 1) else None
    ensures saveOk ==> GetUserTasks(stored, u) == GetUserTasks(file, u) + [JsonTask(|GetUserTasks(file, u)| + 1, text, false, now)]
    ensures DenseIds(GetUserTasks(file, u)) ==> DenseIds(GetUserTasks(stored, u))
    ensures forall v :: v != u ==> GetUserTasks(stored, v) == GetUserTasks(file, v)
  {
    var tasks := file;
    var key := UserKey(u);
    if key !in tasks {
      tasks := tasks[key := []];
    }
    var userTasks := tasks[key];
    var newTask := JsonTask(|userTasks| + 1, text, false, now);
    userTasks := userTasks + [newTask];
    tasks := tasks[key := userTasks];

    stored := if saveOk then tasks else file;
    id := if saveOk && exportOk then Some(newTask.id) else None;
    forall v ensures GetUserTasks(stored, v) == if v == u && saveOk then userTasks else GetUserTasks(file, v) {
      GetAfterStore(file, u, userTasks, v);
    }
  }

  /**
   * `mark_done(user_id, task_id)`: set `done` on the first task with that id.
   * False, with the file untouched, when there is none; otherwise the file
   * changes when the save succeeds and the result is whether save and export
   * both did.
   */
  method MarkDone(file: TasksFile, u: int, taskId: int, saveOk: bool, exportOk: bool)
    returns (ok: bool, stored: TasksFile)
    ensures var ts := GetUserTasks(file, u);
      match FindId(ts, taskId)
      case None => !ok && stored == file
      case Some(i) =>
        && ok == (saveOk && exportOk)
        && stored == if saveOk then file[UserKey(u) := ts[i := ts[i].(done := true)]] else file
    ensures DenseIds(GetUserTasks(file, u)) ==> DenseIds(GetUserTasks(stored, u))
    ensures forall v :: v != u ==> GetUserTasks(stored, v) == GetUserTasks(file, v)
  {
    var tasks := file;
    var key := UserKey(u);
    var userTasks := GetUserTasks(tasks, u);
    var i := 0;
    while i < |userTasks|
      invariant 0 <= i <= |userTasks|
      invariant forall k :: 0 <= k < i ==> userTasks[k].id != taskId
    {
      if userTasks[i].id == taskId {
        assert FindId(userTasks, taskId) == Some(i);
        userTasks := userTasks[i := userTasks[i].(done := true)];
        tasks := tasks[key := userTasks];
        ok := saveOk && exportOk;
        stored := if saveOk then tasks else file;
        forall v | v != u ensures GetUserTasks(stored, v) == GetUserTasks(file, v) {
          GetAfterStore(file, u, userTasks, v);
        }
        return;
      }
      i := i + 1;
    }
    return false, file;
  }

  /**
   * `delete_task(user_id, task_id)`: remove the first task with that id and
   * renumber the rest 1..n-1 in their order. False, with the file untouched,
   * when there is none; otherwise as for `MarkDone`.
   */
  method DeleteTask(file: TasksFile, u: int, taskId: int, saveOk: bool, exportOk: bool)
    returns (ok: bool, stored: TasksFile)
    ensures var ts := GetUserTasks(file, u);
      match FindId(ts, taskId)
      case None => !ok && stored == file
      case Some(i) =>
        && ok == (saveOk && exportOk)
        && stored == if saveOk then file[UserKey(u) := RelabelIds(TaskTable.Drop(ts, i))] else file
    ensures saveOk && FindId(GetUserTasks(file, u), taskId).Some? ==>
      |GetUserTasks(stored, u)| == |GetUserTasks(file, u)| - 1 && DenseIds(GetUserTasks(stored, u))
    ensures forall v :: v != u ==> GetUserTasks(stored, v) == GetUserTasks(file, v)
  {
    var tasks := file;
    var key := UserKey(u);
    var userTasks := GetUserTasks(tasks, u);

    var taskIndex := -1;
    var i := 0;
    while i < |userTasks|
      invariant 0 <= i <= |userTasks|
      invariant forall k :: 0 <= k < i ==> userTasks[k].id != taskId
      invariant taskIndex == -1
    {
      if userTasks[i].id == taskId {
        taskIndex := i;
        break;
      }
      i := i + 1;
    }
    if taskIndex == -1 {
      return false, file;
    }
    assert FindId(userTasks, taskId) == Some(taskIndex);

    ghost var survivors := TaskTable.Drop(userTasks, taskIndex);
    userTasks := userTasks[..taskIndex] + userTasks[taskIndex + 1..];

    var idx := 0;
    while idx < |userTasks|
      invariant 0 <= idx <= |userTasks| == |survivors|
      invariant forall k :: 0 <= k < idx ==> userTasks[k] == survivors[k].(id := k + 1)
      invariant forall k :: idx <= k < |userTasks| ==> userTasks[k] == survivors[k]
    {
      userTasks := userTasks[idx := userTasks[idx].(id := idx + 1)];
      idx := idx + 1;
    }
    assert userTasks == RelabelIds(survivors);
    tasks := tasks[key := userTasks];

    ok := saveOk && exportOk;
    stored := if saveOk then tasks else file;
    forall v | v != u ensures GetUserTasks(stored, v) == GetUserTasks(file, v) {
      GetAfterStore(file, u, userTasks, v);
    }
  }

  // Formatting

  const NoTasks: string := "У вас нет задач."

  /** `"[✓]"` for a done task, `"[⬜]"` for one still open. */
  function StatusMark(done: bool): (m: string)
    ensures |m| == 3 && m[0] == '[' && m[2] == ']'
    ensures m[1] == '✓' <==> done
    ensures m[1] == '⬜' <==> !done
  {
    if done then "[✓]" else "[⬜]"
  }

  /** One line of the list: status, id, a full stop, the text. */
  function Line(t: JsonTask): (l: string)
    ensures |l| >= |t.text| + 7
    ensures l[..4] == StatusMark(t.done) + " "
    ensures l[|l| - |t.text|..] == t.text
  {
    StatusMark(t.done) + " " + Show(t.id) + ". " + t.text
  }

  /** The lines of a list, in list order. */
  function Listing(ts: seq<JsonTask>): (lines: seq<string>)
    ensures |lines| == |ts|
  {
    seq(|ts|, k requires 0 <= k < |ts| => Line(ts[k]))
  }

  /**
   * `format_tasks(tasks)`: the fixed "no tasks" message for an empty list,
   * otherwise the lines of the tasks joined by newlines, which starts with a
   * status bracket and so never reads as that message.
   */
  method FormatTasks(ts: seq<JsonTask>) returns (out: string)
    ensures ts == [] ==> out == NoTasks
    ensures ts != [] ==> out == Join(Listing(ts), '\n') && out[0] == '['
  {
    if ts == [] {
      return NoTasks;
    }
    var lines: seq<string> := [];
    var i := 0;
    while i < |ts|
      invariant 0 <= i <= |ts|
      invariant |lines| == i
      invariant forall k :: 0 <= k < i ==> lines[k] == Line(ts[k])
    {
      lines := lines + [Line(ts[i])];
      i := i + 1;
    }
    assert lines == Listing(ts);
    out := Join(lines, '\n');
    JoinStartsWithFirst(lines, '\n');
  }

  lemma JoinStartsWithFirst(parts: seq<string>, sep: char)
    requires |parts| >= 1 && parts[0] != []
    ensures Join(parts, sep) != [] && Join(parts, sep)[0] == parts[0][0]
  {
  }

  /** What a reader of a formatted line recovers: status, id and text. */
  datatype Shown = Shown(done: bool, id: int, text: string)

  /** Reads back the `"id. text"` part of a line. */
  function ParseNumbered(rest: string): Option<(int, string)> {
    match IndexOf(rest, '.')
    case None => None
    case Some(i) =>
      if i + 1 < |rest| && rest[i + 1] == ' ' then
        match ParseInt(rest[..i])
        case None => None
        case Some(id) => Some((id, rest[i + 2..]))
      else None
  }

  /** Reads one formatted line back. */
  function ParseLine(line: string): Option<Shown> {
    if |line| < 4 || (line[..4] != "[✓] " && line[..4] != "[⬜] ") then None
    else
      match ParseNumbered(line[4..])
      case None => None
      case Some(p) => Some(Shown(line[..4] == "[✓] ", p.0, p.1))
  }

  /** The id and text of a line read back as themselves. */
  lemma ParseNumberedOf(id: int, text: string)
    ensures ParseNumbered(Show(id) + ". " + text) == Some((id, text))
  {
    var digits := Show(id);
    var rest := digits + ". " + text;
    ShowHasNoSeparator(id, '.');
    assert rest[..|digits|] == digits;
    IndexOfFirst(rest, '.', |digits|);
    assert rest[|digits| + 1] == ' ';
    ParseShow(id);
    assert rest[|digits| + 2..] == text;
  }

  /** Every formatted line reads back as the task's status, id and text. */
  lemma ParseLineOfLine(t: JsonTask)
    ensures ParseLine(Line(t)) == Some(Shown(t.done, t.id, t.text))
  {
    var line := Line(t);
    var rest := Show(t.id) + ". " + t.text;
    var mark := StatusMark(t.done) + " ";
    assert line == mark + rest;
    assert line[..4] == mark;
    assert line[4..] == rest;
    if !t.done {
      assert mark[1] == '⬜';
    }
    ParseNumberedOf(t.id, t.text);
  }

  /** No formatted line contains a newline when the task text does not. */
  lemma LineHasNoNewline(t: JsonTask)
    requires '\n' !in t.text
    ensures '\n' !in Line(t)
  {
    ShowHasNoSeparator(t.id, '\n');
  }

  /**
   * A non-empty list, none of whose texts holds a newline, can be read back
   * from its formatting: one line per task, in order, each giving that task's
   * status, id and text.
   */
  lemma FormatReadsBack(ts: seq<JsonTask>)
    requires ts != []
    requires forall k :: 0 <= k < |ts| ==> '\n' !in ts[k].text
    ensures var lines := SplitOn(Join(Listing(ts), '\n'), '\n');
      && |lines| == |ts|
      && forall k :: 0 <= k < |ts| ==> ParseLine(lines[k]) == Some(Shown(ts[k].done, ts[k].id, ts[k].text))
  {
    var lines := Listing(ts);
    forall k | 0 <= k < |lines| ensures '\n' !in lines[k] {
      LineHasNoNewline(ts[k]);
    }
    SplitJoin(lines, '\n');
    forall k | 0 <= k < |ts| ensures ParseLine(lines[k]) == Some(Shown(ts[k].done, ts[k].id, ts[k].text)) {
      ParseLineOfLine(ts[k]);
    }
  }

  // Messages that are not handled by a command handler

  /** The commands `handle_all_messages` leaves to their own handlers. */
  const Commands: seq<string> := ["/start", "/list", "/done", "/delete", "/export"]

  datatype Route = PassOn | UnknownCommand | NewTask(text: string)

  /**
   * The decision in `handle_all_messages`: text starting with '/' is left
   * alone when it is exactly one of the listed commands and answered with the
   * unknown-command help otherwise; any other text becomes a task.
   */
  function Classify(text: string): (r: Route)
    ensures r.PassOn? <==> text in Commands
    ensures r.UnknownCommand? <==> text != [] && text[0] == '/' && text !in Commands
    ensures r.NewTask? <==> text == [] || text[0] != '/'
    ensures r.NewTask? ==> r.text == text
  {
    if text != [] && text[0] == '/' then
      if text in Commands then PassOn else UnknownCommand
    else
      NewTask(text)
  }

  datatype Reply = NoReply | UnknownCommandHelp | TaskAdded(id: int) | AddFailed

  /**
   * `handle_all_messages(message)`: route the text and, for a new task, add it
   * and report the id or the failure. Text starting with '/' never changes
   * the file.
   */
  method HandleAllMessages(file: TasksFile, u: int, text: string, now: string, saveOk: bool, exportOk: bool)
    returns (reply: Reply, stored: TasksFile)
    ensures text != [] && text[0] == '/' ==> stored == file && reply == (if text in Commands then NoReply else UnknownCommandHelp)
    ensures text == [] || text[0] != '/' ==>
      && reply == (if saveOk && exportOk then TaskAdded(|GetUserTasks(file, u)| + 1) else AddFailed)
      && (saveOk ==> GetUserTasks(stored, u) == GetUserTasks(file, u) + [JsonTask(|GetUserTasks(file, u)| + 1, text, false, now)])
      && (!saveOk ==> stored == file)
    ensures forall v :: v != u ==> GetUserTasks(stored, v) == GetUserTasks(file, v)
  {
    match Classify(text)
    case PassOn =>
      return NoReply, file;
    case UnknownCommand =>
      return UnknownCommandHelp, file;
    case NewTask(t) =>
      var id;
      id, stored := AddTask(file, u, t, now, saveOk, exportOk);
      reply := if id.Some? then TaskAdded(id.value) else AddFailed;
  }
}
