/**
 * The database-backed bot: the add-task dialog kept in `user_state`, the
 * argument checks of `/done` and `/delete`, and the replies of `/clear_all`
 * and `/done_all`, all over the store of `DbConnect`.
 *
 * Replies are values of `Reply`; sending them is left to the caller.
 */
module BotFunctions {
  import opened Wrappers
  import opened Decimal
  import opened PyText
  import opened TaskTable
  import opened DbConnect

  datatype Stage = WaitingSurname | WaitingTask

  /** The dialog's `data` dict: `task_text`, and `surname` once given. */
  datatype DialogData = DialogData(taskText: string, surname: Option<string>)

  /** One value of `user_state`: `{stage, data}`. */
  datatype Entry = Entry(stage: Stage, data: DialogData)

  datatype Reply =
    | AskSurname | AskTask | TaskAdded(position: int, text: string) | AddFailed | EmptyText
    | UsageHint | MustBeNumber | MarkedDone(n: int) | NotFoundOrDone | Deleted(n: int) | NotFound

  /** The global `user_state` dict. */
  class Dialogs {
    var state: map<int, Entry>

    constructor ()
      ensures state == map[]
    {
      state := map[];
    }

    /**
     * `add_task(message)`, the handler of every other text message, on the
     * stripped text. In `waiting_surname` the text becomes the surname and the
     * stage `waiting_task`; in `waiting_task` the text replaces `task_text`, is
     * saved once, and the entry is removed whatever the save gave. With no
     * entry a non-empty text opens one in `waiting_surname`; an empty one
     * changes nothing. Only the sender's entry is read or written, and only
     * the last step touches the store.
     */
    method AddTaskMessage(store: TaskStore, u: int, message: string, dbUp: bool) returns (reply: Reply)
      requires store.Valid()
      modifies this, store
      ensures store.Valid()
      ensures old(u !in state) ==> unchanged(store)
      ensures old(u !in state) && Strip(message) != [] ==>
        state == old(state)[u := Entry(WaitingSurname, DialogData(Strip(message), None))] && reply == AskSurname
      ensures old(u !in state) && Strip(message) == [] ==> state == old(state) && reply == EmptyText
      ensures old(u in state && state[u].stage == WaitingSurname) ==>
        && unchanged(store)
        && state == old(state)[u := Entry(WaitingTask, old(state[u].data).(surname := Some(Strip(message))))]
        && reply == AskTask
      ensures old(u in state && state[u].stage == WaitingTask) ==>
        && state == old(state) - {u}
        && reply == (if dbUp then TaskAdded(|old(Owned(store.rows, u))| + 1, Strip(message)) else AddFailed)
        && (!dbUp ==> unchanged(store))
      ensures old(u in state && state[u].stage == WaitingTask) && dbUp ==>
        && store.rows == old(store.rows) + [Row(old(store.nextId), u, Strip(message), false, old(store.clock), |old(Owned(store.rows, u))| + 1)]
        && store.cache == old(store.cache) - {CacheKey(u)}
        && store.nextId == old(store.nextId) + 1 && store.clock == old(store.clock) + 1
      ensures forall v :: v != u ==> Owned(store.rows, v) == old(Owned(store.rows, v))
    {
      var text := Strip(message);
      if u !in state {
        if text != [] {
          state := state[u := Entry(WaitingSurname, DialogData(text, None))];
          reply := AskSurname;
        } else {
          reply := EmptyText;
        }
      } else if state[u].stage == WaitingSurname {
        state := state[u := Entry(WaitingTask, state[u].data.(surname := Some(text)))];
        reply := AskTask;
      } else {
        var data := state[u].data.(taskText := text);
        var saved := store.Save(u, data.taskText, dbUp);
        reply := if saved.Some? && saved.value != 0 then TaskAdded(saved.value, data.taskText) else AddFailed;
        state := state - {u};
      }
    }
  }

  // Arguments of /done and /delete

  datatype Args = BadUsage | NotANumber | Number(n: int)

  /**
   * `message.text.split()` must give exactly two words, and the second must
   * read as an integer.
   */
  function ParseArgs(message: string): (a: Args)
    ensures a.BadUsage? <==> |Tokens(message)| != 2
    ensures a.Number? ==> ParseInt(Tokens(message)[1]) == Some(a.n)
    ensures a.NotANumber? ==> ParseInt(Tokens(message)[1]) == None
  {
    var args := Tokens(message);
    if |args| != 2 then BadUsage
    else
      match ParseInt(args[1])
      case None => NotANumber
      case Some(n) => Number(n)
  }

  /** A command word followed by a printed number reads back as that number. */
  lemma ParseArgsOfCommand(command: string, n: int)
    requires command != [] && NoSpace(command)
    ensures ParseArgs(command + " " + Show(n)) == Number(n)
  {
    var digits := Show(n);
    assert NoSpace(digits);
    TokensOfTwoWords(command, digits);
    ParseShow(n);
  }

  /** A bare command has no argument. */
  lemma ParseArgsOfBareCommand(command: string)
    requires command != [] && NoSpace(command)
    ensures ParseArgs(command) == BadUsage
  {
    assert !IsSpace(command[0]);
    assert TrimStart(command) == command;
    assert Word(command) == command by {
      WordOfPrefix(command, []);
      assert command + [] == command;
    }
    assert command[|command|..] == [];
    assert Tokens([]) == [];
  }

  /**
   * `done_task(message)`: the store is called only with a well-formed
   * argument; otherwise the usage or the number hint is the reply and nothing
   * changes.
   */
  method DoneCommand(store: TaskStore, u: int, message: string, dbUp: bool) returns (reply: Reply)
    requires store.Valid()
    modifies store
    ensures store.Valid()
    ensures ParseArgs(message).BadUsage? ==> reply == UsageHint && unchanged(store)
    ensures ParseArgs(message).NotANumber? ==> reply == MustBeNumber && unchanged(store)
    ensures ParseArgs(message).Number? ==>
      var n := ParseArgs(message).n;
      var found := dbUp && 1 <= n <= |old(Owned(store.rows, u))|;
      && reply == (if found then MarkedDone(n) else NotFoundOrDone)
      && (found ==> Owned(store.rows, u) == old(Owned(store.rows, u))[n - 1 := old(Owned(store.rows, u))[n - 1].(done := true)])
      && (!found ==> store.rows == old(store.rows) && store.cache == old(store.cache))
    ensures forall v :: v != u ==> Owned(store.rows, v) == old(Owned(store.rows, v))
  {
    var args := ParseArgs(message);
    if args.BadUsage? {
      reply := UsageHint;
    } else if args.NotANumber? {
      reply := MustBeNumber;
    } else {
      var ok := store.MarkDone(u, args.n, dbUp);
      reply := if ok then MarkedDone(args.n) else NotFoundOrDone;
    }
  }

  /**
   * `delete_task(message)`: as `DoneCommand`, with the deletion and
   * renumbering of `delete_task_from_db`.
   */
  method DeleteCommand(store: TaskStore, u: int, message: string, dbUp: bool) returns (reply: Reply)
    requires store.Valid()
    modifies store
    ensures store.Valid()
    ensures ParseArgs(message).BadUsage? ==> reply == UsageHint && unchanged(store)
    ensures ParseArgs(message).NotANumber? ==> reply == MustBeNumber && unchanged(store)
    ensures ParseArgs(message).Number? ==>
      var n := ParseArgs(message).n;
      var found := dbUp && 1 <= n <= |old(Owned(store.rows, u))|;
      && reply == (if found then Deleted(n) else NotFound)
      && (found ==> Owned(store.rows, u) == Relabel(Drop(old(Owned(store.rows, u)), n - 1)))
      && (!found ==> store.rows == old(store.rows) && store.cache == old(store.cache))
    ensures forall v :: v != u ==> Owned(store.rows, v) == old(Owned(store.rows, v))
  {
    var args := ParseArgs(message);
    if args.BadUsage? {
      reply := UsageHint;
    } else if args.NotANumber? {
      reply := MustBeNumber;
    } else {
      var ok := store.Delete(u, args.n, dbUp);
      reply := if ok then Deleted(args.n) else NotFound;
    }
  }

  // Replies of /clear_all and /done_all

  datatype Outcome = Failed | Affected(count: nat) | NothingToDo

  /** The reply chosen from `(success, count)`: failure, the count when positive, or "nothing to do". */
  function SelectOutcome(success: bool, count: nat): (o: Outcome)
    ensures o.Failed? <==> !success
    ensures o.Affected? <==> success && count > 0
    ensures o.Affected? ==> o.count == count
  {
    if success then
      if count > 0 then Affected(count) else NothingToDo
    else
      Failed
  }

  /** `clear_all_tasks(message)`: reports how many tasks were deleted, that there were none, or the failure. */
  method ClearAllCommand(store: TaskStore, u: int, dbUp: bool) returns (o: Outcome)
    requires store.Valid()
    modifies store
    ensures store.Valid()
    ensures o == if !dbUp then Failed else if old(Owned(store.rows, u)) == [] then NothingToDo else Affected(|old(Owned(store.rows, u))|)
    ensures dbUp ==> Owned(store.rows, u) == []
    ensures forall v :: v != u ==> Owned(store.rows, v) == old(Owned(store.rows, v))
  {
    var success, count := store.ClearAll(u, dbUp);
    o := SelectOutcome(success, count);
  }

  /** `done_all_tasks(message)`: reports how many tasks were still open, that there were none, or the failure. */
  method DoneAllCommand(store: TaskStore, u: int, dbUp: bool) returns (o: Outcome)
    requires store.Valid()
    modifies store
    ensures store.Valid()
    ensures var pending := |Select(old(Owned(store.rows, u)), PendingOf(u))|;
      o == if !dbUp then Failed else if pending == 0 then NothingToDo else Affected(pending)
    ensures dbUp ==> forall k :: 0 <= k < |Owned(store.rows, u)| ==> Owned(store.rows, u)[k].done
    ensures forall v :: v != u ==> Owned(store.rows, v) == old(Owned(store.rows, v))
  {
    var success, count := store.DoneAll(u, dbUp);
    o := SelectOutcome(success, count);
  }
}
