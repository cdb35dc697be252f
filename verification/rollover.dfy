/** The daily rollover job (`app:recreate-todo-for-today`). For each user it
    makes sure a settings row exists, lets the user through only in the first
    two local hours of the day (unless forced), selects yesterday's todos on
    the user's refresh-daily lists, and recreates each as an uncompleted copy
    on the same list, all inside one transaction (or only counts them in a
    dry run). The runner folds the per-user results into totals.

    Local time is an input: the caller supplies the user's local day number
    and hour. A failure the source would raise as an exception is an input
    too (see Fault). */
module Rollover {
  import opened Wrappers
  import opened Text
  import opened Seqs
  import opened Calendar
  import opened Schema
  import opened TodoModel
  import opened SettingModel

  /** The `--dry-run`, `--force` and `--debug` options. */
  datatype Flags = Flags(dryRun: bool, force: bool, debug: bool)

  /** An hour of the day, as Carbon's `hour` reports it. */
  type Hour = h: int | 0 <= h < 24

  /** The user's current local day and hour. */
  datatype LocalClock = LocalClock(day: Day, hour: Hour)

  /** Where, if anywhere, processing this user raises: while reading the
      clock in the user's time zone (a malformed zone name), or inside the
      recreation transaction (which is then rolled back). */
  datatype Fault = NoFault | ClockFault(message: string) | InsertFault(message: string)

  /** Why a user was skipped; `Message` renders it as the `reason` string. */
  datatype SkipReason =
    | Failed(message: string)
    | OutsideWindow(hour: Hour, zone: string)
    | NothingToCopy(yesterday: Day)

  /** The `{processed, todos_created, reason}` record. */
  datatype UserResult = UserResult(processed: bool, todosCreated: nat, reason: Option<SkipReason>)

  datatype Outcome = Outcome(store: Store, result: UserResult)

  /** `$settings->timezone ?? 'UTC'`. */
  function ZoneName(st: Settings): (r: string)
    ensures st.timezone.Some? ==> r == st.timezone.value
    ensures st.timezone.None? ==> r == "UTC"
  {
    st.timezone.GetOr("UTC")
  }

  /** The processing window: without `--force`, only hours 0 and 1 pass. */
  predicate GateOpen(flags: Flags, hour: Hour)
  {
    flags.force || hour <= 1
  }

  /** A todo the rollover picks up: created on `yesterday`, on a list owned
      by `u` whose stored flag equals true as `where('refresh_daily', true)`
      compares it, so a flag stored as text is never picked. */
  predicate Eligible(s: Store, u: UserId, yesterday: Day, t: Todo)
  {
    && DateOf(t.createdAt) == yesterday
    && exists l :: l in s.lists && l.id == t.listId && FlagMatchesTrue(l.refreshDaily) && l.userId == u
  }

  /** The source todos, in table order. */
  function Selection(s: Store, u: UserId, yesterday: Day): (r: seq<Todo>)
    ensures forall t :: t in r <==> t in s.todos && Eligible(s, u, yesterday, t)
  {
    FilterMembers(s.todos, (t: Todo) => Eligible(s, u, yesterday, t));
    Filter(s.todos, (t: Todo) => Eligible(s, u, yesterday, t))
  }

  /** Only lists and todos matter to the selection. */
  lemma SelectionIgnoresSettings(s: Store, s': Store, u: UserId, yesterday: Day)
    requires s.lists == s'.lists && s.todos == s'.todos
    ensures Selection(s, u, yesterday) == Selection(s', u, yesterday)
  {
    FilterCongruent(s.todos, (t: Todo) => Eligible(s, u, yesterday, t), (t: Todo) => Eligible(s', u, yesterday, t));
  }

  /** A list whose stored flag does not equal true never contributes a todo. */
  lemma NonRefreshListNeverSelected(s: Store, u: UserId, yesterday: Day, l: TodoList, t: Todo)
    requires Valid(s)
    requires l in s.lists && !FlagMatchesTrue(l.refreshDaily)
    requires t in s.todos && t.listId == l.id
    ensures t !in Selection(s, u, yesterday)
  {
    if t in Selection(s, u, yesterday) {
      var m :| m in s.lists && m.id == t.listId && FlagMatchesTrue(m.refreshDaily) && m.userId == u;
      FindListUnique(s, l);
      FindListUnique(s, m);
      assert false;
    }
  }

  /** `c` carries over everything the rollover copies from `t`. */
  predicate CopiedFrom(c: Todo, t: Todo)
  {
    && c.listId == t.listId
    && c.title == t.title
    && c.description == t.description
    && c.priority == t.priority
    && c.dueDate == t.dueDate
  }

  /** The uncompleted copies of the selection, with fresh consecutive ids. */
  function Copies(sel: seq<Todo>, firstId: nat, now: Timestamp): (r: seq<Todo>)
    ensures |r| == |sel|
    ensures forall i :: 0 <= i < |sel| ==>
      CopiedFrom(r[i], sel[i]) && !IsCompleted(r[i]) && r[i].id == firstId + i && r[i].createdAt == now
  {
    seq(|sel|, i requires 0 <= i < |sel| =>
      NewTodo(firstId + i, sel[i].listId, sel[i].title, sel[i].description, sel[i].priority, sel[i].dueDate, now))
  }

  /** The copy as the command builds it. The selected rows come from a join
      of `todos` with `todo_lists` that names no columns, so where both
      tables have a column of the same name the row carries the list's
      value; `description` is such a column, and the copy takes it from the
      row. */
  function CopyAsWritten(s: Store, t: Todo, id: TodoId, now: Timestamp): (c: Todo)
    ensures c.listId == t.listId && c.title == t.title && c.priority == t.priority && c.dueDate == t.dueDate
    ensures !IsCompleted(c)
  {
    var rowDescription := match FindList(s.lists, t.listId)
      case Some(l) => l.description
      case None => t.description;
    NewTodo(id, t.listId, t.title, rowDescription, t.priority, t.dueDate, now)
  }

  /** A refresh-daily list described "Daily", holding a todo described
      "Run" created on day 0: the copy made on day 1 is described "Daily". */
  lemma DescriptionTakenFromList()
    ensures var l := TodoList(1, 7, "Routine", Some("Daily"), FlagInt(1), 0);
      var t := Todo(1, 1, "Morning run", Some("Run"), None, Medium, None, 0);
      var s := Store([7], [l], [t], map[], 2, 2);
      && Selection(s, 7, 0) == [t]
      && CopyAsWritten(s, t, 2, SecondsPerDay).description == Some("Daily")
      && Copies(Selection(s, 7, 0), 2, SecondsPerDay)[0].description == Some("Run")
  {
    var l := TodoList(1, 7, "Routine", Some("Daily"), FlagInt(1), 0);
    var t := Todo(1, 1, "Morning run", Some("Run"), None, Medium, None, 0);
    var s := Store([7], [l], [t], map[], 2, 2);
    assert Eligible(s, 7, 0, t) by {
      assert l in s.lists;
    }
    assert Selection(s, 7, 0) == [t] by {
      assert s.todos == [t];
      assert s.todos[1..] == [];
    }
    assert FindList(s.lists, 1) == Some(l);
  }

  /** The `reason` string of a skipped user. */
  function Message(why: SkipReason): string
  {
    match why
    case Failed(message) => "Error: " + message
    case OutsideWindow(hour, zone) => "Not in processing window (current hour: " + IntToString(hour) + " in " + zone + ")"
    case NothingToCopy(yesterday) => "No todos from yesterday (" + DateString(yesterday) + ") in lists marked for daily refresh"
  }

  /** PHP truthiness of a string: neither "" nor "0". */
  predicate Truthy(reason: string)
  {
    reason != "" && reason != "0"
  }

  /** Every reason renders as a truthy string (the runner counts a skipped
      user by testing it), and each names what caused the skip. */
  lemma MessageMentions(why: SkipReason)
    ensures Truthy(Message(why))
    ensures why.Failed? ==> IsPrefix("Error: ", Message(why)) && Contains(Message(why), why.message)
    ensures why.OutsideWindow? ==>
      Contains(Message(why), IntToString(why.hour)) && Contains(Message(why), why.zone)
    ensures why.NothingToCopy? ==> Contains(Message(why), DateString(why.yesterday))
  {
    match why
    case Failed(message) =>
      ContainsMiddle("Error: ", message, "");
      assert "Error: " + message + "" == Message(why);
    case OutsideWindow(hour, zone) =>
      var head := "Not in processing window (current hour: ";
      var h := IntToString(hour);
      assert Message(why) == head + h + (" in " + zone + ")");
      ContainsMiddle(head, h, " in " + zone + ")");
      assert Message(why) == (head + h + " in ") + zone + ")";
      ContainsMiddle(head + h + " in ", zone, ")");
    case NothingToCopy(yesterday) =>
      ContainsMiddle("No todos from yesterday (", DateString(yesterday), ") in lists marked for daily refresh");
  }

  function Skip(why: SkipReason): UserResult
  {
    UserResult(false, 0, Some(why))
  }

  /** `processUserTodos` for one user: whether the user is processed, what
      the result record says, and that a skipped user costs nothing but the
      settings row. The remaining guarantees are the lemmas below. */
  function ProcessUser(s: Store, u: UserId, clock: LocalClock, now: Timestamp, flags: Flags, fault: Fault): (r: Outcome)
    ensures u in r.store.settings && r.store.settings == GetOrCreate(s, u).store.settings
    ensures u !in s.settings ==> r.store.settings[u] == Defaults(u)
    ensures r.result.processed <==>
      && !fault.ClockFault? && GateOpen(flags, clock.hour)
      && |Selection(s, u, clock.day - 1)| > 0 && (flags.dryRun || !fault.InsertFault?)
    ensures r.result.processed ==>
      r.result.reason.None? && r.result.todosCreated == |Selection(s, u, clock.day - 1)|
    ensures !r.result.processed ==>
      r.store == GetOrCreate(s, u).store && r.result.todosCreated == 0 && r.result.reason.Some?
    ensures fault.ClockFault? ==> r.result.reason == Some(Failed(fault.message))
  {
    var f := GetOrCreate(s, u);
    var s1 := f.store;
    var zone := ZoneName(f.settings);
    SelectionIgnoresSettings(s, s1, u, clock.day - 1);
    if fault.ClockFault? then
      Outcome(s1, Skip(Failed(fault.message)))
    else if !GateOpen(flags, clock.hour) then
      Outcome(s1, Skip(OutsideWindow(clock.hour, zone)))
    else
      Recreate(s1, u, clock.day - 1, now, flags.dryRun, fault)
  }

  /** Past the gate: select, then recreate (or only count) inside one transaction. */
  function Recreate(s: Store, u: UserId, yesterday: Day, now: Timestamp, dryRun: bool, fault: Fault): (r: Outcome)
    requires !fault.ClockFault?
    ensures r.result.processed <==> |Selection(s, u, yesterday)| > 0 && (dryRun || !fault.InsertFault?)
    ensures r.result.processed ==> r.result.reason.None? && r.result.todosCreated == |Selection(s, u, yesterday)|
    ensures !r.result.processed ==> r.store == s && r.result.todosCreated == 0 && r.result.reason.Some?
  {
    var sel := Selection(s, u, yesterday);
    if |sel| == 0 then
      Outcome(s, Skip(NothingToCopy(yesterday)))
    else if dryRun then
      Outcome(s, UserResult(true, |sel|, None))
    else if fault.InsertFault? then
      Outcome(s, Skip(Failed(fault.message)))
    else
      Outcome(Commit(s, sel, now), UserResult(true, |sel|, None))
  }

  /** The committed transaction: the copies appended under fresh ids. */
  function Commit(s: Store, sel: seq<Todo>, now: Timestamp): Store
  {
    var copies := Copies(sel, s.nextTodoId, now);
    s.(todos := s.todos + copies, nextTodoId := s.nextTodoId + |copies|)
  }

  /** The commit keeps every existing row and appends, in order, one
      uncompleted copy of each selected todo under the next ids. */
  lemma CommitAppends(s: Store, sel: seq<Todo>, now: Timestamp)
    ensures var r := Commit(s, sel, now);
      && |r.todos| == |s.todos| + |sel| && r.todos[..|s.todos|] == s.todos
      && r == s.(todos := r.todos, nextTodoId := s.nextTodoId + |sel|)
      && forall i :: 0 <= i < |sel| ==>
           var c := r.todos[|s.todos| + i];
           CopiedFrom(c, sel[i]) && !IsCompleted(c) && c.id == s.nextTodoId + i && c.createdAt == now
  {
    var copies := Copies(sel, s.nextTodoId, now);
    var all := s.todos + copies;
    assert all[..|s.todos|] == s.todos;
    forall i | 0 <= i < |sel|
      ensures CopiedFrom(all[|s.todos| + i], sel[i]) && !IsCompleted(all[|s.todos| + i])
      ensures all[|s.todos| + i].id == s.nextTodoId + i && all[|s.todos| + i].createdAt == now
    {
      assert all[|s.todos| + i] == copies[i];
    }
  }

  /** Outside the window (and not forced) the user is skipped, nothing but
      the settings row is written, and the reason names the hour and zone. */
  lemma SkippedOutsideWindow(s: Store, u: UserId, clock: LocalClock, now: Timestamp, flags: Flags, fault: Fault)
    requires !fault.ClockFault? && !flags.force && clock.hour > 1
    ensures var r := ProcessUser(s, u, clock, now, flags, fault);
      && !r.result.processed && r.result.todosCreated == 0
      && r.store == GetOrCreate(s, u).store
      && r.result.reason == Some(OutsideWindow(clock.hour, ZoneName(GetOrCreate(s, u).settings)))
  {
  }

  /** With nothing to copy the user is skipped and the reason names
      yesterday's date. */
  lemma NothingFromYesterday(s: Store, u: UserId, clock: LocalClock, now: Timestamp, flags: Flags, fault: Fault)
    requires !fault.ClockFault? && GateOpen(flags, clock.hour)
    requires |Selection(s, u, clock.day - 1)| == 0
    ensures var r := ProcessUser(s, u, clock, now, flags, fault);
      && !r.result.processed && r.result.todosCreated == 0
      && r.result.reason == Some(NothingToCopy(clock.day - 1))
  {
    var s1 := GetOrCreate(s, u).store;
    SelectionIgnoresSettings(s, s1, u, clock.day - 1);
  }

  /** A dry run writes nothing but the settings row, and reports as created
      exactly the number of todos it would copy. */
  lemma DryRunWritesNothing(s: Store, u: UserId, clock: LocalClock, now: Timestamp, flags: Flags, fault: Fault)
    requires flags.dryRun
    ensures var r := ProcessUser(s, u, clock, now, flags, fault);
      && r.store == GetOrCreate(s, u).store
      && (r.result.processed ==> r.result.todosCreated == |Selection(s, u, clock.day - 1)|)
  {
  }

  /** A transaction that fails part-way leaves no copy behind. */
  lemma AllOrNothing(s: Store, u: UserId, clock: LocalClock, now: Timestamp, flags: Flags, msg: string)
    requires !flags.dryRun
    ensures var r := ProcessUser(s, u, clock, now, flags, InsertFault(msg));
      && r.store == GetOrCreate(s, u).store
      && !r.result.processed
      && (GateOpen(flags, clock.hour) && |Selection(s, u, clock.day - 1)| > 0 ==>
            r.result.reason == Some(Failed(msg)))
  {
    SelectionIgnoresSettings(s, GetOrCreate(s, u).store, u, clock.day - 1);
  }

  /** A committed rollover appends one uncompleted copy of each source todo,
      on the same list and in selection order, under ids not in use, and
      changes no existing row. */
  lemma CommittedRollover(s: Store, u: UserId, clock: LocalClock, now: Timestamp, flags: Flags, fault: Fault)
    requires Valid(s)
    ensures var r := ProcessUser(s, u, clock, now, flags, fault);
      var sel := Selection(s, u, clock.day - 1);
      r.result.processed && !flags.dryRun ==>
        && r.store.users == s.users && r.store.lists == s.lists
        && |r.store.todos| == |s.todos| + |sel|
        && r.store.todos[..|s.todos|] == s.todos
        && forall i :: 0 <= i < |sel| ==>
             && CopiedFrom(r.store.todos[|s.todos| + i], sel[i])
             && !IsCompleted(r.store.todos[|s.todos| + i])
             && r.store.todos[|s.todos| + i].createdAt == now
             && r.store.todos[|s.todos| + i].id !in TodoIds(s)
  {
    var r := ProcessUser(s, u, clock, now, flags, fault);
    var sel := Selection(s, u, clock.day - 1);
    if r.result.processed && !flags.dryRun {
      var s1 := GetOrCreate(s, u).store;
      PastGate(s, u, clock, now, flags, fault);
      SelectionIgnoresSettings(s, s1, u, clock.day - 1);
      var copies := Copies(sel, s.nextTodoId, now);
      assert r.store.todos == s.todos + copies;
      FreshIds(s, copies);
      forall i | 0 <= i < |sel|
        ensures r.store.todos[|s.todos| + i] == copies[i]
      {
      }
    }
  }

  /** The primary keys in use. */
  function TodoIds(s: Store): set<TodoId>
  {
    set t | t in s.todos :: t.id
  }

  lemma FreshIds(s: Store, copies: seq<Todo>)
    requires forall i :: 0 <= i < |copies| ==> copies[i].id == s.nextTodoId + i
    ensures Valid(s) ==> forall i :: 0 <= i < |copies| ==> copies[i].id !in TodoIds(s)
  {
  }

  /** Appending the copies keeps the schema's constraints. */
  lemma CommitValid(s: Store, u: UserId, yesterday: Day, now: Timestamp)
    ensures var copies := Copies(Selection(s, u, yesterday), s.nextTodoId, now);
      Valid(s) ==> Valid(s.(todos := s.todos + copies, nextTodoId := s.nextTodoId + |copies|))
  {
    if Valid(s) {
      CommitKeepsReferences(s, u, yesterday, now);
      CommitKeepsIdsUnique(s, u, yesterday, now);
    }
  }

  lemma CommitKeepsReferences(s: Store, u: UserId, yesterday: Day, now: Timestamp)
    requires Valid(s)
    ensures var copies := Copies(Selection(s, u, yesterday), s.nextTodoId, now);
      var s2 := s.(todos := s.todos + copies, nextTodoId := s.nextTodoId + |copies|);
      forall t :: t in s2.todos ==> HasList(s2, t.listId) && t.id < s2.nextTodoId
  {
    var sel := Selection(s, u, yesterday);
    var copies := Copies(sel, s.nextTodoId, now);
    var s2 := s.(todos := s.todos + copies, nextTodoId := s.nextTodoId + |copies|);
    forall t | t in s2.todos ensures HasList(s2, t.listId) && t.id < s2.nextTodoId {
      if t !in s.todos {
        var k :| 0 <= k < |copies| && copies[k] == t;
        assert sel[k] in sel;
      }
    }
  }

  lemma CommitKeepsIdsUnique(s: Store, u: UserId, yesterday: Day, now: Timestamp)
    requires Valid(s)
    ensures var copies := Copies(Selection(s, u, yesterday), s.nextTodoId, now);
      var todos := s.todos + copies;
      forall i, j :: 0 <= i < j < |todos| ==> todos[i].id != todos[j].id
  {
    var copies := Copies(Selection(s, u, yesterday), s.nextTodoId, now);
    var todos := s.todos + copies;
    forall i, j | 0 <= i < j < |todos| ensures todos[i].id != todos[j].id {
      if j >= |s.todos| && i < |s.todos| {
        assert todos[i] in s.todos;
      }
    }
  }

  /** Processing a registered user keeps the schema's constraints. */
  lemma ProcessUserValid(s: Store, u: UserId, clock: LocalClock, now: Timestamp, flags: Flags, fault: Fault)
    requires Valid(s) && u in s.users
    ensures Valid(ProcessUser(s, u, clock, now, flags, fault).store)
  {
    GetOrCreateValid(s, u);
    if !fault.ClockFault? && GateOpen(flags, clock.hour) {
      PastGate(s, u, clock, now, flags, fault);
      RecreateValid(GetOrCreate(s, u).store, u, clock.day - 1, now, flags.dryRun, fault);
    }
  }

  lemma RecreateValid(s: Store, u: UserId, yesterday: Day, now: Timestamp, dryRun: bool, fault: Fault)
    requires !fault.ClockFault? && Valid(s)
    ensures Valid(Recreate(s, u, yesterday, now, dryRun, fault).store)
  {
    var r := Recreate(s, u, yesterday, now, dryRun, fault);
    if r.result.processed && !dryRun {
      CommitValid(s, u, yesterday, now);
    }
  }

  /** Processing one user never adds or removes users or lists, and keeps
      every existing todo in place. */
  lemma ProcessUserKeepsRows(s: Store, u: UserId, clock: LocalClock, now: Timestamp, flags: Flags, fault: Fault)
    ensures var r := ProcessUser(s, u, clock, now, flags, fault);
      && r.store.users == s.users && r.store.lists == s.lists
      && |s.todos| <= |r.store.todos| && r.store.todos[..|s.todos|] == s.todos
  {
    if !fault.ClockFault? && GateOpen(flags, clock.hour) {
      PastGate(s, u, clock, now, flags, fault);
    }
  }

  /** Past the gate, processing is the selection-and-recreation step on the
      store with the settings row in place. */
  lemma PastGate(s: Store, u: UserId, clock: LocalClock, now: Timestamp, flags: Flags, fault: Fault)
    requires !fault.ClockFault? && GateOpen(flags, clock.hour)
    ensures ProcessUser(s, u, clock, now, flags, fault) == Recreate(GetOrCreate(s, u).store, u, clock.day - 1, now, flags.dryRun, fault)
  {
  }

  /** A failure reading the local clock skips the user before the gate. */
  lemma FaultBeforeGate(s: Store, u: UserId, clock: LocalClock, now: Timestamp, flags: Flags, fault: Fault)
    requires fault.ClockFault?
    ensures ProcessUser(s, u, clock, now, flags, fault) == Outcome(GetOrCreate(s, u).store, Skip(Failed(fault.message)))
  {
  }

  /** `--force` makes the hour irrelevant. */
  lemma ForceIgnoresHour(s: Store, u: UserId, day: Day, h1: Hour, h2: Hour, now: Timestamp, flags: Flags, fault: Fault)
    requires flags.force
    ensures ProcessUser(s, u, LocalClock(day, h1), now, flags, fault)
         == ProcessUser(s, u, LocalClock(day, h2), now, flags, fault)
  {
    if !fault.ClockFault? {
      PastGate(s, u, LocalClock(day, h1), now, flags, fault);
      PastGate(s, u, LocalClock(day, h2), now, flags, fault);
    } else {
      FaultBeforeGate(s, u, LocalClock(day, h1), now, flags, fault);
      FaultBeforeGate(s, u, LocalClock(day, h2), now, flags, fault);
    }
  }

  /** Local hours 0 and 1 behave exactly as a forced run. */
  lemma EarlyHoursPassGate(s: Store, u: UserId, day: Day, hour: Hour, now: Timestamp, flags: Flags, fault: Fault)
    requires hour <= 1
    ensures ProcessUser(s, u, LocalClock(day, hour), now, flags, fault)
         == ProcessUser(s, u, LocalClock(day, hour), now, flags.(force := true), fault)
  {
  }
}
