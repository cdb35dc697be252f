/** TodoController: the index of all the user's todos, and creating,
    updating and deleting one todo, each guarded by ownership of the list
    the todo is (or is to be) on. The acting user and the current time are
    parameters. */
module TodoController {
  import opened Wrappers
  import opened Text
  import opened Seqs
  import opened Calendar
  import opened Schema
  import opened TodoModel
  import opened UserModel
  import opened Validation
  import opened TodoQueries

  /** The index page. */
  datatype IndexPage = IndexPage(todos: seq<Todo>, availableDates: seq<Day>, selected: Day)

  /** `index`: the user's todos of the selected date that pass the filters,
      newest first and uncompleted first among equal creation times, and
      every creation date of the user's todos once, newest first. */
  function Index(s: Store, u: UserId, q: Query, today: Day): (r: IndexPage)
    ensures r.selected == SelectedDate(q, today)
    ensures forall t :: t in r.todos <==>
      t in s.todos && OwnsList(s, u, t.listId) && CreatedOn(t, r.selected) && MatchesQuery(q, t)
    ensures multiset(r.todos) == multiset(Matching(TodosOf(s, u), q, r.selected))
    ensures forall i, j :: 0 <= i < j < |r.todos| ==> r.todos[i].createdAt >= r.todos[j].createdAt
    ensures forall i, j :: 0 <= i < j < |r.todos| && r.todos[i].createdAt == r.todos[j].createdAt && IsCompleted(r.todos[i]) ==>
      IsCompleted(r.todos[j])
    ensures StrictlyDescending(r.availableDates)
    ensures forall d :: d in r.availableDates <==> exists t :: t in TodosOf(s, u) && DateOf(t.createdAt) == d
  {
    var day := SelectedDate(q, today);
    var todos := OrderBy(Matching(TodosOf(s, u), q, day), IndexKey);
    IndexOrderMeaning(todos);
    IndexPage(todos, DistinctDescending(CreationDates(TodosOf(s, u))), day)
  }

  /** The columns of the two tables the index query joins (`todos` through
      `todo_lists`). */
  function TodoColumns(): set<string>
  {
    {"id", "todo_list_id", "title", "description", "completed_at", "priority", "due_date", "created_at", "updated_at"}
  }

  function ListColumns(): set<string>
  {
    {"id", "user_id", "name", "description", "refresh_daily", "created_at", "updated_at"}
  }

  /** The columns the index query's filters name without a table prefix. */
  function UnqualifiedColumns(q: Query): set<string>
  {
    (if q.completed.Some? then {"completed_at"} else {})
    + (if q.priority.Some? then {"priority"} else {})
    + (if q.search.Some? then {"title", "description"} else {})
  }

  /** The database rejects the query when an unqualified column exists in
      both joined tables. */
  predicate Ambiguous(q: Query)
  {
    exists c :: c in UnqualifiedColumns(q) && c in TodoColumns() && c in ListColumns()
  }

  /** The index as written: the join makes `description` ambiguous, so the
      page fails (None) whenever the query names an ambiguous column. */
  function IndexAsWritten(s: Store, u: UserId, q: Query, today: Day): (r: Option<IndexPage>)
    ensures r.None? <==> Ambiguous(q)
    ensures r.Some? ==> r.value == Index(s, u, q, today)
  {
    if Ambiguous(q) then None else Some(Index(s, u, q, today))
  }

  /** The only ambiguous filter is the search: any search fails, and every
      other combination of filters works. */
  lemma SearchIsAmbiguous(q: Query)
    ensures Ambiguous(q) <==> q.search.Some?
  {
    if q.search.Some? {
      assert "description" in UnqualifiedColumns(q);
    }
    if Ambiguous(q) {
      var c :| c in UnqualifiedColumns(q) && c in TodoColumns() && c in ListColumns();
      assert c != "completed_at" && c != "priority" && c != "title";
    }
  }

  /** A user whose todo "Buy milk" was created today searches for "milk":
      the written query fails, while the page with a qualified
      `todos.description` lists the todo. */
  lemma SearchFailsAsWritten()
    ensures var l := TodoList(1, 7, "Errands", Some("Weekly"), FlagInt(0), 0);
      var t := Todo(1, 1, "Buy milk", None, None, Low, None, 0);
      var s := Store([7], [l], [t], map[], 2, 2);
      var q := Query(None, None, Some("milk"), None);
      && IndexAsWritten(s, 7, q, 0).None?
      && t in Index(s, 7, q, 0).todos
  {
    var l := TodoList(1, 7, "Errands", Some("Weekly"), FlagInt(0), 0);
    var t := Todo(1, 1, "Buy milk", None, None, Low, None, 0);
    var s := Store([7], [l], [t], map[], 2, 2);
    var q := Query(None, None, Some("milk"), None);
    SearchIsAmbiguous(q);
    assert OwnsList(s, 7, t.listId) by {
      assert l in s.lists;
    }
    assert Like(t.title, "milk") by {
      assert Lower("milk") == "milk" by {
        assert Lower("milk")[0] == 'm' && Lower("milk")[1] == 'i' && Lower("milk")[2] == 'l' && Lower("milk")[3] == 'k';
      }
      assert Lower("Buy milk") == "buy " + "milk" + "" by {
        var w := Lower("Buy milk");
        assert w[0] == 'b' && w[1] == 'u' && w[2] == 'y' && w[3] == ' ';
        assert w[4] == 'm' && w[5] == 'i' && w[6] == 'l' && w[7] == 'k';
      }
      ContainsMiddle("buy ", "milk", "");
    }
    assert DateOf(0) == 0;
  }

  /** The ids `exists:todo_lists,id` accepts. */
  function ListIds(s: Store): (r: set<int>)
    ensures forall i :: i in r <==> i >= 0 && HasList(s, i as nat)
  {
    set l | l in s.lists :: l.id as int
  }

  /** The priority names `in:low,medium,high` accepts. */
  function PriorityNames(): set<string>
  {
    {"low", "medium", "high"}
  }

  /** The rules `store` validates; `update` adds `completed`. */
  function StoreRules(s: Store): FieldRules
  {
    [("title", [Required, IsString, MaxLength(255)]),
     ("description", [Nullable, IsString]),
     ("priority", [Required, OneOf(PriorityNames())]),
     ("due_date", [Nullable, IsDate]),
     ("todo_list_id", [Required, ExistsIn(ListIds(s))])]
  }

  function UpdateRules(s: Store): FieldRules
  {
    StoreRules(s)[..2] + [("completed", [IsBoolean])] + StoreRules(s)[2..]
  }

  /** What a request that passed either rule set is known to carry. */
  predicate WellFormed(s: Store, input: Input)
  {
    && "title" in input && input["title"].VStr? && !Blank(input["title"].s) && |input["title"].s| <= 255
    && "priority" in input && input["priority"].VStr? && ParsePriority(input["priority"].s).Some?
    && "todo_list_id" in input && IdValue(input["todo_list_id"]).Some? && IdValue(input["todo_list_id"]).value >= 0
    && HasList(s, IdValue(input["todo_list_id"]).value as nat)
  }

  /** The fields every rule set checks, at the positions they take. */
  lemma CommonFields(s: Store, input: Input, rules: FieldRules, a: nat, b: nat, c: nat)
    requires Validate(rules, input).Ok?
    requires a < |rules| && b < |rules| && c < |rules|
    requires rules[a] == StoreRules(s)[0] && rules[b] == StoreRules(s)[2] && rules[c] == StoreRules(s)[4]
    ensures WellFormed(s, input)
  {
    Passed(rules, input, a);
    Passed(rules, input, b);
    Passed(rules, input, c);
    RequiredString(255, Get(input, "title"));
    RequiredOneOf(PriorityNames(), Get(input, "priority"));
    RequiredExisting(ListIds(s), Get(input, "todo_list_id"));
    PriorityRoundTrip(Low, input["priority"].s);
  }

  lemma StoreRulesWellFormed(s: Store, input: Input)
    ensures Validate(StoreRules(s), input).Ok? ==> WellFormed(s, input)
  {
    if Validate(StoreRules(s), input).Ok? {
      CommonFields(s, input, StoreRules(s), 0, 2, 4);
    }
  }

  lemma UpdateRulesWellFormed(s: Store, input: Input)
    ensures Validate(UpdateRules(s), input).Ok? ==> WellFormed(s, input)
  {
    if Validate(UpdateRules(s), input).Ok? {
      CommonFields(s, input, UpdateRules(s), 0, 3, 5);
    }
  }

  /** The list a well-formed request names. */
  function TargetList(input: Input): ListId
  {
    if "todo_list_id" !in input then 0
    else match IdValue(input["todo_list_id"])
      case Some(i) => if i >= 0 then i as nat else 0
      case None => 0
  }

  /** The priority a well-formed request names. */
  function RequestedPriority(input: Input): Priority
  {
    match StringField(input, "priority")
    case Some(name) => ParsePriority(name).GetOr(Medium)
    case None => Medium
  }

  /** `store`: the failing fields; then 403 when the named list is another
      user's; otherwise one new, uncompleted todo on that list. */
  function StoreTodo(s: Store, u: UserId, input: Input, now: Timestamp): (r: Response<Store>)
    ensures r.Invalid? <==> Validate(StoreRules(s), input).Err?
    ensures !r.Invalid? ==> WellFormed(s, input)
    ensures r.NotFound? ==> false
    ensures r.Forbidden? <==>
      (WellFormed(s, input) && Validate(StoreRules(s), input).Ok? && FindList(s.lists, TargetList(input)).value.userId != u)
    ensures r.Done? ==> |r.value.todos| == |s.todos| + 1
    ensures r.Done? ==> var t := r.value.todos[|s.todos|];
      && r.value == s.(todos := s.todos + [t], nextTodoId := s.nextTodoId + 1)
      && t.id == s.nextTodoId && t.createdAt == now && !IsCompleted(t)
      && t.listId == TargetList(input) && FindList(s.lists, t.listId).value.userId == u
      && t.title == input["title"].s && 0 < |t.title| <= 255
      && PriorityName(t.priority) == input["priority"].s
      && t.description == StringField(input, "description")
      && t.dueDate == DateField(input, "due_date")
  {
    match Validate(StoreRules(s), input)
    case Err(e) => Invalid(e)
    case Ok(_) =>
      StoreRulesWellFormed(s, input);
      var id := TargetList(input);
      match FindList(s.lists, id)
      case None => NotFound
      case Some(l) =>
        if l.userId != u then Forbidden
        else
          var t := NewTodo(s.nextTodoId, id, input["title"].s, StringField(input, "description"),
            RequestedPriority(input), DateField(input, "due_date"), now);
          assert (s.todos + [t])[|s.todos|] == t;
          Done(s.(todos := s.todos + [t], nextTodoId := s.nextTodoId + 1))
  }

  /** Creating a todo keeps the schema's constraints. */
  lemma StoreTodoValid(s: Store, u: UserId, input: Input, now: Timestamp)
    requires Valid(s)
    ensures var r := StoreTodo(s, u, input, now);
      r.Done? ==> Valid(r.value)
  {
    var r := StoreTodo(s, u, input, now);
    if r.Done? {
      var t := r.value.todos[|s.todos|];
      var l := FindList(s.lists, t.listId).value;
      assert l in s.lists && l.id == t.listId;
      assert r.value == s.(todos := s.todos + [t], nextTodoId := s.nextTodoId + |[t]|);
      AppendTodosValid(s, [t]);
    }
  }

  /** A list id sent as the string "1" passes `exists` and files the todo
      under list 1, as the integer 1 would. */
  lemma StringListIdStored()
    ensures var s := Store([7], [TodoList(1, 7, "Errands", None, FlagInt(0), 0)], [], map[], 2, 1);
      var input := map["title" := VStr("Milk"), "priority" := VStr("low"), "todo_list_id" := VStr("1")];
      var r := StoreTodo(s, 7, input, 0);
      r.Done? && r.value.todos[0].listId == 1
  {
    var s := Store([7], [TodoList(1, 7, "Errands", None, FlagInt(0), 0)], [], map[], 2, 1);
    var input := map["title" := VStr("Milk"), "priority" := VStr("low"), "todo_list_id" := VStr("1")];
    assert ParseDigits("1") == 1 by {
      assert "1"[..0] == "";
    }
    assert IdValue(input["todo_list_id"]) == Some(1);
    assert 1 in ListIds(s);
    var rules := StoreRules(s);
    RequiredString(255, Get(input, "title"));
    RequiredOneOf(PriorityNames(), Get(input, "priority"));
    RequiredExisting(ListIds(s), Get(input, "todo_list_id"));
    NullableString(Get(input, "description"));
    assert !Blank("Milk") && !Blank("low") by {
      assert !IsSpace("Milk"[0]) && !IsSpace("low"[0]);
    }
    assert forall i :: 0 <= i < |rules| ==> FieldPasses(rules[i].1, Get(input, rules[i].0));
  }

  /** `completed` turned into the completion stamp: true stamps now, false
      clears it, absent leaves it as it was. */
  function Completion(input: Input, current: Option<Timestamp>, now: Timestamp): (r: Option<Timestamp>)
    ensures "completed" !in input ==> r == current
    ensures "completed" in input && AsBool(input["completed"]) ==> r == Some(now)
    ensures "completed" in input && !AsBool(input["completed"]) ==> r == None
  {
    if "completed" in input then
      if AsBool(input["completed"]) then Some(now) else None
    else current
  }

  /** A whitespace-only `completed` passes the `boolean` rule (which skips
      blank strings) and is a non-empty string, so it stamps the todo; an
      empty one clears the stamp. */
  lemma BlankCompletedStamps(current: Option<Timestamp>, now: Timestamp)
    ensures Completion(map["completed" := VStr(" ")], current, now) == Some(now)
    ensures Completion(map["completed" := VStr("")], current, now) == None
    ensures FieldPasses([IsBoolean], Some(VStr(" ")))
  {
    assert Blank(" ") by {
      assert IsSpace(" "[0]);
    }
  }

  /** Marking a todo done and then not done leaves it uncompleted. */
  lemma CompletionToggle(t: Todo, now: Timestamp, later: Timestamp)
    ensures var done := t.(completedAt := Completion(map["completed" := VBool(true)], t.completedAt, now));
      && IsCompleted(done)
      && !IsCompleted(done.(completedAt := Completion(map["completed" := VBool(false)], done.completedAt, later)))
  {
  }

  /** The todo as a validated update leaves it. */
  function Rewritten(t: Todo, input: Input, now: Timestamp): (r: Todo)
    ensures r.id == t.id && r.createdAt == t.createdAt
    ensures "title" in input && input["title"].VStr? ==> r.title == input["title"].s
    ensures "priority" in input && input["priority"].VStr? && ParsePriority(input["priority"].s).Some? ==>
      PriorityName(r.priority) == input["priority"].s
    ensures "description" !in input ==> r.description == t.description
    ensures "description" in input ==> (r.description.Some? <==> input["description"].VStr?)
    ensures "description" in input && r.description.Some? ==> input["description"] == VStr(r.description.value)
    ensures "due_date" !in input ==> r.dueDate == t.dueDate
    ensures "due_date" in input ==> (r.dueDate.Some? <==> input["due_date"].VDate?)
    ensures "due_date" in input && r.dueDate.Some? ==> input["due_date"] == VDate(r.dueDate.value)
    ensures "completed" !in input ==> r.completedAt == t.completedAt
    ensures "completed" in input ==> (IsCompleted(r) <==> AsBool(input["completed"]))
    ensures r.listId == TargetList(input)
  {
    t.(title := StringField(input, "title").GetOr(t.title),
       description := if "description" in input then StringField(input, "description") else t.description,
       completedAt := Completion(input, t.completedAt, now),
       priority := RequestedPriority(input),
       dueDate := if "due_date" in input then DateField(input, "due_date") else t.dueDate,
       listId := TargetList(input))
  }

  /** Each todo with the id replaced by `t'`. */
  function ReplaceTodo(todos: seq<Todo>, t': Todo): (r: seq<Todo>)
    ensures |r| == |todos|
    ensures forall i :: 0 <= i < |todos| ==> r[i] == if todos[i].id == t'.id then t' else todos[i]
  {
    Map(todos, (x: Todo) => if x.id == t'.id then t' else x)
  }

  /** `update`: 404 for a missing todo; 403 when its list is not the
      user's; the failing fields; 403 when the target list is not the
      user's; otherwise the todo rewritten with the validated fields, the
      `completed` flag turned into the completion stamp. */
  function UpdateTodo(s: Store, u: UserId, id: TodoId, input: Input, now: Timestamp): (r: Response<Store>)
    ensures r.NotFound? <==> FindTodo(s.todos, id).None?
    ensures FindTodo(s.todos, id).Some? && Owner(s, FindTodo(s.todos, id).value) != Some(u) ==> r.Forbidden?
    ensures r.Invalid? <==>
      FindTodo(s.todos, id).Some? && Owner(s, FindTodo(s.todos, id).value) == Some(u) && Validate(UpdateRules(s), input).Err?
    ensures !r.NotFound? && !r.Invalid? && Owner(s, FindTodo(s.todos, id).value) == Some(u) ==>
      WellFormed(s, input) && (r.Forbidden? <==> FindList(s.lists, TargetList(input)).value.userId != u)
    ensures r.Done? ==> var t := FindTodo(s.todos, id).value; var t' := Rewritten(t, input, now);
      && r.value == s.(todos := ReplaceTodo(s.todos, t'))
      && t'.id == id && t'.createdAt == t.createdAt
      && t'.listId == TargetList(input) && FindList(s.lists, t'.listId).value.userId == u
      && t'.title == input["title"].s && PriorityName(t'.priority) == input["priority"].s
      && ("completed" !in input ==> t'.completedAt == t.completedAt)
      && ("completed" in input ==> (IsCompleted(t') <==> AsBool(input["completed"])))
  {
    match FindTodo(s.todos, id)
    case None => NotFound
    case Some(t) =>
      if Owner(s, t) != Some(u) then Forbidden
      else
        match Validate(UpdateRules(s), input)
        case Err(e) => Invalid(e)
        case Ok(_) =>
          UpdateRulesWellFormed(s, input);
          match FindList(s.lists, TargetList(input))
          case None => NotFound
          case Some(l) =>
            if l.userId != u then Forbidden
            else Done(s.(todos := ReplaceTodo(s.todos, Rewritten(t, input, now))))
  }

  /** An update keeps the schema's constraints. */
  lemma UpdateTodoValid(s: Store, u: UserId, id: TodoId, input: Input, now: Timestamp)
    requires Valid(s)
    ensures var r := UpdateTodo(s, u, id, input, now);
      r.Done? ==> Valid(r.value)
  {
    var r := UpdateTodo(s, u, id, input, now);
    if r.Done? {
      var t := FindTodo(s.todos, id).value;
      ReplaceTodoValid(s, Rewritten(t, input, now));
    }
  }

  /** Rewriting a todo in place, keeping its id and putting it on an
      existing list, keeps the schema's constraints. */
  lemma ReplaceTodoValid(s: Store, t': Todo)
    requires Valid(s)
    requires HasList(s, t'.listId) && t'.id < s.nextTodoId
    ensures Valid(s.(todos := ReplaceTodo(s.todos, t')))
  {
    var todos := ReplaceTodo(s.todos, t');
    assert forall i :: 0 <= i < |s.todos| ==> todos[i].id == s.todos[i].id;
    forall x | x in todos ensures HasList(s, x.listId) && x.id < s.nextTodoId {
      var i :| 0 <= i < |todos| && todos[i] == x;
      assert s.todos[i] in s.todos;
    }
  }

  /** `destroy`: 404 for a missing todo, 403 when its list is not the
      user's; otherwise that todo, and no other, is removed. */
  function DestroyTodo(s: Store, u: UserId, id: TodoId): (r: Response<Store>)
    ensures r.NotFound? <==> FindTodo(s.todos, id).None?
    ensures r.Forbidden? <==> FindTodo(s.todos, id).Some? && Owner(s, FindTodo(s.todos, id).value) != Some(u)
    ensures r.Done? || r.NotFound? || r.Forbidden?
    ensures r.Done? ==> forall x :: x in r.value.todos <==> x in s.todos && x.id != id
    ensures r.Done? ==> r.value == s.(todos := r.value.todos)
  {
    match FindTodo(s.todos, id)
    case None => NotFound
    case Some(t) =>
      if Owner(s, t) != Some(u) then Forbidden
      else
        FilterMembers(s.todos, (x: Todo) => x.id != id);
        Done(s.(todos := Filter(s.todos, (x: Todo) => x.id != id)))
  }

  /** Removing a todo keeps the schema's constraints. */
  lemma DestroyTodoValid(s: Store, u: UserId, id: TodoId)
    requires Valid(s)
    ensures var r := DestroyTodo(s, u, id);
      r.Done? ==> Valid(r.value)
  {
    var r := DestroyTodo(s, u, id);
    if r.Done? {
      var kept := Filter(s.todos, (x: Todo) => x.id != id);
      FilterDistinctBy(s.todos, (x: Todo) => x.id != id, (x: Todo) => x.id);
      assert r.value == s.(todos := kept);
      KeepTodosValid(s, kept);
    }
  }
}
