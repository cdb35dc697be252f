/** TodoListController: the list overview with per-date statistics, the
    list CRUD actions with their ownership checks, duplication, and the
    page of one list's todos. The acting user (`Auth::id()`) and the
    current time are parameters. */
module TodoListController {
  import opened Wrappers
  import opened Text
  import opened Seqs
  import opened Calendar
  import opened Schema
  import opened TodoModel
  import opened TodoListModel
  import opened UserModel
  import opened Validation
  import opened TodoQueries

  /** A list with its completion figures for the selected date. */
  datatype ListStats = ListStats(list: TodoList, total: nat, completed: nat, percentage: nat)

  /** The list's todos created on `day`. */
  function DayTodos(s: Store, listId: ListId, day: Day): (r: seq<Todo>)
    ensures forall t :: t in r <==> t in s.todos && t.listId == listId && CreatedOn(t, day)
  {
    FilterMembers(TodosOfList(s, listId), (t: Todo) => CreatedOn(t, day));
    Filter(TodosOfList(s, listId), (t: Todo) => CreatedOn(t, day))
  }

  /** The `filtered_*` figures: how many of the list's todos were created on
      the day, how many of those are completed, and the completed share in
      tenths of a percent (0 for none). */
  function Stats(s: Store, l: TodoList, day: Day): (r: ListStats)
    ensures r.list == l
    ensures r.total == |DayTodos(s, l.id, day)|
    ensures r.completed == Count(DayTodos(s, l.id, day), IsCompleted)
    ensures r.completed <= r.total
    ensures r.total == 0 ==> r.percentage == 0
    ensures r.percentage <= 1000
    ensures r.total > 0 ==>
      r.percentage * (2 * r.total) <= 2000 * r.completed + r.total < (r.percentage + 1) * (2 * r.total)
  {
    var ts := DayTodos(s, l.id, day);
    var c := Count(ts, IsCompleted);
    ListStats(l, |ts|, c, Percent(c, |ts|))
  }

  /** When all of a list's todos were created on the selected day, the
      date-filtered figures are the model's own accessors. */
  lemma StatsAgreeWithAccessors(s: Store, l: TodoList, day: Day)
    requires forall t :: t in s.todos && t.listId == l.id ==> CreatedOn(t, day)
    ensures Stats(s, l, day) == ListStats(l, TotalTodos(s, l.id), CompletedTodos(s, l.id), CompletionPercentage(s, l.id))
  {
    var all := TodosOfList(s, l.id);
    FilterAll(all, (t: Todo) => CreatedOn(t, day));
  }

  /** The overview page. */
  datatype IndexPage = IndexPage(lists: seq<ListStats>, availableDates: seq<Day>, selected: Day)

  /** Lists, newest first. */
  function NewestFirst(): (TodoList, TodoList) -> bool
  {
    (a: TodoList, b: TodoList) => a.createdAt >= b.createdAt
  }

  lemma NewestFirstIsTotalPreorder()
    ensures TotalPreorder(NewestFirst())
  {
  }

  /** `orderBy('created_at', 'desc')`. */
  function ByNewest(lists: seq<TodoList>): (r: seq<TodoList>)
    ensures multiset(r) == multiset(lists)
    ensures |r| == |lists|
    ensures forall l :: l in r <==> l in lists
    ensures forall i, j :: 0 <= i < j < |r| ==> r[i].createdAt >= r[j].createdAt
  {
    NewestFirstIsTotalPreorder();
    var r := SortBy(lists, NewestFirst());
    assert forall i, j :: 0 <= i < j < |r| ==> NewestFirst()(r[i], r[j]);
    assert |r| == |multiset(r)| == |lists|;
    assert forall l :: l in r <==> l in multiset(r);
    assert forall l :: l in lists <==> l in multiset(lists);
    r
  }

  /** Each list with its figures for the day, in the same order. */
  function StatsOf(s: Store, lists: seq<TodoList>, day: Day): (r: seq<ListStats>)
    ensures |r| == |lists|
    ensures forall i :: 0 <= i < |r| ==> r[i] == Stats(s, lists[i], day)
    ensures forall l :: l in lists <==> exists i :: 0 <= i < |r| && r[i].list == l
  {
    var r := Map(lists, (l: TodoList) => Stats(s, l, day));
    assert forall l :: l in lists ==> exists i :: 0 <= i < |r| && r[i].list == l by {
      forall l | l in lists ensures exists i :: 0 <= i < |r| && r[i].list == l {
        var i :| 0 <= i < |lists| && lists[i] == l;
        assert r[i].list == l;
      }
    }
    r
  }

  /** `index`: the user's lists, newest first, each with its figures for the
      selected date, and every date on which a todo of the user's lists was
      created, each once, ascending. */
  function Index(s: Store, u: UserId, date: Option<Day>, today: Day): (r: IndexPage)
    ensures r.selected == date.GetOr(today)
    ensures |r.lists| == |ListsOf(s, u)|
    ensures forall l :: l in ListsOf(s, u) <==> exists i :: 0 <= i < |r.lists| && r.lists[i].list == l
    ensures forall i :: 0 <= i < |r.lists| ==> r.lists[i] == Stats(s, r.lists[i].list, r.selected)
    ensures forall i, j :: 0 <= i < j < |r.lists| ==> r.lists[i].list.createdAt >= r.lists[j].list.createdAt
    ensures StrictlyAscending(r.availableDates)
    ensures forall d :: d in r.availableDates <==> exists t :: t in TodosOf(s, u) && DateOf(t.createdAt) == d
  {
    var day := date.GetOr(today);
    var sorted := ByNewest(ListsOf(s, u));
    IndexPage(StatsOf(s, sorted, day), DistinctAscending(CreationDates(TodosOf(s, u))), day)
  }

  /** The rules `store` and `update` validate. */
  function ListRules(): FieldRules
  {
    [("name", [Required, IsString, MaxLength(255)]),
     ("description", [Nullable, IsString]),
     ("refresh_daily", [IsBoolean])]
  }

  /** A name the `name` rules accept. */
  predicate GoodName(input: Input)
  {
    "name" in input && input["name"].VStr? && !Blank(input["name"].s) && |input["name"].s| <= 255
  }

  /** A request that passes the list rules carries a good name. */
  lemma ListRulesName(input: Input)
    ensures Validate(ListRules(), input).Ok? ==> GoodName(input)
  {
    if Validate(ListRules(), input).Ok? {
      Passed(ListRules(), input, 0);
      RequiredString(255, Get(input, "name"));
    }
  }

  /** The column value a sent `refresh_daily` is stored as: a PHP bool is
      bound as 0 or 1, an integer and a string of decimal digits are kept as
      the integer, any other string as its text. A date never reaches this
      field; it would be written as its text. */
  function StoredFlag(v: Value): Flag
  {
    match v
    case VNull => FlagNull
    case VBool(b) => FlagInt(if b then 1 else 0)
    case VInt(i) => FlagInt(i)
    case VStr(t) => if IdValue(v).Some? then FlagInt(IdValue(v).value) else FlagText(t)
    case VDate(d) => FlagText(DateString(d))
  }

  /** For a value the `boolean` rule lets through, the cast reads the stored
      flag back as PHP reads the sent value, while the rollover's
      `where('refresh_daily', true)` matches it only when true, 1 or "1" was
      sent: a blank string is stored as text, which reads as true when not
      empty but never equals true. */
  lemma StoredFlagReadings(v: Value)
    requires FieldPasses([IsBoolean], Some(v))
    ensures FlagSet(StoredFlag(v)) == AsBool(v)
    ensures FlagMatchesTrue(StoredFlag(v)) <==> v == VBool(true) || v == VInt(1) || v == VStr("1")
  {
    if v == VStr("1") || v == VStr("0") {
      assert ParseDigits(v.s) == DigitValue(v.s[0]) by { assert v.s[..0] == ""; }
    } else if v.VStr? && Blank(v.s) && |v.s| > 0 {
      var c := v.s[0];
      assert IsSpace(c);
      assert !AllDigits(v.s);
    } else if !(v.VStr? && Blank(v.s)) {
      assert RuleHolds([IsBoolean][0], v);
    }
  }

  /** A request that passes the list rules sends a flag, if any, that the
      cast and the rollover's query read as `StoredFlagReadings` says. */
  lemma ListRulesFlag(input: Input)
    ensures Validate(ListRules(), input).Ok? && "refresh_daily" in input ==>
      var v := input["refresh_daily"];
      && (FlagSet(StoredFlag(v)) <==> AsBool(v))
      && (FlagMatchesTrue(StoredFlag(v)) <==> v == VBool(true) || v == VInt(1) || v == VStr("1"))
  {
    if Validate(ListRules(), input).Ok? && "refresh_daily" in input {
      Passed(ListRules(), input, 2);
      StoredFlagReadings(input["refresh_daily"]);
    }
  }

  /** The list a request that passed validation describes; `refresh_daily`
      falls back to the column default, false. Only the three validated
      fields are read. */
  function NewList(s: Store, u: UserId, input: Input, now: Timestamp): (r: TodoList)
    ensures r.id == s.nextListId && r.userId == u && r.createdAt == now
    ensures "name" in input && input["name"].VStr? ==> r.name == input["name"].s
    ensures r.description.Some? <==> "description" in input && input["description"].VStr?
    ensures r.description.Some? ==> input["description"] == VStr(r.description.value)
    ensures "refresh_daily" !in input ==> !FlagSet(r.refreshDaily) && !FlagMatchesTrue(r.refreshDaily)
    ensures "refresh_daily" in input ==> r.refreshDaily == StoredFlag(input["refresh_daily"])
  {
    TodoList(s.nextListId, u, StringField(input, "name").GetOr(""), StringField(input, "description"),
      if "refresh_daily" in input then StoredFlag(input["refresh_daily"]) else FlagInt(0), now)
  }

  /** `store`: a new list owned by the acting user, or the failing fields. */
  function StoreList(s: Store, u: UserId, input: Input, now: Timestamp): (r: Response<Store>)
    ensures r.Done? || r.Invalid?
    ensures r.Invalid? <==> Validate(ListRules(), input).Err?
    ensures r.Done? ==> GoodName(input)
    ensures r.Done? ==>
      && |r.value.lists| == |s.lists| + 1
      && r.value.lists[..|s.lists|] == s.lists
      && r.value == s.(lists := r.value.lists, nextListId := s.nextListId + 1)
    ensures r.Done? ==> var l := r.value.lists[|s.lists|];
      && l.id == s.nextListId && l.userId == u && l.createdAt == now
      && l.name == input["name"].s && 0 < |l.name| <= 255
      && l.description == StringField(input, "description")
      && (FlagSet(l.refreshDaily) <==> "refresh_daily" in input && AsBool(input["refresh_daily"]))
      && (FlagMatchesTrue(l.refreshDaily) <==>
            "refresh_daily" in input && input["refresh_daily"] in {VBool(true), VInt(1), VStr("1")})
  {
    match Validate(ListRules(), input)
    case Err(e) => Invalid(e)
    case Ok(_) =>
      ListRulesName(input);
      ListRulesFlag(input);
      var l := NewList(s, u, input, now);
      Done(s.(lists := s.lists + [l], nextListId := s.nextListId + 1))
  }

  /** A list created with `refresh_daily` sent as " " passes validation and
      reads as refresh-daily through the cast, yet its stored text never
      equals true, so the rollover skips it. */
  lemma BlankFlagStoredAsText(s: Store, u: UserId, now: Timestamp)
    ensures var r := StoreList(s, u, map["name" := VStr("Routine"), "refresh_daily" := VStr(" ")], now);
      && r.Done?
      && FlagSet(r.value.lists[|s.lists|].refreshDaily)
      && !FlagMatchesTrue(r.value.lists[|s.lists|].refreshDaily)
  {
    var input := map["name" := VStr("Routine"), "refresh_daily" := VStr(" ")];
    assert Blank(" ") by { assert IsSpace(" "[0]); }
    assert !Blank("Routine") by { assert !IsSpace("Routine"[0]); }
    assert FieldPasses(ListRules()[0].1, Get(input, "name"));
    assert FieldPasses(ListRules()[2].1, Get(input, "refresh_daily"));
    assert forall i :: 0 <= i < |ListRules()| ==> FieldPasses(ListRules()[i].1, Get(input, ListRules()[i].0));
  }

  /** A missing, blank or over-long name is rejected, naming the field. */
  lemma StoreRejectsBadName(s: Store, u: UserId, input: Input, now: Timestamp)
    requires !("name" in input && input["name"].VStr? && !Blank(input["name"].s) && |input["name"].s| <= 255)
    ensures var r := StoreList(s, u, input, now);
      r.Invalid? && "name" in r.errors
  {
    RequiredString(255, Get(input, "name"));
    assert ListRules()[0].0 == "name";
  }

  /** A stored list keeps the schema's constraints. */
  lemma StoreListValid(s: Store, u: UserId, input: Input, now: Timestamp)
    requires Valid(s) && u in s.users
    ensures var r := StoreList(s, u, input, now);
      r.Done? ==> Valid(r.value)
  {
    var r := StoreList(s, u, input, now);
    if r.Done? {
      AddListValid(s, NewList(s, u, input, now));
    }
  }

  /** Each list with the id replaced by `l'`. */
  function Replace(lists: seq<TodoList>, l': TodoList): (r: seq<TodoList>)
    ensures |r| == |lists|
    ensures forall i :: 0 <= i < |lists| ==> r[i] == if lists[i].id == l'.id then l' else lists[i]
  {
    Map(lists, (l: TodoList) => if l.id == l'.id then l' else l)
  }

  /** The list as a validated update leaves it: the name always, the
      description and flag when the request carries them. */
  function Updated(l: TodoList, v: Input): (r: TodoList)
    ensures r.id == l.id && r.userId == l.userId && r.createdAt == l.createdAt
    ensures "name" in v && v["name"].VStr? ==> r.name == v["name"].s
    ensures "description" !in v ==> r.description == l.description
    ensures "description" in v ==> (r.description.Some? <==> v["description"].VStr?)
    ensures "description" in v && r.description.Some? ==> v["description"] == VStr(r.description.value)
    ensures "refresh_daily" !in v ==> r.refreshDaily == l.refreshDaily
    ensures "refresh_daily" in v ==> r.refreshDaily == StoredFlag(v["refresh_daily"])
  {
    l.(name := StringField(v, "name").GetOr(l.name),
       description := if "description" in v then StringField(v, "description") else l.description,
       refreshDaily := if "refresh_daily" in v then StoredFlag(v["refresh_daily"]) else l.refreshDaily)
  }

  /** `update`: 404 for a missing list, 403 for another user's list (before
      any validation), then the failing fields, or the list rewritten with
      the validated fields only. */
  function UpdateList(s: Store, u: UserId, id: ListId, input: Input): (r: Response<Store>)
    ensures r.NotFound? <==> !HasList(s, id)
    ensures Valid(s) ==> (r.Forbidden? <==> HasList(s, id) && !OwnsList(s, u, id))
    ensures r.Invalid? || r.Done? ==> OwnsList(s, u, id)
    ensures r.Invalid? <==> OwnsList(s, u, id) && FindList(s.lists, id).value.userId == u && Validate(ListRules(), input).Err?
    ensures r.Done? ==> GoodName(input)
    ensures r.Done? ==> var l0 := FindList(s.lists, id).value; var l1 := Updated(l0, input);
      && r.value == s.(lists := Replace(s.lists, l1))
      && l1.id == id && l1.userId == u && l1.createdAt == l0.createdAt
      && l1.name == input["name"].s
      && ("refresh_daily" !in input ==> l1.refreshDaily == l0.refreshDaily)
      && ("refresh_daily" in input ==>
            && (FlagSet(l1.refreshDaily) <==> AsBool(input["refresh_daily"]))
            && (FlagMatchesTrue(l1.refreshDaily) <==> input["refresh_daily"] in {VBool(true), VInt(1), VStr("1")}))
  {
    match FindList(s.lists, id)
    case None => NotFound
    case Some(l) =>
      FoundOwnedIffOwns(s, u, id);
      if l.userId != u then Forbidden
      else
        match Validate(ListRules(), input)
        case Err(e) => Invalid(e)
        case Ok(_) =>
          ListRulesName(input);
          ListRulesFlag(input);
          Done(s.(lists := Replace(s.lists, Updated(l, input))))
  }

  /** In a consistent store the list found by id is the user's exactly
      when the user owns a list with that id. */
  lemma FoundOwnedIffOwns(s: Store, u: UserId, id: ListId)
    ensures Valid(s) && HasList(s, id) ==> (FindList(s.lists, id).value.userId == u <==> OwnsList(s, u, id))
  {
    if Valid(s) && HasList(s, id) {
      var l := FindList(s.lists, id).value;
      if OwnsList(s, u, id) {
        var l' :| l' in s.lists && l'.id == id && l'.userId == u;
        FindListUnique(s, l');
      }
    }
  }

  /** A rejected name on an owned list is reported and nothing changes. */
  lemma UpdateRejectsBadName(s: Store, u: UserId, id: ListId, input: Input)
    requires HasList(s, id) && FindList(s.lists, id).value.userId == u
    requires !GoodName(input)
    ensures var r := UpdateList(s, u, id, input);
      r.Invalid? && "name" in r.errors
  {
    RequiredString(255, Get(input, "name"));
    assert ListRules()[0].0 == "name";
  }

  /** An update keeps the schema's constraints: ids, owner and creation time
      of the rewritten list stay as they were. */
  lemma UpdateListValid(s: Store, u: UserId, id: ListId, input: Input)
    requires Valid(s)
    ensures var r := UpdateList(s, u, id, input);
      r.Done? ==> Valid(r.value)
  {
    var r := UpdateList(s, u, id, input);
    if r.Done? {
      var l0 := FindList(s.lists, id).value;
      ReplaceValid(s, Updated(l0, input));
    }
  }

  /** Rewriting a list in place, keeping its id and giving it an existing
      owner, keeps the schema's constraints. */
  lemma ReplaceValid(s: Store, l1: TodoList)
    requires Valid(s)
    requires HasList(s, l1.id) && l1.userId in s.users
    ensures Valid(s.(lists := Replace(s.lists, l1)))
  {
    var lists := Replace(s.lists, l1);
    forall i | 0 <= i < |lists| ensures lists[i].id == s.lists[i].id && lists[i].userId in s.users {
      assert s.lists[i] in s.lists;
    }
    SameIdsValid(s, lists);
  }

  /** The uncompleted copies of `src` on list `listId`, with fresh
      consecutive ids. */
  function CopiesInto(src: seq<Todo>, listId: ListId, firstId: nat, now: Timestamp): (r: seq<Todo>)
    ensures |r| == |src|
    ensures forall i :: 0 <= i < |src| ==>
      && r[i].id == firstId + i && r[i].listId == listId && r[i].createdAt == now && !IsCompleted(r[i])
      && r[i].title == src[i].title && r[i].description == src[i].description
      && r[i].priority == src[i].priority && r[i].dueDate == src[i].dueDate
  {
    seq(|src|, i requires 0 <= i < |src| =>
      NewTodo(firstId + i, listId, src[i].title, src[i].description, src[i].priority, src[i].dueDate, now))
  }

  /** A flag read through the cast and written back: PHP binds the bool as
      0 or 1, so a flag stored as text comes back as an integer. */
  function CastFlag(f: Flag): (r: Flag)
    ensures FlagSet(r) == FlagSet(f)
    ensures FlagMatchesTrue(r) <==> FlagSet(f)
  {
    FlagInt(if FlagSet(f) then 1 else 0)
  }

  /** `duplicate`: 404 for a missing list, 403 for another user's; otherwise
      a new list "<name> (Copy)" owned by the acting user with the same
      description and flag, holding an uncompleted copy of each of the
      original's todos. The existing rows are kept as they were. */
  function Duplicate(s: Store, u: UserId, id: ListId, now: Timestamp): (r: Response<Store>)
    ensures r.NotFound? <==> !HasList(s, id)
    ensures Valid(s) ==> (r.Forbidden? <==> HasList(s, id) && !OwnsList(s, u, id))
    ensures r.Done? || r.NotFound? || r.Forbidden?
    ensures r.Done? ==> OwnsList(s, u, id)
    ensures r.Done? ==> var l := FindList(s.lists, id).value; var src := TodosOfList(s, id); var t := r.value;
      && t.lists == s.lists + [TodoList(s.nextListId, u, l.name + " (Copy)", l.description, CastFlag(l.refreshDaily), now)]
      && |t.todos| == |s.todos| + |src|
      && t.todos[..|s.todos|] == s.todos
      && (forall i :: 0 <= i < |src| ==> var c := t.todos[|s.todos| + i];
            && c.listId == s.nextListId && !IsCompleted(c)
            && c.title == src[i].title && c.description == src[i].description
            && c.priority == src[i].priority && c.dueDate == src[i].dueDate)
      && t == s.(lists := t.lists, todos := t.todos, nextListId := s.nextListId + 1, nextTodoId := s.nextTodoId + |src|)
  {
    match FindList(s.lists, id)
    case None => NotFound
    case Some(l) =>
      FoundOwnedIffOwns(s, u, id);
      if l.userId != u then Forbidden
      else
        var copy := TodoList(s.nextListId, u, l.name + " (Copy)", l.description, CastFlag(l.refreshDaily), now);
        var src := TodosOfList(s, id);
        var copies := CopiesInto(src, copy.id, s.nextTodoId, now);
        assert (s.todos + copies)[..|s.todos|] == s.todos;
        Done(s.(lists := s.lists + [copy], todos := s.todos + copies,
                nextListId := s.nextListId + 1, nextTodoId := s.nextTodoId + |src|))
  }

  /** Appending copies that all sit on the fresh list `s.nextListId` keeps
      the todos of an existing list, and the fresh list holds every copy. */
  lemma AppendedCopies(s: Store, t: Store, id: ListId, copies: seq<Todo>)
    requires Valid(s) && HasList(s, id)
    requires t.todos == s.todos + copies
    requires forall i :: 0 <= i < |copies| ==> copies[i].listId == s.nextListId
    ensures TodosOfList(t, id) == TodosOfList(s, id)
    ensures TotalTodos(t, s.nextListId) == |copies|
  {
    assert id < s.nextListId;
    FilterAppend(s.todos, copies, (t: Todo) => t.listId == id);
    FilterNone(copies, (t: Todo) => t.listId == id);
    FilterAppend(s.todos, copies, (t: Todo) => t.listId == s.nextListId);
    forall i | 0 <= i < |s.todos| ensures s.todos[i].listId != s.nextListId {
      assert s.todos[i] in s.todos;
      var l' :| l' in s.lists && l'.id == s.todos[i].listId;
    }
    FilterNone(s.todos, (t: Todo) => t.listId == s.nextListId);
    FilterAll(copies, (t: Todo) => t.listId == s.nextListId);
  }

  /** After duplication the original list still holds exactly its todos,
      and the copy holds as many. */
  lemma DuplicateCounts(s: Store, u: UserId, id: ListId, now: Timestamp)
    requires Valid(s)
    ensures var r := Duplicate(s, u, id, now);
      r.Done? ==>
        && TodosOfList(r.value, id) == TodosOfList(s, id)
        && TotalTodos(r.value, s.nextListId) == TotalTodos(s, id)
  {
    var r := Duplicate(s, u, id, now);
    if r.Done? {
      var src := TodosOfList(s, id);
      var copies := CopiesInto(src, s.nextListId, s.nextTodoId, now);
      assert r.value.todos == s.todos + copies;
      AppendedCopies(s, r.value, id, copies);
    }
  }

  /** Duplication keeps the schema's constraints. */
  lemma DuplicateValid(s: Store, u: UserId, id: ListId, now: Timestamp)
    requires Valid(s)
    ensures var r := Duplicate(s, u, id, now);
      r.Done? ==> Valid(r.value)
  {
    var r := Duplicate(s, u, id, now);
    if r.Done? {
      var l := FindList(s.lists, id).value;
      var copy := TodoList(s.nextListId, u, l.name + " (Copy)", l.description, CastFlag(l.refreshDaily), now);
      AddListValid(s, copy);
      var s1 := s.(lists := s.lists + [copy], nextListId := s.nextListId + 1);
      var copies := CopiesInto(TodosOfList(s, id), copy.id, s.nextTodoId, now);
      assert HasList(s1, copy.id) by {
        assert s1.lists[|s.lists|] == copy;
      }
      AppendTodosValid(s1, copies);
      assert r.value == s1.(todos := s1.todos + copies, nextTodoId := s1.nextTodoId + |copies|);
    }
  }

  /** `destroy`: 404 for a missing list, 403 for another user's; otherwise
      the list is deleted together with its todos, and nothing else. */
  function Destroy(s: Store, u: UserId, id: ListId): (r: Response<Store>)
    ensures r.NotFound? <==> !HasList(s, id)
    ensures Valid(s) ==> (r.Forbidden? <==> HasList(s, id) && !OwnsList(s, u, id))
    ensures r.Done? || r.NotFound? || r.Forbidden?
    ensures r.Done? ==> OwnsList(s, u, id)
    ensures r.Done? ==> forall l :: l in r.value.lists <==> l in s.lists && l.id != id
    ensures r.Done? ==> forall t :: t in r.value.todos <==> t in s.todos && t.listId != id
    ensures r.Done? ==> r.value == s.(lists := r.value.lists, todos := r.value.todos)
  {
    match FindList(s.lists, id)
    case None => NotFound
    case Some(l) =>
      FoundOwnedIffOwns(s, u, id);
      if l.userId != u then Forbidden
      else
        FilterMembers(s.lists, (x: TodoList) => x.id != id);
        FilterMembers(s.todos, (t: Todo) => t.listId != id);
        Done(s.(lists := Filter(s.lists, (x: TodoList) => x.id != id),
                todos := Filter(s.todos, (t: Todo) => t.listId != id)))
  }

  /** Deleting a list keeps the schema's constraints: no todo is left
      pointing at it. */
  lemma DestroyValid(s: Store, u: UserId, id: ListId)
    requires Valid(s)
    ensures var r := Destroy(s, u, id);
      r.Done? ==> Valid(r.value)
  {
    var r := Destroy(s, u, id);
    if r.Done? {
      var t := r.value;
      FilterDistinctBy(s.lists, (x: TodoList) => x.id != id, (x: TodoList) => x.id);
      FilterDistinctBy(s.todos, (x: Todo) => x.listId != id, (x: Todo) => x.id);
      forall x | x in t.todos ensures HasList(t, x.listId) {
        var l :| l in s.lists && l.id == x.listId;
        assert l in t.lists;
      }
    }
  }

  /** The page of one list's todos. */
  datatype TodosPage = TodosPage(list: ListStats, todos: seq<Todo>, availableDates: seq<Day>, selected: Day)

  /** `todos`: 404 for a missing list, 403 for another user's; otherwise the
      list's todos of the selected date that pass the filters, uncompleted
      first and then by completion and creation time, the list's creation
      dates newest first, and the list's figures for the date. */
  function ListTodos(s: Store, u: UserId, id: ListId, q: Query, today: Day): (r: Response<TodosPage>)
    ensures r.NotFound? <==> !HasList(s, id)
    ensures Valid(s) ==> (r.Forbidden? <==> HasList(s, id) && !OwnsList(s, u, id))
    ensures r.Done? || r.NotFound? || r.Forbidden?
    ensures r.Done? ==> OwnsList(s, u, id)
    ensures r.Done? ==> PageOf(r.value, s, FindList(s.lists, id).value, q, today)
  {
    match FindList(s.lists, id)
    case None => NotFound
    case Some(l) =>
      FoundOwnedIffOwns(s, u, id);
      if l.userId != u then Forbidden
      else Done(ListPage(s, l, q, today))
  }

  /** `p` is the page of list `l` for the query: the selected date, the
      list's figures for it, exactly the list's todos of that date passing
      the filters, uncompleted first and then by completion and creation
      time, and the list's creation dates newest first. */
  ghost predicate PageOf(p: TodosPage, s: Store, l: TodoList, q: Query, today: Day)
  {
    && p.selected == SelectedDate(q, today)
    && p.list == Stats(s, l, p.selected)
    && (forall t :: t in p.todos <==> t in s.todos && t.listId == l.id && CreatedOn(t, p.selected) && MatchesQuery(q, t))
    && multiset(p.todos) == multiset(Matching(TodosOfList(s, l.id), q, p.selected))
    && (forall i, j :: 0 <= i < j < |p.todos| && IsCompleted(p.todos[i]) ==>
          IsCompleted(p.todos[j]) && p.todos[i].completedAt.value <= p.todos[j].completedAt.value)
    && (forall i, j :: 0 <= i < j < |p.todos| && p.todos[i].completedAt == p.todos[j].completedAt ==>
          p.todos[i].createdAt <= p.todos[j].createdAt)
    && StrictlyDescending(p.availableDates)
    && (forall d :: d in p.availableDates <==> exists t :: t in s.todos && t.listId == l.id && DateOf(t.createdAt) == d)
  }

  /** The page the `show` action renders for an owned list. */
  function ListPage(s: Store, l: TodoList, q: Query, today: Day): (p: TodosPage)
    ensures PageOf(p, s, l, q, today)
  {
    var day := SelectedDate(q, today);
    var todos := OrderBy(Matching(TodosOfList(s, l.id), q, day), ListKey);
    ListOrderMeaning(todos);
    var dates := DistinctDescending(CreationDates(TodosOfList(s, l.id)));
    TodosPage(Stats(s, l, day), todos, dates, day)
  }
}
