/** The persistent state: the users, todo_lists, todos and settings tables,
    with the constraints the database schema enforces (unique keys, foreign
    keys, one settings row per user). Completion is held in a single nullable
    timestamp, `completed_at`; NULL means "not completed". */
module Schema {
  import opened Wrappers
  import opened Calendar

  type UserId = nat
  type ListId = nat
  type TodoId = nat

  datatype Priority = Low | Medium | High

  /** The string stored in the `priority` column. */
  function PriorityName(p: Priority): string
  {
    match p
    case Low => "low"
    case Medium => "medium"
    case High => "high"
  }

  /** The `in:low,medium,high` validation rule: the priority a request
      string names, if any. */
  function ParsePriority(s: string): (r: Option<Priority>)
    ensures r.Some? ==> PriorityName(r.value) == s
  {
    if s == "low" then Some(Low)
    else if s == "medium" then Some(Medium)
    else if s == "high" then Some(High)
    else None
  }

  /** Every priority is accepted under its own name, and only the three
      names are accepted. */
  lemma PriorityRoundTrip(p: Priority, s: string)
    ensures ParsePriority(PriorityName(p)) == Some(p)
    ensures ParsePriority(s).Some? <==> s in {"low", "medium", "high"}
  {
  }

  datatype Todo = Todo(
    id: TodoId,
    listId: ListId,
    title: string,
    description: Option<string>,
    completedAt: Option<Timestamp>,
    priority: Priority,
    dueDate: Option<Day>,
    createdAt: Timestamp)

  datatype TodoList = TodoList(
    id: ListId,
    userId: UserId,
    name: string,
    description: Option<string>,
    refreshDaily: Flag,
    createdAt: Timestamp)

  /** What SQLite keeps in a `boolean` column, which has integer affinity:
      an integer (a PHP bool is bound as 0 or 1, and a digit string is
      converted), any other text as sent, or null. */
  datatype Flag = FlagInt(i: int) | FlagText(s: string) | FlagNull

  /** The model's `boolean` cast reading the column back: PHP's truthiness
      of the stored value. */
  predicate FlagSet(f: Flag)
  {
    match f
    case FlagInt(i) => i != 0
    case FlagText(t) => t != "" && t != "0"
    case FlagNull => false
  }

  /** `where(column, true)`: the query binds true as the integer 1, which
      only a stored integer 1 equals; stored text never does. */
  predicate FlagMatchesTrue(f: Flag)
  {
    f == FlagInt(1)
  }

  datatype Settings = Settings(
    userId: UserId,
    timezone: Option<string>,
    dateFormat: string,
    timeFormat: string,
    emailNotifications: bool,
    browserNotifications: bool)

  /** All tables. `settings` is keyed by user, so a user has at most one
      settings row; the id counters play the part of auto-increment keys. */
  datatype Store = Store(
    users: seq<UserId>,
    lists: seq<TodoList>,
    todos: seq<Todo>,
    settings: map<UserId, Settings>,
    nextListId: nat,
    nextTodoId: nat)

  /** Some list has this id. */
  predicate HasList(s: Store, id: ListId)
  {
    exists l :: l in s.lists && l.id == id
  }

  /** The schema's constraints: primary keys are unique and below the
      auto-increment counters, `todos.todo_list_id` and `todo_lists.user_id`
      reference existing rows, and each settings row belongs to its key. */
  ghost predicate Valid(s: Store)
  {
    && (forall i, j :: 0 <= i < j < |s.users| ==> s.users[i] != s.users[j])
    && (forall i, j :: 0 <= i < j < |s.lists| ==> s.lists[i].id != s.lists[j].id)
    && (forall i, j :: 0 <= i < j < |s.todos| ==> s.todos[i].id != s.todos[j].id)
    && (forall l :: l in s.lists ==> l.userId in s.users && l.id < s.nextListId)
    && (forall t :: t in s.todos ==> HasList(s, t.listId) && t.id < s.nextTodoId)
    && (forall u :: u in s.settings ==> u in s.users && s.settings[u].userId == u)
  }

  /** `TodoList::find($id)`: the list with this id, if any. */
  function FindList(lists: seq<TodoList>, id: ListId): (r: Option<TodoList>)
    ensures r.Some? ==> r.value in lists && r.value.id == id
    ensures r.None? <==> forall l :: l in lists ==> l.id != id
  {
    if |lists| == 0 then None
    else if lists[0].id == id then Some(lists[0])
    else FindList(lists[1..], id)
  }

  /** `Todo::find($id)`: the todo with this id, if any. */
  function FindTodo(todos: seq<Todo>, id: TodoId): (r: Option<Todo>)
    ensures r.Some? ==> r.value in todos && r.value.id == id
    ensures r.None? <==> forall t :: t in todos ==> t.id != id
  {
    if |todos| == 0 then None
    else if todos[0].id == id then Some(todos[0])
    else FindTodo(todos[1..], id)
  }

  /** With unique ids, the list found is the only one carrying the id. */
  lemma FindListUnique(s: Store, l: TodoList)
    requires Valid(s)
    requires l in s.lists
    ensures FindList(s.lists, l.id) == Some(l)
  {
    var r := FindList(s.lists, l.id);
    var i :| 0 <= i < |s.lists| && s.lists[i] == r.value;
    var j :| 0 <= j < |s.lists| && s.lists[j] == l;
    assert i == j;
  }

  /** Adding a list with the next id, owned by an existing user, keeps the
      schema's constraints. */
  lemma AddListValid(s: Store, l: TodoList)
    requires Valid(s)
    requires l.id == s.nextListId && l.userId in s.users
    ensures Valid(s.(lists := s.lists + [l], nextListId := s.nextListId + 1))
  {
    var t := s.(lists := s.lists + [l], nextListId := s.nextListId + 1);
    forall i, j | 0 <= i < j < |t.lists| ensures t.lists[i].id != t.lists[j].id {
      if j == |s.lists| {
        assert s.lists[i] in s.lists;
      }
    }
    forall x | x in t.todos ensures HasList(t, x.listId) {
      var l' :| l' in s.lists && l'.id == x.listId;
      assert l' in t.lists;
    }
  }

  /** Appending todos with the next ids, each on an existing list, keeps
      the schema's constraints. */
  lemma AppendTodosValid(s: Store, added: seq<Todo>)
    requires Valid(s)
    requires forall i :: 0 <= i < |added| ==> added[i].id == s.nextTodoId + i && HasList(s, added[i].listId)
    ensures Valid(s.(todos := s.todos + added, nextTodoId := s.nextTodoId + |added|))
  {
    var todos := s.todos + added;
    forall i, j | 0 <= i < j < |todos| ensures todos[i].id != todos[j].id {
      if j >= |s.todos| && i < |s.todos| {
        assert todos[i] in s.todos;
      }
    }
    forall x | x in todos ensures HasList(s, x.listId) && x.id < s.nextTodoId + |added| {
      var k :| 0 <= k < |todos| && todos[k] == x;
      if k < |s.todos| {
        assert x in s.todos;
      }
    }
  }

  /** Keeping some of the todos, with distinct ids, keeps the schema's
      constraints. */
  lemma KeepTodosValid(s: Store, kept: seq<Todo>)
    requires Valid(s)
    requires forall t :: t in kept ==> t in s.todos
    requires forall i, j :: 0 <= i < j < |kept| ==> kept[i].id != kept[j].id
    ensures Valid(s.(todos := kept))
  {
  }

  /** Rewriting the lists in place, keeping each id and giving each an
      existing owner, keeps the schema's constraints. */
  lemma SameIdsValid(s: Store, lists: seq<TodoList>)
    requires Valid(s)
    requires |lists| == |s.lists|
    requires forall i :: 0 <= i < |lists| ==> lists[i].id == s.lists[i].id && lists[i].userId in s.users
    ensures Valid(s.(lists := lists))
  {
    SameIdsOwned(s, lists);
    SameIdsFound(s, lists);
  }

  lemma SameIdsOwned(s: Store, lists: seq<TodoList>)
    requires Valid(s)
    requires |lists| == |s.lists|
    requires forall i :: 0 <= i < |lists| ==> lists[i].id == s.lists[i].id && lists[i].userId in s.users
    ensures forall l :: l in lists ==> l.userId in s.users && l.id < s.nextListId
  {
    forall l | l in lists ensures l.userId in s.users && l.id < s.nextListId {
      var i :| 0 <= i < |lists| && lists[i] == l;
      assert s.lists[i] in s.lists;
    }
  }

  lemma SameIdsFound(s: Store, lists: seq<TodoList>)
    requires Valid(s)
    requires |lists| == |s.lists|
    requires forall i :: 0 <= i < |lists| ==> lists[i].id == s.lists[i].id
    ensures forall x :: x in s.todos ==> HasList(s.(lists := lists), x.listId)
  {
    forall x | x in s.todos ensures HasList(s.(lists := lists), x.listId) {
      var i :| 0 <= i < |s.lists| && s.lists[i].id == x.listId;
      assert lists[i] in lists;
    }
  }

  /** Writing a registered user's own settings row keeps the schema's
      constraints. */
  lemma PutSettingsValid(s: Store, u: UserId, row: Settings)
    requires Valid(s) && u in s.users && row.userId == u
    ensures Valid(s.(settings := s.settings[u := row]))
  {
  }
}
