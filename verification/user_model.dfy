/** The User model: the lists a user owns, the todos reached through those
    lists, the settings accessor, and deletion cascading to everything the
    user owns. */
module UserModel {
  import opened Seqs
  import opened Schema
  import opened SettingModel
  import opened TodoListModel

  /** The `todoLists()` relation: the lists whose `user_id` is `u`. */
  function ListsOf(s: Store, u: UserId): (r: seq<TodoList>)
    ensures forall l :: l in r <==> l in s.lists && l.userId == u
    ensures |r| <= |s.lists|
  {
    FilterMembers(s.lists, (l: TodoList) => l.userId == u);
    Filter(s.lists, (l: TodoList) => l.userId == u)
  }

  /** Some list with this id belongs to `u`. */
  predicate OwnsList(s: Store, u: UserId, id: ListId)
  {
    exists l :: l in s.lists && l.id == id && l.userId == u
  }

  /** The `todos()` relation (has-many-through the lists): todos whose list
      belongs to `u`. */
  function TodosOf(s: Store, u: UserId): (r: seq<Todo>)
    ensures forall t :: t in r <==> t in s.todos && OwnsList(s, u, t.listId)
  {
    FilterMembers(s.todos, (t: Todo) => OwnsList(s, u, t.listId));
    Filter(s.todos, (t: Todo) => OwnsList(s, u, t.listId))
  }

  /** A user's todos are exactly the union of the todos of that user's lists. */
  lemma TodosOfIsUnionOfLists(s: Store, u: UserId, t: Todo)
    ensures t in TodosOf(s, u) <==> exists l :: l in ListsOf(s, u) && t in TodosOfList(s, l.id)
  {
    if t in TodosOf(s, u) {
      var l :| l in s.lists && l.id == t.listId && l.userId == u;
      assert l in ListsOf(s, u) && t in TodosOfList(s, l.id);
    }
  }

  /** Deleting a user: the user's settings, lists and the todos on those
      lists go with it (the foreign keys cascade); every other row stays. */
  function DeleteUser(s: Store, u: UserId): (r: Store)
    ensures u !in r.users && u !in r.settings
    ensures ListsOf(r, u) == [] && TodosOf(r, u) == []
    ensures forall v :: v in r.users <==> v in s.users && v != u
    ensures forall l :: l in r.lists <==> l in s.lists && l.userId != u
    ensures forall t :: t in r.todos <==> t in s.todos && !OwnsList(s, u, t.listId)
    ensures forall v :: v in s.settings && v != u ==> v in r.settings && r.settings[v] == s.settings[v]
  {
    FilterMembers(s.users, (v: UserId) => v != u);
    FilterMembers(s.lists, (l: TodoList) => l.userId != u);
    FilterMembers(s.todos, (t: Todo) => !OwnsList(s, u, t.listId));
    var r := Store(
      Filter(s.users, (v: UserId) => v != u),
      Filter(s.lists, (l: TodoList) => l.userId != u),
      Filter(s.todos, (t: Todo) => !OwnsList(s, u, t.listId)),
      s.settings - {u},
      s.nextListId,
      s.nextTodoId);
    assert ListsOf(r, u) == [] by {
      FilterNone(r.lists, (l: TodoList) => l.userId == u);
    }
    assert TodosOf(r, u) == [] by {
      forall i | 0 <= i < |r.todos| ensures !OwnsList(r, u, r.todos[i].listId) {
        assert r.todos[i] in r.todos;
      }
      FilterNone(r.todos, (t: Todo) => OwnsList(r, u, t.listId));
    }
    r
  }

  /** Deleting a user keeps the schema's constraints. */
  lemma DeleteUserValid(s: Store, u: UserId)
    requires Valid(s)
    ensures Valid(DeleteUser(s, u))
  {
    DeleteUserKeepsKeysUnique(s, u);
    DeleteUserLeavesNoDangling(s, u);
  }

  lemma DeleteUserKeepsKeysUnique(s: Store, u: UserId)
    requires Valid(s)
    ensures var r := DeleteUser(s, u);
      && (forall i, j :: 0 <= i < j < |r.users| ==> r.users[i] != r.users[j])
      && (forall i, j :: 0 <= i < j < |r.lists| ==> r.lists[i].id != r.lists[j].id)
      && (forall i, j :: 0 <= i < j < |r.todos| ==> r.todos[i].id != r.todos[j].id)
  {
    FilterDistinctBy(s.users, (v: UserId) => v != u, (v: UserId) => v);
    FilterDistinctBy(s.lists, (l: TodoList) => l.userId != u, (l: TodoList) => l.id);
    FilterDistinctBy(s.todos, (t: Todo) => !OwnsList(s, u, t.listId), (t: Todo) => t.id);
  }

  lemma DeleteUserLeavesNoDangling(s: Store, u: UserId)
    requires Valid(s)
    ensures var r := DeleteUser(s, u);
      && (forall l :: l in r.lists ==> l.userId in r.users && l.id < r.nextListId)
      && (forall t :: t in r.todos ==> HasList(r, t.listId) && t.id < r.nextTodoId)
      && (forall v :: v in r.settings ==> v in r.users && r.settings[v].userId == v)
  {
    var r := DeleteUser(s, u);
    forall t | t in r.todos ensures HasList(r, t.listId) {
      var l :| l in s.lists && l.id == t.listId;
      assert l in r.lists;
    }
  }
}
