/** The Todo model: completion is the nullable `completed_at` timestamp, a new
    todo starts uncompleted, and the owning user is reached through the list. */
module TodoModel {
  import opened Wrappers
  import opened Calendar
  import opened Schema

  /** The `is_completed` accessor. */
  predicate IsCompleted(t: Todo)
  {
    t.completedAt.Some?
  }

  /** A freshly created todo: the model's attribute default leaves it uncompleted. */
  function NewTodo(id: TodoId, listId: ListId, title: string, description: Option<string>,
                   priority: Priority, dueDate: Option<Day>, now: Timestamp): (t: Todo)
    ensures !IsCompleted(t)
    ensures t.id == id && t.listId == listId && t.createdAt == now
    ensures t.title == title && t.description == description
    ensures t.priority == priority && t.dueDate == dueDate
  {
    Todo(id, listId, title, description, None, priority, dueDate, now)
  }

  /** `markAsCompleted`: stamps the todo with the current time; nothing else changes. */
  function MarkAsCompleted(t: Todo, now: Timestamp): (r: Todo)
    ensures IsCompleted(r) && r.completedAt == Some(now)
    ensures r.(completedAt := t.completedAt) == t
  {
    t.(completedAt := Some(now))
  }

  /** `markAsIncomplete`: clears the stamp; nothing else changes. */
  function MarkAsIncomplete(t: Todo): (r: Todo)
    ensures !IsCompleted(r)
    ensures r.(completedAt := t.completedAt) == t
  {
    t.(completedAt := None)
  }

  /** Completing and then un-completing leaves the todo as it would be had it
      never been completed, whatever state it started in. */
  lemma ToggleRoundTrip(t: Todo, now: Timestamp)
    ensures MarkAsIncomplete(MarkAsCompleted(t, now)) == MarkAsIncomplete(t)
    ensures !IsCompleted(MarkAsIncomplete(MarkAsCompleted(t, now)))
    ensures !IsCompleted(t) ==> MarkAsIncomplete(MarkAsCompleted(t, now)) == t
  {
  }

  /** The `user()` relation: the owner of the todo's list, or none when the
      list is missing. */
  function Owner(s: Store, t: Todo): (r: Option<UserId>)
    ensures r.Some? <==> HasList(s, t.listId)
    ensures r.Some? ==> exists l :: l in s.lists && l.id == t.listId && l.userId == r.value
  {
    match FindList(s.lists, t.listId)
    case Some(l) => Some(l.userId)
    case None => None
  }

  /** In a consistent store every todo has an owner, and it is the user
      whose list holds it. */
  lemma OwnerThroughList(s: Store, t: Todo, l: TodoList)
    requires Valid(s)
    requires t in s.todos && l in s.lists && l.id == t.listId
    ensures Owner(s, t) == Some(l.userId)
  {
    FindListUnique(s, l);
  }
}
