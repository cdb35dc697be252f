/** The TodoList model's accessors: todo counts and the completion percentage.
    Percentages are held exactly, in tenths of a percent. */
module TodoListModel {
  import opened Seqs
  import opened Schema
  import opened TodoModel

  /** `round(completed / total * 100, 1)` in tenths of a percent, 0 for an
      empty total: the nearest tenth, halves rounded up. */
  function Percent(completed: nat, total: nat): (p: nat)
    ensures total == 0 ==> p == 0
    ensures total > 0 ==> p * (2 * total) <= 2000 * completed + total < (p + 1) * (2 * total)
    ensures completed <= total ==> p <= 1000
  {
    if total == 0 then 0
    else
      var p := (2000 * completed + total) / (2 * total);
      assert p * (2 * total) <= 2000 * completed + total < (p + 1) * (2 * total);
      if completed <= total then
        LessByFactor(p, 1001, 2 * total);
        p
      else p
  }

  /** Cancelling a positive factor from a strict inequality. */
  lemma LessByFactor(x: int, y: int, k: int)
    requires k > 0 && x * k < y * k
    ensures x < y
  {
    assert (y - x) * k == y * k - x * k;
  }

  /** The figures the tests check: 3 of 5 is 60.0, 1 of 3 is 33.3, 2 of 3 is
      66.7, 1 of 2 is 50.0, all done is 100.0 and none done is 0.0. */
  lemma PercentExamples(n: nat)
    requires n > 0
    ensures Percent(3, 5) == 600
    ensures Percent(1, 3) == 333
    ensures Percent(2, 3) == 667
    ensures Percent(1, 2) == 500
    ensures Percent(n, n) == 1000
    ensures Percent(0, n) == 0
  {
    var p := Percent(n, n);
    LessByFactor(1000, p + 1, 2 * n);
    var q := Percent(0, n);
    LessByFactor(q, 1, 2 * n);
  }

  /** The todos of a list (the `todos()` relation). */
  function TodosOfList(s: Store, listId: ListId): (r: seq<Todo>)
    ensures forall t :: t in r <==> t in s.todos && t.listId == listId
  {
    FilterMembers(s.todos, (t: Todo) => t.listId == listId);
    Filter(s.todos, (t: Todo) => t.listId == listId)
  }

  /** `total_todos`: how many todos the list holds. */
  function TotalTodos(s: Store, listId: ListId): (n: nat)
    ensures n <= |s.todos|
  {
    |TodosOfList(s, listId)|
  }

  /** `completed_todos`: how many of the list's todos are completed; never
      more than the list holds. */
  function CompletedTodos(s: Store, listId: ListId): (n: nat)
    ensures n <= TotalTodos(s, listId)
  {
    |Filter(TodosOfList(s, listId), IsCompleted)|
  }

  /** The completed and the uncompleted todos of a list together make up
      its total. */
  lemma CompletedAndOpenMakeTotal(s: Store, listId: ListId)
    ensures CompletedTodos(s, listId) + Count(TodosOfList(s, listId), (t: Todo) => !IsCompleted(t)) == TotalTodos(s, listId)
  {
    CountSplit(TodosOfList(s, listId), (t: Todo) => true, IsCompleted, (t: Todo) => !IsCompleted(t));
    FilterAll(TodosOfList(s, listId), (t: Todo) => true);
  }

  /** Adding one todo to the table raises the figures of its own list by
      one (the completed count only when it is completed) and leaves every
      other list's figures alone. */
  lemma CountsAfterAdding(s: Store, t: Todo, listId: ListId)
    ensures var s' := s.(todos := s.todos + [t]);
      && TotalTodos(s', listId) == TotalTodos(s, listId) + (if t.listId == listId then 1 else 0)
      && CompletedTodos(s', listId) == CompletedTodos(s, listId) + (if t.listId == listId && IsCompleted(t) then 1 else 0)
  {
    var s' := s.(todos := s.todos + [t]);
    var p := (x: Todo) => x.listId == listId;
    FilterAppend(s.todos, [t], p);
    assert Filter([t], p) == if t.listId == listId then [t] else [];
    FilterAppend(TodosOfList(s, listId), Filter([t], p), IsCompleted);
    assert Filter(Filter([t], p), IsCompleted) == if t.listId == listId && IsCompleted(t) then [t] else [];
  }

  /** `completion_percentage`: 0.0 for an empty list, otherwise the completed
      share rounded to a tenth of a percent, never above 100.0. */
  function CompletionPercentage(s: Store, listId: ListId): (p: nat)
    ensures TotalTodos(s, listId) == 0 ==> p == 0
    ensures p <= 1000
    ensures TotalTodos(s, listId) > 0 ==>
      p * (2 * TotalTodos(s, listId)) <= 2000 * CompletedTodos(s, listId) + TotalTodos(s, listId)
                                       < (p + 1) * (2 * TotalTodos(s, listId))
  {
    Percent(CompletedTodos(s, listId), TotalTodos(s, listId))
  }
}
