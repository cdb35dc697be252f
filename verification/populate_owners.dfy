/** The data migration that gives every existing todo list an owner before
    `todo_lists.user_id` becomes non-nullable: the user with the most todos
    in the list, else the first user, else the list is deleted. */
module PopulateOwners {
  import opened Wrappers
  import opened Seqs

  /** A list row before the migration: its owner column may be null. */
  datatype LegacyList = LegacyList(id: int, name: string, description: Option<string>, userId: Option<int>)

  /** A todo row as the migration reads it: its list and its (nullable) user. */
  datatype LegacyTodo = LegacyTodo(id: int, listId: int, userId: Option<int>)

  /** The three tables the migration touches; `users` in table order. */
  datatype Tables = Tables(users: seq<int>, lists: seq<LegacyList>, todos: seq<LegacyTodo>)

  /** The `user_id` of every todo in the list, one entry per todo. */
  function OwnersIn(todos: seq<LegacyTodo>, listId: int): (r: seq<Option<int>>)
    ensures |r| <= |todos|
    ensures forall o :: o in r <==> exists t :: t in todos && t.listId == listId && t.userId == o
    decreases |todos|
  {
    if |todos| == 0 then []
    else
      var rest := OwnersIn(todos[1..], listId);
      assert forall t :: t in todos[1..] ==> t in todos;
      assert forall t :: t in todos ==> t == todos[0] || t in todos[1..];
      if todos[0].listId == listId then [todos[0].userId] + rest else rest
  }

  /** How many todos of the group carry the user id `o`: `COUNT(*)` of
      `o`'s group. */
  function GroupSize(owners: seq<Option<int>>, o: Option<int>): nat
  {
    Count(owners, (x: Option<int>) => x == o)
  }

  /** The first of `candidates` with the largest group: the row
      `orderBy('todo_count', 'desc')->first()` picks, up to ties. */
  function Largest(owners: seq<Option<int>>, candidates: seq<Option<int>>): (r: Option<int>)
    requires |candidates| > 0
    ensures r in candidates
    ensures forall o :: o in candidates ==> GroupSize(owners, o) <= GroupSize(owners, r)
    decreases |candidates|
  {
    if |candidates| == 1 then candidates[0]
    else
      var b := Largest(owners, candidates[1..]);
      assert forall o :: o in candidates ==> o == candidates[0] || o in candidates[1..];
      if GroupSize(owners, candidates[0]) >= GroupSize(owners, b) then candidates[0] else b
  }

  /** Every group is among the todos: a value outside them has an empty group. */
  lemma AbsentGroupEmpty(owners: seq<Option<int>>, o: Option<int>)
    requires o !in owners
    ensures GroupSize(owners, o) == 0
  {
    FilterNone(owners, (x: Option<int>) => x == o);
  }

  /** The new owner of one list, or `None` when the list is deleted. */
  function Assign(l: LegacyList, todos: seq<LegacyTodo>, users: seq<int>): (r: Option<LegacyList>)
    ensures r.Some? ==> r.value == l.(userId := r.value.userId)
    ensures var owners := OwnersIn(todos, l.id);
      && (|owners| > 0 ==>
            && r.Some? && r.value.userId in owners
            && forall o :: GroupSize(owners, o) <= GroupSize(owners, r.value.userId))
      && (|owners| == 0 && |users| > 0 ==> r == Some(l.(userId := Some(users[0]))))
      && (|owners| == 0 && |users| == 0 ==> r.None?)
  {
    var owners := OwnersIn(todos, l.id);
    if |owners| > 0 then
      var best := Largest(owners, owners);
      assert forall o :: o !in owners ==> GroupSize(owners, o) == 0 by {
        forall o | o !in owners ensures GroupSize(owners, o) == 0 {
          AbsentGroupEmpty(owners, o);
        }
      }
      Some(l.(userId := best))
    else if |users| > 0 then Some(l.(userId := Some(users[0])))
    else None
  }

  /** The values `f` keeps, in order: a loop that writes back or drops each
      element on its own. */
  function Collect<T, U>(s: seq<T>, f: T -> Option<U>): seq<U>
    decreases |s|
  {
    if |s| == 0 then []
    else Kept(f(s[0])) + Collect(s[1..], f)
  }

  /** The one value an optional result contributes, if any. */
  function Kept<U>(o: Option<U>): seq<U>
  {
    match o
    case Some(y) => [y]
    case None => []
  }

  lemma {:induction false} CollectAppend<T, U>(a: seq<T>, b: seq<T>, f: T -> Option<U>)
    ensures Collect(a + b, f) == Collect(a, f) + Collect(b, f)
    decreases |a|
  {
    if |a| > 0 {
      assert (a + b)[0] == a[0];
      assert (a + b)[1..] == a[1..] + b;
      CollectAppend(a[1..], b, f);
    } else {
      assert a + b == b;
    }
  }

  lemma {:induction false} CollectMembers<T, U>(s: seq<T>, f: T -> Option<U>)
    ensures var r := Collect(s, f);
      && |r| <= |s|
      && (forall y :: y in r ==> exists x :: x in s && f(x) == Some(y))
      && (forall x :: x in s && f(x).Some? ==> f(x).value in r)
    decreases |s|
  {
    if |s| > 0 {
      CollectMembers(s[1..], f);
      assert forall x :: x in s[1..] ==> x in s;
      assert forall x :: x in s ==> x == s[0] || x in s[1..];
    }
  }

  /** The loop body for every list. */
  function AssignEach(todos: seq<LegacyTodo>, users: seq<int>): LegacyList -> Option<LegacyList>
  {
    (l: LegacyList) => Assign(l, todos, users)
  }

  /** The `foreach` over the lists: each list reassigned or dropped. */
  function Populate(lists: seq<LegacyList>, todos: seq<LegacyTodo>, users: seq<int>): seq<LegacyList>
  {
    Collect(lists, AssignEach(todos, users))
  }

  /** Each list is handled on its own: populating two runs of lists is
      populating each. */
  lemma PopulateAppend(a: seq<LegacyList>, b: seq<LegacyList>, todos: seq<LegacyTodo>, users: seq<int>)
    ensures Populate(a + b, todos, users) == Populate(a, todos, users) + Populate(b, todos, users)
  {
    CollectAppend(a, b, AssignEach(todos, users));
  }

  /** The lists after the loop: exactly the surviving lists, each with its
      assigned owner and otherwise unchanged. */
  lemma PopulateMembers(lists: seq<LegacyList>, todos: seq<LegacyTodo>, users: seq<int>)
    ensures var r := Populate(lists, todos, users);
      && |r| <= |lists|
      && (forall l :: l in r ==> exists k :: k in lists && Assign(k, todos, users) == Some(l))
      && (forall k :: k in lists && Assign(k, todos, users).Some? ==> Assign(k, todos, users).value in r)
  {
    CollectMembers(lists, AssignEach(todos, users));
  }

  /** The migration's result: the populated tables, or the populated tables
      on which making `user_id` non-nullable fails because a list still has
      a null owner. */
  datatype Outcome = Migrated(tables: Tables) | NullOwnerRemains(tables: Tables)

  predicate AllOwned(lists: seq<LegacyList>)
  {
    forall i :: 0 <= i < |lists| ==> lists[i].userId.Some?
  }

  /** `up`: populate, then change the column to non-nullable. The users and
      the todos are never written. */
  function Up(db: Tables): (r: Outcome)
    ensures r.tables == db.(lists := Populate(db.lists, db.todos, db.users))
    ensures r.Migrated? <==> AllOwned(r.tables.lists)
  {
    var lists := Populate(db.lists, db.todos, db.users);
    var t := db.(lists := lists);
    if AllOwned(lists) then Migrated(t) else NullOwnerRemains(t)
  }

  /** When every todo has a user, every list the migration keeps gets a
      user, and the column change succeeds. */
  lemma UpSucceedsWhenTodosOwned(db: Tables)
    requires forall t :: t in db.todos ==> t.userId.Some?
    ensures Up(db).Migrated?
    ensures forall l :: l in Up(db).tables.lists ==>
      && l.userId.Some?
      && (l.userId.value in db.users || exists t :: t in db.todos && t.listId == l.id && t.userId == l.userId)
  {
    var r := Populate(db.lists, db.todos, db.users);
    PopulateMembers(db.lists, db.todos, db.users);
    forall i | 0 <= i < |r|
      ensures r[i].userId.Some?
      ensures r[i].userId.value in db.users || exists t :: t in db.todos && t.listId == r[i].id && t.userId == r[i].userId
    {
      assert r[i] in r;
      var k :| k in db.lists && Assign(k, db.todos, db.users) == Some(r[i]);
      var owners := OwnersIn(db.todos, k.id);
      if |owners| > 0 {
        assert r[i].userId in owners;
      }
    }
  }

  /** A list whose todos carry no user is kept with a null owner even when
      users exist, and the column change then fails. */
  lemma NullGroupStopsMigration()
    ensures var db := Tables([1], [LegacyList(10, "Inbox", None, None)], [LegacyTodo(100, 10, None)]);
      Up(db).NullOwnerRemains?
  {
    var db := Tables([1], [LegacyList(10, "Inbox", None, None)], [LegacyTodo(100, 10, None)]);
    var l := db.lists[0];
    assert OwnersIn(db.todos, 10) == [None];
    assert Assign(l, db.todos, db.users) == Some(l);
    assert Populate(db.lists, db.todos, db.users) == [l];
    assert !AllOwned([l]);
  }

  /** The migration's loop, one element at a time; it computes `Collect`. */
  method CollectLoop<T, U>(s: seq<T>, f: T -> Option<U>) returns (r: seq<U>)
    ensures r == Collect(s, f)
  {
    r := [];
    var i := 0;
    while i < |s|
      invariant 0 <= i <= |s|
      invariant r + Collect(s[i..], f) == Collect(s, f)
    {
      CollectStep(s, i, f);
      var k := Kept(f(s[i]));
      assert r + (k + Collect(s[i + 1..], f)) == (r + k) + Collect(s[i + 1..], f);
      r := r + k;
      i := i + 1;
    }
    assert s[i..] == [];
    assert r + [] == r;
  }

  lemma CollectStep<T, U>(s: seq<T>, i: int, f: T -> Option<U>)
    requires 0 <= i < |s|
    ensures Collect(s[i..], f)
      == Kept(f(s[i])) + Collect(s[i + 1..], f)
  {
    assert s[i..][0] == s[i] && s[i..][1..] == s[i + 1..];
  }

  /** The `foreach` of `up`, run list by list. */
  method PopulateLoop(lists: seq<LegacyList>, todos: seq<LegacyTodo>, users: seq<int>) returns (r: seq<LegacyList>)
    ensures r == Populate(lists, todos, users)
  {
    r := CollectLoop(lists, AssignEach(todos, users));
  }
}
