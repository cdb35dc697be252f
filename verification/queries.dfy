/** The query-string filters and orderings the todo pages share: the
    `completed`, `priority`, `search` and `date` parameters, and the sort
    keys of the two todo listings. */
module TodoQueries {
  import opened Wrappers
  import opened Text
  import opened Seqs
  import opened Calendar
  import opened Schema
  import opened TodoModel

  /** The parameters a request carries; `None` is an absent parameter. */
  datatype Query = Query(
    completed: Option<string>,
    priority: Option<string>,
    search: Option<string>,
    date: Option<Day>)

  /** The whitespace PHP's boolean filter trims first: space, tab, carriage
      return, vertical tab and line feed (not NUL). */
  const FilterSpace: set<char> := {' ', '\t', '\r', 11 as char, '\n'}

  /** `$request->boolean(...)`: the strings PHP's boolean filter reads as
      true once trimmed, in any letter case. */
  predicate BooleanQuery(s: string)
  {
    Lower(Strip(s, FilterSpace)) in {"1", "true", "on", "yes"}
  }

  /** "1" reads as true and "0" as false. */
  lemma FlagValues()
    ensures BooleanQuery("1") && !BooleanQuery("0")
  {
    assert Strip("1", FilterSpace) == "1" && Strip("0", FilterSpace) == "0";
    assert Lower("1") == "1" && Lower("0") == "0" by {
      assert Lower("1")[0] == '1' && Lower("0")[0] == '0';
    }
  }

  /** Padding a flag with that whitespace does not change how it reads. */
  lemma PaddedFlag(p: string, flag: string, q: string)
    requires forall i :: 0 <= i < |p| ==> p[i] in FilterSpace
    requires forall i :: 0 <= i < |q| ==> q[i] in FilterSpace
    requires |flag| > 0 && flag[0] !in FilterSpace && flag[|flag| - 1] !in FilterSpace
    ensures BooleanQuery(p + flag + q) <==> BooleanQuery(flag)
  {
    StripPadding(p, flag, q, FilterSpace);
    StripPadding("", flag, "", FilterSpace);
    assert "" + flag + "" == flag;
  }

  /** `where title like %term% or description like %term%`: a null
      description matches nothing. */
  predicate SearchMatches(t: Todo, term: string)
  {
    Like(t.title, term) || (t.description.Some? && Like(t.description.value, term))
  }

  /** The `completed`, `priority` and `search` filters, each applied only when
      its parameter is present. */
  predicate MatchesQuery(q: Query, t: Todo)
  {
    && (q.completed.Some? ==> (IsCompleted(t) <==> BooleanQuery(q.completed.value)))
    && (q.priority.Some? ==> PriorityName(t.priority) == q.priority.value)
    && (q.search.Some? ==> SearchMatches(t, q.search.value))
  }

  /** `whereDate('created_at', day)`. */
  predicate CreatedOn(t: Todo, day: Day)
  {
    DateOf(t.createdAt) == day
  }

  /** The selected date: the `date` parameter, or today. */
  function SelectedDate(q: Query, today: Day): (d: Day)
    ensures q.date.Some? ==> d == q.date.value
    ensures q.date.None? ==> d == today
  {
    q.date.GetOr(today)
  }

  /** The todos of `ts` created on `day` that pass the query's filters, in
      their original order. */
  function Matching(ts: seq<Todo>, q: Query, day: Day): (r: seq<Todo>)
    ensures forall t :: t in r <==> t in ts && CreatedOn(t, day) && MatchesQuery(q, t)
    ensures |r| <= |ts|
  {
    FilterMembers(ts, (t: Todo) => CreatedOn(t, day) && MatchesQuery(q, t));
    Filter(ts, (t: Todo) => CreatedOn(t, day) && MatchesQuery(q, t))
  }

  /** With no filter parameter, every todo of the day is listed. */
  lemma NoFiltersKeepsDay(ts: seq<Todo>, day: Day)
    ensures Matching(ts, Query(None, None, None, Some(day)), day) == Filter(ts, (t: Todo) => CreatedOn(t, day))
  {
    FilterCongruent(ts, (t: Todo) => CreatedOn(t, day) && MatchesQuery(Query(None, None, None, Some(day)), t),
      (t: Todo) => CreatedOn(t, day));
  }

  /** `completed=1` and `completed=0` split the day's todos between them:
      every todo of the day is counted under exactly one of the two. */
  lemma CompletedFilterPartitions(ts: seq<Todo>, q: Query, day: Day)
    requires q.completed.None?
    ensures |Matching(ts, q.(completed := Some("1")), day)| + |Matching(ts, q.(completed := Some("0")), day)|
         == |Matching(ts, q, day)|
  {
    var done := q.(completed := Some("1"));
    var open := q.(completed := Some("0"));
    FlagValues();
    CountSplit(ts, (t: Todo) => CreatedOn(t, day) && MatchesQuery(q, t),
      (t: Todo) => CreatedOn(t, day) && MatchesQuery(done, t),
      (t: Todo) => CreatedOn(t, day) && MatchesQuery(open, t));
  }

  /** A three-part sort key, compared left to right. */
  type Key = (int, int, int)

  predicate KeyLeq(a: Key, b: Key)
  {
    a.0 < b.0 || (a.0 == b.0 && (a.1 < b.1 || (a.1 == b.1 && a.2 <= b.2)))
  }

  /** Ordering todos by a key. */
  function ByKey(key: Todo -> Key): (Todo, Todo) -> bool
  {
    (a: Todo, b: Todo) => KeyLeq(key(a), key(b))
  }

  /** Any key gives a total preorder. */
  lemma ByKeyIsTotalPreorder(key: Todo -> Key)
    ensures TotalPreorder(ByKey(key))
  {
  }

  /** `orderBy(...)`: the todos rearranged so that the keys do not decrease. */
  function OrderBy(ts: seq<Todo>, key: Todo -> Key): (r: seq<Todo>)
    ensures SortedBy(r, ByKey(key))
    ensures multiset(r) == multiset(ts)
    ensures |r| == |ts|
    ensures forall t :: t in r <==> t in ts
  {
    ByKeyIsTotalPreorder(key);
    var r := SortBy(ts, ByKey(key));
    assert |r| == |multiset(r)| == |ts|;
    assert forall t :: t in r <==> t in multiset(r);
    assert forall t :: t in ts <==> t in multiset(ts);
    r
  }

  /** `orderBy('completed_at', 'asc')->orderBy('created_at', 'asc')`, with
      NULL sorting first. */
  function ListKey(t: Todo): (k: Key)
    ensures k.0 == 0 <==> !IsCompleted(t)
    ensures IsCompleted(t) ==> k.1 == t.completedAt.value
    ensures k.2 == t.createdAt
  {
    match t.completedAt
    case None => (0, 0, t.createdAt)
    case Some(at) => (1, at, t.createdAt)
  }

  /** `orderBy('todos.created_at', 'desc')->orderByRaw('completed_at IS NULL DESC')`. */
  function IndexKey(t: Todo): (k: Key)
    ensures k.0 == -t.createdAt
    ensures k.1 == 1 <==> IsCompleted(t)
  {
    (-t.createdAt, if IsCompleted(t) then 1 else 0, 0)
  }

  /** What the list page's order means: uncompleted todos first, completed
      ones by completion time, and ties on completion by creation time. */
  lemma ListOrderMeaning(r: seq<Todo>)
    requires SortedBy(r, ByKey(ListKey))
    ensures forall i, j :: 0 <= i < j < |r| && IsCompleted(r[i]) ==>
      IsCompleted(r[j]) && r[i].completedAt.value <= r[j].completedAt.value
    ensures forall i, j :: 0 <= i < j < |r| && r[i].completedAt == r[j].completedAt ==>
      r[i].createdAt <= r[j].createdAt
  {
    forall i, j | 0 <= i < j < |r|
      ensures IsCompleted(r[i]) ==> IsCompleted(r[j]) && r[i].completedAt.value <= r[j].completedAt.value
      ensures r[i].completedAt == r[j].completedAt ==> r[i].createdAt <= r[j].createdAt
    {
      assert ByKey(ListKey)(r[i], r[j]);
      assert KeyLeq(ListKey(r[i]), ListKey(r[j]));
    }
  }

  /** What the todo index's order means: newest first, and among todos
      created at the same instant the uncompleted ones first. */
  lemma IndexOrderMeaning(r: seq<Todo>)
    requires SortedBy(r, ByKey(IndexKey))
    ensures forall i, j :: 0 <= i < j < |r| ==> r[i].createdAt >= r[j].createdAt
    ensures forall i, j :: 0 <= i < j < |r| && r[i].createdAt == r[j].createdAt && IsCompleted(r[i]) ==>
      IsCompleted(r[j])
  {
    forall i, j | 0 <= i < j < |r|
      ensures r[i].createdAt >= r[j].createdAt
      ensures r[i].createdAt == r[j].createdAt && IsCompleted(r[i]) ==> IsCompleted(r[j])
    {
      assert ByKey(IndexKey)(r[i], r[j]);
      assert KeyLeq(IndexKey(r[i]), IndexKey(r[j]));
    }
  }

  /** The creation dates of some todos. */
  function CreationDates(ts: seq<Todo>): (r: seq<Day>)
    ensures forall d :: d in r <==> exists t :: t in ts && DateOf(t.createdAt) == d
  {
    var r := Map(ts, (t: Todo) => DateOf(t.createdAt));
    assert forall d :: d in r ==> exists t :: t in ts && DateOf(t.createdAt) == d by {
      forall d | d in r ensures exists t :: t in ts && DateOf(t.createdAt) == d {
        var i :| 0 <= i < |r| && r[i] == d;
        assert ts[i] in ts;
      }
    }
    assert forall t :: t in ts ==> DateOf(t.createdAt) in r by {
      forall t | t in ts ensures DateOf(t.createdAt) in r {
        var i :| 0 <= i < |ts| && ts[i] == t;
        assert r[i] == DateOf(t.createdAt);
      }
    }
    r
  }
}
