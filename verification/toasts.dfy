/** The front end's toast queue: at most three toasts on screen, the oldest
    evicted first, each toast with an optional auto-dismiss timer. Timers
    are the map from toast id to the delay they were started with; ids come
    from the caller (the random id generator is a parameter). */
module Toasts {
  import opened Wrappers
  import opened Text

  datatype ToastType = Success | Error | Warning | Info

  datatype Toast = Toast(id: string, kind: ToastType, title: string, description: Option<string>, duration: int)

  datatype ToastState = ToastState(toasts: seq<Toast>, timers: map<string, int>)

  /** What a caller passes to `addToast`; `None` for an omitted duration. */
  datatype Request = Request(kind: ToastType, title: string, description: Option<string>, duration: Option<int>)

  const MaxToasts := 3
  const DefaultDuration := 5000

  predicate HasId(ts: seq<Toast>, id: string)
  {
    exists i :: 0 <= i < |ts| && ts[i].id == id
  }

  predicate DistinctIds(ts: seq<Toast>)
  {
    forall i, j :: 0 <= i < j < |ts| ==> ts[i].id != ts[j].id
  }

  /** `findIndex`: the first position holding the id. */
  function FindIndex(ts: seq<Toast>, id: string): (r: Option<nat>)
    ensures r.None? <==> !HasId(ts, id)
    ensures r.Some? ==> r.value < |ts| && ts[r.value].id == id
    ensures r.Some? ==> forall j :: 0 <= j < r.value ==> ts[j].id != id
    decreases |ts|
  {
    if |ts| == 0 then None
    else if ts[0].id == id then Some(0)
    else
      match FindIndex(ts[1..], id)
      case None => None
      case Some(i) => Some(i + 1)
  }

  /** `removeToast`: the first toast with the id leaves the queue (nothing
      happens when there is none) and its timer, if any, is cleared. */
  function RemoveToast(st: ToastState, id: string): (r: ToastState)
    ensures r.timers == st.timers - {id}
    ensures !HasId(st.toasts, id) ==> r.toasts == st.toasts
    ensures HasId(st.toasts, id) ==> |r.toasts| == |st.toasts| - 1
    ensures HasId(st.toasts, id) ==> exists i ::
      && 0 <= i < |st.toasts| && st.toasts[i].id == id
      && (forall j :: 0 <= j < i ==> st.toasts[j].id != id)
      && r.toasts == st.toasts[..i] + st.toasts[i + 1..]
  {
    var ts := match FindIndex(st.toasts, id)
      case None => st.toasts
      case Some(i) => st.toasts[..i] + st.toasts[i + 1..];
    ToastState(ts, st.timers - {id})
  }

  /** Positions after dropping index `i`. */
  lemma DropAt(ts: seq<Toast>, i: nat)
    requires i < |ts|
    ensures var r := ts[..i] + ts[i + 1..];
      && |r| == |ts| - 1
      && (forall k :: 0 <= k < i ==> r[k] == ts[k])
      && (forall k :: i <= k < |r| ==> r[k] == ts[k + 1])
  {
  }

  /** With distinct ids, removal keeps every other toast, in order, and drops
      the id entirely. */
  lemma RemoveKeepsOthers(st: ToastState, id: string)
    requires DistinctIds(st.toasts)
    ensures var r := RemoveToast(st, id);
      forall t :: t in r.toasts <==> t in st.toasts && t.id != id
  {
    var r := RemoveToast(st, id);
    match FindIndex(st.toasts, id)
    case None =>
    case Some(i) =>
      var ts := st.toasts;
      DropAt(ts, i);
      forall t | t in ts && t.id != id ensures t in r.toasts {
        var k :| 0 <= k < |ts| && ts[k] == t;
        if k < i { assert r.toasts[k] == t; } else { assert r.toasts[k - 1] == t; }
      }
      forall t | t in r.toasts ensures t in ts && t.id != id {
        var k :| 0 <= k < |r.toasts| && r.toasts[k] == t;
        if k < i { assert ts[k] == t; } else { assert ts[k + 1] == t; }
      }
  }

  /** Removal keeps the ids distinct. */
  lemma RemoveKeepsDistinct(st: ToastState, id: string)
    requires DistinctIds(st.toasts)
    ensures DistinctIds(RemoveToast(st, id).toasts)
  {
    var r := RemoveToast(st, id);
    match FindIndex(st.toasts, id)
    case None =>
    case Some(i) =>
      var ts := st.toasts;
      DropAt(ts, i);
      forall a, b | 0 <= a < b < |r.toasts| ensures r.toasts[a].id != r.toasts[b].id {
        var a' := if a < i then a else a + 1;
        var b' := if b < i then b else b + 1;
        assert r.toasts[a] == ts[a'] && r.toasts[b] == ts[b'];
      }
  }

  /** The toast `addToast` builds: the caller's fields, 5000 ms unless the
      caller gave a duration. */
  function Build(id: string, q: Request): (t: Toast)
    ensures t.id == id && t.kind == q.kind && t.title == q.title && t.description == q.description
    ensures q.duration.Some? ==> t.duration == q.duration.value
    ensures q.duration.None? ==> t.duration == DefaultDuration
  {
    Toast(id, q.kind, q.title, q.description, q.duration.GetOr(DefaultDuration))
  }

  /** `addToast` with `id` as the generated id: push, evict the oldest toast
      when there are more than three, then start a timer when the duration is
      positive. Returns the new state and the id. */
  function AddToast(st: ToastState, id: string, q: Request): (r: (ToastState, string))
    ensures r.1 == id
    ensures var ts := r.0.toasts;
      && |ts| > 0 && ts[|ts| - 1] == Build(id, q)
      && (|st.toasts| < MaxToasts ==> ts == st.toasts + [Build(id, q)])
      && (|st.toasts| >= MaxToasts ==> ts == st.toasts[1..] + [Build(id, q)])
    ensures |st.toasts| <= MaxToasts ==> |r.0.toasts| <= MaxToasts
    ensures var evicted := if |st.toasts| >= MaxToasts then st.timers - {st.toasts[0].id} else st.timers;
      && (Build(id, q).duration > 0 ==> r.0.timers == evicted[id := Build(id, q).duration])
      && (Build(id, q).duration <= 0 ==> r.0.timers == evicted)
  {
    var t := Build(id, q);
    var pushed := st.(toasts := st.toasts + [t]);
    var trimmed := if |pushed.toasts| > MaxToasts then RemoveToast(pushed, pushed.toasts[0].id) else pushed;
    assert |pushed.toasts| > MaxToasts ==> FindIndex(pushed.toasts, pushed.toasts[0].id) == Some(0);
    var timed := if t.duration > 0 then trimmed.(timers := trimmed.timers[id := t.duration]) else trimmed;
    (timed, id)
  }

  /** Adding a toast with a fresh id to a queue with room and then removing
      it restores the queue; the timers lose only that id. */
  lemma AddThenRemove(st: ToastState, id: string, q: Request)
    requires !HasId(st.toasts, id) && |st.toasts| < MaxToasts
    ensures var r := RemoveToast(AddToast(st, id, q).0, id);
      r.toasts == st.toasts && r.timers == st.timers - {id}
  {
    var a := AddToast(st, id, q).0;
    assert FindIndex(a.toasts, id) == Some(|st.toasts|) by {
      assert a.toasts[|st.toasts|].id == id;
      assert forall j :: 0 <= j < |st.toasts| ==> a.toasts[j] == st.toasts[j];
    }
    assert a.toasts[..|st.toasts|] == st.toasts;
  }

  /** Adding to a queue with distinct ids, with an id none of them has,
      keeps the ids distinct. */
  lemma AddKeepsDistinct(st: ToastState, id: string, q: Request)
    requires DistinctIds(st.toasts) && !HasId(st.toasts, id)
    ensures DistinctIds(AddToast(st, id, q).0.toasts)
  {
    var ts := AddToast(st, id, q).0.toasts;
    var last := |ts| - 1;
    if |st.toasts| >= MaxToasts {
      forall i, j | 0 <= i < j < |ts| ensures ts[i].id != ts[j].id {
        if j < last {
          assert ts[i] == st.toasts[i + 1] && ts[j] == st.toasts[j + 1];
        } else {
          assert ts[i] == st.toasts[i + 1];
        }
      }
    } else {
      forall i, j | 0 <= i < j < |ts| ensures ts[i].id != ts[j].id {
        if j < last {
          assert ts[i] == st.toasts[i] && ts[j] == st.toasts[j];
        } else {
          assert ts[i] == st.toasts[i];
        }
      }
    }
  }

  /** `pauseToast`: only the id's timer is cleared. */
  function PauseToast(st: ToastState, id: string): (r: ToastState)
    ensures r.toasts == st.toasts
    ensures id !in r.timers
    ensures forall k :: k != id ==> (k in r.timers <==> k in st.timers)
    ensures forall k :: k in r.timers ==> r.timers[k] == st.timers[k]
  {
    st.(timers := st.timers - {id})
  }

  /** `resumeToast`: a timer for the id, 5000 ms unless given. */
  function ResumeToast(st: ToastState, id: string, duration: Option<int>): (r: ToastState)
    ensures r.toasts == st.toasts
    ensures id in r.timers && r.timers[id] == duration.GetOr(DefaultDuration)
    ensures forall k :: k != id ==> (k in r.timers <==> k in st.timers)
    ensures forall k :: k in r.timers && k != id ==> r.timers[k] == st.timers[k]
  {
    st.(timers := st.timers[id := duration.GetOr(DefaultDuration)])
  }

  /** Pausing then resuming with the original delay gives back the state. */
  lemma PauseResume(st: ToastState, id: string)
    requires id in st.timers
    ensures ResumeToast(PauseToast(st, id), id, Some(st.timers[id])) == st
  {
    assert (st.timers - {id})[id := st.timers[id]] == st.timers;
  }

  /** `clearAllToasts`. */
  function ClearAll(st: ToastState): (r: ToastState)
    ensures |r.toasts| == 0 && |r.timers| == 0
  {
    ToastState([], map[])
  }

  /** After clearing, the next toast is the only one, and removing any id
      changes nothing. */
  lemma ClearThenAdd(st: ToastState, id: string, q: Request)
    ensures AddToast(ClearAll(st), id, q).0.toasts == [Build(id, q)]
    ensures RemoveToast(ClearAll(st), id) == ClearAll(st)
  {
  }

  /** `success`, `error`, `warning` and `info`: a toast of that type, 5000 ms
      unless the caller gives a duration. */
  function Notify(st: ToastState, id: string, kind: ToastType, title: string, description: Option<string>,
                  duration: Option<int>): (r: (ToastState, string))
    ensures |r.0.toasts| > 0
    ensures var t := r.0.toasts[|r.0.toasts| - 1];
      && r.1 == id && t.id == id && t.kind == kind && t.title == title && t.description == description
      && t.duration == duration.GetOr(DefaultDuration)
  {
    AddToast(st, id, Request(kind, title, description, Some(duration.GetOr(DefaultDuration))))
  }

  /** `todoCompleted`: a success toast naming the todo. */
  function TodoCompleted(st: ToastState, id: string, todoTitle: string): (r: (ToastState, string))
    ensures |r.0.toasts| > 0
    ensures var t := r.0.toasts[|r.0.toasts| - 1];
      && t.kind == Success && t.title == "Todo completed!"
      && t.description == Some("\"" + todoTitle + "\" has been marked as complete.")
  {
    Notify(st, id, Success, "Todo completed!", Some("\"" + todoTitle + "\" has been marked as complete."), None)
  }

  /** `todoIncomplete`: a warning toast naming the todo. */
  function TodoIncomplete(st: ToastState, id: string, todoTitle: string): (r: (ToastState, string))
    ensures |r.0.toasts| > 0
    ensures var t := r.0.toasts[|r.0.toasts| - 1];
      && t.kind == Warning && t.title == "Todo marked incomplete"
      && t.description == Some("\"" + todoTitle + "\" has been marked as incomplete.")
  {
    Notify(st, id, Warning, "Todo marked incomplete", Some("\"" + todoTitle + "\" has been marked as incomplete."), None)
  }

  /** `todoError`: an error toast naming the action, `update` unless given. */
  function TodoError(st: ToastState, id: string, todoTitle: string, action: Option<string>): (r: (ToastState, string))
    ensures |r.0.toasts| > 0
    ensures var t := r.0.toasts[|r.0.toasts| - 1];
      && t.kind == Error && t.title == "Failed to " + action.GetOr("update") + " todo"
      && t.description == Some("Could not " + action.GetOr("update") + " \"" + todoTitle + "\". Please try again.")
  {
    var a := action.GetOr("update");
    Notify(st, id, Error, "Failed to " + a + " todo", Some("Could not " + a + " \"" + todoTitle + "\". Please try again."), None)
  }

  /** "todo" or "todos" after a count. */
  function TodoNoun(count: int): string
  {
    "todo" + (if count == 1 then "" else "s")
  }

  function BulkCompletedTitle(count: int): string
  {
    IntToString(count) + " " + TodoNoun(count) + " completed!"
  }

  function BulkIncompleteTitle(count: int): string
  {
    IntToString(count) + " " + TodoNoun(count) + " marked incomplete"
  }

  /** The bulk titles are singular exactly for a count of one. */
  lemma BulkCompletedSingular(count: int)
    ensures BulkCompletedTitle(count) == IntToString(count) + " todo completed!" <==> count == 1
  {
    if count != 1 {
      assert |TodoNoun(count)| == 5;
      assert |BulkCompletedTitle(count)| != |IntToString(count) + " todo completed!"|;
    }
  }

  lemma BulkIncompleteSingular(count: int)
    ensures BulkIncompleteTitle(count) == IntToString(count) + " todo marked incomplete" <==> count == 1
  {
    if count != 1 {
      assert |TodoNoun(count)| == 5;
      assert |BulkIncompleteTitle(count)| != |IntToString(count) + " todo marked incomplete"|;
    }
  }

  /** `bulkTodosCompleted`: a success toast counting the todos. */
  function BulkCompleted(st: ToastState, id: string, count: int): (r: (ToastState, string))
    ensures |r.0.toasts| > 0
    ensures var t := r.0.toasts[|r.0.toasts| - 1];
      && t.kind == Success && t.title == BulkCompletedTitle(count)
      && t.description == Some("Successfully marked " + IntToString(count) + " " + TodoNoun(count) + " as complete.")
  {
    Notify(st, id, Success, BulkCompletedTitle(count),
      Some("Successfully marked " + IntToString(count) + " " + TodoNoun(count) + " as complete."), None)
  }

  /** `bulkTodosIncomplete`: a warning toast counting the todos. */
  function BulkIncomplete(st: ToastState, id: string, count: int): (r: (ToastState, string))
    ensures |r.0.toasts| > 0
    ensures var t := r.0.toasts[|r.0.toasts| - 1];
      && t.kind == Warning && t.title == BulkIncompleteTitle(count)
      && t.description == Some("Successfully marked " + IntToString(count) + " " + TodoNoun(count) + " as incomplete.")
  {
    Notify(st, id, Warning, BulkIncompleteTitle(count),
      Some("Successfully marked " + IntToString(count) + " " + TodoNoun(count) + " as incomplete."), None)
  }
}
