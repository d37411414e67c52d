/**
 * Browsing history. `InMemoryHistoryManager` is the bounded list kept by
 * src/service/InMemoryHistoryManager.java: it appends every viewed task
 * (null included), drops the oldest entry beyond ten, and hands out its own
 * list object. `HistoryLog` is the history the task manager talks to through
 * the HistoryManager interface, following the behaviour its tests ask for:
 * one entry per id, the latest view last, removal by id, null ignored.
 */
module History {
  import opened Wrappers
  import opened Model

  /** InMemoryHistoryManager.HISTORY_LIST_SIZE */
  const HistoryListSize := 10

  /** The ArrayList object the bounded history owns and getHistory returns. */
  class HistoryList {
    var items: seq<Option<Ref>>

    constructor ()
      ensures items == []
    {
      items := [];
    }
  }

  /** The list after one addTask: the task is appended and, past the bound, the oldest entry dropped. */
  function Recorded(items: seq<Option<Ref>>, task: Option<Ref>): (r: seq<Option<Ref>>)
    ensures |items| <= HistoryListSize ==> |r| <= HistoryListSize
    ensures |r| > 0 && r[|r| - 1] == task
    ensures |items| < HistoryListSize ==> r == items + [task]
  {
    var added := items + [task];
    if |added| > HistoryListSize then added[1..] else added
  }

  /** The list after addTask for each task in order. */
  function RecordedAll(items: seq<Option<Ref>>, tasks: seq<Option<Ref>>): seq<Option<Ref>>
  {
    if tasks == [] then items else Recorded(RecordedAll(items, tasks[..|tasks| - 1]), tasks[|tasks| - 1])
  }

  /** The last n entries of s (all of s when it is shorter). */
  function Latest<T>(s: seq<T>, n: nat): seq<T>
  {
    if |s| <= n then s else s[|s| - n..]
  }

  class InMemoryHistoryManager {
    const history: HistoryList

    constructor ()
      ensures fresh(history) && history.items == []
    {
      history := new HistoryList();
    }

    /** addTask: appends the task and removes the first entry once the list holds more than ten. */
    method AddTask(task: Option<Ref>)
      modifies history
      ensures history.items == Recorded(old(history.items), task)
      ensures old(|history.items|) <= HistoryListSize ==> |history.items| <= HistoryListSize
    {
      history.items := history.items + [task];
      if |history.items| > HistoryListSize {
        history.items := history.items[1..];
      }
    }

    /** getHistory: the manager's own list, so a caller that changes it changes the history. */
    method GetHistory() returns (list: HistoryList)
      ensures list == history && list.items == history.items
    {
      return history;
    }
  }

  /**
   * Starting from at most ten entries, any sequence of addTask calls leaves
   * exactly the ten most recent entries, oldest first.
   */
  lemma {:induction false} KeepsMostRecent(items: seq<Option<Ref>>, tasks: seq<Option<Ref>>)
    requires |items| <= HistoryListSize
    ensures RecordedAll(items, tasks) == Latest(items + tasks, HistoryListSize)
  {
    if tasks != [] {
      var init := tasks[..|tasks| - 1];
      var last := tasks[|tasks| - 1];
      KeepsMostRecent(items, init);
      assert items + tasks == (items + init) + [last];
      var prev := Latest(items + init, HistoryListSize);
      var all := items + tasks;
      if |items + init| < HistoryListSize {
        assert Latest(all, HistoryListSize) == all;
      } else {
        assert Latest(all, HistoryListSize) == (prev + [last])[1..];
      }
    }
  }

  /** One view followed by ten views of the same task leaves ten copies of that task. */
  lemma OverflowKeepsTenLatest(first: Ref, task: Ref)
    ensures RecordedAll([Some(first)], seq(HistoryListSize, _ => Some(task))) == seq(HistoryListSize, _ => Some(task))
  {
    var tasks := seq(HistoryListSize, _ => Some(task));
    KeepsMostRecent([Some(first)], tasks);
    assert Latest([Some(first)] + tasks, HistoryListSize) == tasks;
  }

  /** One entry of the deduplicated history: the id the task had when viewed, and the task. */
  datatype View = View(id: int, task: Ref)

  /** The entries whose id is not in ids, in their order. */
  function Without(views: seq<View>, ids: set<int>): (r: seq<View>)
    ensures |r| <= |views|
    ensures forall i :: 0 <= i < |r| ==> r[i] in views && r[i].id !in ids
    ensures forall i :: 0 <= i < |views| && views[i].id !in ids ==> views[i] in r
  {
    if views == [] then []
    else
      var rest := Without(views[..|views| - 1], ids);
      var last := views[|views| - 1];
      if last.id in ids then rest else rest + [last]
  }

  /** No two entries share an id. */
  predicate UniqueIds(views: seq<View>) {
    forall i, j :: 0 <= i < j < |views| ==> views[i].id != views[j].id
  }

  function Tasks(views: seq<View>): (r: seq<Ref>)
    ensures |r| == |views| && forall i :: 0 <= i < |views| ==> r[i] == views[i].task
  {
    if views == [] then [] else Tasks(views[..|views| - 1]) + [views[|views| - 1].task]
  }

  class HistoryLog {
    var views: seq<View>

    constructor ()
      ensures views == []
    {
      views := [];
    }

    /**
     * addTask: a null task is ignored; otherwise any earlier entry with the
     * task's id is dropped and the task becomes the latest entry.
     */
    method AddTask(task: Option<Ref>)
      modifies this
      ensures task.None? ==> views == old(views)
      ensures task.Some? ==> views == Without(old(views), {task.value.Id()}) + [View(task.value.Id(), task.value)]
      ensures old(UniqueIds(views)) ==> UniqueIds(views)
    {
      if task.Some? {
        var id := task.value.Id();
        WithoutKeepsUnique(views, {id});
        views := Without(views, {id}) + [View(id, task.value)];
        assert forall i :: 0 <= i < |views| - 1 ==> views[i] in Without(old(views), {id});
      }
    }

    /** remove(id): drops the entry with that id, if there is one. */
    method Remove(id: int)
      modifies this
      ensures views == Without(old(views), {id})
      ensures old(UniqueIds(views)) ==> UniqueIds(views)
    {
      WithoutKeepsUnique(views, {id});
      views := Without(views, {id});
    }

    /** getHistory: a new list of the viewed tasks, oldest first. */
    method GetHistory() returns (r: seq<Ref>)
      ensures |r| == |views|
      ensures forall i :: 0 <= i < |r| ==> r[i] == views[i].task
    {
      r := Tasks(views);
    }
  }

  /** Dropping entries keeps the ids unique. */
  lemma {:induction false} WithoutKeepsUnique(views: seq<View>, ids: set<int>)
    ensures UniqueIds(views) ==> UniqueIds(Without(views, ids))
  {
    if views != [] && UniqueIds(views) {
      var init := views[..|views| - 1];
      var last := views[|views| - 1];
      assert UniqueIds(init);
      WithoutKeepsUnique(init, ids);
      assert forall v :: v in init ==> v.id != last.id by {
        forall v | v in init ensures v.id != last.id {
          var i :| 0 <= i < |init| && init[i] == v;
        }
      }
    }
  }

  /** Removing no id changes nothing. */
  lemma {:induction false} WithoutNothing(views: seq<View>)
    ensures Without(views, {}) == views
  {
    if views != [] {
      WithoutNothing(views[..|views| - 1]);
    }
  }

  /** Removing one id after another is removing both. */
  lemma {:induction false} WithoutTwice(views: seq<View>, a: set<int>, b: set<int>)
    ensures Without(Without(views, a), b) == Without(views, a + b)
  {
    if views != [] {
      WithoutTwice(views[..|views| - 1], a, b);
    }
  }

  /** Viewing t, then s, then t again leaves s followed by t. */
  lemma ReviewMovesToEnd(t: View, s: View)
    requires t.id != s.id
    ensures Without(Without(Without([], {t.id}) + [t], {s.id}) + [s], {t.id}) + [t] == [s, t]
  {
    assert Without([], {t.id}) == [];
    assert Without([t], {s.id}) == [t] by {
      assert [t][..0] == [];
    }
    assert Without([t, s], {t.id}) == [s] by {
      assert [t, s][..1] == [t];
      assert [t][..0] == [];
    }
  }
}
