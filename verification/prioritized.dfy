/**
 * The prioritized set of InMemoryTaskManager: a TreeSet ordered by
 * Comparator.comparing(Task::getStartTime). Two elements with the same start
 * time are the same element to it, so it is modelled as a map from the start
 * time an element was inserted under to the element.
 */
module Prioritized {
  import opened Wrappers
  import opened Exceptions
  import opened Schedule
  import opened Model

  type Index = map<int, Ref>

  /** TreeSet.add: an element whose start equals an element's already there is not added. */
  function IndexAdd(index: Index, start: int, r: Ref): (result: Index)
    ensures result.Keys == index.Keys + {start}
    ensures start in index ==> result == index
    ensures start !in index ==> result[start] == r && forall k :: k in index ==> result[k] == index[k]
  {
    if start in index then index else index[start := r]
  }

  /** `if (task.getStartTime() != null) prioritizedTaskSet.add(task)` */
  function AddIfTimed(index: Index, r: Ref): Index
    reads r.Obj()
  {
    if r.StartTime().Some? then IndexAdd(index, r.StartTime().value, r) else index
  }

  /** The set after createNewSubtask has filed each subtask of the list in turn. */
  function AddEachTimed(index: Index, list: seq<Subtask>): Index {
    if list == [] then index
    else
      var s := list[|list| - 1];
      var before := AddEachTimed(index, list[..|list| - 1]);
      if s.startTime.Some? then IndexAdd(before, s.startTime.value, SubtaskRef(s)) else before
  }

  /**
   * Filing a list never replaces an element already in the set; every new
   * element is one of the subtasks, under its start, so an epic never enters
   * the set this way; and every timed subtask's start is taken.
   */
  lemma {:induction false} AddEachTimedContents(index: Index, list: seq<Subtask>)
    ensures var r := AddEachTimed(index, list);
            (forall k :: k in index ==> k in r && r[k] == index[k]) &&
            (forall k :: k in r && k !in index ==>
               exists j :: 0 <= j < |list| && list[j].startTime == Some(k) && r[k] == SubtaskRef(list[j])) &&
            (forall j :: 0 <= j < |list| && list[j].startTime.Some? ==> list[j].startTime.value in r) &&
            ((forall j :: 0 <= j < |list| ==> list[j].startTime.None?) ==> r == index)
  {
    if list != [] {
      var init := list[..|list| - 1];
      AddEachTimedContents(index, init);
      assert forall j :: 0 <= j < |init| ==> init[j] == list[j];
    }
  }

  /** One more createNewSubtask extends the fold by one subtask. */
  lemma AddEachTimedStep(index: Index, list: seq<Subtask>, i: int)
    requires 0 <= i < |list|
    ensures AddEachTimed(index, list[..i + 1]) == AddIfTimed(AddEachTimed(index, list[..i]), SubtaskRef(list[i]))
  {
    assert list[..i + 1][..i] == list[..i];
  }

  /**
   * TreeSet.remove: drops the element with the same start. The comparator
   * dereferences a null start, which throws NullPointerException as soon as
   * the set has an element to compare with.
   */
  function IndexRemove(index: Index, start: Option<int>): (r: Result<Index, Exception>)
    ensures r.Failure? <==> start.None? && index != map[]
    ensures r.Failure? ==> r.error == NullPointer
    ensures r.Success? && start.Some? ==> r.value == index - {start.value}
    ensures r.Success? && start.None? ==> r.value == index
  {
    match start
    case None => if index == map[] then Success(index) else Failure(NullPointer)
    case Some(s) => Success(index - {s})
  }

  /** The set after removing elements with these starts in order, and whether no removal threw. */
  datatype SetRemoval = SetRemoval(index: Index, completed: bool)

  function RemoveEach(index: Index, starts: seq<Option<int>>): (r: SetRemoval)
    ensures r.index.Keys <= index.Keys
    ensures r.completed && (forall i :: 0 <= i < |starts| ==> starts[i].Some?) ==>
              r.index == Drop(index, set i | 0 <= i < |starts| :: starts[i].value)
    ensures index == map[] ==> r == SetRemoval(map[], true)
    ensures (forall i :: 0 <= i < |starts| ==> starts[i].Some?) ==> r.completed
  {
    if starts == [] then SetRemoval(index, true)
    else
      var before := RemoveEach(index, starts[..|starts| - 1]);
      if !before.completed then before
      else
        match IndexRemove(before.index, starts[|starts| - 1])
        case Failure(_) => SetRemoval(before.index, false)
        case Success(after) =>
          assert forall i :: 0 <= i < |starts| - 1 ==> starts[..|starts| - 1][i] == starts[i];
          SetRemoval(after, true)
  }

  /** Once a removal has thrown, the removals after it do not happen. */
  lemma {:induction false} RemoveEachStops(index: Index, starts: seq<Option<int>>, n: int)
    requires 0 <= n <= |starts| && !RemoveEach(index, starts[..n]).completed
    ensures RemoveEach(index, starts) == RemoveEach(index, starts[..n])
  {
    if n < |starts| {
      assert starts[..|starts| - 1][..n] == starts[..n];
      RemoveEachStops(index, starts[..|starts| - 1], n);
    } else {
      assert starts[..n] == starts;
    }
  }

  /** The map without the given keys. */
  function Drop<V>(m: map<int, V>, keys: set<int>): (r: map<int, V>)
    ensures r.Keys == m.Keys - keys && forall k :: k in r ==> r[k] == m[k]
  {
    map k | k in m && k !in keys :: m[k]
  }

  /** Dropping one more key is removing it from what is left. */
  lemma DropStep<V>(m: map<int, V>, keys: set<int>, k: int)
    ensures Drop(m, keys + {k}) == Drop(m, keys) - {k}
  {
    assert Drop(m, keys + {k}).Keys == (Drop(m, keys) - {k}).Keys;
  }

  function Objects(index: Index): set<object> {
    set k | k in index :: index[k].Obj()
  }

  /** getPrioritizedTasks().stream().anyMatch(other -> other.isIntersect(task)) for a task with this window. */
  predicate Overlaps(index: Index, w: Window)
    reads Objects(index)
  {
    exists k :: k in index && IsIntersect(index[k].TimeWindow(), w)
  }

  /** hasIntersect: an epic overlaps when one of its subtasks does; any other task is tested itself. */
  predicate HasIntersect(index: Index, r: Ref): (b: bool)
    reads Objects(index), r.Obj()
    ensures index == map[] ==> !b
  {
    match r
    case EpicRef(e) => exists i :: 0 <= i < |e.subtasks| && Overlaps(index, e.subtasks[i].TimeSpan().TimeWindow())
    case _ => Overlaps(index, r.TimeWindow())
  }

  /** Nothing overlaps with an empty set, and a task without start or duration overlaps nothing. */
  lemma NoIntersectWhenEmptyOrUntimed(index: Index, t: Task)
    requires index == map[] || !t.TimeSpan().Timed()
    ensures !HasIntersect(index, TaskRef(t))
  {
    if index != map[] {
      forall k | k in index ensures !IsIntersect(index[k].TimeWindow(), t.TimeSpan().TimeWindow()) {
        UntimedNeverIntersects(t.TimeSpan(), index[k].TimeWindow());
      }
    }
  }

  /** The result of updatePrioritizedTaskSet: whether the update may go ahead, and the set after it. */
  datatype IndexUpdate = IndexUpdate(accepted: bool, index: Index)

  /**
   * updatePrioritizedTaskSet: the stored version (from tasks, else from
   * subtasks) is taken out when it has a start; if the updated task then
   * overlaps an element, the stored version is put back and the update is
   * refused. Otherwise the updated task goes in when it has a start.
   */
  function UpdatedIndex(index: Index, stored: Option<Ref>, updated: Ref): (r: IndexUpdate)
    reads Objects(index), updated.Obj(), if stored.Some? then {stored.value.Obj()} else {}
    ensures !r.accepted ==>
              stored.Some? && stored.value.StartTime().Some? &&
              HasIntersect(index - {stored.value.StartTime().value}, updated)
    ensures stored.None? || stored.value.StartTime().None? ==> r == IndexUpdate(true, AddIfTimed(index, updated))
    ensures stored.Some? && stored.value.StartTime().Some? ==>
              var start := stored.value.StartTime().value;
              (r.accepted <==> !HasIntersect(index - {start}, updated)) &&
              r.index == if r.accepted then AddIfTimed(index - {start}, updated) else (index - {start})[start := stored.value]
  {
    if stored.Some? && stored.value.StartTime().Some? then
      var start := stored.value.StartTime().value;
      var removed := index - {start};
      assert Objects(removed) <= Objects(index);
      if HasIntersect(removed, updated) then IndexUpdate(false, removed[start := stored.value])
      else IndexUpdate(true, AddIfTimed(removed, updated))
    else IndexUpdate(true, AddIfTimed(index, updated))
  }

  /** A refused update leaves the set as it was when the stored version was the element under its start. */
  lemma RefusedUpdateRestoresIndex(index: Index, stored: Ref, updated: Ref)
    requires stored.StartTime().Some? && stored.StartTime().value in index
    requires index[stored.StartTime().value] == stored
    ensures !UpdatedIndex(index, Some(stored), updated).accepted ==> UpdatedIndex(index, Some(stored), updated).index == index
  {
  }

  /**
   * An accepted update of a timed stored version by a timed task whose start
   * no other element holds files the updated task under its start and drops
   * the stored version's start, leaving every other element in place.
   */
  lemma AcceptedUpdateReplacesEntry(index: Index, stored: Ref, updated: Ref)
    requires stored.StartTime().Some? && updated.StartTime().Some?
    requires updated.StartTime().value !in index - {stored.StartTime().value}
    ensures var r := UpdatedIndex(index, Some(stored), updated);
            r.accepted ==>
              r.index == (index - {stored.StartTime().value})[updated.StartTime().value := updated]
  {
  }

  /**
   * The overlap test is skipped when the stored version has no start time:
   * the update is accepted even if the updated task overlaps an element.
   */
  lemma UntimedStoredSkipsOverlapCheck(index: Index, stored: Ref, updated: Ref)
    requires stored.StartTime().None?
    ensures UpdatedIndex(index, Some(stored), updated).accepted
  {
  }
}
