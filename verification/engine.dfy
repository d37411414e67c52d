/**
 * InMemoryTaskManager: tasks, epics and subtasks in three maps keyed by id,
 * one id counter shared by the three kinds, the browsing history, and the
 * prioritized set of timed tasks.
 */
module Engine {
  import opened Wrappers
  import opened Exceptions
  import opened Schedule
  import opened Model
  import opened History
  import opened Prioritized

  /**
   * The status checkEpicStatus gives an epic: NEW when it has no subtasks or
   * all are NEW, DONE when all are DONE, IN_PROGRESS otherwise.
   */
  function EpicStatus(statuses: seq<TaskStatus>): TaskStatus {
    if forall i :: 0 <= i < |statuses| ==> statuses[i] == NEW then NEW
    else if forall i :: 0 <= i < |statuses| ==> statuses[i] == DONE then DONE
    else IN_PROGRESS
  }

  /** The epic is IN_PROGRESS exactly when a subtask is, or when it has both a NEW and a DONE subtask. */
  lemma EpicStatusInProgress(statuses: seq<TaskStatus>)
    ensures EpicStatus(statuses) == IN_PROGRESS <==>
              IN_PROGRESS in statuses || (NEW in statuses && DONE in statuses)
  {
    if EpicStatus(statuses) == IN_PROGRESS && IN_PROGRESS !in statuses {
      var i :| 0 <= i < |statuses| && statuses[i] != NEW;
      var j :| 0 <= j < |statuses| && statuses[j] != DONE;
      assert statuses[i] == DONE && statuses[j] == NEW;
    }
  }

  /** The status does not depend on the order of the subtasks. */
  lemma EpicStatusIgnoresOrder(a: seq<TaskStatus>, b: seq<TaskStatus>)
    requires multiset(a) == multiset(b)
    ensures EpicStatus(a) == EpicStatus(b)
  {
    forall x: TaskStatus ensures x in a <==> x in b {
      assert x in a <==> x in multiset(a);
      assert x in b <==> x in multiset(b);
    }
    EpicStatusCases(a);
    EpicStatusCases(b);
  }

  lemma EpicStatusCases(s: seq<TaskStatus>)
    ensures EpicStatus(s) == NEW <==> IN_PROGRESS !in s && DONE !in s
    ensures EpicStatus(s) == DONE <==> IN_PROGRESS !in s && NEW !in s && |s| > 0
  {
    if IN_PROGRESS !in s && DONE !in s {
      forall i | 0 <= i < |s| ensures s[i] == NEW {
        assert s[i] in s;
      }
    }
    if IN_PROGRESS !in s && NEW !in s && |s| > 0 {
      forall i | 0 <= i < |s| ensures s[i] == DONE {
        assert s[i] in s;
      }
      assert s[0] != NEW;
    }
  }

  /**
   * The counting loop of checkEpicStatus: counts NEW and DONE subtasks,
   * stops at the first one IN_PROGRESS, and decides from the counts.
   */
  method CountStatuses(list: seq<Subtask>) returns (status: TaskStatus)
    ensures status == EpicStatus(Statuses(list))
  {
    var newCount := 0;
    var doneCount := 0;
    var i := 0;
    while i < |list|
      invariant 0 <= i <= |list|
      invariant newCount + doneCount == i
      invariant forall j :: 0 <= j < i ==> list[j].status != IN_PROGRESS
      invariant (forall j :: 0 <= j < i ==> list[j].status == NEW) <==> doneCount == 0
      invariant (forall j :: 0 <= j < i ==> list[j].status == DONE) <==> newCount == 0
    {
      if list[i].status == NEW {
        newCount := newCount + 1;
      } else if list[i].status == DONE {
        doneCount := doneCount + 1;
      } else {
        break;
      }
      i := i + 1;
    }
    if |list| == 0 || newCount == |list| {
      status := NEW;
    } else if doneCount == |list| {
      status := DONE;
    } else {
      status := IN_PROGRESS;
    }
  }

  /** new ArrayList<>(map.values()): every value once, in the map's iteration order. */
  method ValuesOf<V(==)>(m: map<int, V>) returns (values: seq<V>, ghost keys: seq<int>)
    ensures |values| == |m|
    ensures forall i :: 0 <= i < |values| ==> values[i] in m.Values
    ensures forall k :: k in m ==> m[k] in values
    ensures |values| == |keys|
    ensures forall i :: 0 <= i < |keys| ==> keys[i] in m && values[i] == m[keys[i]]
    ensures forall i, j :: 0 <= i < j < |keys| ==> keys[i] != keys[j]
    ensures forall k :: k in m ==> k in keys
  {
    var rest := m.Keys;
    values := [];
    keys := [];
    while rest != {}
      invariant rest <= m.Keys
      invariant |values| == |keys| && |keys| + |rest| == |m.Keys|
      invariant forall i :: 0 <= i < |keys| ==> keys[i] in m && keys[i] !in rest && values[i] == m[keys[i]]
      invariant forall i, j :: 0 <= i < j < |keys| ==> keys[i] != keys[j]
      invariant forall k :: k in m ==> k in rest || k in keys
      decreases rest
    {
      ghost var member := Member(rest);
      var k :| k in rest;
      values := values + [m[k]];
      keys := keys + [k];
      rest := rest - {k};
    }
    assert |m| == |m.Keys|;
    forall k | k in m
      ensures m[k] in values
    {
      var i :| 0 <= i < |keys| && keys[i] == k;
      assert values[i] == m[k];
    }
  }

  /** A witness that a non-empty set has a member, for picking one with `:|`. */
  lemma Member(s: set<int>) returns (x: int)
    requires s != {}
    ensures x in s
  {
    assert (forall y :: y !in s) ==> s == {};
    x :| x in s;
  }

  /** The start time of every value of the map, by key. */
  function TaskStarts(m: map<int, Task>): map<int, Option<int>> {
    map k | k in m :: m[k].startTime
  }

  function SubtaskStarts(m: map<int, Subtask>): map<int, Option<int>> {
    map k | k in m :: m[k].startTime
  }

  /** The starts present in the map. */
  function Present(starts: map<int, Option<int>>): set<int> {
    PresentIn(starts, starts.Keys)
  }

  /** The starts present in the map under the given keys. */
  function PresentIn(starts: map<int, Option<int>>, keys: set<int>): set<int> {
    set k | k in keys && k in starts && starts[k].Some? :: starts[k].value
  }

  lemma PresentInStep(starts: map<int, Option<int>>, keys: set<int>, k: int)
    requires k in starts
    ensures PresentIn(starts, keys + {k}) == PresentIn(starts, keys) + (if starts[k].Some? then {starts[k].value} else {})
  {
    var added := if starts[k].Some? then {starts[k].value} else {};
    forall x | x in PresentIn(starts, keys + {k}) ensures x in PresentIn(starts, keys) + added {
      var j :| j in keys + {k} && j in starts && starts[j].Some? && starts[j].value == x;
      if j != k {
        assert j in keys;
      }
    }
  }

  /** The stored version updatePrioritizedTaskSet takes out: tasks.getOrDefault(id, subtasks.get(id)). */
  function StoredVersion(tasks: map<int, Task>, subtasks: map<int, Subtask>, id: int): Option<Ref> {
    if id in tasks then Some(TaskRef(tasks[id]))
    else if id in subtasks then Some(SubtaskRef(subtasks[id]))
    else None
  }

  /** The epic kept its id, name, description and times: at most its list and status changed. */
  twostate predicate ListAndStatusOnly(e: Epic)
    reads e
  {
    e.id == old(e.id) && e.name == old(e.name) && e.description == old(e.description) && e.Times() == old(e.Times())
  }

  /** Only the status of the epic changed. */
  twostate predicate StatusOnly(e: Epic)
    reads e
  {
    ListAndStatusOnly(e) && e.subtasks == old(e.subtasks)
  }

  class InMemoryTaskManager {
    var tasks: map<int, Task>
    var epics: map<int, Epic>
    var subtasks: map<int, Subtask>
    const historyManager: HistoryLog
    var prioritizedTaskSet: Index
    var idCounter: int

    constructor ()
      ensures tasks == map[] && epics == map[] && subtasks == map[]
      ensures fresh(historyManager) && historyManager.views == []
      ensures prioritizedTaskSet == map[] && idCounter == 0
      ensures Valid()
    {
      tasks := map[];
      epics := map[];
      subtasks := map[];
      historyManager := new HistoryLog();
      prioritizedTaskSet := map[];
      idCounter := 0;
    }

    /** Every id in use is below the counter, and no id is used by two kinds. */
    ghost predicate Valid()
      reads this
    {
      0 <= idCounter &&
      (forall k :: k in tasks ==> 0 <= k < idCounter) &&
      (forall k :: k in epics ==> 0 <= k < idCounter) &&
      (forall k :: k in subtasks ==> 0 <= k < idCounter) &&
      tasks.Keys !! epics.Keys && tasks.Keys !! subtasks.Keys && epics.Keys !! subtasks.Keys
    }

    /** The id handed to the next created task is in use by no kind. */
    lemma CounterIsFresh()
      requires Valid()
      ensures idCounter !in tasks && idCounter !in epics && idCounter !in subtasks
    {
    }

    /** getAllTasks */
    method GetAllTasks() returns (r: seq<Task>, ghost keys: seq<int>)
      ensures |r| == |tasks|
      ensures forall i :: 0 <= i < |r| ==> r[i] in tasks.Values
      ensures forall k :: k in tasks ==> tasks[k] in r
      ensures |r| == |keys| && forall i :: 0 <= i < |r| ==> keys[i] in tasks && r[i] == tasks[keys[i]]
      ensures forall k :: k in tasks ==> k in keys
    {
      r, keys := ValuesOf(tasks);
    }

    /** getAllEpics */
    method GetAllEpics() returns (r: seq<Epic>, ghost keys: seq<int>)
      ensures |r| == |epics|
      ensures forall i :: 0 <= i < |r| ==> r[i] in epics.Values
      ensures forall k :: k in epics ==> epics[k] in r
      ensures |r| == |keys| && forall i :: 0 <= i < |r| ==> keys[i] in epics && r[i] == epics[keys[i]]
      ensures forall k :: k in epics ==> k in keys
    {
      r, keys := ValuesOf(epics);
    }

    /** getAllSubtasks */
    method GetAllSubtasks() returns (r: seq<Subtask>, ghost keys: seq<int>)
      ensures |r| == |subtasks|
      ensures forall i :: 0 <= i < |r| ==> r[i] in subtasks.Values
      ensures forall k :: k in subtasks ==> subtasks[k] in r
      ensures |r| == |keys| && forall i :: 0 <= i < |r| ==> keys[i] in subtasks && r[i] == subtasks[keys[i]]
      ensures forall k :: k in subtasks ==> k in keys
    {
      r, keys := ValuesOf(subtasks);
    }

    /** `keys.forEach(historyManager::remove)` */
    method RemoveFromHistory(keys: set<int>)
      modifies historyManager
      ensures historyManager.views == Without(old(historyManager.views), keys)
    {
      var rest := keys;
      assert keys - rest == {};
      WithoutNothing(historyManager.views);
      while rest != {}
        invariant rest <= keys
        invariant historyManager.views == Without(old(historyManager.views), keys - rest)
        decreases rest
      {
        ghost var member := Member(rest);
        var k :| k in rest;
        historyManager.Remove(k);
        WithoutTwice(old(historyManager.views), keys - rest, {k});
        assert keys - rest + {k} == keys - (rest - {k});
        rest := rest - {k};
      }
      assert keys - rest == keys;
    }

    /**
     * `values.forEach(prioritizedTaskSet::remove)` over the values of a map,
     * given by their starts, in an unspecified order: it completes when every
     * value has a start or the set is empty, and a value without a start
     * throws NullPointerException while the set still has elements.
     */
    method RemoveStarts(starts: map<int, Option<int>>) returns (outcome: Outcome<Exception>)
      modifies this
      ensures tasks == old(tasks) && epics == old(epics) && subtasks == old(subtasks) && idCounter == old(idCounter)
      ensures outcome.Pass? ==> prioritizedTaskSet == Drop(old(prioritizedTaskSet), Present(starts))
      ensures outcome.Fail? ==> outcome.error == NullPointer && (exists k :: k in starts && starts[k].None?) &&
                                prioritizedTaskSet.Keys <= old(prioritizedTaskSet).Keys
      ensures old(prioritizedTaskSet) == map[] || (forall k :: k in starts ==> starts[k].Some?) ==> outcome.Pass?
    {
      var rest := starts.Keys;
      ghost var done: set<int> := {};
      assert PresentIn(starts, done) == {};
      assert Drop(old(prioritizedTaskSet), {}) == old(prioritizedTaskSet);
      while rest != {}
        invariant rest <= starts.Keys && done == starts.Keys - rest
        invariant tasks == old(tasks) && epics == old(epics) && subtasks == old(subtasks) && idCounter == old(idCounter)
        invariant prioritizedTaskSet == Drop(old(prioritizedTaskSet), PresentIn(starts, done))
        decreases rest
      {
        ghost var member := Member(rest);
        var k :| k in rest;
        var removed := IndexRemove(prioritizedTaskSet, starts[k]);
        if removed.Failure? {
          return Fail(removed.error);
        }
        PresentInStep(starts, done, k);
        if starts[k].Some? {
          assert removed.value == Drop(old(prioritizedTaskSet), PresentIn(starts, done + {k}));
        } else {
          assert PresentIn(starts, done + {k}) == PresentIn(starts, done);
        }
        prioritizedTaskSet := removed.value;
        rest := rest - {k};
        done := done + {k};
      }
      assert done == starts.Keys;
      return Pass;
    }

    /** clearAllTasks: drops the tasks from the history, then from the prioritized set, then from the map. */
    method ClearAllTasks() returns (outcome: Outcome<Exception>)
      modifies this, historyManager
      ensures historyManager.views == Without(old(historyManager.views), old(tasks).Keys)
      ensures epics == old(epics) && subtasks == old(subtasks) && idCounter == old(idCounter)
      ensures outcome.Pass? ==>
                tasks == map[] && prioritizedTaskSet == Drop(old(prioritizedTaskSet), Present(TaskStarts(old(tasks))))
      ensures outcome.Fail? ==>
                outcome.error == NullPointer && tasks == old(tasks) && exists k :: k in tasks && tasks[k].startTime.None?
      ensures old(prioritizedTaskSet) == map[] || (forall k :: k in old(tasks) ==> old(tasks)[k].startTime.Some?) ==>
                outcome.Pass?
      ensures old(Valid()) ==> Valid()
    {
      RemoveFromHistory(tasks.Keys);
      outcome := RemoveStarts(TaskStarts(tasks));
      if outcome.Fail? {
        return;
      }
      tasks := map[];
    }

    /** clearAllEpics: drops epics and subtasks from the history, subtasks from the prioritized set, then both maps. */
    method ClearAllEpics() returns (outcome: Outcome<Exception>)
      modifies this, historyManager
      ensures historyManager.views == Without(old(historyManager.views), old(epics).Keys + old(subtasks).Keys)
      ensures tasks == old(tasks) && idCounter == old(idCounter)
      ensures outcome.Pass? ==>
                epics == map[] && subtasks == map[] &&
                prioritizedTaskSet == Drop(old(prioritizedTaskSet), Present(SubtaskStarts(old(subtasks))))
      ensures outcome.Fail? ==>
                outcome.error == NullPointer && epics == old(epics) && subtasks == old(subtasks) &&
                exists k :: k in subtasks && subtasks[k].startTime.None?
      ensures old(prioritizedTaskSet) == map[] || (forall k :: k in old(subtasks) ==> old(subtasks)[k].startTime.Some?) ==>
                outcome.Pass?
      ensures old(Valid()) ==> Valid()
    {
      RemoveFromHistory(epics.Keys);
      RemoveFromHistory(subtasks.Keys);
      WithoutTwice(old(historyManager.views), old(epics).Keys, old(subtasks).Keys);
      outcome := RemoveStarts(SubtaskStarts(subtasks));
      if outcome.Fail? {
        return;
      }
      epics := map[];
      subtasks := map[];
    }

    /**
     * clearAllSubtasks: drops the subtasks from the history, the prioritized
     * set and the map, then empties every stored epic's list and sets it NEW.
     */
    method ClearAllSubtasks() returns (outcome: Outcome<Exception>)
      modifies this, historyManager, epics.Values
      ensures historyManager.views == Without(old(historyManager.views), old(subtasks).Keys)
      ensures tasks == old(tasks) && epics == old(epics) && idCounter == old(idCounter)
      ensures outcome.Pass? ==>
                subtasks == map[] && prioritizedTaskSet == Drop(old(prioritizedTaskSet), Present(SubtaskStarts(old(subtasks))))
      ensures outcome.Pass? ==> forall k :: k in epics ==> epics[k].subtasks == []
      ensures outcome.Pass? ==> forall k :: k in epics && epics[k].id == k ==> epics[k].status == NEW
      ensures outcome.Fail? ==>
                outcome.error == NullPointer && subtasks == old(subtasks) &&
                (exists k :: k in subtasks && subtasks[k].startTime.None?) &&
                forall e :: e in epics.Values ==> unchanged(e)
      ensures old(prioritizedTaskSet) == map[] || (forall k :: k in old(subtasks) ==> old(subtasks)[k].startTime.Some?) ==>
                outcome.Pass?
      ensures forall e :: e in epics.Values ==> ListAndStatusOnly(e)
      ensures old(Valid()) ==> Valid()
    {
      RemoveFromHistory(subtasks.Keys);
      outcome := RemoveStarts(SubtaskStarts(subtasks));
      if outcome.Fail? {
        return;
      }
      subtasks := map[];
      ResetStoredEpics();
    }

    /** `getAllEpics().forEach(...)` in clearAllSubtasks: every stored epic ends with an empty list. */
    method ResetStoredEpics()
      modifies epics.Values
      ensures forall k :: k in epics ==> epics[k].subtasks == []
      ensures forall k :: k in epics && epics[k].id == k ==> epics[k].status == NEW
      ensures forall e :: e in epics.Values ==> ListAndStatusOnly(e)
    {
      var all, keys := GetAllEpics();
      ResetEpics(all);
      forall k | k in epics
        ensures epics[k].subtasks == [] && (epics[k].id == k ==> epics[k].status == NEW)
      {
        var j :| 0 <= j < |keys| && keys[j] == k;
        assert all[j] == epics[k];
      }
    }

    /**
     * The loop of clearAllSubtasks over the stored epics: each list is emptied
     * and checkEpicStatus(epic.getId()) recomputes the status of the epic
     * stored under that id, which is NEW once its list is empty.
     */
    method ResetEpics(all: seq<Epic>)
      requires forall j :: 0 <= j < |all| ==> all[j] in epics.Values
      modifies epics.Values
      ensures forall j :: 0 <= j < |all| ==> all[j].subtasks == []
      ensures forall j :: 0 <= j < |all| && all[j].id in epics && epics[all[j].id] == all[j] ==> all[j].status == NEW
      ensures forall e :: e in epics.Values ==> ListAndStatusOnly(e)
    {
      var i := 0;
      while i < |all|
        invariant 0 <= i <= |all|
        invariant forall j :: 0 <= j < i ==> all[j].subtasks == []
        invariant forall j :: 0 <= j < i && all[j].id in epics && epics[all[j].id] == all[j] ==> all[j].status == NEW
        invariant forall e :: e in epics.Values ==> ListAndStatusOnly(e)
      {
        var epic := all[i];
        epic.subtasks := [];
        CheckEpicStatus(epic.id);
        i := i + 1;
      }
    }

    /** getTask: the stored task, or null; either is handed to the history. */
    method GetTask(id: int) returns (task: Option<Task>)
      modifies historyManager
      ensures task == if id in tasks then Some(tasks[id]) else None
      ensures historyManager.views ==
                if id in tasks then Without(old(historyManager.views), {tasks[id].id}) + [View(tasks[id].id, TaskRef(tasks[id]))]
                else old(historyManager.views)
    {
      task := if id in tasks then Some(tasks[id]) else None;
      historyManager.AddTask(if id in tasks then Some(TaskRef(tasks[id])) else None);
    }

    /** getEpic */
    method GetEpic(id: int) returns (epic: Option<Epic>)
      modifies historyManager
      ensures epic == if id in epics then Some(epics[id]) else None
      ensures historyManager.views ==
                if id in epics then Without(old(historyManager.views), {epics[id].id}) + [View(epics[id].id, EpicRef(epics[id]))]
                else old(historyManager.views)
    {
      epic := if id in epics then Some(epics[id]) else None;
      historyManager.AddTask(if id in epics then Some(EpicRef(epics[id])) else None);
    }

    /** getSubtask */
    method GetSubtask(id: int) returns (subtask: Option<Subtask>)
      modifies historyManager
      ensures subtask == if id in subtasks then Some(subtasks[id]) else None
      ensures historyManager.views ==
                if id in subtasks then Without(old(historyManager.views), {subtasks[id].id}) + [View(subtasks[id].id, SubtaskRef(subtasks[id]))]
                else old(historyManager.views)
    {
      subtask := if id in subtasks then Some(subtasks[id]) else None;
      historyManager.AddTask(if id in subtasks then Some(SubtaskRef(subtasks[id])) else None);
    }

    /**
     * createNewTask: refused when the task overlaps an element of the
     * prioritized set; otherwise the task takes the counter as its id, is
     * stored under it, and goes into the prioritized set when it has a start.
     */
    method CreateNewTask(task: Task) returns (outcome: Outcome<Exception>)
      modifies this, task
      ensures old(HasIntersect(prioritizedTaskSet, TaskRef(task))) ==>
                outcome == Fail(ManagerCreateTask) && unchanged(this) && unchanged(task)
      ensures !old(HasIntersect(prioritizedTaskSet, TaskRef(task))) ==>
                outcome == Pass && task.Header() == old(task.Header()).(id := old(idCounter)) &&
                tasks == old(tasks)[old(idCounter) := task] && idCounter == old(idCounter) + 1 &&
                epics == old(epics) && subtasks == old(subtasks) &&
                prioritizedTaskSet == AddIfTimed(old(prioritizedTaskSet), TaskRef(task))
      ensures old(Valid()) ==> Valid()
    {
      if HasIntersect(prioritizedTaskSet, TaskRef(task)) {
        return Fail(ManagerCreateTask);
      }
      task.id := idCounter;
      tasks := tasks[idCounter := task];
      idCounter := idCounter + 1;
      if task.startTime.Some? {
        prioritizedTaskSet := IndexAdd(prioritizedTaskSet, task.startTime.value, TaskRef(task));
      }
      return Pass;
    }

    /** getAllEpics().contains(epic): a stored epic has the same id. */
    predicate EpicKnown(e: Epic)
      reads this, epics.Values, e
    {
      exists k :: k in epics && epics[k].id == e.id
    }

    /** The epic checkEpicStatus(e.getId()) finds, if there is one. */
    function StatusTarget(e: Epic?): set<Epic>
      reads this, e
    {
      if e != null && e.id in epics then {epics[e.id]} else {}
    }

    /** checkEpicStatus: the epic stored under the id, if any, gets the status of its subtasks. */
    method CheckEpicStatus(id: int)
      modifies if id in epics then {epics[id]} else {}
      ensures id in epics ==> epics[id].status == EpicStatus(Statuses(epics[id].subtasks)) && StatusOnly(epics[id])
    {
      if id !in epics {
        return;
      }
      var epic := epics[id];
      var status := CountStatuses(epic.subtasks);
      epic.status := status;
    }

    /**
     * createNewSubtask: refused when the subtask has no epic, when no stored
     * epic equals its epic, or when it overlaps an element of the prioritized
     * set. Otherwise it takes the counter as its id and is stored under it; its
     * epic adds it (with its times), the epic stored under that epic's id gets
     * its status recomputed, and a subtask with a start goes into the
     * prioritized set.
     */
    method CreateNewSubtask(subtask: Subtask) returns (outcome: Outcome<Exception>)
      modifies this, subtask, subtask.epic, StatusTarget(subtask.epic)
      ensures var e := old(subtask.epic);
              outcome.Pass? <==> e != null && old(EpicKnown(e)) && !old(HasIntersect(prioritizedTaskSet, SubtaskRef(subtask)))
      ensures var e := old(subtask.epic);
              outcome.Fail? ==>
                outcome.error == ManagerCreateTask && unchanged(this, subtask) &&
                (e != null ==> unchanged(e)) && unchanged(old(StatusTarget(subtask.epic)))
      ensures outcome.Pass? ==>
                subtasks == old(subtasks)[old(idCounter) := subtask] && idCounter == old(idCounter) + 1 &&
                tasks == old(tasks) && epics == old(epics)
      ensures outcome.Pass? ==> subtask.Header() == old(subtask.Header()).(id := old(idCounter))
      ensures outcome.Pass? ==> prioritizedTaskSet == AddIfTimed(old(prioritizedTaskSet), SubtaskRef(subtask))
      ensures var e := old(subtask.epic);
              outcome.Pass? ==> e != null && subtask.epic == e && e.subtasks == WithSubtask(old(e.subtasks), subtask)
      ensures var e := old(subtask.epic);
              outcome.Pass? ==> e != null && e.Times() == UpdatedTimes(old(e.Times()), subtask.TimeSpan())
      ensures var e := old(subtask.epic);
              outcome.Pass? ==> e != null && e.id == old(e.id) && e.name == old(e.name) && e.description == old(e.description)
      ensures var e := old(subtask.epic);
              outcome.Pass? && e != null && e.id in epics ==> epics[e.id].status == EpicStatus(Statuses(epics[e.id].subtasks))
      ensures var e := old(subtask.epic);
              outcome.Pass? && e != null && e.id in epics && epics[e.id] != e ==> StatusOnly(epics[e.id])
      ensures var e := old(subtask.epic);
              outcome.Pass? && e != null && !(e.id in epics && epics[e.id] == e) ==> e.status == old(e.status)
      ensures old(Valid()) ==> Valid()
    {
      var epic := subtask.epic;
      // getAllEpics().contains(epic) compares epics by id
      if epic == null || !EpicKnown(epic) {
        return Fail(ManagerCreateTask);
      }
      if HasIntersect(prioritizedTaskSet, SubtaskRef(subtask)) {
        return Fail(ManagerCreateTask);
      }
      FileSubtask(subtask);
      AddToEpic(epic, subtask);
      return Pass;
    }

    /**
     * The bookkeeping of createNewSubtask once its checks pass: the counter
     * becomes the subtask's id and its key, and a timed subtask enters the
     * prioritized set.
     */
    method FileSubtask(subtask: Subtask)
      modifies this, subtask
      ensures subtasks == old(subtasks)[old(idCounter) := subtask] && idCounter == old(idCounter) + 1
      ensures tasks == old(tasks) && epics == old(epics) && subtask.epic == old(subtask.epic)
      ensures subtask.Header() == old(subtask.Header()).(id := old(idCounter))
      ensures prioritizedTaskSet == AddIfTimed(old(prioritizedTaskSet), SubtaskRef(subtask))
      ensures old(Valid()) ==> Valid()
    {
      subtask.id := idCounter;
      subtasks := subtasks[idCounter := subtask];
      idCounter := idCounter + 1;
      if subtask.startTime.Some? {
        prioritizedTaskSet := IndexAdd(prioritizedTaskSet, subtask.startTime.value, SubtaskRef(subtask));
      }
    }

    /** epic.addSubtask(subtask), then checkEpicStatus(epic.getId()). */
    method AddToEpic(epic: Epic, subtask: Subtask)
      modifies epic, subtask, StatusTarget(epic)
      ensures subtask.epic == epic && subtask.Header() == old(subtask.Header())
      ensures epic.subtasks == WithSubtask(old(epic.subtasks), subtask)
      ensures epic.Times() == UpdatedTimes(old(epic.Times()), subtask.TimeSpan())
      ensures epic.id == old(epic.id) && epic.name == old(epic.name) && epic.description == old(epic.description)
      ensures epic.id in epics ==> epics[epic.id].status == EpicStatus(Statuses(epics[epic.id].subtasks))
      ensures epic.id in epics && epics[epic.id] != epic ==> StatusOnly(epics[epic.id])
      ensures !(epic.id in epics && epics[epic.id] == epic) ==> epic.status == old(epic.status)
    {
      epic.AddSubtask(subtask);
      CheckEpicStatus(epic.id);
    }

    /**
     * createNewEpic: refused when a subtask of the epic overlaps an element of
     * the prioritized set. Otherwise the epic takes the counter as its id, is
     * stored under it, and each subtask in its list is created in turn; the
     * first subtask refused stops the rest.
     */
    method CreateNewEpic(epic: Epic) returns (outcome: Outcome<Exception>, ghost heads0: seq<Fields>)
      modifies this, epic, epic.subtasks, LinkedEpics(epic.subtasks), epics.Values
      ensures old(HasIntersect(prioritizedTaskSet, EpicRef(epic))) ==>
                outcome == Fail(ManagerCreateTask) && unchanged(this, epic)
      ensures !old(HasIntersect(prioritizedTaskSet, EpicRef(epic))) ==>
                epic.id == old(idCounter) && epics == old(epics)[old(idCounter) := epic] && tasks == old(tasks) &&
                epic.subtasks == old(epic.subtasks) && idCounter >= old(idCounter) + 1 &&
                (outcome.Fail? ==> outcome.error == ManagerCreateTask)
      ensures !old(HasIntersect(prioritizedTaskSet, EpicRef(epic))) && outcome.Pass? ==>
                idCounter == old(idCounter) + 1 + |epic.subtasks| &&
                subtasks == Filed(old(subtasks), old(idCounter) + 1, epic.subtasks) &&
                prioritizedTaskSet == AddEachTimed(old(prioritizedTaskSet), epic.subtasks)
      ensures !old(HasIntersect(prioritizedTaskSet, EpicRef(epic))) && outcome.Fail? ==>
                exists n :: 0 <= n < |epic.subtasks| && idCounter == old(idCounter) + 1 + n &&
                  subtasks == Filed(old(subtasks), old(idCounter) + 1, epic.subtasks[..n]) &&
                  prioritizedTaskSet == AddEachTimed(old(prioritizedTaskSet), epic.subtasks[..n])
      ensures !old(HasIntersect(prioritizedTaskSet, EpicRef(epic))) && outcome.Pass? && old(LinkedTo(epic.subtasks, epic)) ==>
                epic.Times() == Aggregate(old(epic.Times()), Spans(epic.subtasks)) &&
                (|epic.subtasks| > 0 ==> epic.status == EpicStatus(Statuses(epic.subtasks)))
      ensures |heads0| == |epic.subtasks| && forall j :: 0 <= j < |heads0| ==> heads0[j] == old(epic.subtasks[j].Header())
      ensures !old(HasIntersect(prioritizedTaskSet, EpicRef(epic))) && outcome.Pass? ==>
                forall j :: 0 <= j < |epic.subtasks| ==>
                  epic.subtasks[j].Header() == HeaderAfter(epic.subtasks, heads0, old(idCounter) + 1, |epic.subtasks|, j)
      ensures epic.name == old(epic.name) && epic.description == old(epic.description)
      ensures |epic.subtasks| == 0 ==> epic.status == old(epic.status)
      ensures old(Valid()) ==> Valid()
    {
      if HasIntersect(prioritizedTaskSet, EpicRef(epic)) {
        return Fail(ManagerCreateTask), Headers(epic.subtasks);
      }
      StoreEpic(epic);
      assert epics.Values <= old(epics.Values) + {epic};
      assert LinkedTo(epic.subtasks, epic) == old(LinkedTo(epic.subtasks, epic));
      outcome, heads0 := CreateSubtasksOf(epic);
    }

    /** The bookkeeping of createNewEpic before its subtasks: the counter becomes the epic's id and its key. */
    method StoreEpic(epic: Epic)
      modifies this, epic
      ensures epic.id == old(idCounter) && epics == old(epics)[old(idCounter) := epic] && idCounter == old(idCounter) + 1
      ensures tasks == old(tasks) && subtasks == old(subtasks) && prioritizedTaskSet == old(prioritizedTaskSet)
      ensures epic.Header() == old(epic.Header()).(id := old(idCounter))
      ensures epic.subtasks == old(epic.subtasks) && epic.Times() == old(epic.Times())
      ensures old(Valid()) ==> Valid()
    {
      epic.id := idCounter;
      epics := epics[idCounter := epic];
      idCounter := idCounter + 1;
    }

    /**
     * The state after createNewSubtask has filed the first n subtasks of the
     * list, starting from the counter c0, the subtask map m0 and the
     * prioritized set p0.
     */
    ghost predicate FiledPrefix(list: seq<Subtask>, n: int, c0: int, m0: map<int, Subtask>, p0: Index)
      reads this
    {
      0 <= n <= |list| && idCounter == c0 + n &&
      subtasks == Filed(m0, c0, list[..n]) && prioritizedTaskSet == AddEachTimed(p0, list[..n])
    }

    /**
     * `epic.getSubtasks().forEach(this::createNewSubtask)`: the first refusal
     * stops the rest, leaving the subtasks before it filed. heads0 are the
     * headers of the listed subtasks before the loop: once every subtask is
     * filed, each keeps its status, name and description and holds the id
     * HeaderAfter gives it (IdAfterMeans says which). The epic keeps its name
     * and description, and its status when the list is empty. When every
     * subtask has the epic as its own, the epic's list stays as it is, its
     * times fold in every subtask once more, and its status is recomputed.
     */
    method CreateSubtasksOf(epic: Epic) returns (outcome: Outcome<Exception>, ghost heads0: seq<Fields>)
      modifies this, epic.subtasks, LinkedEpics(epic.subtasks), epics.Values
      ensures epic.subtasks == old(epic.subtasks) && epic.id == old(epic.id)
      ensures epics == old(epics) && tasks == old(tasks) && idCounter >= old(idCounter)
      ensures outcome.Fail? ==> outcome.error == ManagerCreateTask
      ensures outcome.Pass? ==>
                idCounter == old(idCounter) + |epic.subtasks| && subtasks == Filed(old(subtasks), old(idCounter), epic.subtasks) &&
                prioritizedTaskSet == AddEachTimed(old(prioritizedTaskSet), epic.subtasks)
      ensures outcome.Fail? ==>
                exists n :: 0 <= n < |epic.subtasks| && idCounter == old(idCounter) + n &&
                  subtasks == Filed(old(subtasks), old(idCounter), epic.subtasks[..n]) &&
                  prioritizedTaskSet == AddEachTimed(old(prioritizedTaskSet), epic.subtasks[..n])
      ensures epic.name == old(epic.name) && epic.description == old(epic.description)
      ensures outcome.Pass? && |epic.subtasks| == 0 ==> epic.status == old(epic.status)
      ensures |heads0| == |epic.subtasks| && forall j :: 0 <= j < |heads0| ==> heads0[j] == old(epic.subtasks[j].Header())
      ensures outcome.Pass? ==>
                forall j :: 0 <= j < |epic.subtasks| ==>
                  epic.subtasks[j].Header() == HeaderAfter(epic.subtasks, heads0, old(idCounter), |epic.subtasks|, j)
      ensures outcome.Pass? && old(LinkedTo(epic.subtasks, epic)) ==>
                epic.Times() == Aggregate(old(epic.Times()), Spans(epic.subtasks))
      ensures outcome.Pass? && old(LinkedTo(epic.subtasks, epic)) && |epic.subtasks| > 0 && epic.id in epics ==>
                epics[epic.id].status == EpicStatus(Statuses(epics[epic.id].subtasks))
      ensures old(Valid()) ==> Valid()
    {
      var list := epic.subtasks;
      ghost var linked := LinkedTo(list, epic);
      heads0 := Headers(list);
      var i := 0;
      while i < |list|
        invariant 0 <= i <= |list|
        invariant epic.subtasks == list && epic.id == old(epic.id)
        invariant epics == old(epics) && tasks == old(tasks)
        invariant FiledPrefix(list, i, old(idCounter), old(subtasks), old(prioritizedTaskSet))
        invariant forall j :: 0 <= j < |list| ==> list[j].epic == old(list[j].epic)
        invariant epic.name == old(epic.name) && epic.description == old(epic.description)
        invariant i == 0 ==> epic.status == old(epic.status)
        invariant forall j {:trigger HeaderAfter(list, heads0, old(idCounter), i, j)} :: 0 <= j < |list| ==>
                    list[j].Header() == HeaderAfter(list, heads0, old(idCounter), i, j)
        invariant linked ==>
                    epic.Times() == Aggregate(old(epic.Times()), Spans(list)[..i]) &&
                    (i > 0 && epic.id in epics ==> epics[epic.id].status == EpicStatus(Statuses(epics[epic.id].subtasks)))
        invariant old(Valid()) ==> Valid()
      {
        assert list[i].epic != null ==> list[i].epic in LinkedEpics(old(epic.subtasks));
        assert StatusTarget(list[i].epic) <= old(epics.Values);
        assert linked ==> list[i].epic == epic;
        outcome := CreateNextSubtask(epic, i, old(idCounter), old(subtasks), old(prioritizedTaskSet), old(epic.Times()), heads0);
        if outcome.Fail? {
          assert FiledPrefix(list, i, old(idCounter), old(subtasks), old(prioritizedTaskSet));
          return;
        }
        i := i + 1;
      }
      assert list[..i] == list && Spans(list)[..i] == Spans(list);
      outcome := Pass;
    }

    /**
     * One step of the forEach in createNewEpic: createNewSubtask on the i-th
     * subtask of the epic's list, which leaves that list as it is, because
     * the subtask is already in it or the epic is not its own. A step that
     * goes through extends the filed prefix by that subtask, renumbers it
     * at every place it holds in the list, leaving the other subtasks as they
     * are, and, when the subtask is the epic's own, folds its times into the
     * epic's and recomputes the epic's status; a refused step changes nothing.
     */
    method CreateNextSubtask(epic: Epic, i: int, ghost c0: int, ghost m0: map<int, Subtask>, ghost p0: Index, ghost t0: EpicTimes, ghost heads0: seq<Fields>)
      returns (outcome: Outcome<Exception>)
      requires 0 <= i < |epic.subtasks|
      modifies this, epic.subtasks[i], epic.subtasks[i].epic, StatusTarget(epic.subtasks[i].epic)
      ensures epic.subtasks == old(epic.subtasks) && epic.id == old(epic.id)
      ensures epics == old(epics) && tasks == old(tasks)
      ensures epic.subtasks[i].epic == old(epic.subtasks[i].epic)
      ensures outcome.Pass? && old(FiledPrefix(epic.subtasks, i, c0, m0, p0)) ==> FiledPrefix(epic.subtasks, i + 1, c0, m0, p0)
      ensures epic.name == old(epic.name) && epic.description == old(epic.description)
      ensures outcome.Fail? ==> unchanged(epic)
      ensures forall j :: 0 <= j < |epic.subtasks| ==> epic.subtasks[j].epic == old(epic.subtasks[j].epic)
      ensures outcome.Pass? && old(idCounter) == c0 + i && |heads0| == |epic.subtasks| ==>
                forall j {:trigger HeaderAfter(epic.subtasks, heads0, c0, i + 1, j)} ::
                  0 <= j < |epic.subtasks| && old(epic.subtasks[j].Header()) == HeaderAfter(epic.subtasks, heads0, c0, i, j) ==>
                    epic.subtasks[j].Header() == HeaderAfter(epic.subtasks, heads0, c0, i + 1, j)
      ensures outcome.Fail? ==>
                outcome.error == ManagerCreateTask &&
                subtasks == old(subtasks) && idCounter == old(idCounter) && prioritizedTaskSet == old(prioritizedTaskSet)
      ensures outcome.Pass? && old(epic.subtasks[i].epic) == epic && old(epic.Times()) == Aggregate(t0, Spans(epic.subtasks)[..i]) ==>
                epic.Times() == Aggregate(t0, Spans(epic.subtasks)[..i + 1]) &&
                (epic.id in epics ==> epics[epic.id].status == EpicStatus(Statuses(epics[epic.id].subtasks)))
      ensures old(Valid()) ==> Valid()
    {
      var list := epic.subtasks;
      outcome := CreateListedSubtask(epic, i);
      if outcome.Pass? {
        AggregateStep(t0, Spans(list), i);
        FiledStep(m0, c0, list, i);
        AddEachTimedStep(p0, list, i);
      }
    }

    /**
     * createNewSubtask on the i-th subtask of the epic's list, which leaves
     * that list as it is, because the subtask is already in it or the epic is
     * not its own. The subtask's own epic adds it and folds its times in, and
     * the epic stored under that epic's id gets its status recomputed.
     */
    method CreateListedSubtask(epic: Epic, i: int) returns (outcome: Outcome<Exception>)
      requires 0 <= i < |epic.subtasks|
      modifies this, epic.subtasks[i], epic.subtasks[i].epic, StatusTarget(epic.subtasks[i].epic)
      ensures epic.subtasks == old(epic.subtasks) && epic.id == old(epic.id)
      ensures epics == old(epics) && tasks == old(tasks)
      ensures epic.subtasks[i].epic == old(epic.subtasks[i].epic)
      ensures outcome.Pass? ==>
                subtasks == old(subtasks)[old(idCounter) := epic.subtasks[i]] && idCounter == old(idCounter) + 1 &&
                prioritizedTaskSet == AddIfTimed(old(prioritizedTaskSet), SubtaskRef(epic.subtasks[i]))
      ensures outcome.Fail? ==>
                outcome.error == ManagerCreateTask &&
                subtasks == old(subtasks) && idCounter == old(idCounter) && prioritizedTaskSet == old(prioritizedTaskSet)
      ensures outcome.Pass? && old(epic.subtasks[i].epic) == epic ==>
                epic.Times() == UpdatedTimes(old(epic.Times()), epic.subtasks[i].TimeSpan()) &&
                (epic.id in epics ==> epics[epic.id].status == EpicStatus(Statuses(epics[epic.id].subtasks)))
      ensures epic.name == old(epic.name) && epic.description == old(epic.description)
      ensures outcome.Fail? ==> unchanged(epic)
      ensures outcome.Pass? ==> epic.subtasks[i].Header() == old(epic.subtasks[i].Header()).(id := old(idCounter))
      ensures outcome.Fail? ==> epic.subtasks[i].Header() == old(epic.subtasks[i].Header()) && unchanged(epic.subtasks[i])
      ensures forall j :: 0 <= j < |epic.subtasks| ==> epic.subtasks[j].epic == old(epic.subtasks[j].epic)
      ensures old(Valid()) ==> Valid()
    {
      var list := epic.subtasks;
      var s := list[i];
      ghost var owner := s.epic;
      outcome := CreateNewSubtask(s);
      if outcome.Pass? && owner == epic {
        assert list[i].id == s.id;
        assert Contains(list, s);
      }
    }

    /** updatePrioritizedTaskSet, specified by Prioritized.UpdatedIndex. */
    method UpdatePrioritizedTaskSet(updated: Ref) returns (accepted: bool)
      modifies this
      ensures var u := old(UpdatedIndex(prioritizedTaskSet, StoredVersion(tasks, subtasks, updated.Id()), updated));
              accepted == u.accepted && prioritizedTaskSet == u.index
      ensures tasks == old(tasks) && epics == old(epics) && subtasks == old(subtasks) && idCounter == old(idCounter)
    {
      var stored := StoredVersion(tasks, subtasks, updated.Id());
      if stored.Some? && stored.value.StartTime().Some? {
        var start := stored.value.StartTime().value;
        prioritizedTaskSet := prioritizedTaskSet - {start};
        if HasIntersect(prioritizedTaskSet, updated) {
          prioritizedTaskSet := IndexAdd(prioritizedTaskSet, start, stored.value);
          return false;
        }
      }
      if updated.StartTime().Some? {
        prioritizedTaskSet := IndexAdd(prioritizedTaskSet, updated.StartTime().value, updated);
      }
      return true;
    }

    /** The objects updateTask may change: the subtask, its epic and the epic stored under that epic's id. */
    function UpdateFrame(updated: Ref): set<object>
      reads this, updated.Obj(), if updated.SubtaskRef? then {updated.subtask.epic} else {}
    {
      match updated
      case SubtaskRef(s) => {s} + (if s.epic != null then {s.epic} + StatusTarget(s.epic) else {})
      case _ => {}
    }

    /**
     * updateTask: nothing is stored when updatePrioritizedTaskSet refuses the
     * update. Otherwise the new version replaces the stored one of its kind
     * when its id is a key; a subtask with an epic is also swapped in that
     * epic's list and times, and the epic's status is recomputed.
     */
    method UpdateTask(updated: Ref) returns (outcome: Outcome<Exception>)
      modifies this, UpdateFrame(updated)
      ensures prioritizedTaskSet == old(UpdatedIndex(prioritizedTaskSet, StoredVersion(tasks, subtasks, updated.Id()), updated)).index
      ensures idCounter == old(idCounter)
      ensures !old(UpdatedIndex(prioritizedTaskSet, StoredVersion(tasks, subtasks, updated.Id()), updated)).accepted ==>
                outcome == Pass && tasks == old(tasks) && epics == old(epics) && subtasks == old(subtasks)
      ensures var id := old(updated.Id());
              old(UpdatedIndex(prioritizedTaskSet, StoredVersion(tasks, subtasks, updated.Id()), updated)).accepted && updated.TaskRef? ==>
                outcome == Pass && epics == old(epics) && subtasks == old(subtasks) &&
                tasks == if id in old(tasks) then old(tasks)[id := updated.task] else old(tasks)
      ensures var id := old(updated.Id());
              old(UpdatedIndex(prioritizedTaskSet, StoredVersion(tasks, subtasks, updated.Id()), updated)).accepted && updated.EpicRef? ==>
                outcome == Pass && tasks == old(tasks) && subtasks == old(subtasks) &&
                epics == if id in old(epics) then old(epics)[id := updated.epic] else old(epics)
      ensures var id := old(updated.Id());
              old(UpdatedIndex(prioritizedTaskSet, StoredVersion(tasks, subtasks, updated.Id()), updated)).accepted && updated.SubtaskRef? ==>
                tasks == old(tasks) && epics == old(epics) &&
                subtasks == if id in old(subtasks) then old(subtasks)[id := updated.subtask] else old(subtasks)
      ensures outcome.Fail? ==>
                outcome.error == NullPointer && updated.SubtaskRef? && old(updated.subtask.id) in old(subtasks) &&
                old(updated.subtask.epic) != null
      ensures var id := old(updated.Id());
              old(UpdatedIndex(prioritizedTaskSet, StoredVersion(tasks, subtasks, updated.Id()), updated)).accepted &&
              updated.SubtaskRef? && id in old(subtasks) && old(updated.subtask.epic) != null ==>
                var e := old(updated.subtask.epic);
                var previous := old(subtasks)[id];
                (outcome.Pass? <==> RemovedTimes(old(e.Times()), previous.TimeSpan()).completed) &&
                (outcome.Fail? ==>
                   e.subtasks == old(RemoveFirst(e.subtasks, previous)) &&
                   e.Times() == RemovedTimes(old(e.Times()), previous.TimeSpan()).times)
      ensures var id := old(updated.Id());
              old(UpdatedIndex(prioritizedTaskSet, StoredVersion(tasks, subtasks, updated.Id()), updated)).accepted &&
              updated.SubtaskRef? && id in old(subtasks) && old(updated.subtask.epic) != null && outcome.Pass? ==>
                var s := updated.subtask;
                var e := old(s.epic);
                var previous := old(subtasks)[id];
                s.epic == e && e.subtasks == WithSubtask(old(RemoveFirst(e.subtasks, previous)), s) &&
                e.Times() == UpdatedTimes(RemovedTimes(old(e.Times()), previous.TimeSpan()).times, s.TimeSpan()) &&
                (e.id in epics ==> epics[e.id].status == EpicStatus(Statuses(epics[e.id].subtasks)))
      ensures updated.SubtaskRef? ==> updated.subtask.Header() == old(updated.subtask.Header())
      ensures updated.SubtaskRef? && old(updated.subtask.epic) != null ==>
                var e := old(updated.subtask.epic);
                e.id == old(e.id) && e.name == old(e.name) && e.description == old(e.description) &&
                (e.id in epics && epics[e.id] != e ==> StatusOnly(epics[e.id])) &&
                (!(e.id in epics && epics[e.id] == e) ==> e.status == old(e.status))
      ensures !old(UpdatedIndex(prioritizedTaskSet, StoredVersion(tasks, subtasks, updated.Id()), updated)).accepted ||
              (updated.SubtaskRef? && old(updated.subtask.id) !in old(subtasks)) ==>
                unchanged(old(UpdateFrame(updated)))
      ensures old(Valid()) ==> Valid()
    {
      var id := updated.Id();
      var accepted := UpdatePrioritizedTaskSet(updated);
      if !accepted {
        return Pass;
      }
      match updated {
        case TaskRef(t) =>
          if id in tasks {
            tasks := tasks[id := t];
          }
        case EpicRef(e) =>
          if id in epics {
            epics := epics[id := e];
          }
        case SubtaskRef(s) =>
          if id in subtasks {
            var previous := subtasks[id];
            subtasks := subtasks[id := s];
            var epic := s.epic;
            if epic != null {
              outcome := ReplaceInEpic(epic, previous, s);
              return;
            }
          }
      }
      return Pass;
    }

    /** epic.updateSubtask(previous, s), then checkEpicStatus(epic.getId()) unless it threw. */
    method ReplaceInEpic(epic: Epic, previous: Subtask, s: Subtask) returns (outcome: Outcome<Exception>)
      modifies epic, s, StatusTarget(epic)
      ensures outcome.Pass? <==> RemovedTimes(old(epic.Times()), previous.TimeSpan()).completed
      ensures outcome.Fail? ==> outcome.error == NullPointer && s.epic == old(s.epic)
      ensures outcome.Fail? ==>
                epic.subtasks == old(RemoveFirst(epic.subtasks, previous)) &&
                epic.Times() == RemovedTimes(old(epic.Times()), previous.TimeSpan()).times
      ensures outcome.Pass? ==> s.epic == epic && epic.subtasks == WithSubtask(old(RemoveFirst(epic.subtasks, previous)), s)
      ensures outcome.Pass? ==>
                epic.Times() == UpdatedTimes(RemovedTimes(old(epic.Times()), previous.TimeSpan()).times, s.TimeSpan())
      ensures outcome.Pass? && epic.id in epics ==> epics[epic.id].status == EpicStatus(Statuses(epics[epic.id].subtasks))
      ensures s.Header() == old(s.Header())
      ensures epic.id == old(epic.id) && epic.name == old(epic.name) && epic.description == old(epic.description)
      ensures epic.id in epics && epics[epic.id] != epic ==>
                if outcome.Pass? then StatusOnly(epics[epic.id]) else unchanged(epics[epic.id])
      ensures !(outcome.Pass? && epic.id in epics && epics[epic.id] == epic) ==> epic.status == old(epic.status)
    {
      outcome := epic.UpdateSubtask(previous, s);
      if outcome.Fail? {
        return;
      }
      ghost var remaining := old(RemoveFirst(epic.subtasks, previous));
      ghost var added := Contains(remaining, s);
      ghost var list := epic.subtasks;
      CheckEpicStatus(epic.id);
      assert epic.subtasks == list;
      assert added == Contains(remaining, s);
    }

    /**
     * removeFromPrioritizedTaskSet: nothing happens to a task without a start;
     * an epic has each of its subtasks removed in list order (a subtask
     * without a start throws NullPointerException while the set is not
     * empty); any other task is removed itself.
     */
    method RemoveFromPrioritizedTaskSet(r: Ref) returns (outcome: Outcome<Exception>)
      modifies this
      ensures tasks == old(tasks) && epics == old(epics) && subtasks == old(subtasks) && idCounter == old(idCounter)
      ensures r.StartTime().None? ==> outcome == Pass && prioritizedTaskSet == old(prioritizedTaskSet)
      ensures r.StartTime().Some? && r.EpicRef? ==>
                var removal := RemoveEach(old(prioritizedTaskSet), Starts(r.epic.subtasks));
                prioritizedTaskSet == removal.index && (outcome.Pass? <==> removal.completed) &&
                (outcome.Fail? ==> outcome.error == NullPointer)
      ensures r.StartTime().Some? && !r.EpicRef? ==>
                outcome == Pass && prioritizedTaskSet == old(prioritizedTaskSet) - {r.StartTime().value}
    {
      if r.StartTime().None? {
        return Pass;
      }
      match r
      case EpicRef(epic) =>
        outcome := RemoveEachStart(Starts(epic.subtasks));
      case _ =>
        prioritizedTaskSet := prioritizedTaskSet - {r.StartTime().value};
        return Pass;
    }

    /** The loop over an epic's subtasks in removeFromPrioritizedTaskSet, given their start times. */
    method RemoveEachStart(starts: seq<Option<int>>) returns (outcome: Outcome<Exception>)
      modifies this
      ensures tasks == old(tasks) && epics == old(epics) && subtasks == old(subtasks) && idCounter == old(idCounter)
      ensures var removal := RemoveEach(old(prioritizedTaskSet), starts);
              prioritizedTaskSet == removal.index && (outcome.Pass? <==> removal.completed) &&
              (outcome.Fail? ==> outcome.error == NullPointer)
    {
      var index := prioritizedTaskSet;
      var i := 0;
      while i < |starts|
        invariant 0 <= i <= |starts|
        invariant RemoveEach(old(prioritizedTaskSet), starts[..i]) == SetRemoval(index, true)
      {
        assert starts[..i + 1][..i] == starts[..i];
        var removed := IndexRemove(index, starts[i]);
        if removed.Failure? {
          RemoveEachStops(old(prioritizedTaskSet), starts, i + 1);
          prioritizedTaskSet := index;
          return Fail(removed.error);
        }
        index := removed.value;
        i := i + 1;
      }
      assert starts[..i] == starts;
      prioritizedTaskSet := index;
      return Pass;
    }

    /** The epic branch of removeTask, up to the removal of the id from the history. */
    method RemoveStoredEpic(id: int) returns (outcome: Outcome<Exception>)
      requires id in epics
      modifies this, historyManager
      ensures tasks == old(tasks) && idCounter == old(idCounter)
      ensures var ids := old(IdSet(epics[id].subtasks));
              subtasks == Drop(old(subtasks), ids) && historyManager.views == Without(old(historyManager.views), ids)
      ensures var epic := old(epics)[id];
              epic.startTime.None? ==> prioritizedTaskSet == old(prioritizedTaskSet) && outcome.Pass?
      ensures var epic := old(epics)[id];
              var removal := RemoveEach(old(prioritizedTaskSet), old(Starts(epic.subtasks)));
              epic.startTime.Some? ==> prioritizedTaskSet == removal.index && (outcome.Pass? <==> removal.completed)
      ensures outcome.Pass? ==> epics == old(epics) - {id}
      ensures outcome.Fail? ==> outcome.error == NullPointer && epics == old(epics)
      ensures old(Valid()) ==> Valid()
    {
      var epic := epics[id];
      ForgetSubtasks(epic.subtasks);
      outcome := RemoveFromPrioritizedTaskSet(EpicRef(epic));
      if outcome.Fail? {
        return;
      }
      epics := epics - {id};
    }

    /** `list.stream().map(Subtask::getId).forEach(...)`: each id leaves the subtask map and the history. */
    method ForgetSubtasks(list: seq<Subtask>)
      modifies this, historyManager
      ensures tasks == old(tasks) && epics == old(epics) && idCounter == old(idCounter)
      ensures prioritizedTaskSet == old(prioritizedTaskSet)
      ensures subtasks == Drop(old(subtasks), old(IdSet(list)))
      ensures historyManager.views == Without(old(historyManager.views), old(IdSet(list)))
      ensures old(Valid()) ==> Valid()
    {
      var i := 0;
      ghost var ids := Ids(list);
      ghost var removed: set<int> := {};
      assert Elements(ids[..0]) == {};
      WithoutNothing(historyManager.views);
      var remaining := subtasks;
      var history := historyManager;
      while i < |list|
        invariant 0 <= i <= |list|
        invariant removed == Elements(ids[..i])
        invariant remaining == Drop(old(subtasks), removed)
        invariant history.views == Without(old(history.views), removed)
        modifies history
      {
        var subtaskId := list[i].id;
        remaining := remaining - {subtaskId};
        history.Remove(subtaskId);
        ElementsStep(ids, i);
        DropStep(old(subtasks), removed, subtaskId);
        WithoutTwice(old(history.views), removed, {subtaskId});
        removed := removed + {subtaskId};
        i := i + 1;
      }
      assert ids[..i] == ids;
      subtasks := remaining;
    }

    /** The subtask branch of removeTask, the removal of the id from the history included. */
    method RemoveStoredSubtask(id: int) returns (outcome: Outcome<Exception>)
      requires id in subtasks
      modifies this, historyManager
      modifies if subtasks[id].epic != null then {subtasks[id].epic} + StatusTarget(subtasks[id].epic) else {}
      ensures tasks == old(tasks) && epics == old(epics) && idCounter == old(idCounter)
      ensures outcome.Fail? <==> old(subtasks[id].epic) == null
      ensures outcome.Fail? ==> outcome.error == NullPointer && unchanged(this)
      ensures outcome.Pass? ==> subtasks == old(subtasks) - {id}
      ensures outcome.Fail? ==> historyManager.views == old(historyManager.views)
      ensures outcome.Pass? ==> historyManager.views == Without(old(historyManager.views), {id})
      ensures var s := old(subtasks)[id];
              outcome.Pass? ==> prioritizedTaskSet == if s.startTime.Some? then old(prioritizedTaskSet) - {s.startTime.value} else old(prioritizedTaskSet)
      ensures var e := old(subtasks[id].epic);
              e != null ==> e.subtasks == old(RemoveFirst(e.subtasks, subtasks[id])) && e.Times() == old(e.Times())
      ensures var e := old(subtasks[id].epic);
              e != null ==> e.id == old(e.id) && e.name == old(e.name) && e.description == old(e.description)
      ensures var e := old(subtasks[id].epic);
              e != null && e.id in epics ==> epics[e.id].status == EpicStatus(Statuses(epics[e.id].subtasks))
      ensures var e := old(subtasks[id].epic);
              e != null && e.id in epics && epics[e.id] != e ==> StatusOnly(epics[e.id])
      ensures var e := old(subtasks[id].epic);
              e != null && !(e.id in epics && epics[e.id] == e) ==> e.status == old(e.status)
      ensures old(Valid()) ==> Valid()
    {
      var subtask := subtasks[id];
      var epic := subtask.epic;
      if epic == null {
        return Fail(NullPointer);
      }
      // The epic's list and status are updated last here; they share no state
      // with the prioritized set, the subtask map and the history, so the
      // order is immaterial.
      DropSubtaskEntry(id);
      RemoveFromEpic(epic, subtask);
      return Pass;
    }

    /** removeTask for a stored subtask: it leaves the prioritized set, the map and the history. */
    method DropSubtaskEntry(id: int)
      requires id in subtasks
      modifies this, historyManager
      ensures tasks == old(tasks) && epics == old(epics) && idCounter == old(idCounter)
      ensures subtasks == old(subtasks) - {id}
      ensures var s := old(subtasks)[id];
              prioritizedTaskSet == if s.startTime.Some? then old(prioritizedTaskSet) - {s.startTime.value} else old(prioritizedTaskSet)
      ensures historyManager.views == Without(old(historyManager.views), {id})
      ensures old(Valid()) ==> Valid()
    {
      // removeFromPrioritizedTaskSet of a subtask never throws
      var _ := RemoveFromPrioritizedTaskSet(SubtaskRef(subtasks[id]));
      subtasks := subtasks - {id};
      historyManager.Remove(id);
    }

    /** subtask.getEpic().getSubtasks().remove(subtask), then checkEpicStatus(epic.getId()). */
    method RemoveFromEpic(epic: Epic, subtask: Subtask)
      modifies epic, StatusTarget(epic)
      ensures epic.subtasks == old(RemoveFirst(epic.subtasks, subtask)) && epic.Times() == old(epic.Times())
      ensures epic.id == old(epic.id) && epic.name == old(epic.name) && epic.description == old(epic.description)
      ensures epic.id in epics ==> epics[epic.id].status == EpicStatus(Statuses(epics[epic.id].subtasks))
      ensures epic.id in epics && epics[epic.id] != epic ==> StatusOnly(epics[epic.id])
      ensures !(epic.id in epics && epics[epic.id] == epic) ==> epic.status == old(epic.status)
    {
      epic.subtasks := RemoveFirst(epic.subtasks, subtask);
      CheckEpicStatus(epic.id);
    }

    /**
     * removeTask: a task leaves the prioritized set and the map; an epic's
     * subtasks leave the subtask map and the history, then the epic's
     * subtasks leave the prioritized set (when the epic has a start) and the
     * epic leaves the map; a subtask leaves its epic's list (a subtask without
     * an epic throws NullPointerException), the epic's status is recomputed,
     * and the subtask leaves the prioritized set and the map. The id then
     * leaves the history.
     */
    method RemoveTask(id: int) returns (outcome: Outcome<Exception>)
      modifies this, historyManager
      modifies if id !in tasks && id !in epics && id in subtasks && subtasks[id].epic != null
               then {subtasks[id].epic} + StatusTarget(subtasks[id].epic) else {}
      ensures idCounter == old(idCounter)
      // a task
      ensures id in old(tasks) ==>
                outcome == Pass && tasks == old(tasks) - {id} && epics == old(epics) && subtasks == old(subtasks)
      ensures id in old(tasks) ==>
                var t := old(tasks)[id];
                prioritizedTaskSet == (if t.startTime.Some? then old(prioritizedTaskSet) - {t.startTime.value} else old(prioritizedTaskSet)) &&
                historyManager.views == Without(old(historyManager.views), {id})
      // an epic
      ensures id !in old(tasks) && id in old(epics) ==>
                tasks == old(tasks) && subtasks == Drop(old(subtasks), old(IdSet(epics[id].subtasks)))
      ensures id !in old(tasks) && id in old(epics) ==>
                var epic := old(epics)[id];
                var removal := RemoveEach(old(prioritizedTaskSet), old(Starts(epic.subtasks)));
                (epic.startTime.None? ==> prioritizedTaskSet == old(prioritizedTaskSet) && outcome.Pass?) &&
                (epic.startTime.Some? ==> prioritizedTaskSet == removal.index && (outcome.Pass? <==> removal.completed))
      ensures id !in old(tasks) && id in old(epics) && outcome.Pass? ==>
                epics == old(epics) - {id} &&
                historyManager.views == Without(old(historyManager.views), old(IdSet(epics[id].subtasks)) + {id})
      ensures id !in old(tasks) && id in old(epics) && outcome.Fail? ==>
                outcome.error == NullPointer && epics == old(epics) &&
                historyManager.views == Without(old(historyManager.views), old(IdSet(epics[id].subtasks)))
      // a subtask
      ensures id !in old(tasks) && id !in old(epics) && id in old(subtasks) ==>
                tasks == old(tasks) && epics == old(epics) && (outcome.Fail? <==> old(subtasks[id].epic) == null)
      ensures id !in old(tasks) && id !in old(epics) && id in old(subtasks) && outcome.Fail? ==>
                outcome.error == NullPointer && subtasks == old(subtasks) &&
                prioritizedTaskSet == old(prioritizedTaskSet) && historyManager.views == old(historyManager.views)
      ensures id !in old(tasks) && id !in old(epics) && id in old(subtasks) && outcome.Pass? ==>
                var s := old(subtasks)[id];
                subtasks == old(subtasks) - {id} && historyManager.views == Without(old(historyManager.views), {id}) &&
                prioritizedTaskSet == (if s.startTime.Some? then old(prioritizedTaskSet) - {s.startTime.value} else old(prioritizedTaskSet))
      ensures id !in old(tasks) && id !in old(epics) && id in old(subtasks) && outcome.Pass? ==>
                var e := old(subtasks[id].epic);
                e.subtasks == old(RemoveFirst(e.subtasks, subtasks[id])) && e.Times() == old(e.Times()) &&
                e.id == old(e.id) && e.name == old(e.name) && e.description == old(e.description) &&
                (e.id in epics ==> epics[e.id].status == EpicStatus(Statuses(epics[e.id].subtasks))) &&
                (e.id in epics && epics[e.id] != e ==> StatusOnly(epics[e.id])) &&
                (!(e.id in epics && epics[e.id] == e) ==> e.status == old(e.status))
      // an id stored nowhere
      ensures id !in old(tasks) && id !in old(epics) && id !in old(subtasks) ==>
                outcome == Pass && unchanged(this) && historyManager.views == Without(old(historyManager.views), {id})
      ensures old(Valid()) ==> Valid()
    {
      if id in tasks {
        outcome := RemoveFromPrioritizedTaskSet(TaskRef(tasks[id]));
        tasks := tasks - {id};
      } else if id in epics {
        ghost var ids := IdSet(epics[id].subtasks);
        outcome := RemoveStoredEpic(id);
        if outcome.Fail? {
          return;
        }
        historyManager.Remove(id);
        WithoutTwice(old(historyManager.views), ids, {id});
        return;
      } else if id in subtasks {
        outcome := RemoveStoredSubtask(id);
        return;
      } else {
        outcome := Pass;
      }
      historyManager.Remove(id);
    }

    /** getSubtasksOfEpic: the epic's own list; a missing epic throws NullPointerException. */
    function GetSubtasksOfEpic(epicId: int): (r: Result<seq<Subtask>, Exception>)
      reads this, epics.Values
      ensures r.Success? <==> epicId in epics
      ensures r.Success? ==> r.value == epics[epicId].subtasks
      ensures r.Failure? ==> r.error == NullPointer
    {
      if epicId in epics then Success(epics[epicId].subtasks) else Failure(NullPointer)
    }

    /** getHistory */
    method GetHistory() returns (r: seq<Ref>)
      ensures |r| == |historyManager.views|
      ensures forall i :: 0 <= i < |r| ==> r[i] == historyManager.views[i].task
    {
      r := historyManager.GetHistory();
    }

    /**
     * getPrioritizedTasks: the elements of the prioritized set in increasing
     * order of the start they are filed under.
     */
    method GetPrioritizedTasks() returns (r: seq<Ref>, ghost starts: seq<int>)
      ensures |r| == |prioritizedTaskSet|
      ensures forall i :: 0 <= i < |r| ==> r[i] in prioritizedTaskSet.Values
      ensures forall k :: k in prioritizedTaskSet ==> prioritizedTaskSet[k] in r
      ensures |r| == |starts|
      ensures forall i :: 0 <= i < |starts| ==> starts[i] in prioritizedTaskSet && r[i] == prioritizedTaskSet[starts[i]]
      ensures forall i, j :: 0 <= i < j < |starts| ==> starts[i] < starts[j]
      ensures forall k :: k in prioritizedTaskSet ==> k in starts
    {
      var rest := prioritizedTaskSet.Keys;
      r := [];
      starts := [];
      while rest != {}
        invariant rest <= prioritizedTaskSet.Keys
        invariant |r| == |starts| && |starts| + |rest| == |prioritizedTaskSet.Keys|
        invariant forall i :: 0 <= i < |starts| ==>
                    starts[i] in prioritizedTaskSet && starts[i] !in rest && r[i] == prioritizedTaskSet[starts[i]]
        invariant forall i, j :: 0 <= i < j < |starts| ==> starts[i] < starts[j]
        invariant forall i, k :: 0 <= i < |starts| && k in rest ==> starts[i] < k
        invariant forall k :: k in prioritizedTaskSet ==> k in rest || k in starts
        decreases rest
      {
        MinimumExists(rest);
        var k :| k in rest && forall x :: x in rest ==> k <= x;
        r := r + [prioritizedTaskSet[k]];
        starts := starts + [k];
        rest := rest - {k};
      }
      assert |prioritizedTaskSet| == |prioritizedTaskSet.Keys|;
      forall k | k in prioritizedTaskSet
        ensures prioritizedTaskSet[k] in r
      {
        var i :| 0 <= i < |starts| && starts[i] == k;
        assert r[i] == prioritizedTaskSet[k];
      }
    }
  }

  /** The epics the subtasks of a list are linked to. */
  function LinkedEpics(list: seq<Subtask>): set<Epic>
    reads list
  {
    set i | 0 <= i < |list| && list[i].epic != null :: list[i].epic
  }

  /** Every subtask of the list has the epic as its own, as after new Epic(name, description, subtasks). */
  predicate LinkedTo(list: seq<Subtask>, e: Epic)
    reads list
  {
    forall j :: 0 <= j < |list| ==> list[j].epic == e
  }

  /** The map with the subtasks of a list filed one after another under consecutive ids from base. */
  function Filed(m: map<int, Subtask>, base: int, list: seq<Subtask>): map<int, Subtask> {
    if list == [] then m
    else Filed(m, base, list[..|list| - 1])[base + |list| - 1 := list[|list| - 1]]
  }

  /** The j-th subtask is filed under base + j; every other key keeps its entry of m. */
  lemma {:induction false} FiledContents(m: map<int, Subtask>, base: int, list: seq<Subtask>)
    ensures var r := Filed(m, base, list);
            (forall j :: 0 <= j < |list| ==> base + j in r && r[base + j] == list[j]) &&
            (forall k :: k in r <==> k in m || base <= k < base + |list|) &&
            (forall k :: k in m && !(base <= k < base + |list|) ==> r[k] == m[k])
  {
    if list != [] {
      var init := list[..|list| - 1];
      FiledContents(m, base, init);
      forall j | 0 <= j < |list| - 1 ensures list[j] == init[j] {
      }
    }
  }

  lemma FiledStep(m: map<int, Subtask>, base: int, list: seq<Subtask>, i: int)
    requires 0 <= i < |list|
    ensures Filed(m, base, list[..i + 1]) == Filed(m, base, list[..i])[base + i := list[i]]
  {
    assert list[..i + 1][..i] == list[..i];
  }

  /** The subtask is at no place from lo up to hi of the list. */
  predicate Absent(list: seq<Subtask>, s: Subtask, lo: int, hi: int)
    requires 0 <= lo && hi <= |list|
    decreases hi - lo
  {
    hi <= lo || (list[hi - 1] != s && Absent(list, s, lo, hi - 1))
  }

  /** Absent holds exactly when no place from lo up to hi holds the subtask. */
  lemma {:induction false} AbsentMeans(list: seq<Subtask>, s: Subtask, lo: int, hi: int)
    requires 0 <= lo && hi <= |list|
    ensures Absent(list, s, lo, hi) <==> forall k :: lo <= k < hi ==> list[k] != s
    decreases hi - lo
  {
    if lo < hi {
      AbsentMeans(list, s, lo, hi - 1);
    }
  }

  /**
   * The id the j-th subtask of the list holds once createNewSubtask has filed
   * the first n of them, one after another, from the id base on: filing a
   * subtask renumbers it at every place it holds in the list, and heads0 hold
   * the headers, ids included, from before the first.
   */
  function IdAfter(list: seq<Subtask>, heads0: seq<Fields>, base: int, n: int, j: int): int
    requires 0 <= n <= |list| == |heads0| && 0 <= j < |list|
  {
    if n == 0 then heads0[j].id
    else if list[n - 1] == list[j] then base + n - 1
    else IdAfter(list, heads0, base, n - 1, j)
  }

  /** The header of the j-th subtask of the list after IdAfter. */
  function HeaderAfter(list: seq<Subtask>, heads0: seq<Fields>, base: int, n: int, j: int): Fields
    requires 0 <= n <= |list| == |heads0| && 0 <= j < |list|
  {
    heads0[j].(id := IdAfter(list, heads0, base, n, j))
  }

  /**
   * After IdAfter, the j-th of the first n subtasks has the id base + j
   * unless the same subtask comes again later among them, and a subtask not
   * among the first n keeps its id.
   */
  lemma {:induction false} IdAfterMeans(list: seq<Subtask>, heads0: seq<Fields>, base: int, n: int)
    requires 0 <= n <= |list| == |heads0|
    ensures forall j :: 0 <= j < n && Absent(list, list[j], j + 1, n) ==> IdAfter(list, heads0, base, n, j) == base + j
    ensures forall j :: n <= j < |list| && Absent(list, list[j], 0, n) ==> IdAfter(list, heads0, base, n, j) == heads0[j].id
  {
    if n > 0 {
      IdAfterMeans(list, heads0, base, n - 1);
      forall j | 0 <= j < n - 1 && Absent(list, list[j], j + 1, n)
        ensures IdAfter(list, heads0, base, n, j) == base + j
      {
        assert Absent(list, list[j], j + 1, n - 1);
      }
      forall j | n <= j < |list| && Absent(list, list[j], 0, n)
        ensures IdAfter(list, heads0, base, n, j) == heads0[j].id
      {
        assert Absent(list, list[j], 0, n - 1);
      }
    }
  }

  /** The id, status, name and description of the subtasks of a list, in order. */
  function Headers(list: seq<Subtask>): (r: seq<Fields>)
    reads list
    ensures |r| == |list| && forall j :: 0 <= j < |list| ==> r[j] == list[j].Header()
  {
    if list == [] then [] else Headers(list[..|list| - 1]) + [list[|list| - 1].Header()]
  }

  /** The ids of the subtasks of a list, in order. */
  function Ids(list: seq<Subtask>): (r: seq<int>)
    reads list
    ensures |r| == |list| && forall j :: 0 <= j < |list| ==> r[j] == list[j].id
  {
    if list == [] then [] else Ids(list[..|list| - 1]) + [list[|list| - 1].id]
  }

  /** The ids of the subtasks of a list. */
  function IdSet(list: seq<Subtask>): set<int>
    reads list
  {
    Elements(Ids(list))
  }

  function Elements(s: seq<int>): set<int> {
    set x | x in s
  }

  lemma ElementsStep(s: seq<int>, i: int)
    requires 0 <= i < |s|
    ensures Elements(s[..i + 1]) == Elements(s[..i]) + {s[i]}
  {
    assert s[..i + 1] == s[..i] + [s[i]];
  }

  /** The starts of the subtasks of a list, in order. */
  function Starts(list: seq<Subtask>): (r: seq<Option<int>>)
    ensures |r| == |list| && forall i :: 0 <= i < |list| ==> r[i] == list[i].startTime
  {
    if list == [] then [] else Starts(list[..|list| - 1]) + [list[|list| - 1].startTime]
  }

  /** A finite non-empty set of integers has a least element. */
  lemma {:induction false} MinimumExists(s: set<int>)
    requires s != {}
    ensures exists k :: k in s && forall x :: x in s ==> k <= x
  {
    var y := Member(s);
    var rest := s - {y};
    if rest == {} {
      forall x | x in s
        ensures y <= x
      {
        assert x !in rest;
      }
    } else {
      MinimumExists(rest);
      var k :| k in rest && forall x :: x in rest ==> k <= x;
      var m := if y < k then y else k;
      assert forall x :: x in s ==> x == y || x in rest;
      assert m in s && forall x :: x in s ==> m <= x;
    }
  }
}
