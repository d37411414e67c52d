/**
 * The earlier TaskManager: the same three maps keyed by id, but no
 * history, no prioritized set and no epic bookkeeping. Its id counter is a
 * static field, shared by every instance of the class.
 */
module OldTaskManager {
  import opened Wrappers
  import opened Exceptions
  import opened Model
  import opened Prioritized
  import opened Engine

  /** The class-wide `static int idCounter`, one object shared by all managers. */
  class StaticCounter {
    var value: int

    constructor ()
      ensures value == 0
    {
      value := 0;
    }
  }

  class TaskManager {
    var tasks: map<int, Task>
    var epics: map<int, Epic>
    var subtasks: map<int, Subtask>
    const idCounter: StaticCounter

    constructor (idCounter: StaticCounter)
      ensures tasks == map[] && epics == map[] && subtasks == map[]
      ensures this.idCounter == idCounter
    {
      tasks := map[];
      epics := map[];
      subtasks := map[];
      this.idCounter := idCounter;
    }

    /**
     * Every stored id is below the shared counter and no id is used by two
     * kinds: what the create operations keep as long as the counter only
     * grows.
     */
    ghost predicate Valid()
      reads this, idCounter
    {
      0 <= idCounter.value &&
      (forall k :: k in tasks ==> 0 <= k < idCounter.value) &&
      (forall k :: k in epics ==> 0 <= k < idCounter.value) &&
      (forall k :: k in subtasks ==> 0 <= k < idCounter.value) &&
      tasks.Keys !! epics.Keys && tasks.Keys !! subtasks.Keys && epics.Keys !! subtasks.Keys
    }

    /** The id the next create hands out is not yet stored, in any map. */
    lemma CounterIsFresh()
      requires Valid()
      ensures idCounter.value !in tasks && idCounter.value !in epics && idCounter.value !in subtasks
    {
    }

    /** getAllTasks: a fresh list holding every stored task once. */
    method GetAllTasks() returns (r: seq<Task>, ghost keys: seq<int>)
      ensures |r| == |tasks|
      ensures forall i :: 0 <= i < |r| ==> r[i] in tasks.Values
      ensures forall k :: k in tasks ==> tasks[k] in r
      ensures |r| == |keys| && forall i :: 0 <= i < |r| ==> keys[i] in tasks && r[i] == tasks[keys[i]]
      ensures forall k :: k in tasks ==> k in keys
    {
      r, keys := ValuesOf(tasks);
    }

    /** getAllEpics */
    method GetAllEpics() returns (r: seq<Epic>, ghost keys: seq<int>)
      ensures |r| == |epics|
      ensures forall i :: 0 <= i < |r| ==> r[i] in epics.Values
      ensures forall k :: k in epics ==> epics[k] in r
      ensures |r| == |keys| && forall i :: 0 <= i < |r| ==> keys[i] in epics && r[i] == epics[keys[i]]
      ensures forall k :: k in epics ==> k in keys
    {
      r, keys := ValuesOf(epics);
    }

    /** getAllSubtasks */
    method GetAllSubtasks() returns (r: seq<Subtask>, ghost keys: seq<int>)
      ensures |r| == |subtasks|
      ensures forall i :: 0 <= i < |r| ==> r[i] in subtasks.Values
      ensures forall k :: k in subtasks ==> subtasks[k] in r
      ensures |r| == |keys| && forall i :: 0 <= i < |r| ==> keys[i] in subtasks && r[i] == subtasks[keys[i]]
      ensures forall k :: k in subtasks ==> k in keys
    {
      r, keys := ValuesOf(subtasks);
    }

    /** clearAllTasks: only the task map is emptied. */
    method ClearAllTasks()
      modifies this
      ensures tasks == map[] && epics == old(epics) && subtasks == old(subtasks)
      ensures old(Valid()) ==> Valid()
    {
      tasks := map[];
    }

    /** clearAllEpics: the subtasks of the removed epics stay stored. */
    method ClearAllEpics()
      modifies this
      ensures epics == map[] && tasks == old(tasks) && subtasks == old(subtasks)
      ensures old(Valid()) ==> Valid()
    {
      epics := map[];
    }

    /** clearAllSubtasks: the epics keep their lists. */
    method ClearAllSubtasks()
      modifies this
      ensures subtasks == map[] && tasks == old(tasks) && epics == old(epics)
      ensures old(Valid()) ==> Valid()
    {
      subtasks := map[];
    }

    /** getTask: HashMap.get, null when the id is not a task's. */
    function GetTask(id: int): (r: Option<Task>)
      reads this
      ensures r.Some? <==> id in tasks
      ensures r.Some? ==> r.value == tasks[id]
    {
      if id in tasks then Some(tasks[id]) else None
    }

    /** getEpic */
    function GetEpic(id: int): (r: Option<Epic>)
      reads this
      ensures r.Some? <==> id in epics
      ensures r.Some? ==> r.value == epics[id]
    {
      if id in epics then Some(epics[id]) else None
    }

    /** getSubtask */
    function GetSubtask(id: int): (r: Option<Subtask>)
      reads this
      ensures r.Some? <==> id in subtasks
      ensures r.Some? ==> r.value == subtasks[id]
    {
      if id in subtasks then Some(subtasks[id]) else None
    }

    /**
     * createNewTask: the task takes the shared counter as its id, is stored
     * under it, and the counter moves on; nothing is checked.
     */
    method CreateNewTask(task: Task)
      modifies this, task, idCounter
      ensures task.Header() == old(task.Header()).(id := old(idCounter.value))
      ensures tasks == old(tasks)[old(idCounter.value) := task] && epics == old(epics) && subtasks == old(subtasks)
      ensures idCounter.value == old(idCounter.value) + 1
      ensures old(Valid()) ==> Valid()
    {
      task.id := idCounter.value;
      tasks := tasks[idCounter.value := task];
      UpdateId();
    }

    /** createNewEpic: the subtasks already in the epic's list are not stored. */
    method CreateNewEpic(epic: Epic)
      modifies this, epic, idCounter
      ensures epic.Header() == old(epic.Header()).(id := old(idCounter.value))
      ensures epic.subtasks == old(epic.subtasks) && epic.Times() == old(epic.Times())
      ensures epics == old(epics)[old(idCounter.value) := epic] && tasks == old(tasks) && subtasks == old(subtasks)
      ensures idCounter.value == old(idCounter.value) + 1
      ensures old(Valid()) ==> Valid()
    {
      epic.id := idCounter.value;
      epics := epics[idCounter.value := epic];
      UpdateId();
    }

    /** createNewSubtask: the subtask is not added to its epic's list. */
    method CreateNewSubtask(subtask: Subtask)
      modifies this, subtask, idCounter
      ensures subtask.Header() == old(subtask.Header()).(id := old(idCounter.value))
      ensures subtask.epic == old(subtask.epic)
      ensures subtasks == old(subtasks)[old(idCounter.value) := subtask] && tasks == old(tasks) && epics == old(epics)
      ensures idCounter.value == old(idCounter.value) + 1
      ensures old(Valid()) ==> Valid()
    {
      subtask.id := idCounter.value;
      subtasks := subtasks[idCounter.value := subtask];
      UpdateId();
    }

    /** updateId */
    method UpdateId()
      modifies idCounter
      ensures idCounter.value == old(idCounter.value) + 1
    {
      idCounter.value := idCounter.value + 1;
    }

    /**
     * updateTask: the new object replaces the stored one only when its
     * runtime class is the map's and its id is already a key of that map;
     * otherwise nothing changes.
     */
    method UpdateTask(newTask: Ref)
      modifies this
      ensures newTask.TaskRef? && newTask.task.id in old(tasks) ==>
                tasks == old(tasks)[newTask.task.id := newTask.task] && epics == old(epics) && subtasks == old(subtasks)
      ensures newTask.SubtaskRef? && newTask.subtask.id in old(subtasks) ==>
                subtasks == old(subtasks)[newTask.subtask.id := newTask.subtask] && tasks == old(tasks) && epics == old(epics)
      ensures newTask.EpicRef? && newTask.epic.id in old(epics) ==>
                epics == old(epics)[newTask.epic.id := newTask.epic] && tasks == old(tasks) && subtasks == old(subtasks)
      ensures newTask.Id() !in old(KindKeys(newTask)) ==> unchanged(this)
      ensures old(Valid()) ==> Valid()
    {
      match newTask {
        case TaskRef(t) =>
          if t.id in tasks {
            tasks := tasks[t.id := t];
          }
        case SubtaskRef(s) =>
          if s.id in subtasks {
            subtasks := subtasks[s.id := s];
          }
        case EpicRef(e) =>
          if e.id in epics {
            epics := epics[e.id := e];
          }
      }
    }

    /** The keys of the map that holds objects of the same class as `r`. */
    function KindKeys(r: Ref): set<int>
      reads this
    {
      match r
      case TaskRef(_) => tasks.Keys
      case EpicRef(_) => epics.Keys
      case SubtaskRef(_) => subtasks.Keys
    }

    /**
     * removeTask: a task is dropped; an epic is dropped after every id of
     * its list is dropped from the subtasks; a subtask is removed from its
     * epic's list (NullPointerException when it has no epic) and dropped;
     * an id stored nowhere changes nothing.
     */
    method RemoveTask(id: int) returns (outcome: Outcome<Exception>)
      modifies this
      modifies if id !in tasks && id !in epics && id in subtasks && subtasks[id].epic != null then {subtasks[id].epic} else {}
      ensures id in old(tasks) ==>
                outcome.Pass? && tasks == old(tasks) - {id} && epics == old(epics) && subtasks == old(subtasks)
      ensures id !in old(tasks) && id in old(epics) ==>
                var ids := old(IdSet(epics[id].subtasks));
                outcome.Pass? && epics == old(epics) - {id} && tasks == old(tasks) && subtasks == Drop(old(subtasks), ids)
      ensures id !in old(tasks) && id !in old(epics) && id in old(subtasks) ==>
                var subtask := old(subtasks[id]);
                var epic := old(subtask.epic);
                tasks == old(tasks) && epics == old(epics) &&
                (epic == null ==> outcome == Fail(NullPointer) && subtasks == old(subtasks)) &&
                (epic != null ==>
                   outcome.Pass? && subtasks == old(subtasks) - {id} &&
                   epic.subtasks == old(RemoveFirst(epic.subtasks, subtask)) &&
                   epic.Header() == old(epic.Header()) && epic.Times() == old(epic.Times()))
      ensures id !in old(tasks) && id !in old(epics) && id !in old(subtasks) ==> outcome.Pass? && unchanged(this)
      ensures old(Valid()) ==> Valid()
    {
      if id in tasks {
        tasks := tasks - {id};
        return Pass;
      } else if id in epics {
        var list := epics[id].subtasks;
        ghost var ids := Ids(list);
        ghost var removed: set<int> := {};
        assert Elements(ids[..0]) == {};
        var i := 0;
        while i < |list|
          invariant 0 <= i <= |list|
          invariant tasks == old(tasks) && epics == old(epics)
          invariant removed == Elements(ids[..i])
          invariant subtasks == Drop(old(subtasks), removed)
          invariant old(Valid()) ==> Valid()
        {
          var subtaskId := list[i].id;
          subtasks := subtasks - {subtaskId};
          ElementsStep(ids, i);
          DropStep(old(subtasks), removed, subtaskId);
          removed := removed + {subtaskId};
          i := i + 1;
        }
        assert ids[..i] == ids;
        epics := epics - {id};
        return Pass;
      } else if id in subtasks {
        var subtask := subtasks[id];
        var epic := subtask.epic;
        if epic == null {
          return Fail(NullPointer);
        }
        epic.subtasks := RemoveFirst(epic.subtasks, subtask);
        subtasks := subtasks - {id};
        return Pass;
      }
      outcome := Pass;
    }
  }

  /**
   * The counter is shared: two managers built over one counter hand out
   * distinct ids, so a task created in one and a task created in the other
   * never share an id.
   */
  method SharedCounter(a: TaskManager, b: TaskManager, x: Task, y: Task)
    requires a != b && a.idCounter == b.idCounter && x != y
    modifies a, b, x, y, a.idCounter
    ensures x.id + 1 == y.id
    ensures x in a.tasks.Values && y in b.tasks.Values
  {
    a.CreateNewTask(x);
    assert a.tasks[x.id] == x;
    b.CreateNewTask(y);
    assert b.tasks[y.id] == y;
  }
}
