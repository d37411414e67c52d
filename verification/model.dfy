/**
 * The entities of the tracker: Task, Epic and Subtask. Epic and Subtask
 * extend Task in the program; here they are three classes with the same
 * header fields, and `Ref` stands for a reference of static type Task that
 * may point at any of the three.
 */
module Model {
  import opened Wrappers
  import opened Exceptions
  import opened Schedule

  datatype TaskStatus = NEW | IN_PROGRESS | DONE

  datatype TaskType = TASK | EPIC | SUBTASK

  /** The fields every task kind has and the setters assign: id, status, name, description. */
  datatype Fields = Fields(id: int, status: TaskStatus, name: Option<string>, description: Option<string>)

  /** Task.durationValidate: a duration of zero or fewer seconds is refused. */
  function DurationValidate(seconds: int): (r: Result<PositiveSeconds, Exception>)
    ensures r.Success? <==> seconds > 0
    ensures r.Success? ==> r.value == seconds
    ensures r.Failure? ==> r.error == IllegalArgument
  {
    if seconds <= 0 then Failure(IllegalArgument) else Success(seconds)
  }

  /**
   * The duration check of the timed Task constructor: an absent duration is
   * kept absent, a present one must pass durationValidate.
   */
  function ValidDuration(duration: Option<int>): (r: Result<Option<PositiveSeconds>, Exception>)
    ensures r.Success? <==> duration.None? || duration.value > 0
    ensures r.Success? ==> r.value == duration
  {
    match duration
    case None => Success(None)
    case Some(d) =>
      match DurationValidate(d)
      case Success(v) => Success(Some(v))
      case Failure(e) => Failure(e)
  }

  class Task {
    var id: int
    var status: TaskStatus
    var name: Option<string>
    var description: Option<string>
    const startTime: Option<int>
    const duration: Option<PositiveSeconds>

    /**
     * Task(name, description, startTime, duration) with a duration that
     * passed validation; Task() and Task(name, description) are this
     * constructor with the missing arguments absent.
     */
    constructor (name: Option<string>, description: Option<string>,
                 startTime: Option<int>, duration: Option<PositiveSeconds>)
      ensures Header() == Fields(0, NEW, name, description)
      ensures this.startTime == startTime && this.duration == duration
    {
      this.id := 0;
      this.status := NEW;
      this.name := name;
      this.description := description;
      this.startTime := startTime;
      this.duration := duration;
    }

    function Header(): Fields
      reads this
    {
      Fields(id, status, name, description)
    }

    function TimeSpan(): Span {
      Span(startTime, duration)
    }
  }

  /** new Task(name, description, startTime, duration): refuses a duration that is not positive. */
  method NewTask(name: Option<string>, description: Option<string>, startTime: Option<int>, duration: Option<int>)
    returns (r: Result<Task, Exception>)
    ensures r.Failure? <==> duration.Some? && duration.value <= 0
    ensures r.Failure? ==> r.error == IllegalArgument
    ensures r.Success? ==> fresh(r.value) && r.value.Header() == Fields(0, NEW, name, description)
    ensures r.Success? ==> r.value.startTime == startTime && r.value.duration == duration
  {
    var checked := ValidDuration(duration);
    if checked.Failure? {
      return Failure(checked.error);
    }
    var task := new Task(name, description, startTime, checked.value);
    return Success(task);
  }

  /** ArrayList.contains over subtasks, which compares them with Task.equals: by id. */
  predicate Contains(list: seq<Subtask>, s: Subtask)
    reads list, s
  {
    ContainsId(list, s.id)
  }

  predicate ContainsId(list: seq<Subtask>, id: int)
    reads list
  {
    exists i :: 0 <= i < |list| && list[i].id == id
  }

  /** The list after ArrayList.add guarded by contains, as Epic.addSubtask does. */
  function WithSubtask(list: seq<Subtask>, s: Subtask): seq<Subtask>
    reads list, s
  {
    if Contains(list, s) then list else list + [s]
  }

  /** ArrayList.remove(Object): drops the first subtask equal to s (by id), if there is one. */
  function RemoveFirst(list: seq<Subtask>, s: Subtask): seq<Subtask>
    reads list, s
  {
    if list == [] then []
    else if list[0].id == s.id then list[1..]
    else [list[0]] + RemoveFirst(list[1..], s)
  }

  /** The position of the first subtask with the given id, or the length of the list when there is none. */
  function IndexOf(list: seq<Subtask>, id: int): (i: nat)
    reads list
    ensures i <= |list|
    ensures i < |list| ==> list[i].id == id
    ensures forall j :: 0 <= j < i ==> list[j].id != id
  {
    if list == [] then 0
    else if list[0].id == id then 0
    else 1 + IndexOf(list[1..], id)
  }

  /**
   * remove(Object) leaves a list without an equal subtask as it is, and
   * otherwise cuts out exactly the first equal one.
   */
  lemma {:induction false} RemoveFirstCuts(list: seq<Subtask>, s: Subtask)
    ensures var i := IndexOf(list, s.id);
            RemoveFirst(list, s) == if i < |list| then list[..i] + list[i + 1..] else list
  {
    if list != [] && list[0].id != s.id {
      var tail := list[1..];
      RemoveFirstCuts(tail, s);
      var i := IndexOf(tail, s.id);
      if i < |tail| {
        assert list[..i + 1] == [list[0]] + tail[..i];
        assert list[i + 2..] == tail[i + 1..];
      } else {
        assert [list[0]] + tail == list;
      }
    }
  }

  /** The list holds a subtask equal to s exactly when the search for its id stops inside the list. */
  lemma ContainsIndexOf(list: seq<Subtask>, s: Subtask)
    ensures Contains(list, s) <==> IndexOf(list, s.id) < |list|
  {
    if Contains(list, s) {
      var k :| 0 <= k < |list| && list[k].id == s.id;
    }
  }

  /** No two subtasks of the list have the same id. */
  predicate DistinctIds(list: seq<Subtask>)
    reads list
  {
    forall i, j :: 0 <= i < j < |list| ==> list[i].id != list[j].id
  }

  function Spans(list: seq<Subtask>): (r: seq<Span>)
    ensures |r| == |list|
    ensures forall i :: 0 <= i < |list| ==> r[i] == list[i].TimeSpan()
  {
    if list == [] then [] else Spans(list[..|list| - 1]) + [list[|list| - 1].TimeSpan()]
  }

  function Statuses(list: seq<Subtask>): (r: seq<TaskStatus>)
    reads list
    ensures |r| == |list|
    ensures forall i :: 0 <= i < |list| ==> r[i] == list[i].status
  {
    if list == [] then [] else Statuses(list[..|list| - 1]) + [list[|list| - 1].status]
  }

  class Epic {
    var id: int
    var status: TaskStatus
    var name: Option<string>
    var description: Option<string>
    var startTime: Option<int>
    var duration: Option<int>
    var endTime: Option<int>
    var subtasks: seq<Subtask>

    /** Epic() and Epic(name, description): an epic with no subtasks and no times. */
    constructor (name: Option<string>, description: Option<string>)
      ensures Header() == Fields(0, NEW, name, description)
      ensures Times() == NoTimes && subtasks == []
    {
      this.id := 0;
      this.status := NEW;
      this.name := name;
      this.description := description;
      this.startTime := None;
      this.duration := None;
      this.endTime := None;
      this.subtasks := [];
    }

    /**
     * Epic(name, description, subtasks): takes the list as its own, links
     * every subtask to the new epic and folds each subtask's times in, in
     * list order.
     */
    constructor WithSubtasks(name: Option<string>, description: Option<string>, list: seq<Subtask>)
      modifies list
      ensures Header() == Fields(0, NEW, name, description)
      ensures subtasks == list
      ensures forall s :: s in list ==> s.epic == this
      ensures forall s :: s in list ==> s.Header() == old(s.Header())
      ensures Times() == Aggregate(NoTimes, Spans(list))
    {
      this.id := 0;
      this.status := NEW;
      this.name := name;
      this.description := description;
      this.startTime := None;
      this.duration := None;
      this.endTime := None;
      this.subtasks := list;
      new;
      ghost var spans := Spans(list);
      var i := 0;
      while i < |list|
        invariant 0 <= i <= |list|
        invariant subtasks == list
        invariant Header() == Fields(0, NEW, name, description)
        invariant forall j :: 0 <= j < i ==> list[j].epic == this
        invariant forall s :: s in list ==> s.Header() == old(s.Header())
        invariant Times() == Aggregate(NoTimes, spans[..i])
      {
        Adopt(list[i]);
        AggregateStep(NoTimes, spans, i);
        i := i + 1;
      }
      assert spans[..i] == spans;
    }

    /** One step of the constructor's loop over a list that already holds the subtask. */
    method Adopt(s: Subtask)
      modifies this, s
      ensures s.epic == this && s.Header() == old(s.Header())
      ensures subtasks == old(subtasks) && Header() == old(Header())
      ensures Times() == UpdatedTimes(old(Times()), s.TimeSpan())
    {
      if s.epic != this {
        // subtask.setEpic(this): the epic's list holds the subtask already, so setEpic only assigns
        s.epic := this;
      }
      UpdateTime(s);
    }

    function Header(): Fields
      reads this
    {
      Fields(id, status, name, description)
    }

    function Times(): EpicTimes
      reads this
    {
      EpicTimes(startTime, duration, endTime)
    }

    /**
     * Epic.addSubtask: appends the subtask unless an equal one is in the
     * list, links it to this epic and folds its times in.
     */
    method AddSubtask(s: Subtask)
      modifies this, s`epic
      ensures subtasks == WithSubtask(old(subtasks), s)
      ensures Contains(subtasks, s) && s.epic == this
      ensures old(DistinctIds(subtasks)) ==> DistinctIds(subtasks)
      ensures Times() == UpdatedTimes(old(Times()), s.TimeSpan())
      ensures Header() == old(Header()) && s.Header() == old(s.Header())
    {
      if !Contains(subtasks, s) {
        subtasks := subtasks + [s];
        assert subtasks[|subtasks| - 1] == s;
      }
      // subtask.setEpic(this): the list now holds the subtask, so setEpic only assigns
      s.epic := this;
      UpdateTime(s);
    }

    /**
     * Epic.updateSubtask: removes the old subtask from the list and its times
     * from the epic, then adds the new subtask. A NullPointerException from
     * removeTime stops it after the partial update.
     */
    method UpdateSubtask(oldSubtask: Subtask, newSubtask: Subtask) returns (outcome: Outcome<Exception>)
      modifies this, newSubtask
      ensures var removal := RemovedTimes(old(Times()), oldSubtask.TimeSpan());
              var remaining := old(RemoveFirst(subtasks, oldSubtask));
              if removal.completed then
                outcome == Pass && subtasks == WithSubtask(remaining, newSubtask) && newSubtask.epic == this &&
                Times() == UpdatedTimes(removal.times, newSubtask.TimeSpan())
              else
                outcome == Fail(NullPointer) && subtasks == remaining && Times() == removal.times &&
                newSubtask.epic == old(newSubtask.epic)
      ensures Header() == old(Header()) && newSubtask.Header() == old(newSubtask.Header())
    {
      subtasks := RemoveFirst(subtasks, oldSubtask);
      var completed := RemoveTime(oldSubtask);
      if !completed {
        return Fail(NullPointer);
      }
      AddSubtask(newSubtask);
      return Pass;
    }

    /** Epic.updateTime, specified by Schedule.UpdatedTimes. */
    method UpdateTime(s: Subtask)
      modifies this
      ensures Times() == UpdatedTimes(old(Times()), s.TimeSpan())
      ensures Header() == old(Header()) && subtasks == old(subtasks)
    {
      var newStart := s.startTime;
      var newDuration := s.duration;
      var newEnd := s.TimeSpan().End();
      if startTime.None? || newStart.None? || startTime.value > newStart.value {
        startTime := newStart;
      }
      if duration.None? {
        duration := if newDuration.Some? then Some(newDuration.value as int) else None;
      } else if newDuration.Some? {
        duration := Some(duration.value + newDuration.value);
      }
      if endTime.None? || newEnd.None? || newEnd.value > endTime.value {
        endTime := newEnd;
      }
    }

    /**
     * Epic.removeTime, specified by Schedule.RemovedTimes; false means it
     * threw a NullPointerException after the updates made so far.
     */
    method RemoveTime(s: Subtask) returns (completed: bool)
      modifies this
      ensures Times() == RemovedTimes(old(Times()), s.TimeSpan()).times
      ensures completed == RemovedTimes(old(Times()), s.TimeSpan()).completed
      ensures Header() == old(Header()) && subtasks == old(subtasks)
    {
      var oldEnd := s.TimeSpan().End();
      if duration.Some? {
        if s.duration.None? {
          return false;
        }
        duration := if duration.value - s.duration.value == 0 then None else Some(duration.value - s.duration.value);
      }
      if startTime.Some? {
        if s.startTime.None? {
          return false;
        }
        if startTime.value == s.startTime.value {
          startTime := None;
        }
      }
      if endTime.Some? {
        if oldEnd.None? {
          return false;
        }
        if endTime.value == oldEnd.value {
          endTime := None;
        }
      }
      return true;
    }
  }

  class Subtask {
    var id: int
    var status: TaskStatus
    var name: Option<string>
    var description: Option<string>
    const startTime: Option<int>
    const duration: Option<PositiveSeconds>
    var epic: Epic?

    /** Subtask(): no epic. */
    constructor ()
      ensures Header() == Fields(0, NEW, None, None)
      ensures startTime == None && duration == None && epic == null
    {
      id := 0;
      status := NEW;
      name := None;
      description := None;
      startTime := None;
      duration := None;
      epic := null;
    }

    /**
     * Subtask(name, description) and Subtask(name, description, startTime,
     * duration) once the duration passed validation: the subtask gets a fresh
     * Epic whose only subtask it is.
     */
    constructor Attached(name: Option<string>, description: Option<string>,
                         startTime: Option<int>, duration: Option<PositiveSeconds>)
      ensures Header() == Fields(0, NEW, name, description)
      ensures this.startTime == startTime && this.duration == duration
      ensures epic != null && fresh(epic)
      ensures epic.Header() == Fields(0, NEW, None, None)
      ensures epic.subtasks == [this]
      ensures epic.Times() == UpdatedTimes(NoTimes, TimeSpan())
    {
      this.id := 0;
      this.status := NEW;
      this.name := name;
      this.description := description;
      this.startTime := startTime;
      this.duration := duration;
      this.epic := null;
      new;
      var e := new Epic(None, None);
      e.AddSubtask(this);
    }

    /**
     * Subtask(name, description, epic) and Subtask(name, description,
     * startTime, duration, epic) once the duration passed validation:
     * setEpic(epic). The new subtask has id 0, so it is taken to be in the
     * epic already when the epic holds a subtask with id 0.
     */
    constructor Linked(name: Option<string>, description: Option<string>,
                       startTime: Option<int>, duration: Option<PositiveSeconds>, e: Epic?)
      modifies e
      ensures Header() == Fields(0, NEW, name, description)
      ensures this.startTime == startTime && this.duration == duration
      ensures epic == e
      ensures e != null && !old(ContainsId(e.subtasks, 0)) ==>
                e.subtasks == old(e.subtasks) + [this] && e.Times() == UpdatedTimes(old(e.Times()), TimeSpan())
      ensures e != null && old(ContainsId(e.subtasks, 0)) ==>
                e.subtasks == old(e.subtasks) && e.Times() == old(e.Times())
      ensures e != null ==> e.Header() == old(e.Header())
    {
      this.id := 0;
      this.status := NEW;
      this.name := name;
      this.description := description;
      this.startTime := startTime;
      this.duration := duration;
      this.epic := null;
      new;
      SetEpic(e);
    }

    function Header(): Fields
      reads this
    {
      Fields(id, status, name, description)
    }

    function TimeSpan(): Span {
      Span(startTime, duration)
    }

    /**
     * Subtask.setEpic: links the subtask to the epic, and adds it to the
     * epic's list (with its times) unless an equal subtask is there already.
     * The epic it was linked to before keeps it in its list.
     */
    method SetEpic(e: Epic?)
      modifies this, e
      ensures epic == e
      ensures e != null && !old(Contains(e.subtasks, this)) ==>
                e.subtasks == old(e.subtasks) + [this] && e.Times() == UpdatedTimes(old(e.Times()), TimeSpan())
      ensures e != null && old(Contains(e.subtasks, this)) ==>
                e.subtasks == old(e.subtasks) && e.Times() == old(e.Times())
      ensures e != null ==> Contains(e.subtasks, this) && e.Header() == old(e.Header())
      ensures Header() == old(Header())
    {
      epic := e;
      if e != null && !Contains(e.subtasks, this) {
        e.AddSubtask(this);
      }
    }
  }

  /** A subtask created through Subtask(name, description, ...) with a duration that is validated first. */
  method NewSubtask(name: Option<string>, description: Option<string>, startTime: Option<int>, duration: Option<int>)
    returns (r: Result<Subtask, Exception>)
    ensures r.Failure? <==> duration.Some? && duration.value <= 0
    ensures r.Failure? ==> r.error == IllegalArgument
    ensures r.Success? ==> fresh(r.value) && fresh(r.value.epic) && r.value.epic.subtasks == [r.value]
    ensures r.Success? ==> r.value.Header() == Fields(0, NEW, name, description)
    ensures r.Success? ==> r.value.startTime == startTime && r.value.duration == duration
    ensures r.Success? ==> r.value.epic.Header() == Fields(0, NEW, None, None)
    ensures r.Success? ==> r.value.epic.Times() == UpdatedTimes(NoTimes, r.value.TimeSpan())
  {
    var checked := ValidDuration(duration);
    if checked.Failure? {
      return Failure(checked.error);
    }
    var s := new Subtask.Attached(name, description, startTime, checked.value);
    return Success(s);
  }

  /**
   * A subtask created through Subtask(name, description, startTime, duration,
   * epic): the duration is validated before setEpic, so a refused duration
   * leaves the epic as it was.
   */
  method NewLinkedSubtask(name: Option<string>, description: Option<string>, startTime: Option<int>,
                          duration: Option<int>, e: Epic?)
    returns (r: Result<Subtask, Exception>)
    modifies e
    ensures r.Failure? <==> duration.Some? && duration.value <= 0
    ensures r.Failure? ==> r.error == IllegalArgument && (e != null ==> unchanged(e))
    ensures r.Success? ==> fresh(r.value) && r.value.Header() == Fields(0, NEW, name, description)
    ensures r.Success? ==> r.value.startTime == startTime && r.value.duration == duration && r.value.epic == e
    ensures r.Success? && e != null && !old(ContainsId(e.subtasks, 0)) ==>
              e.subtasks == old(e.subtasks) + [r.value] && e.Times() == UpdatedTimes(old(e.Times()), r.value.TimeSpan())
    ensures r.Success? && e != null && old(ContainsId(e.subtasks, 0)) ==>
              e.subtasks == old(e.subtasks) && e.Times() == old(e.Times())
    ensures e != null ==> e.Header() == old(e.Header())
  {
    var checked := ValidDuration(duration);
    if checked.Failure? {
      return Failure(checked.error);
    }
    var s := new Subtask.Linked(name, description, startTime, checked.value, e);
    return Success(s);
  }

  /** A reference of static type Task, pointing at a task, an epic or a subtask. */
  datatype Ref = TaskRef(task: Task) | EpicRef(epic: Epic) | SubtaskRef(subtask: Subtask) {

    function Obj(): object {
      match this
      case TaskRef(t) => t
      case EpicRef(e) => e
      case SubtaskRef(s) => s
    }

    /** getType(), overridden by Epic and Subtask. */
    function Type(): TaskType {
      match this
      case TaskRef(_) => TASK
      case EpicRef(_) => EPIC
      case SubtaskRef(_) => SUBTASK
    }

    function Id(): int
      reads Obj()
    {
      match this
      case TaskRef(t) => t.id
      case EpicRef(e) => e.id
      case SubtaskRef(s) => s.id
    }

    function StartTime(): Option<int>
      reads Obj()
    {
      match this
      case TaskRef(t) => t.startTime
      case EpicRef(e) => e.startTime
      case SubtaskRef(s) => s.startTime
    }

    /** getStartTime() and getEndTime(); an epic answers with its own fields. */
    function TimeWindow(): Window
      reads Obj()
    {
      match this
      case TaskRef(t) => t.TimeSpan().TimeWindow()
      case EpicRef(e) => Window(e.startTime, e.endTime)
      case SubtaskRef(s) => s.TimeSpan().TimeWindow()
    }
  }

  /** Task.equals: the same class and the same id. */
  predicate Equals(a: Ref, b: Ref)
    reads a.Obj(), b.Obj()
  {
    a.Type() == b.Type() && a.Id() == b.Id()
  }

  /** Task.equals is an equivalence, and every reference equals itself. */
  lemma EqualsIsEquivalence(a: Ref, b: Ref, c: Ref)
    ensures Equals(a, a)
    ensures Equals(a, b) ==> Equals(b, a)
    ensures Equals(a, b) && Equals(b, c) ==> Equals(a, c)
  {
  }
}
