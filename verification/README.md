# java-kanban task tracker, modelled in Dafny

This project models the core of the java-kanban task tracker:

- the entities `Task`, `Epic` and `Subtask`;
- the in-memory manager `InMemoryTaskManager`, which holds:
  - three maps from id to task, epic and subtask;
  - one id counter shared by the three kinds;
  - a browsing history;
  - a prioritized set of timed tasks, ordered by start time;
- the bounded `InMemoryHistoryManager`;
- the earlier `TaskManager` class;
- the line format of `FileBackedTaskManager` and its reload loop.

Instants and durations are whole seconds. A Java `int` is an unbounded Dafny `int`, except where the line format reads a number back, and in the counter `loadFromFile` leaves; the `int` range is written out in those two places.

Modules, one per file:

- `Wrappers` and `Exceptions` (`wrappers.dfy`): `Option`, `Result` and `Outcome`, and the exceptions the code can raise. A thrown exception is a `Failure`/`Fail` value, with the partial state the Java code leaves behind.
- `Schedule` (`schedule.dfy`): `Task.getEndTime`, `Task.isIntersect`, and the arithmetic of `Epic.updateTime` and `Epic.removeTime`, as functions on values.
- `Model` (`model.dfy`): the three entity classes. Their fields change in place, and their methods are proved against `Schedule`. `Ref` is a reference of static type `Task`.
- `History` (`history.dfy`): two histories.
  - `InMemoryHistoryManager` is the bounded list as written.
  - `HistoryLog` is the history the manager uses through its interface: one entry per id, the latest view last, removal by id.
- `Prioritized` (`prioritized.dfy`): the `TreeSet` with its start-time comparator. It is a map from the start an element had when it was added to the element, so a second element with an equal start is not added, and `remove` drops whatever element has that start.
- `Engine` (`engine.dfy`): `InMemoryTaskManager`.
- `OldTaskManager` (`old_task_manager.dfy`): `TaskManager.java`, with its static counter as one object shared by every manager.
- `Decimal` (`decimal.dfy`): `String.valueOf(int)` and `Integer.parseInt`.
- `Csv` (`csv.dfy`): `toString(Task)` and `fromString(String)`, over a `Record` value.
- `FileBacked` (`reload.dfy`): the lines `save` writes and the loop of `loadFromFile`, with a file given as its sequence of lines.

Behaviours of the code as written, proved as lemmas:

- Two tasks with equal starts but no durations do not intersect (`Schedule.UntimedNeverIntersects`). The test at test/model/TaskTest.java:85-103 expects them to, but the model follows the code.
- `updatePrioritizedTaskSet` skips the overlap test when the stored version has no start (`Prioritized.UntimedStoredSkipsOverlapCheck`).
- An epic saved with an empty description does not load back (`Csv.EmptyEpicDescriptionUnreadable`). Its last field is empty, and `split` drops it.
- A task whose start lies beyond the `int` range of seconds (after 2038-01-19) does not load back (`Csv.LateStartUnreadable`). The start is written as a `long` and read with `Integer.parseInt`.
- test/service/FileBackedTaskManagerTest.java:33-52 expects five-field lines for a task, and six fields for a subtask. `toString` writes seven fields for a task and eight for a subtask, because it writes start and duration even when they are null. A five-field task line still reads back (`Csv.FiveFieldTaskLine`); a five-field subtask line does not (`Csv.FiveFieldSubtaskLine`).

## Model

| member | source | states |
|---|---|---|
| Schedule.Span.End | src/model/Task.java:42-48 | an end time exists exactly when start and duration both do, and it lies one duration after the start |
| Schedule.IntersectSymmetric | src/model/Task.java:111-120 | `a.isIntersect(b)` equals `b.isIntersect(a)` |
| Schedule.IntersectIffOverlap | src/model/Task.java:115-119 | two timed tasks intersect exactly when each starts before the other ends |
| Schedule.UntimedNeverIntersects | src/model/Task.java:112-114 | a task without a start or a duration intersects nothing, on either side, even a task with the same start |
| Schedule.TouchingSpansDoNotIntersect | src/model/Task.java:115-119 | a task of positive length intersects itself; a task that starts where another ends does not intersect it |
| Schedule.IsIntersect | src/model/Task.java:111-120 | definition of isIntersect: false when either end time is null, otherwise overlap with strict comparisons; its properties are `IntersectSymmetric`, `IntersectIffOverlap`, `UntimedNeverIntersects` and `TouchingSpansDoNotIntersect` |
| Schedule.UpdatedTimes | src/model/Epic.java:74-91 | for a subtask with start and duration, a set start becomes the earlier start and a set end the later end; a subtask without a start clears start and end; one without a duration leaves the duration; an end is never kept without a start |
| Schedule.UpdatedDuration | src/model/Epic.java:82-86 | an epic without a duration takes the subtask's; a set duration and a subtask's duration are summed |
| Schedule.RemovedTimes | src/model/Epic.java:93-106 | removeTime completes exactly when the subtask has each value the epic has; it then subtracts the subtask's duration, and the duration becomes null exactly when the two were equal (the difference is zero); a null duration stays null; the start (end) is cleared exactly when it equals the subtask's |
| Schedule.AggregateOfTimed | src/model/Epic.java:74-91 | for subtasks that all have a start and a duration, the epic starts at the earliest start, lasts the sum of the durations and ends at the latest end |
| Schedule.AggregateBounds | src/model/Epic.java:74-91 | the earliest start and the latest end bound every subtask and are attained by one |
| Schedule.RemoveUndoesOnlyAdd | src/model/Epic.java:93-106 | removing the only timed subtask leaves no start, duration or end |
| Schedule.ReplaceOnlyByUntimed | src/model/Epic.java:93-106 | removing the only timed subtask and adding an untimed one leaves start, duration and end all null |
| Model.DurationValidate | src/model/Task.java:122-128 | a duration of zero or fewer seconds is refused with IllegalArgumentException; a positive one passes |
| Model.ValidDuration | src/model/Task.java:29-31 | an absent duration is accepted and kept absent; a present one is accepted exactly when positive |
| Model.NewTask | src/model/Task.java:26-32 | the timed constructor fails with IllegalArgumentException exactly for a non-positive duration; otherwise the new task has id 0, status NEW and the given values |
| Model.Task.constructor | src/model/Task.java:16-32 | a new task has status NEW, id 0 and the given name, description, start and duration |
| Model.RemoveFirstCuts | src/model/Epic.java:40 | `ArrayList.remove` leaves a list without an equal subtask unchanged and otherwise cuts out exactly the first equal one |
| Model.Epic.constructor | src/model/Epic.java:11-18 | a new epic has status NEW, no subtasks and null start, duration and end |
| Model.Epic.WithSubtasks | src/model/Epic.java:20-29 | the epic's list holds exactly the given subtasks in order, every one of them is linked to the epic with its own fields kept, and the epic's times are the fold of updateTime over the list |
| Model.Epic.AddSubtask | src/model/Epic.java:31-37 | the subtask is appended unless an equal one (same id) is in the list; it is then in the list and linked to this epic; ids stay distinct; the times are updated |
| Model.Epic.UpdateSubtask | src/model/Epic.java:39-43 | the old subtask leaves the list and its times are removed; if that completes, the new subtask is added; otherwise NullPointerException with the partial update |
| Model.Epic.UpdateTime | src/model/Epic.java:74-91 | the epic's times become `UpdatedTimes` of its times and the subtask's |
| Model.Epic.RemoveTime | src/model/Epic.java:93-106 | the epic's times become `RemovedTimes`, and the result says whether a NullPointerException was thrown |
| Model.Subtask.constructor | src/model/Subtask.java:9-10 | a subtask with no epic, status NEW and id 0 |
| Model.Subtask.Attached | src/model/Subtask.java:23-27 | the subtask gets a fresh epic whose list is exactly this subtask and whose times are those of that one subtask |
| Model.Subtask.Linked | src/model/Subtask.java:29-32 | the subtask is linked to the given epic; it is appended with its times unless the epic holds a subtask with id 0, in which case list and times are kept |
| Model.Subtask.SetEpic | src/model/Subtask.java:38-43 | the subtask's epic is set; a non-null epic then holds an equal subtask: this one is appended with its times if it held none, else list and times are kept |
| Model.NewSubtask | src/model/Subtask.java:23-27 | refuses a non-positive duration with IllegalArgumentException; otherwise a fresh subtask with id 0, status NEW and the given name, description, start and duration, in a fresh epic with id 0, status NEW, no name or description, whose list is exactly that subtask and whose times are that subtask's |
| Model.NewLinkedSubtask | src/model/Subtask.java:29-32 | refuses a non-positive duration with IllegalArgumentException before `setEpic`, leaving the epic unchanged; otherwise a fresh subtask with id 0, status NEW and the given values, linked to the epic, which appends it with its times unless it holds a subtask with id 0; the epic's header is kept |
| Model.Ref.Type | src/model/Task.java:82-84 | definition of getType, overridden by Epic and Subtask: TASK, EPIC or SUBTASK by the object's class |
| Model.Equals | src/model/Task.java:86-92 | definition of equals: the same class and the same id; `EqualsIsEquivalence` states its properties |
| Model.EqualsIsEquivalence | src/model/Task.java:86-92 | equality by class and id is reflexive, symmetric and transitive |
| History.Recorded | src/service/InMemoryHistoryManager.java:17-22 | the task is the last entry; below the bound the list grows by exactly that entry; a list within the bound stays within it |
| History.InMemoryHistoryManager.constructor | src/service/InMemoryHistoryManager.java:12-14 | the history starts empty |
| History.InMemoryHistoryManager.AddTask | src/service/InMemoryHistoryManager.java:17-22 | appends the task, null included and without deduplication, and drops the first entry beyond ten |
| History.InMemoryHistoryManager.GetHistory | src/service/InMemoryHistoryManager.java:25-27 | returns the manager's own list object, so a change to it changes the history |
| History.KeepsMostRecent | src/service/InMemoryHistoryManager.java:17-22 | from at most ten entries, any sequence of adds leaves exactly the ten latest entries in order |
| History.OverflowKeepsTenLatest | src/service/InMemoryHistoryManager.java:19-21 | one add followed by ten adds of the same task leaves ten copies of that task |
| History.HistoryLog.AddTask | test/service/HistoryManagerTest.java:63-88 | null is ignored; otherwise the earlier entry with the task's id is dropped and the task becomes the last entry; ids stay unique |
| History.HistoryLog.Remove | test/service/HistoryManagerTest.java:90-150 | drops the entry with the id, keeping the others in order |
| History.HistoryLog.GetHistory | test/service/HistoryManagerTest.java:69-75 | a new sequence of the viewed tasks, oldest first |
| History.ReviewMovesToEnd | test/service/HistoryManagerTest.java:78-88 | viewing t, s, then t again leaves s followed by t |
| Prioritized.IndexAdd | src/service/InMemoryTaskManager.java:22 | adding under a start already present changes nothing; otherwise the element is filed under its start and the rest is kept |
| Prioritized.IndexRemove | src/service/InMemoryTaskManager.java:22 | removing drops the element with that start; a null start throws NullPointerException exactly when the set is not empty |
| Prioritized.RemoveEach | src/service/InMemoryTaskManager.java:249 | removing an epic's subtasks in order only removes; with every start present it completes and drops exactly those starts; an empty set stays empty |
| Prioritized.RemoveEachStops | src/service/InMemoryTaskManager.java:249 | once a removal has thrown, the later removals do not happen |
| Prioritized.NoIntersectWhenEmptyOrUntimed | src/service/InMemoryTaskManager.java:255-266 | nothing overlaps an empty set, and a task without a start or duration overlaps nothing |
| Prioritized.UpdatedIndex | src/service/InMemoryTaskManager.java:228-243 | with a timed stored version, the update is refused exactly when the updated task overlaps the set without the stored start; refused, the stored version is put back under its start; accepted, the updated task is added to the set without that start if timed; without a timed stored version it is always accepted and added if timed |
| Prioritized.AddEachTimedContents | src/service/InMemoryTaskManager.java:109-129 | creating a list of subtasks in turn never displaces an element of the set; every new element is one of the subtasks under its own start (never an epic); every timed subtask's start is taken; an untimed list leaves the set as it was |
| Prioritized.AddEachTimedStep | src/service/InMemoryTaskManager.java:109-129 | creating one more subtask of the list extends the set by that subtask if it is timed |
| Prioritized.RefusedUpdateRestoresIndex | src/service/InMemoryTaskManager.java:228-236 | a refused update leaves the set as it was |
| Prioritized.AcceptedUpdateReplacesEntry | src/service/InMemoryTaskManager.java:228-242 | an accepted update of a timed task by a timed task swaps the entry and keeps every other one |
| Prioritized.UntimedStoredSkipsOverlapCheck | src/service/InMemoryTaskManager.java:231-237 | a stored version without a start lets any update through, overlapping or not |
| Prioritized.HasIntersect | src/service/InMemoryTaskManager.java:255-266 | hasIntersect: an epic overlaps when one of its subtasks overlaps an element of the set, any other task when it does itself; nothing overlaps an empty set |
| Engine.EpicStatusInProgress | src/service/InMemoryTaskManager.java:196-216 | an epic is IN_PROGRESS exactly when a subtask is, or it has both a NEW and a DONE subtask |
| Engine.EpicStatusCases | src/service/InMemoryTaskManager.java:196-216 | NEW exactly when no subtask is IN_PROGRESS or DONE; DONE exactly when there are subtasks and all are DONE |
| Engine.EpicStatusIgnoresOrder | src/service/InMemoryTaskManager.java:196-216 | the status does not depend on the order of the subtasks |
| Engine.EpicStatus | src/service/InMemoryTaskManager.java:196-216 | definition of the status checkEpicStatus computes: NEW when every status is NEW, else DONE when every one is DONE, else IN_PROGRESS; `EpicStatusInProgress`, `EpicStatusCases` and `CountStatuses` state its properties |
| Engine.CountStatuses | src/service/InMemoryTaskManager.java:200-215 | the counting loop with its early break yields `EpicStatus` of the subtasks' statuses |
| Engine.FiledContents | src/service/InMemoryTaskManager.java:109 | creating an epic's subtasks in turn files the j-th under the j-th consecutive id and keeps every other key |
| Engine.InMemoryTaskManager.constructor | src/service/InMemoryTaskManager.java:17-23 | empty maps, empty history, empty set, counter 0, and the id invariant holds |
| Engine.InMemoryTaskManager.CounterIsFresh | src/service/InMemoryTaskManager.java:92-94 | under the invariant, the counter is a key of none of the three maps |
| Engine.InMemoryTaskManager.GetAllTasks | src/service/InMemoryTaskManager.java:26-28 | a new sequence holding every stored task once |
| Engine.InMemoryTaskManager.GetAllEpics | src/service/InMemoryTaskManager.java:31-33 | a new sequence holding every stored epic once |
| Engine.InMemoryTaskManager.GetAllSubtasks | src/service/InMemoryTaskManager.java:36-38 | a new sequence holding every stored subtask once |
| Engine.InMemoryTaskManager.RemoveFromHistory | src/service/InMemoryTaskManager.java:42 | every id of the set leaves the history |
| Engine.InMemoryTaskManager.RemoveStarts | src/service/InMemoryTaskManager.java:43 | completing, exactly the values' present starts leave the set; it throws NullPointerException only when some value has no start, never on an empty set or when every value has a start |
| Engine.InMemoryTaskManager.ClearAllTasks | src/service/InMemoryTaskManager.java:41-45 | tasks leave the history; completing, their starts leave the set and the map is emptied; it throws NullPointerException, keeping the map, only if a task has no start, never on an empty set; other maps untouched |
| Engine.InMemoryTaskManager.ClearAllEpics | src/service/InMemoryTaskManager.java:48-53 | epics and subtasks leave the history; subtasks leave the set and both maps are emptied, unless a subtask without a start throws, which keeps both maps; tasks untouched |
| Engine.InMemoryTaskManager.ClearAllSubtasks | src/service/InMemoryTaskManager.java:56-64 | subtasks leave history, set and map; every stored epic then has an empty list, the one under its own id status NEW, and its id, name, description and times kept; a subtask without a start throws with the map and epics untouched |
| Engine.InMemoryTaskManager.ResetStoredEpics | src/service/InMemoryTaskManager.java:60-63 | every stored epic ends with an empty list, the one stored under its own id is NEW, and each keeps its id, name, description and times |
| Engine.InMemoryTaskManager.ResetEpics | src/service/InMemoryTaskManager.java:60-63 | the loop empties each listed epic and sets NEW each epic that is stored under its id; every stored epic keeps its id, name, description and times |
| Engine.InMemoryTaskManager.GetTask | src/service/InMemoryTaskManager.java:67-71 | the stored task or null; a task becomes the latest history entry |
| Engine.InMemoryTaskManager.GetEpic | src/service/InMemoryTaskManager.java:74-78 | the stored epic or null; an epic becomes the latest history entry |
| Engine.InMemoryTaskManager.GetSubtask | src/service/InMemoryTaskManager.java:81-85 | the stored subtask or null; a subtask becomes the latest history entry |
| Engine.InMemoryTaskManager.CreateNewTask | src/service/InMemoryTaskManager.java:88-99 | an overlapping task is refused with nothing changed; otherwise it takes the counter as id, is stored under it, the counter grows by one, and it enters the set only when timed; the id invariant is kept |
| Engine.InMemoryTaskManager.CheckEpicStatus | src/service/InMemoryTaskManager.java:196-216 | the epic stored under the id gets `EpicStatus` of its subtasks' statuses and nothing else of it changes; an unknown id changes nothing |
| Engine.InMemoryTaskManager.CreateNewSubtask | src/service/InMemoryTaskManager.java:114-131 | accepted exactly when it has an epic with the id of a stored epic and overlaps nothing; then it is filed under the counter, added to its epic with the epic's times updated, the stored epic's status recomputed, and it enters the set only when timed; refused, nothing changes |
| Engine.InMemoryTaskManager.FileSubtask | src/service/InMemoryTaskManager.java:122-129 | the subtask takes the counter as id and key, the counter grows by one, and it enters the set only when timed |
| Engine.InMemoryTaskManager.AddToEpic | src/service/InMemoryTaskManager.java:125-126 | the epic adds the subtask with its times, and the epic stored under that id gets its status recomputed |
| Engine.InMemoryTaskManager.CreateNewEpic | src/service/InMemoryTaskManager.java:102-111 | an epic with an overlapping subtask is refused with nothing changed; otherwise it is stored under the counter with its list, name and description kept, and its subtasks are filed under the next consecutive ids and added to the set when timed; all accepted, the counter grows by one plus the list length and each listed subtask keeps its status, name and description and holds the id of its last place in the list (IdAfter from the counter plus one); a refusal (ManagerCreateTaskException) leaves exactly the subtasks before it filed and in the set; an empty list leaves the epic's status as it was; when every subtask is the epic's own, the epic's times fold in every subtask once more and its status is that of its subtasks |
| Engine.InMemoryTaskManager.StoreEpic | src/service/InMemoryTaskManager.java:106-108 | the epic takes the counter as id and is stored under it, the counter grows by one; its other fields, list and times and the other maps and the set are kept |
| Engine.InMemoryTaskManager.CreateSubtasksOf | src/service/InMemoryTaskManager.java:109 | the epic's subtasks are created in turn, with its list, name, description, tasks and epics kept; all accepted, the counter grows by the list length, the j-th is filed under the old counter plus j, the timed ones enter the set, and each listed subtask keeps its status, name and description and holds the id IdAfter gives it; an empty list leaves the epic's status as it was; the first refusal is ManagerCreateTaskException and leaves exactly the subtasks before it filed and in the set; when every subtask is the epic's own, the epic's times fold in the whole list and the stored epic's status is that of its subtasks |
| Engine.InMemoryTaskManager.CreateNextSubtask | src/service/InMemoryTaskManager.java:109 | one step of the forEach: accepted, the filed prefix of the list (counter, map and set) grows by the i-th subtask, that subtask takes the counter as its id at every place it holds in the list while every listed subtask keeps its status, name, description and epic, and an epic that owns it folds its times in and has its status recomputed; refused, ManagerCreateTaskException with map, counter, set and epic unchanged; the epic keeps its name and description |
| Engine.InMemoryTaskManager.CreateListedSubtask | src/service/InMemoryTaskManager.java:114-131 | createNewSubtask on the i-th subtask of the epic's list: accepted, it is filed under the counter and takes it as its id with its status, name and description kept, the counter grows by one and it enters the set if timed; refused, ManagerCreateTaskException with map, counter, set, epic and subtask unchanged; the list, tasks, epics and every listed subtask's epic are kept, and an epic that owns the subtask folds its times in and has its status recomputed |
| Engine.IdAfterMeans | src/service/InMemoryTaskManager.java:108-121 | after the forEach has filed the first n subtasks from a base id on, the j-th of them holds base + j unless the same subtask comes again later among them, and a subtask not yet reached keeps its id |
| Engine.InMemoryTaskManager.UpdatePrioritizedTaskSet | src/service/InMemoryTaskManager.java:228-243 | the set and the answer are those of `UpdatedIndex`, for the stored version looked up in tasks, then subtasks; no map changes |
| Engine.InMemoryTaskManager.UpdateTask | src/service/InMemoryTaskManager.java:134-162 | a refused update stores nothing and changes no object; otherwise the new version replaces the stored one of its kind when its id is a key; a subtask with an epic is swapped in that epic's list and times and the stored epic's status recomputed, or NullPointerException from removeTime; the updated subtask's id, status, name and description and its epic's id, name and description are kept, and another epic stored under that id changes only its status |
| Engine.InMemoryTaskManager.ReplaceInEpic | src/service/InMemoryTaskManager.java:156-159 | the epic swaps the old subtask for the new in its list and times, and the stored epic's status is recomputed; a NullPointerException leaves the partial update; the new subtask's header and the epic's id, name and description are kept, another epic stored under that id changes only its status (nothing on failure), and the epic's own status changes only when it is the stored one and the update goes through |
| Engine.InMemoryTaskManager.RemoveFromPrioritizedTaskSet | src/service/InMemoryTaskManager.java:245-254 | nothing happens to a task without a start; an epic's subtasks are removed in list order; any other task is removed itself |
| Engine.InMemoryTaskManager.RemoveEachStart | src/service/InMemoryTaskManager.java:249 | the loop over an epic's subtasks leaves the set `RemoveEach` gives, and fails exactly when that does not complete |
| Engine.InMemoryTaskManager.RemoveStoredEpic | src/service/InMemoryTaskManager.java:169-176 | every subtask in the epic's list leaves the subtask map and the history; the subtasks leave the set; the epic leaves its map unless a removal threw |
| Engine.InMemoryTaskManager.ForgetSubtasks | src/service/InMemoryTaskManager.java:170-174 | each listed id leaves the subtask map and the history, and nothing else changes |
| Engine.InMemoryTaskManager.RemoveStoredSubtask | src/service/InMemoryTaskManager.java:177-184 | a subtask without an epic throws NullPointerException with nothing changed, history included; otherwise it leaves its epic's list (the epic's id, name, description and times kept), the stored epic's status is recomputed (a different stored epic changes only its status), and it leaves the set, the map and the history |
| Engine.InMemoryTaskManager.DropSubtaskEntry | src/service/InMemoryTaskManager.java:181-184 | the subtask leaves the set (when timed), the map and the history; the other maps and the counter are kept |
| Engine.InMemoryTaskManager.RemoveFromEpic | src/service/InMemoryTaskManager.java:179-180 | the first equal subtask leaves the epic's list; the epic's id, name, description and times are kept; the stored epic's status is recomputed, a different stored epic changes only its status, and an epic not stored under its id keeps its status |
| Engine.InMemoryTaskManager.RemoveTask | src/service/InMemoryTaskManager.java:165-185 | per kind of the id: a task leaves map and set; an epic's listed subtasks leave map and history, their starts leave the set, and the epic leaves its map unless that throws; a subtask leaves its epic's list (the epic's other fields kept, its status recomputed), the set and the map, or throws NullPointerException without an epic; the id leaves the history unless something threw; an unknown id changes only the history; the id invariant is kept |
| Engine.InMemoryTaskManager.GetSubtasksOfEpic | src/service/InMemoryTaskManager.java:188-190 | the subtasks of the stored epic, in its list order, or NullPointerException exactly when no epic has the id |
| Engine.InMemoryTaskManager.GetHistory | src/service/InMemoryTaskManager.java:219-221 | the viewed tasks, oldest first |
| Engine.InMemoryTaskManager.GetPrioritizedTasks | src/service/InMemoryTaskManager.java:224-226 | every element of the set once, in strictly increasing start order |
| OldTaskManager.StaticCounter.constructor | src/service/TaskManager.java:9 | the static counter starts at 0 |
| OldTaskManager.TaskManager.constructor | src/service/TaskManager.java:14-18 | three empty maps, sharing the given counter |
| OldTaskManager.TaskManager.CounterIsFresh | src/service/TaskManager.java:56-72 | under the invariant, the counter is a key of none of the maps |
| OldTaskManager.TaskManager.GetAllTasks | src/service/TaskManager.java:20-22 | a new sequence holding every stored task once |
| OldTaskManager.TaskManager.GetAllEpics | src/service/TaskManager.java:24-26 | a new sequence holding every stored epic once |
| OldTaskManager.TaskManager.GetAllSubtasks | src/service/TaskManager.java:28-30 | a new sequence holding every stored subtask once |
| OldTaskManager.TaskManager.ClearAllTasks | src/service/TaskManager.java:32-34 | only the task map is emptied |
| OldTaskManager.TaskManager.ClearAllEpics | src/service/TaskManager.java:36-38 | only the epic map is emptied |
| OldTaskManager.TaskManager.ClearAllSubtasks | src/service/TaskManager.java:40-42 | only the subtask map is emptied |
| OldTaskManager.TaskManager.GetTask | src/service/TaskManager.java:44-46 | the stored task exactly when the id is a key |
| OldTaskManager.TaskManager.GetEpic | src/service/TaskManager.java:48-50 | the stored epic exactly when the id is a key |
| OldTaskManager.TaskManager.GetSubtask | src/service/TaskManager.java:52-54 | the stored subtask exactly when the id is a key |
| OldTaskManager.TaskManager.CreateNewTask | src/service/TaskManager.java:56-60 | the task takes the counter as id and is stored under it; the counter grows by one; the invariant is kept |
| OldTaskManager.TaskManager.CreateNewEpic | src/service/TaskManager.java:62-66 | the epic takes the counter as id and is stored under it; its list and times are untouched |
| OldTaskManager.TaskManager.CreateNewSubtask | src/service/TaskManager.java:68-72 | the subtask takes the counter as id and is stored under it; its epic link is untouched |
| OldTaskManager.TaskManager.UpdateId | src/service/TaskManager.java:100-102 | the shared counter grows by one |
| OldTaskManager.TaskManager.UpdateTask | src/service/TaskManager.java:74-83 | the entry is replaced only when the class matches and the id is a key of that class's map; otherwise nothing changes |
| OldTaskManager.TaskManager.RemoveTask | src/service/TaskManager.java:85-98 | a task leaves its map; an epic's listed subtasks leave the subtask map, then the epic leaves; a subtask leaves its epic's list, every other field of the epic kept, and the map (NullPointerException without an epic); an unknown id changes nothing |
| OldTaskManager.SharedCounter | src/service/TaskManager.java:9 | two managers creating one task each hand out consecutive ids from the one static counter |
| Decimal.IntToString | src/service/FileBackedTaskManager.java:54 | a sign exactly for a negative value, then only digits, never a comma |
| Decimal.ParseInt | src/service/FileBackedTaskManager.java:77 | any value it accepts fits an `int` |
| Decimal.ParseIntToString | src/service/FileBackedTaskManager.java:77 | parseInt reads back what valueOf writes exactly when the value fits an `int` |
| Decimal.ValueOfLeadingZero | src/service/FileBackedTaskManager.java:77 | a leading zero does not change the value of a run of digits |
| Decimal.ParseIntLenient | src/service/FileBackedTaskManager.java:77 | for every text that starts with a digit, a leading plus sign or a leading zero does not change what parseInt reads ("+007" is 7) |
| Csv.ParseType | src/service/FileBackedTaskManager.java:78 | `TaskType.valueOf` accepts exactly the three type names |
| Csv.ParseStatus | src/service/FileBackedTaskManager.java:80 | `TaskStatus.valueOf` accepts exactly the three status names |
| Csv.Replace | src/service/FileBackedTaskManager.java:56-57 | the text keeps its length, every comma becomes a dot, every other character is kept, so no comma is left |
| Csv.TextField | src/service/FileBackedTaskManager.java:56-60 | a name or description field never holds a comma |
| Csv.NumberField | src/service/FileBackedTaskManager.java:62-65 | a start or duration field is non-empty and never holds a comma |
| Csv.Fields | src/service/FileBackedTaskManager.java:50-71 | 5 fields for an epic, 7 for a task, 8 for a subtask, none holding a comma, the last of a task or subtask non-empty |
| Csv.Join | src/service/FileBackedTaskManager.java:53-70 | the `StringJoiner` text starts with the first field, and for comma-free fields holds a comma exactly when there are two or more |
| Csv.ToLine | src/service/FileBackedTaskManager.java:50-71 | definition of toString(Task): the joined fields; `LineStartsWithId` and `LineRoundTrip` state its properties |
| Csv.LineStartsWithId | src/service/FileBackedTaskManager.java:53-54 | a saved line starts with the id and a comma |
| Csv.Pieces | src/service/FileBackedTaskManager.java:75 | the text between commas: at least one piece, none holding a comma |
| Csv.Split | src/service/FileBackedTaskManager.java:75 | `String.split(",")`: a text without a comma is its one field |
| Csv.SplitHasNoSeparator | src/service/FileBackedTaskManager.java:75 | no field split out of a line holds a comma |
| Csv.DropTrailingEmpty | src/service/FileBackedTaskManager.java:75 | split keeps a prefix of the pieces, ending in a non-empty one |
| Csv.DroppedAreEmpty | src/service/FileBackedTaskManager.java:75 | every piece split drops from the end is empty |
| Csv.SplitJoin | src/service/FileBackedTaskManager.java:75 | split undoes the join of two or more comma-free fields whose last is non-empty |
| Csv.ParseNumber | src/service/FileBackedTaskManager.java:85-88 | a number read fits an `int` |
| Csv.FromLine | src/service/FileBackedTaskManager.java:73-105 | every failure is ManagerParseTaskException; ids fit an `int`; an epic has no start or duration; a duration read is positive |
| Csv.RereadText | src/service/FileBackedTaskManager.java:79-81 | a name or description written by `toString` reads back with commas as dots, and a text equal to "null" as absent |
| Csv.NumberRoundTrip | src/service/FileBackedTaskManager.java:85-88 | a start or duration that fits an `int` reads back as written |
| Csv.SplitLine | src/service/FileBackedTaskManager.java:75 | split gives back the fields of a storable record |
| Csv.LineRoundTrip | src/service/FileBackedTaskManager.java:50-105 | for a record with `int` values and a positive duration (and an epic with a non-empty description), fromString(toString(r)) keeps id, type, status, epic id, start and duration (none for an epic), and rereads name and description |
| Csv.EpicRoundTrip | src/service/FileBackedTaskManager.java:97 | the round trip of an epic's line |
| Csv.TaskRoundTrip | src/service/FileBackedTaskManager.java:91 | the round trip of a task's line |
| Csv.SubtaskRoundTrip | src/service/FileBackedTaskManager.java:92-96 | the round trip of a subtask's line, epic id included |
| Csv.FiveFieldTaskLine | src/service/FileBackedTaskManager.java:84-91 | a five-field task line reads back with no start and no duration |
| Csv.FiveFieldSubtaskLine | src/service/FileBackedTaskManager.java:92-93 | a five-field subtask line does not read back |
| Csv.EmptyEpicDescriptionUnreadable | src/service/FileBackedTaskManager.java:75-81 | an epic with an empty description does not read back |
| Csv.LateStartUnreadable | src/service/FileBackedTaskManager.java:85-86 | a start beyond the `int` range does not read back |
| FileBacked.Put | src/service/FileBackedTaskManager.java:120-128 | a record goes into its type's map under its id, the other maps are kept, and the largest id is updated |
| FileBacked.Collect | src/service/FileBackedTaskManager.java:132-134 | any line that fails makes the load fail with ManagerLoadFileException |
| FileBacked.CollectAll | src/service/FileBackedTaskManager.java:117-119 | the load succeeds exactly when every line parses, and keeps each line's record |
| FileBacked.Load | src/service/FileBackedTaskManager.java:107-131 | loadFromFile: any failure is ManagerLoadFileException; a file with no line after the header loads empty maps and the counter 0 |
| FileBacked.LoadFromFile | src/service/FileBackedTaskManager.java:114-131 | the reading loop yields `Load` of the lines |
| FileBacked.Lines | src/service/FileBackedTaskManager.java:33-44 | one line per record, each its `toString` |
| FileBacked.SaveLines | src/service/FileBackedTaskManager.java:29-48 | save writes the header, then one line per task, epic and subtask, the tasks first, each its `toString` |
| FileBacked.ReplayKeys | src/service/FileBackedTaskManager.java:120-128 | every id read is a key of its type's map, each value sits under its own id, and each value is a record read |
| FileBacked.ReplayLatest | src/service/FileBackedTaskManager.java:120-128 | a map keeps the last record read with each id |
| FileBacked.ReplayMax | src/service/FileBackedTaskManager.java:116-123 | the largest id is at least -1, no id read exceeds it, and it is -1 or an id read |
| FileBacked.KeysBelow | src/service/FileBackedTaskManager.java:120-130 | no key exceeds the largest id |
| FileBacked.CounterAfterLoad | src/service/FileBackedTaskManager.java:130 | unless the largest `int` is a key, the counter is not negative and above every key |
| FileBacked.CounterIsLargestPlusOne | src/service/FileBackedTaskManager.java:116-130 | the counter is 0 after an empty file, and otherwise 0 or one past a key |
| FileBacked.ParseSaved | src/service/FileBackedTaskManager.java:114-129 | the saved lines of storable records all parse, to the records as they read back |
| FileBacked.SaveThenLoad | src/service/FileBackedTaskManager.java:29-48 | loading what save wrote succeeds and restores each map: every saved record under its id, and no other key |

## Left out

- File I/O: the constructor's file creation, the writer in `save`, the reader in `loadFromFile`, and `IOException`. A file is its sequence of lines; a name or description holding a line break is not modelled.
- `save()` itself is not called by the model. The mutating overrides of `FileBackedTaskManager` save after every change, including while `loadFromFile` is still reading.
- The reload loop stores each record under its id. It does not run the overlap and epic checks of `createNew*`, does not link subtasks to epics, does not propagate `ManagerCreateTaskException`, and does not fill the prioritized set. In the source, `createNewTask` and `createNewSubtask` put every timed task and subtask read into `prioritizedTaskSet`; `Loaded` has no set, so the set after a reload is not modelled. This is because the `Subtask(name, description, startTime, duration, int epicId)` constructor and `getEpicId` that `fromString` and `toString` call are not part of this model.
- `LocalDateTime` and `Duration` calendar semantics: instants and durations are whole seconds in UTC.
- `Decimal.ParseInt`: only ASCII digits are read; Java's `Character.digit` also reads other Unicode digits.
- `Engine.InMemoryTaskManager.RemoveStoredSubtask`: the epic's list and status are updated after the subtask leaves the prioritized set, the map and the history, where the source updates the epic first and the history last. The updates touch disjoint state.
- `Model.Epic.WithSubtasks`: the epic holds a copy of the given list as a value. The source stores the caller's `ArrayList` itself, so a later change through the caller's reference would change the epic; that sharing is not modelled.
- `Engine.InMemoryTaskManager.GetSubtasksOfEpic`: returns the epic's list as a value. The source returns the epic's own `ArrayList`, so a caller's change to it changes the epic; that sharing is not modelled.
- `Engine.InMemoryTaskManager.CreateSubtasksOf` and `Engine.InMemoryTaskManager.CreateNewEpic` state the epic's times and status after the loop only when every listed subtask has this epic as its own. A subtask linked to another epic gets `CreateListedSubtask`'s per-subtask contract, and no fold over the list is stated for that other epic.
- `OldTaskManager.TaskManager.CreateNewTask`: the static counter is unbounded; `int` wrap-around after 2^31 ids is not modelled.
- `Engine.InMemoryTaskManager.CreateNewTask`: the counter is unbounded here; only the reload writes the `int` range out.
- `Engine.InMemoryTaskManager.CreateNewTask` takes and stores a plain `Task`. Java's `createNewTask(Task)` stores whatever runtime type it is given, and the HTTP handler for tasks (src/httpserver/TasksHandler.java:79-81) can pass an `Epic` or a `Subtask` built by the Gson deserializer; such a mis-typed entry in `tasks` is not modelled.
- `hashCode`, `toString` of the entities (display text), and the HTTP handlers, Gson adapters and demos.
- The setters `setStatus`, `setName` and `setDescription` (src/model/Task.java:62-80) have no method of their own. Each is one field assignment; the model writes the field in place where the manager calls the setter, as `CheckEpicStatus` does for the status. The fields stay mutable, but changes by callers outside the manager are not modelled.
- `History.InMemoryHistoryManager` is not the history the engine uses. The engine calls `remove`, which the bounded manager lacks, so the engine talks to `HistoryLog` instead.
- The history tests also expect that the history keeps the version of a task that was viewed, which the model does by holding the viewed reference.
- `Schedule.IsIntersect`: a window with an end but no start answers false. Java throws a NullPointerException there. Only an epic can have such a window, after `removeTime` cleared its start, and an updated epic with a start can enter the prioritized set.
- The order of `HashMap.values()` is left unspecified. `getAll*` return each stored value once in some order, and the saved file lists tasks, epics and subtasks in an unspecified order within each kind.
- `Prioritized.IndexAdd` and `Prioritized.IndexRemove`: an element is filed under the start it had when it was added, and the key stays fixed. In the source, an epic in the set can have its start rewritten afterwards by `Epic.updateTime` or `Epic.removeTime` (src/model/Epic.java:74-106). The `TreeSet` then holds it at a stale position, and a null start throws NullPointerException in the comparator. Later `add` and `remove` calls can diverge from the model, which still finds the epic under its old start; this divergence is not modelled.
- `Engine.InMemoryTaskManager.GetPrioritizedTasks`: returns a snapshot sequence, not a read-only view that follows later changes to the set.
