/**
 * The file of the file-backed manager: save writes the header line and one
 * line per task, epic and subtask, in that order; loadFromFile skips the
 * header, reads every other line back into the three maps, keyed by the id
 * the line carries, and sets the id counter one past the largest id read.
 * A file is given as its sequence of lines.
 */
module FileBacked {
  import opened Wrappers
  import opened Exceptions
  import opened Model
  import opened Decimal
  import opened Csv

  /** The manager's three maps while the file is read, and the largest id read so far. */
  datatype Store = Store(tasks: map<int, Record>, epics: map<int, Record>, subtasks: map<int, Record>, maxId: int)

  /** The manager loadFromFile returns. */
  datatype Loaded = Loaded(tasks: map<int, Record>, epics: map<int, Record>, subtasks: map<int, Record>, idCounter: int)

  /** Nothing read yet: empty maps, and the largest id starts at -1. */
  const Start: Store := Store(map[], map[], map[], -1)

  /** The map that holds records of type `t`. */
  function Bucket(st: Store, t: TaskType): map<int, Record> {
    match t
    case TASK => st.tasks
    case EPIC => st.epics
    case SUBTASK => st.subtasks
  }

  /**
   * One turn of the reading loop: the counter is set to the record's id, so
   * the create call stores the record under that id, replacing a record of
   * the same type with the same id; the largest id is kept.
   */
  function Put(st: Store, r: Record): (next: Store)
    ensures Bucket(next, TypeOf(r.kind)) == Bucket(st, TypeOf(r.kind))[r.id := r]
    ensures forall t :: t != TypeOf(r.kind) ==> Bucket(next, t) == Bucket(st, t)
    ensures next.maxId >= st.maxId && next.maxId >= r.id
    ensures next.maxId == st.maxId || next.maxId == r.id
  {
    var maxId := if r.id > st.maxId then r.id else st.maxId;
    match r.kind
    case TaskKind => Store(st.tasks[r.id := r], st.epics, st.subtasks, maxId)
    case EpicKind => Store(st.tasks, st.epics[r.id := r], st.subtasks, maxId)
    case SubtaskKind(_) => Store(st.tasks, st.epics, st.subtasks[r.id := r], maxId)
  }

  /** The store after the loop has put every record, in order. */
  function Replay(records: seq<Record>): Store {
    if records == [] then Start else Put(Replay(records[..|records| - 1]), records[|records| - 1])
  }

  /**
   * A reader applied to every line, in order. The load reads with
   * FromLine; the reader is a parameter so that the bookkeeping below does
   * not depend on the line format.
   */
  function ReadEach(read: string -> Result<Record, Exception>, lines: seq<string>): (results: seq<Result<Record, Exception>>)
    ensures |results| == |lines|
  {
    if lines == [] then [] else ReadEach(read, lines[..|lines| - 1]) + [read(lines[|lines| - 1])]
  }

  lemma {:induction false} ReadEachAt(read: string -> Result<Record, Exception>, lines: seq<string>, i: int)
    requires 0 <= i < |lines|
    ensures ReadEach(read, lines)[i] == read(lines[i])
  {
    var n := |lines| - 1;
    if i < n {
      ReadEachAt(read, lines[..n], i);
      assert lines[..n][i] == lines[i];
    }
  }

  /**
   * The records read when every line reads back; the first line that does
   * not ends the load with a ManagerLoadFileException.
   */
  function Collect(results: seq<Result<Record, Exception>>): (r: Result<seq<Record>, Exception>)
    ensures r.Failure? ==> r.error == ManagerLoadFile
    ensures r.Success? ==> |r.value| == |results|
  {
    if results == [] then Success([])
    else
      match Collect(results[..|results| - 1])
      case Failure(e) => Failure(e)
      case Success(records) =>
        match results[|results| - 1]
        case Failure(_) => Failure(ManagerLoadFile)
        case Success(r) => Success(records + [r])
  }

  /** The load goes through exactly when every line reads back, each as the record kept. */
  lemma {:induction false} CollectAll(results: seq<Result<Record, Exception>>)
    ensures Collect(results).Success? <==> forall i :: 0 <= i < |results| ==> results[i].Success?
    ensures Collect(results).Success? ==> forall i :: 0 <= i < |results| ==> results[i] == Success(Collect(results).value[i])
  {
    if results != [] {
      var n := |results| - 1;
      var init := results[..n];
      CollectAll(init);
      assert forall i :: 0 <= i < n ==> init[i] == results[i];
    }
  }

  /** The lines after the header; an empty file has none. */
  function Body(file: seq<string>): seq<string> {
    if file == [] then [] else file[1..]
  }

  /** loadFromFile: the maps the records fill, and the counter one past the largest id, wrapping as `int` does. */
  function Load(file: seq<string>): (r: Result<Loaded, Exception>)
    ensures r.Failure? ==> r.error == ManagerLoadFile
    ensures |file| <= 1 ==> r == Success(Loaded(map[], map[], map[], 0))
  {
    match Collect(ReadEach(FromLine, Body(file)))
    case Failure(e) => Failure(e)
    case Success(records) =>
      var st := Replay(records);
      Success(Loaded(st.tasks, st.epics, st.subtasks, Increment(st.maxId)))
  }

  /** The loop of loadFromFile, line by line. */
  method LoadFromFile(file: seq<string>) returns (r: Result<Loaded, Exception>)
    ensures r == Load(file)
  {
    var lines := Body(file);
    var tasks: map<int, Record> := map[];
    var epics: map<int, Record> := map[];
    var subtasks: map<int, Record> := map[];
    var idCounter := 0;
    var taskIdMaxValue := -1;
    ghost var records: seq<Record> := [];
    var j := 0;
    while j < |lines|
      invariant 0 <= j <= |lines|
      invariant Collect(ReadEach(FromLine, lines[..j])) == Success(records)
      invariant Replay(records) == Store(tasks, epics, subtasks, taskIdMaxValue)
    {
      var parsed := FromLine(lines[j]);
      assert ReadEach(FromLine, lines[..j + 1]) == ReadEach(FromLine, lines[..j]) + [parsed] by {
        assert lines[..j + 1][..j] == lines[..j];
      }
      if parsed.Failure? {
        CollectAll(ReadEach(FromLine, lines));
        ReadEachAt(FromLine, lines, j);
        return Failure(ManagerLoadFile);
      }
      var task := parsed.value;
      idCounter := task.id;
      if idCounter > taskIdMaxValue {
        taskIdMaxValue := idCounter;
      }
      match task.kind {
        case TaskKind => tasks := tasks[idCounter := task];
        case EpicKind => epics := epics[idCounter := task];
        case SubtaskKind(_) => subtasks := subtasks[idCounter := task];
      }
      idCounter := Increment(idCounter);
      records := records + [task];
      assert records[..|records| - 1] == records[..j];
      j := j + 1;
    }
    assert lines[..j] == lines;
    idCounter := Increment(taskIdMaxValue);
    return Success(Loaded(tasks, epics, subtasks, idCounter));
  }

  /** The lines save writes for the records, one each. */
  function Lines(records: seq<Record>): (lines: seq<string>)
    ensures |lines| == |records|
    ensures forall i :: 0 <= i < |records| ==> lines[i] == ToLine(records[i])
  {
    if records == [] then [] else Lines(records[..|records| - 1]) + [ToLine(records[|records| - 1])]
  }

  /** save: the header, then the tasks, the epics and the subtasks. */
  function SaveLines(tasks: seq<Record>, epics: seq<Record>, subtasks: seq<Record>): (lines: seq<string>)
    ensures |lines| == 1 + |tasks| + |epics| + |subtasks| && lines[0] == Header
    ensures forall i :: 0 <= i < |tasks| ==> lines[1 + i] == ToLine(tasks[i])
  {
    [Header] + Lines(tasks + epics + subtasks)
  }

  /** No later record of the same type carries the same id as record `i`. */
  predicate LastWithId(records: seq<Record>, i: int)
    requires 0 <= i < |records|
  {
    forall j :: i < j < |records| && TypeOf(records[j].kind) == TypeOf(records[i].kind) ==> records[j].id != records[i].id
  }

  /** The map of type `t` after the loop has put every record. */
  function Kept(records: seq<Record>, t: TaskType): map<int, Record> {
    Bucket(Replay(records), t)
  }

  /**
   * After the loop each map holds records of its type only, each under its
   * own id and each one of the records read; every id read is a key of its
   * type's map.
   */
  lemma {:induction false} ReplayKeys(records: seq<Record>, t: TaskType)
    ensures forall i :: 0 <= i < |records| && TypeOf(records[i].kind) == t ==> records[i].id in Kept(records, t)
    ensures forall k :: k in Kept(records, t) ==> Kept(records, t)[k].id == k && TypeOf(Kept(records, t)[k].kind) == t
    ensures forall k :: k in Kept(records, t) ==> exists i :: 0 <= i < |records| && records[i] == Kept(records, t)[k]
  {
    if records != [] {
      var n := |records| - 1;
      var init := records[..n];
      ReplayKeys(init, t);
      assert forall i :: 0 <= i < n ==> init[i] == records[i];
      assert Replay(records) == Put(Replay(init), records[n]);
      if t == TypeOf(records[n].kind) {
        assert Kept(records, t) == Kept(init, t)[records[n].id := records[n]];
      } else {
        assert Kept(records, t) == Kept(init, t);
      }
      forall k | k in Kept(records, t)
        ensures exists i :: 0 <= i < |records| && records[i] == Kept(records, t)[k]
      {
        if k in Kept(init, t) && Kept(records, t)[k] == Kept(init, t)[k] {
          var i :| 0 <= i < n && init[i] == Kept(init, t)[k];
          assert records[i] == Kept(records, t)[k];
        } else {
          assert records[n] == Kept(records, t)[k];
        }
      }
    }
  }

  /** The record kept under an id is the last one read with that id: HashMap.put replaces. */
  lemma {:induction false} ReplayLatest(records: seq<Record>, t: TaskType)
    ensures forall i :: 0 <= i < |records| && TypeOf(records[i].kind) == t && LastWithId(records, i) ==>
              records[i].id in Kept(records, t) && Kept(records, t)[records[i].id] == records[i]
  {
    if records != [] {
      var n := |records| - 1;
      var init := records[..n];
      ReplayLatest(init, t);
      ReplayKeys(init, t);
      forall i | 0 <= i < n && TypeOf(records[i].kind) == t && LastWithId(records, i)
        ensures records[i].id in Kept(records, t) && Kept(records, t)[records[i].id] == records[i]
      {
        assert init[i] == records[i];
        assert LastWithId(init, i);
      }
    }
  }

  /** The largest id the loop keeps is -1 or an id read, and no id read is larger. */
  lemma {:induction false} ReplayMax(records: seq<Record>)
    ensures Replay(records).maxId >= -1
    ensures forall i :: 0 <= i < |records| ==> records[i].id <= Replay(records).maxId
    ensures Replay(records).maxId == -1 || exists i :: 0 <= i < |records| && records[i].id == Replay(records).maxId
  {
    if records != [] {
      var n := |records| - 1;
      ReplayMax(records[..n]);
      assert forall i :: 0 <= i < n ==> records[..n][i] == records[i];
    }
  }

  /** No key of a map after the loop is above the largest id it kept. */
  lemma KeysBelow(records: seq<Record>, t: TaskType)
    ensures forall k :: k in Kept(records, t) ==> k <= Replay(records).maxId
  {
    ReplayKeys(records, t);
    ReplayMax(records);
  }

  /**
   * Unless the largest `int` is a key, the counter after a load is not
   * negative and above every key of the three maps, so the next create
   * hands out an unused id.
   */
  lemma CounterAfterLoad(file: seq<string>)
    requires Load(file).Success?
    ensures var m := Load(file).value;
            IntMax !in m.tasks && IntMax !in m.epics && IntMax !in m.subtasks ==>
              m.idCounter >= 0 &&
              (forall k :: k in m.tasks ==> k < m.idCounter) &&
              (forall k :: k in m.epics ==> k < m.idCounter) &&
              (forall k :: k in m.subtasks ==> k < m.idCounter)
  {
    var records := Collect(ReadEach(FromLine, Body(file))).value;
    var st := Replay(records);
    assert Load(file).value == Loaded(Kept(records, TASK), Kept(records, EPIC), Kept(records, SUBTASK), Increment(st.maxId));
    KeysBelow(records, TASK);
    KeysBelow(records, EPIC);
    KeysBelow(records, SUBTASK);
    ReplayMax(records);
    if st.maxId != -1 {
      var i :| 0 <= i < |records| && records[i].id == st.maxId;
      ReplayKeys(records, TypeOf(records[i].kind));
      assert st.maxId in Kept(records, TypeOf(records[i].kind));
    }
  }

  /**
   * The counter after a load is 0 when no line was read (or every id read is
   * negative, the largest id starting at -1), and otherwise one past a key
   * of the three maps; with CounterAfterLoad, it is the largest key plus one.
   */
  lemma CounterIsLargestPlusOne(file: seq<string>)
    requires Load(file).Success?
    ensures var m := Load(file).value;
            var keys := m.tasks.Keys + m.epics.Keys + m.subtasks.Keys;
            (keys == {} ==> m.idCounter == 0) &&
            (IntMax !in keys ==> m.idCounter == 0 || m.idCounter - 1 in keys)
  {
    var records := Collect(ReadEach(FromLine, Body(file))).value;
    assert Load(file).value ==
             Loaded(Kept(records, TASK), Kept(records, EPIC), Kept(records, SUBTASK), Increment(Replay(records).maxId));
    LargestIsKey(records);
  }

  /** The largest id read is -1 or a key of one of the three maps. */
  lemma LargestIsKey(records: seq<Record>)
    ensures var maxId := Replay(records).maxId;
            maxId == -1 || maxId in Kept(records, TASK) || maxId in Kept(records, EPIC) || maxId in Kept(records, SUBTASK)
  {
    ReplayMax(records);
    if Replay(records).maxId != -1 {
      var i :| 0 <= i < |records| && records[i].id == Replay(records).maxId;
      ReplayKeys(records, TypeOf(records[i].kind));
    }
  }

  /** The records read back from saved lines, each as Normal describes. */
  function Normals(records: seq<Record>): (r: seq<Record>)
    ensures |r| == |records| && forall i :: 0 <= i < |records| ==> r[i] == Normal(records[i])
  {
    if records == [] then [] else Normals(records[..|records| - 1]) + [Normal(records[|records| - 1])]
  }

  /** Every saved line reads back. */
  lemma {:induction false} ParseSaved(records: seq<Record>)
    requires forall i :: 0 <= i < |records| ==> Storable(records[i])
    ensures Collect(ReadEach(FromLine, Lines(records))) == Success(Normals(records))
  {
    if records != [] {
      var n := |records| - 1;
      ParseSaved(records[..n]);
      LineRoundTrip(records[n]);
      assert Lines(records)[..n] == Lines(records[..n]);
      assert ReadEach(FromLine, Lines(records)) == ReadEach(FromLine, Lines(records[..n])) + [FromLine(ToLine(records[n]))];
    }
  }

  predicate DistinctIds(records: seq<Record>) {
    forall i, j :: 0 <= i < j < |records| ==> records[i].id != records[j].id
  }

  predicate AllOfKind(records: seq<Record>, t: TaskType) {
    forall i :: 0 <= i < |records| ==> TypeOf(records[i].kind) == t
  }

  /**
   * A reloaded map restores the saved records of its type: each is found
   * under its id, as it reads back, and no other key is present.
   */
  predicate Restores(bucket: map<int, Record>, saved: seq<Record>) {
    (forall i :: 0 <= i < |saved| ==> saved[i].id in bucket && bucket[saved[i].id] == Normal(saved[i])) &&
    (forall k :: k in bucket ==> exists i :: 0 <= i < |saved| && saved[i].id == k)
  }

  /**
   * Loading what save wrote restores each map. The saved records come from
   * the manager's maps, so their ids are distinct within each type.
   */
  lemma SaveThenLoad(tasks: seq<Record>, epics: seq<Record>, subtasks: seq<Record>)
    requires AllOfKind(tasks, TASK) && AllOfKind(epics, EPIC) && AllOfKind(subtasks, SUBTASK)
    requires DistinctIds(tasks) && DistinctIds(epics) && DistinctIds(subtasks)
    requires forall i :: 0 <= i < |tasks| ==> Storable(tasks[i])
    requires forall i :: 0 <= i < |epics| ==> Storable(epics[i])
    requires forall i :: 0 <= i < |subtasks| ==> Storable(subtasks[i])
    ensures Load(SaveLines(tasks, epics, subtasks)).Success?
    ensures Restores(Load(SaveLines(tasks, epics, subtasks)).value.tasks, tasks)
    ensures Restores(Load(SaveLines(tasks, epics, subtasks)).value.epics, epics)
    ensures Restores(Load(SaveLines(tasks, epics, subtasks)).value.subtasks, subtasks)
  {
    StorableAppend(tasks, epics);
    StorableAppend(tasks + epics, subtasks);
    LoadSaved(tasks + epics + subtasks);
    RestoredAll(tasks, epics, subtasks);
  }

  /** Each type's part of the saved records is restored in its map. */
  lemma RestoredAll(tasks: seq<Record>, epics: seq<Record>, subtasks: seq<Record>)
    requires AllOfKind(tasks, TASK) && AllOfKind(epics, EPIC) && AllOfKind(subtasks, SUBTASK)
    requires DistinctIds(tasks) && DistinctIds(epics) && DistinctIds(subtasks)
    ensures Restores(Kept(Normals(tasks + epics + subtasks), TASK), tasks)
    ensures Restores(Kept(Normals(tasks + epics + subtasks), EPIC), epics)
    ensures Restores(Kept(Normals(tasks + epics + subtasks), SUBTASK), subtasks)
  {
    var all := tasks + epics + subtasks;
    OtherKinds(epics, EPIC, TASK);
    OtherKinds(subtasks, SUBTASK, TASK);
    OtherKinds(tasks, TASK, EPIC);
    OtherKinds(subtasks, SUBTASK, EPIC);
    OtherKinds(tasks, TASK, SUBTASK);
    OtherKinds(epics, EPIC, SUBTASK);
    NoneOfKindAppend(epics, subtasks, TASK);
    NoneOfKindAppend(tasks, epics, SUBTASK);
    assert all == [] + tasks + (epics + subtasks);
    RestoredPart([], tasks, epics + subtasks, TASK);
    RestoredPart(tasks, epics, subtasks, EPIC);
    assert all == (tasks + epics) + subtasks + [];
    RestoredPart(tasks + epics, subtasks, [], SUBTASK);
  }

  /** Saved lines load as the maps the loop fills from the records they read back as. */
  lemma LoadSaved(all: seq<Record>)
    requires forall i :: 0 <= i < |all| ==> Storable(all[i])
    ensures Load([Header] + Lines(all)) ==
              Success(Loaded(Kept(Normals(all), TASK), Kept(Normals(all), EPIC), Kept(Normals(all), SUBTASK),
                             Increment(Replay(Normals(all)).maxId)))
  {
    var file := [Header] + Lines(all);
    assert Body(file) == Lines(all);
    ParseSaved(all);
    assert Collect(ReadEach(FromLine, Body(file))) == Success(Normals(all));
  }

  lemma StorableAppend(a: seq<Record>, b: seq<Record>)
    requires forall i :: 0 <= i < |a| ==> Storable(a[i])
    requires forall i :: 0 <= i < |b| ==> Storable(b[i])
    ensures forall i :: 0 <= i < |a + b| ==> Storable((a + b)[i])
  {
    assert forall i :: |a| <= i < |a + b| ==> (a + b)[i] == b[i - |a|];
  }

  predicate NoneOfKind(records: seq<Record>, t: TaskType) {
    forall i :: 0 <= i < |records| ==> TypeOf(records[i].kind) != t
  }

  lemma OtherKinds(records: seq<Record>, t: TaskType, other: TaskType)
    requires AllOfKind(records, t) && t != other
    ensures NoneOfKind(records, other)
  {
  }

  lemma NoneOfKindAppend(a: seq<Record>, b: seq<Record>, t: TaskType)
    requires NoneOfKind(a, t) && NoneOfKind(b, t)
    ensures NoneOfKind(a + b, t)
  {
    assert forall i :: |a| <= i < |a + b| ==> (a + b)[i] == b[i - |a|];
  }

  /** A record of type `t` among the saved ones lies in the part of that type. */
  lemma Position(before: seq<Record>, part: seq<Record>, after: seq<Record>, t: TaskType, j: int)
    requires NoneOfKind(before, t) && NoneOfKind(after, t)
    requires 0 <= j < |before + part + after| && TypeOf((before + part + after)[j].kind) == t
    ensures |before| <= j < |before| + |part| && (before + part + after)[j] == part[j - |before|]
  {
    var all := before + part + after;
    assert forall x :: 0 <= x < |before| ==> TypeOf(all[x].kind) != t;
    assert forall x :: |before| + |part| <= x < |all| ==> TypeOf(all[x].kind) != t;
  }

  /** A saved record of type `t` is the last of that type with its id. */
  lemma PartLast(before: seq<Record>, part: seq<Record>, after: seq<Record>, t: TaskType, i: int)
    requires AllOfKind(part, t) && DistinctIds(part)
    requires NoneOfKind(before, t) && NoneOfKind(after, t)
    requires 0 <= i < |part|
    ensures |before| + i < |Normals(before + part + after)|
    ensures LastWithId(Normals(before + part + after), |before| + i)
  {
    var all := before + part + after;
    var normal := Normals(all);
    var offset := |before|;
    assert all[offset + i] == part[i];
    forall j | offset + i < j < |normal| && TypeOf(normal[j].kind) == t
      ensures normal[j].id != normal[offset + i].id
    {
      assert normal[j].kind == all[j].kind && normal[j].id == all[j].id;
      Position(before, part, after, t, j);
    }
  }

  /** The part of the saved records of type `t` is restored in that type's map. */
  lemma RestoredPart(before: seq<Record>, part: seq<Record>, after: seq<Record>, t: TaskType)
    requires AllOfKind(part, t) && DistinctIds(part)
    requires NoneOfKind(before, t) && NoneOfKind(after, t)
    ensures Restores(Kept(Normals(before + part + after), t), part)
  {
    PartFound(before, part, after, t);
    PartOnly(before, part, after, t);
  }

  /** Every saved record of type `t` is found under its id, as it reads back. */
  lemma PartFound(before: seq<Record>, part: seq<Record>, after: seq<Record>, t: TaskType)
    requires AllOfKind(part, t) && DistinctIds(part)
    requires NoneOfKind(before, t) && NoneOfKind(after, t)
    ensures forall i :: 0 <= i < |part| ==>
              part[i].id in Kept(Normals(before + part + after), t) &&
              Kept(Normals(before + part + after), t)[part[i].id] == Normal(part[i])
  {
    forall i | 0 <= i < |part|
      ensures part[i].id in Kept(Normals(before + part + after), t) &&
              Kept(Normals(before + part + after), t)[part[i].id] == Normal(part[i])
    {
      FoundAt(before, part, after, t, i);
    }
  }

  /** The i-th saved record of type `t` is found under its id. */
  lemma FoundAt(before: seq<Record>, part: seq<Record>, after: seq<Record>, t: TaskType, i: int)
    requires AllOfKind(part, t) && DistinctIds(part)
    requires NoneOfKind(before, t) && NoneOfKind(after, t)
    requires 0 <= i < |part|
    ensures part[i].id in Kept(Normals(before + part + after), t)
    ensures Kept(Normals(before + part + after), t)[part[i].id] == Normal(part[i])
  {
    var all := before + part + after;
    var normal := Normals(all);
    ReplayLatest(normal, t);
    assert all[|before| + i] == part[i];
    PartLast(before, part, after, t, i);
  }

  /** Every key of the map of type `t` is the id of a saved record of that type. */
  lemma PartOnly(before: seq<Record>, part: seq<Record>, after: seq<Record>, t: TaskType)
    requires NoneOfKind(before, t) && NoneOfKind(after, t)
    ensures forall k :: k in Kept(Normals(before + part + after), t) ==> exists i :: 0 <= i < |part| && part[i].id == k
  {
    var all := before + part + after;
    var normal := Normals(all);
    ReplayKeys(normal, t);
    forall k | k in Kept(normal, t)
      ensures exists i :: 0 <= i < |part| && part[i].id == k
    {
      var j :| 0 <= j < |normal| && normal[j] == Kept(normal, t)[k];
      Position(before, part, after, t, j);
      assert part[j - |before|].id == k;
    }
  }
}
