/**
 * The line format of the file-backed manager: one task per line, fields
 * joined by ',' in the order of the header line, with "null" for an absent
 * value. `Record` holds the values of one saved task.
 */
module Csv {
  import opened Wrappers
  import opened Exceptions
  import opened Model
  import opened Decimal

  const Separator: char := ','
  const Replacement: char := '.'
  const Null: string := "null"
  const Header: string := "id,type,name,status,description,startTime,duration,epic"

  /** The class of the saved object; a subtask also records its epic's id. */
  datatype Kind = TaskKind | EpicKind | SubtaskKind(epicId: int)

  /**
   * The values a line carries: start times are seconds since the epoch in
   * UTC and durations are seconds; epics write neither.
   */
  datatype Record = Record(id: int, kind: Kind, name: Option<string>, status: TaskStatus,
                           description: Option<string>, startTime: Option<int>, duration: Option<int>)

  function TypeOf(kind: Kind): TaskType {
    match kind
    case TaskKind => TASK
    case EpicKind => EPIC
    case SubtaskKind(_) => SUBTASK
  }

  /** String.valueOf of a TaskType constant: its name. */
  function TypeName(t: TaskType): string {
    match t
    case TASK => "TASK"
    case EPIC => "EPIC"
    case SUBTASK => "SUBTASK"
  }

  /** TaskType.valueOf: exactly the constant names are accepted. */
  function ParseType(s: string): (r: Option<TaskType>)
    ensures forall t :: r == Some(t) <==> s == TypeName(t)
  {
    if s == "TASK" then Some(TASK)
    else if s == "EPIC" then Some(EPIC)
    else if s == "SUBTASK" then Some(SUBTASK)
    else None
  }

  function StatusName(status: TaskStatus): string {
    match status
    case NEW => "NEW"
    case IN_PROGRESS => "IN_PROGRESS"
    case DONE => "DONE"
  }

  /** TaskStatus.valueOf */
  function ParseStatus(s: string): (r: Option<TaskStatus>)
    ensures forall status :: r == Some(status) <==> s == StatusName(status)
  {
    if s == "NEW" then Some(NEW)
    else if s == "IN_PROGRESS" then Some(IN_PROGRESS)
    else if s == "DONE" then Some(DONE)
    else None
  }

  /** String.replace(',', '.'): every separator in a text becomes a dot. */
  function Replace(s: string): (r: string)
    ensures |r| == |s| && Separator !in r
    ensures forall i {:trigger r[i]} :: 0 <= i < |s| ==> r[i] == if s[i] == Separator then Replacement else s[i]
  {
    if s == [] then []
    else [if s[0] == Separator then Replacement else s[0]] + Replace(s[1..])
  }

  /** A name or description as written: "null" when absent, separators replaced. */
  function TextField(text: Option<string>): (f: string)
    ensures Separator !in f
  {
    match text
    case None => Null
    case Some(t) => Replace(t)
  }

  /** A start time or duration as written: "null" when absent, else its decimal value. */
  function NumberField(n: Option<int>): (f: string)
    ensures Separator !in f && |f| > 0
  {
    match n
    case None => Null
    case Some(v) => IntToString(v)
  }

  /** The fields toString joins: five for an epic, seven for a task, eight for a subtask. */
  function Fields(r: Record): (f: seq<string>)
    ensures |f| == (match r.kind case EpicKind => 5 case TaskKind => 7 case SubtaskKind(_) => 8)
    ensures forall i :: 0 <= i < |f| ==> Separator !in f[i]
    ensures r.kind != EpicKind ==> f[|f| - 1] != ""
  {
    var common := [IntToString(r.id), TypeName(TypeOf(r.kind)), TextField(r.name),
                   StatusName(r.status), TextField(r.description)];
    match r.kind
    case EpicKind => common
    case TaskKind => common + [NumberField(r.startTime), NumberField(r.duration)]
    case SubtaskKind(epicId) =>
      common + [NumberField(r.startTime), NumberField(r.duration), IntToString(epicId)]
  }

  /** StringJoiner with ',' as delimiter. */
  function Join(fields: seq<string>): (r: string)
    ensures |fields| > 0 ==> fields[0] <= r
    ensures (forall i :: 0 <= i < |fields| ==> Separator !in fields[i]) ==> (Separator in r <==> |fields| > 1)
  {
    if fields == [] then ""
    else if |fields| == 1 then fields[0]
    else fields[0] + [Separator] + Join(fields[1..])
  }

  /** FileBackedTaskManager.toString(Task): the line saved for one task. */
  function ToLine(r: Record): string {
    Join(Fields(r))
  }

  /** A saved line starts with the id field. */
  lemma LineStartsWithId(r: Record)
    ensures IntToString(r.id) + [Separator] <= ToLine(r)
  {
    var f := Fields(r);
    assert Join(f) == f[0] + [Separator] + Join(f[1..]);
  }

  /** The text between separators, in order: k separators give k + 1 pieces. */
  function Pieces(s: string): (p: seq<string>)
    ensures |p| >= 1
    ensures forall i :: 0 <= i < |p| ==> Separator !in p[i]
  {
    if s == [] then [""]
    else
      var rest := Pieces(s[1..]);
      if s[0] == Separator then [""] + rest else [[s[0]] + rest[0]] + rest[1..]
  }

  function DropTrailingEmpty(p: seq<string>): (q: seq<string>)
    ensures |q| <= |p| && q == p[..|q|]
    ensures |q| > 0 ==> q[|q| - 1] != ""
  {
    if p == [] then []
    else if p[|p| - 1] == "" then DropTrailingEmpty(p[..|p| - 1])
    else p
  }

  /** Only empty fields are dropped. */
  lemma {:induction false} DroppedAreEmpty(p: seq<string>)
    ensures var q := DropTrailingEmpty(p); forall i :: |q| <= i < |p| ==> p[i] == ""
  {
    if p != [] && p[|p| - 1] == "" {
      DroppedAreEmpty(p[..|p| - 1]);
    }
  }

  /**
   * String.split(","): a text without a separator is its own single field;
   * otherwise the pieces between separators, less the empty ones at the end.
   */
  function Split(s: string): (p: seq<string>)
    ensures Separator !in s ==> p == [s]
  {
    if Separator !in s then [s] else DropTrailingEmpty(Pieces(s))
  }

  /** No field split out of a line holds a separator. */
  lemma SplitHasNoSeparator(s: string)
    ensures forall i :: 0 <= i < |Split(s)| ==> Separator !in Split(s)[i]
  {
  }

  /** A text field read back: "null" means absent. */
  function ParseText(f: string): Option<string> {
    if f == Null then None else Some(f)
  }

  /** A start time or duration read back: "null", or Integer.parseInt of the field. */
  function ParseNumber(f: string): (r: Result<Option<int>, Exception>)
    ensures r.Success? && r.value.Some? ==> IsInt(r.value.value)
  {
    if f == Null then Success(None)
    else match ParseInt(f)
      case None => Failure(ManagerParseTask)
      case Some(v) => Success(Some(v))
  }

  /**
   * FileBackedTaskManager.fromString: the fields are read by position; a
   * missing field, a malformed number, an unknown type or status, or a
   * duration the Task constructor refuses is a ManagerParseTaskException.
   * Start time and duration are read only when there are more than five
   * fields, and an epic drops them.
   */
  function FromLine(line: string): (r: Result<Record, Exception>)
    ensures r.Failure? ==> r.error == ManagerParseTask
    ensures r.Success? ==> IsInt(r.value.id)
    ensures r.Success? && r.value.kind.SubtaskKind? ==> IsInt(r.value.kind.epicId)
    ensures r.Success? && r.value.kind == EpicKind ==> r.value.startTime.None? && r.value.duration.None?
    ensures r.Success? && r.value.startTime.Some? ==> IsInt(r.value.startTime.value)
    ensures r.Success? && r.value.duration.Some? ==> 0 < r.value.duration.value <= IntMax
  {
    var fields := Split(line);
    if |fields| < 5 then Failure(ManagerParseTask)
    else
      var id := ParseInt(fields[0]);
      var taskType := ParseType(fields[1]);
      var status := ParseStatus(fields[3]);
      var start := if |fields| > 5 then ParseNumber(fields[5]) else Success(None);
      var duration := if |fields| > 6 then ParseNumber(fields[6])
                      else if |fields| > 5 then Failure(ManagerParseTask)
                      else Success(None);
      if id.None? || taskType.None? || status.None? || start.Failure? || duration.Failure? then
        Failure(ManagerParseTask)
      else
        var name := ParseText(fields[2]);
        var description := ParseText(fields[4]);
        match taskType.value
        case EPIC => Success(Record(id.value, EpicKind, name, status.value, description, None, None))
        case TASK =>
          if ValidDuration(duration.value).Failure? then Failure(ManagerParseTask)
          else Success(Record(id.value, TaskKind, name, status.value, description, start.value, duration.value))
        case SUBTASK =>
          var epicId := if |fields| > 7 then ParseInt(fields[7]) else None;
          if epicId.None? || ValidDuration(duration.value).Failure? then Failure(ManagerParseTask)
          else Success(Record(id.value, SubtaskKind(epicId.value), name, status.value, description,
                              start.value, duration.value))
  }

  /** What the saved object can hold and the line format can carry back. */
  predicate Storable(r: Record) {
    IsInt(r.id) &&
    (r.kind.SubtaskKind? ==> IsInt(r.kind.epicId)) &&
    (r.kind != EpicKind ==>
       (r.startTime.Some? ==> IsInt(r.startTime.value)) &&
       (r.duration.Some? ==> 0 < r.duration.value <= IntMax)) &&
    (r.kind == EpicKind ==> r.description != Some(""))
  }

  /** A text as it reads back: separators became dots, and the text "null" is absent. */
  function Reread(text: Option<string>): Option<string> {
    match text
    case None => None
    case Some(t) => ParseText(Replace(t))
  }

  /** The record a saved line reads back as. */
  function Normal(r: Record): (n: Record)
    ensures n.id == r.id && n.kind == r.kind && n.status == r.status
  {
    r.(name := Reread(r.name), description := Reread(r.description),
       startTime := if r.kind == EpicKind then None else r.startTime,
       duration := if r.kind == EpicKind then None else r.duration)
  }

  lemma {:induction false} PiecesNoSeparator(s: string)
    requires Separator !in s
    ensures Pieces(s) == [s]
  {
    if s != [] {
      PiecesNoSeparator(s[1..]);
      assert [s[0]] + s[1..] == s;
    }
  }

  lemma {:induction false} PiecesAfter(a: string, t: string)
    requires Separator !in a
    ensures Pieces(a + [Separator] + t) == [a] + Pieces(t)
  {
    if a == [] {
      assert a + [Separator] + t == [Separator] + t;
      assert ([Separator] + t)[1..] == t;
    } else {
      var s := a + [Separator] + t;
      assert s[1..] == a[1..] + [Separator] + t;
      PiecesAfter(a[1..], t);
      assert [a[0]] + a[1..] == a;
    }
  }

  /** Splitting a text at its separators undoes joining fields that hold none. */
  lemma {:induction false} PiecesJoin(fields: seq<string>)
    requires |fields| >= 1
    requires forall i :: 0 <= i < |fields| ==> Separator !in fields[i]
    ensures Pieces(Join(fields)) == fields
  {
    if |fields| == 1 {
      PiecesNoSeparator(fields[0]);
    } else {
      PiecesAfter(fields[0], Join(fields[1..]));
      PiecesJoin(fields[1..]);
    }
  }

  /**
   * split(",") gives back the joined fields when none holds a separator,
   * there are at least two, and the last is not empty (split drops empty
   * trailing fields).
   */
  lemma SplitJoin(fields: seq<string>)
    requires |fields| >= 2 && fields[|fields| - 1] != ""
    requires forall i :: 0 <= i < |fields| ==> Separator !in fields[i]
    ensures Split(Join(fields)) == fields
  {
    PiecesJoin(fields);
    assert Join(fields) == fields[0] + [Separator] + Join(fields[1..]);
    assert Join(fields)[|fields[0]|] == Separator;
  }

  lemma RereadText(text: Option<string>)
    ensures ParseText(TextField(text)) == Reread(text)
  {
  }

  /** A start time or duration that fits an `int` reads back as written. */
  lemma NumberRoundTrip(n: Option<int>)
    requires n.Some? ==> IsInt(n.value)
    ensures ParseNumber(NumberField(n)) == Success(n)
  {
    if n.Some? {
      ParseIntToString(n.value);
      assert NumberField(n)[0] != Null[0];
    }
  }

  /** The fields of a storable record come back from split unchanged. */
  lemma SplitLine(r: Record)
    requires Storable(r)
    ensures Split(ToLine(r)) == Fields(r)
  {
    var fields := Fields(r);
    if r.kind == EpicKind && r.description.Some? {
      assert |fields[4]| == |r.description.value| > 0;
    }
    SplitJoin(fields);
  }

  /**
   * Reading back a saved line gives the saved values, with separators in
   * texts replaced, the text "null" read as absent and an epic's times
   * dropped.
   */
  lemma LineRoundTrip(r: Record)
    requires Storable(r)
    ensures FromLine(ToLine(r)) == Success(Normal(r))
  {
    SplitLine(r);
    ParseIntToString(r.id);
    RereadText(r.name);
    RereadText(r.description);
    match r.kind
    case EpicKind => EpicRoundTrip(r);
    case TaskKind => TaskRoundTrip(r);
    case SubtaskKind(epicId) => SubtaskRoundTrip(r);
  }

  /** The round trip of an epic's line, once its fields are split back. */
  lemma EpicRoundTrip(r: Record)
    requires Storable(r) && r.kind == EpicKind && Split(ToLine(r)) == Fields(r)
    requires ParseInt(IntToString(r.id)) == Some(r.id)
    requires ParseText(TextField(r.name)) == Reread(r.name) && ParseText(TextField(r.description)) == Reread(r.description)
    ensures FromLine(ToLine(r)) == Success(Normal(r))
  {
    var fields := Fields(r);
    assert ParseInt(fields[0]) == Some(r.id);
    assert ParseType(fields[1]) == Some(EPIC);
    assert ParseStatus(fields[3]) == Some(r.status);
  }

  /** The round trip of a task's line, once its fields are split back. */
  lemma TaskRoundTrip(r: Record)
    requires Storable(r) && r.kind == TaskKind && Split(ToLine(r)) == Fields(r)
    requires ParseInt(IntToString(r.id)) == Some(r.id)
    requires ParseText(TextField(r.name)) == Reread(r.name) && ParseText(TextField(r.description)) == Reread(r.description)
    ensures FromLine(ToLine(r)) == Success(Normal(r))
  {
    var fields := Fields(r);
    assert ParseInt(fields[0]) == Some(r.id);
    assert ParseType(fields[1]) == Some(TASK);
    assert ParseStatus(fields[3]) == Some(r.status);
    NumberRoundTrip(r.startTime);
    NumberRoundTrip(r.duration);
    assert ValidDuration(r.duration).Success?;
  }

  /** The round trip of a subtask's line, once its fields are split back. */
  lemma SubtaskRoundTrip(r: Record)
    requires Storable(r) && r.kind.SubtaskKind? && Split(ToLine(r)) == Fields(r)
    requires ParseInt(IntToString(r.id)) == Some(r.id)
    requires ParseText(TextField(r.name)) == Reread(r.name) && ParseText(TextField(r.description)) == Reread(r.description)
    ensures FromLine(ToLine(r)) == Success(Normal(r))
  {
    var fields := Fields(r);
    assert ParseInt(fields[0]) == Some(r.id);
    assert ParseType(fields[1]) == Some(SUBTASK);
    assert ParseStatus(fields[3]) == Some(r.status);
    NumberRoundTrip(r.startTime);
    NumberRoundTrip(r.duration);
    assert ValidDuration(r.duration).Success?;
    ParseIntToString(r.kind.epicId);
    assert ParseInt(fields[7]) == Some(r.kind.epicId);
  }

  /** A line with only the first five fields of a task reads back as the task without start time and duration. */
  lemma FiveFieldTaskLine(r: Record)
    requires Storable(r) && r.kind == TaskKind && r.description != Some("")
    ensures FromLine(Join(Fields(r)[..5])) == Success(Normal(r).(startTime := None, duration := None))
  {
    var fields := Fields(r)[..5];
    SplitFive(r);
    ParseIntToString(r.id);
    assert ParseInt(fields[0]) == Some(r.id);
    assert ParseType(fields[1]) == Some(TASK);
    assert ParseStatus(fields[3]) == Some(r.status);
    RereadText(r.name);
    RereadText(r.description);
  }

  /** A subtask's line cut after five fields lacks the epic id and does not read back. */
  lemma FiveFieldSubtaskLine(r: Record)
    requires Storable(r) && r.kind.SubtaskKind? && r.description != Some("")
    ensures FromLine(Join(Fields(r)[..5])).Failure?
  {
    SplitFive(r);
  }

  /** The first five fields of a task or subtask come back from split unchanged. */
  lemma SplitFive(r: Record)
    requires Storable(r) && r.kind != EpicKind && r.description != Some("")
    ensures Split(Join(Fields(r)[..5])) == Fields(r)[..5]
  {
    var fields := Fields(r)[..5];
    assert forall i :: 0 <= i < 5 ==> fields[i] == Fields(r)[i];
    if r.description.Some? {
      assert |fields[4]| == |r.description.value| > 0;
    }
    SplitJoin(fields);
  }

  /**
   * An epic with an empty description is saved with an empty last field,
   * which split drops: the line has four fields and does not read back.
   */
  lemma EmptyEpicDescriptionUnreadable(r: Record)
    requires r.kind == EpicKind && r.description == Some("")
    ensures FromLine(ToLine(r)).Failure?
  {
    var fields := Fields(r);
    PiecesJoin(fields);
    assert Join(fields) == fields[0] + [Separator] + Join(fields[1..]);
    assert Join(fields)[|fields[0]|] == Separator;
    assert fields[4] == "" && fields[3] != "";
    assert DropTrailingEmpty(fields) == DropTrailingEmpty(fields[..4]) == fields[..4];
  }

  /**
   * A start time is saved as a `long` number of seconds but read back with
   * Integer.parseInt: a task starting after 2038-01-19T03:14:07Z does not
   * read back.
   */
  lemma LateStartUnreadable(r: Record)
    requires r.kind != EpicKind && r.startTime.Some? && !IsInt(r.startTime.value)
    ensures FromLine(ToLine(r)).Failure?
  {
    var fields := Fields(r);
    SplitJoin(fields);
    ParseIntToString(r.startTime.value);
  }
}
