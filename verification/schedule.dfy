/**
 * Time arithmetic of the task model: the end time of a task, the overlap
 * test of Task.isIntersect, and the start, duration and end that an Epic
 * keeps up to date as subtasks are added to it and removed from it.
 * Instants (LocalDateTime) and spans (Duration) are counted in whole seconds.
 */
module Schedule {
  import opened Wrappers

  /** A duration that passed Task.durationValidate. */
  type PositiveSeconds = s: int | s > 0 witness 1

  /** The start time and duration of a task or a subtask. */
  datatype Span = Span(start: Option<int>, duration: Option<int>) {

    /** Task.getEndTime: the start plus the duration, when both are set. */
    function End(): (end: Option<int>)
      ensures end.Some? <==> Timed()
      ensures end.Some? ==> end.value - start.value == duration.value
    {
      if start.Some? && duration.Some? then Some(start.value + duration.value) else None
    }

    function TimeWindow(): Window {
      Window(start, End())
    }

    predicate Timed() {
      start.Some? && duration.Some?
    }
  }

  /** What Task.isIntersect reads of a task: getStartTime() and getEndTime(). */
  datatype Window = Window(start: Option<int>, end: Option<int>)

  /**
   * Task.isIntersect: false when either end time is missing; otherwise the
   * windows overlap unless one ends at or before the other starts.
   * A window with an end but no start (an epic after Epic.removeTime) is
   * answered with false.
   */
  predicate IsIntersect(a: Window, b: Window) {
    if a.end.None? || b.end.None? then false
    else if a.start.None? || b.start.None? then false
    else
      var isBefore := !(a.end.value > b.start.value);
      var isAfter := !(a.start.value < b.end.value);
      !(isBefore || isAfter)
  }

  lemma IntersectSymmetric(a: Window, b: Window)
    ensures IsIntersect(a, b) == IsIntersect(b, a)
  {
  }

  /** Two timed spans intersect exactly when each starts before the other ends. */
  lemma IntersectIffOverlap(x: Span, y: Span)
    requires x.Timed() && y.Timed()
    ensures IsIntersect(x.TimeWindow(), y.TimeWindow()) <==>
              x.start.value < y.End().value && y.start.value < x.End().value
  {
  }

  /** A span whose start or duration is missing intersects nothing, even a span with the same start. */
  lemma UntimedNeverIntersects(x: Span, w: Window)
    requires !x.Timed()
    ensures !IsIntersect(x.TimeWindow(), w) && !IsIntersect(w, x.TimeWindow())
  {
  }

  /** A span of positive length intersects itself; spans that only touch do not intersect. */
  lemma TouchingSpansDoNotIntersect(x: Span, y: Span)
    requires x.Timed() && y.Timed() && x.duration.value > 0
    ensures IsIntersect(x.TimeWindow(), x.TimeWindow())
    ensures y.start.value == x.End().value ==> !IsIntersect(x.TimeWindow(), y.TimeWindow())
  {
  }

  /** The start, duration and end time an Epic keeps (Task.startTime, Task.duration, Epic.endTime). */
  datatype EpicTimes = EpicTimes(startTime: Option<int>, duration: Option<int>, endTime: Option<int>)

  const NoTimes := EpicTimes(None, None, None)

  /** An end time is never kept without a start time. */
  predicate Consistent(t: EpicTimes) {
    t.endTime.Some? ==> t.startTime.Some?
  }

  /**
   * Epic.updateTime(subtask): the start moves to the subtask's start when the
   * epic has none, the subtask has none, or the subtask starts earlier; the
   * duration adds the subtask's duration; the end moves to the subtask's end
   * when the epic has none, the subtask has none, or the subtask ends later.
   */
  function UpdatedTimes(t: EpicTimes, s: Span): (r: EpicTimes)
    ensures Consistent(r)
    ensures s.Timed() && t.startTime.Some? ==> r.startTime == Some(Min(t.startTime.value, s.start.value))
    ensures s.Timed() && t.endTime.Some? ==> r.endTime == Some(Max(t.endTime.value, s.End().value))
    ensures s.start.None? ==> r.startTime.None? && r.endTime.None?
    ensures s.duration.None? ==> r.duration == t.duration
  {
    var end := s.End();
    var startTime :=
      if t.startTime.None? || s.start.None? || t.startTime.value > s.start.value then s.start else t.startTime;
    var duration :=
      if t.duration.None? then s.duration
      else if s.duration.Some? then Some(t.duration.value + s.duration.value)
      else t.duration;
    var endTime :=
      if t.endTime.None? || end.None? || end.value > t.endTime.value then end else t.endTime;
    EpicTimes(startTime, duration, endTime)
  }

  /** Epic.updateTime adds the subtask's duration to the epic's, a null duration counting as none. */
  lemma UpdatedDuration(t: EpicTimes, s: Span)
    ensures t.duration.None? ==> UpdatedTimes(t, s).duration == s.duration
    ensures t.duration.Some? && s.duration.Some? ==>
              UpdatedTimes(t, s).duration == Some(t.duration.value + s.duration.value)
  {
  }

  function Min(a: int, b: int): int { if a < b then a else b }
  function Max(a: int, b: int): int { if a < b then b else a }

  /**
   * The times Epic.removeTime leaves, and whether it completed: it throws a
   * NullPointerException, after the updates made so far, when the epic has a
   * duration (start, end) and the removed subtask has none.
   */
  datatype Removal = Removal(times: EpicTimes, completed: bool)

  /**
   * Epic.removeTime(subtask): subtracts the subtask's duration (a zero total
   * becomes null), and clears the start and the end when they equal the
   * subtask's.
   */
  function RemovedTimes(t: EpicTimes, s: Span): (r: Removal)
    ensures r.completed <==>
              (t.duration.Some? ==> s.duration.Some?) &&
              (t.startTime.Some? ==> s.start.Some?) &&
              (t.endTime.Some? ==> s.End().Some?)
    ensures r.completed && s.Timed() && t.duration.Some? && t.duration.value != s.duration.value ==>
              r.times.duration == Some(t.duration.value - s.duration.value)
    ensures r.completed && t.startTime.Some? ==>
              (r.times.startTime.None? <==> t.startTime == s.start)
    ensures r.completed && t.endTime.Some? ==>
              (r.times.endTime.None? <==> t.endTime == s.End())
    ensures r.completed && t.duration.Some? ==>
              s.duration.Some? &&
              (r.times.duration.None? <==> t.duration == s.duration) &&
              (t.duration != s.duration ==> r.times.duration == Some(t.duration.value - s.duration.value))
    ensures t.duration.None? ==> r.times.duration.None?
  {
    var end := s.End();
    if t.duration.Some? && s.duration.None? then Removal(t, false)
    else
      var duration :=
        if t.duration.None? then None
        else if t.duration.value - s.duration.value == 0 then None
        else Some(t.duration.value - s.duration.value);
      var t1 := t.(duration := duration);
      if t1.startTime.Some? && s.start.None? then Removal(t1, false)
      else
        var t2 := if t1.startTime.Some? && t1.startTime.value == s.start.value then t1.(startTime := None) else t1;
        if t2.endTime.Some? && end.None? then Removal(t2, false)
        else
          var t3 := if t2.endTime.Some? && t2.endTime.value == end.value then t2.(endTime := None) else t2;
          Removal(t3, true)
  }

  /** The times an epic reaches by Epic.updateTime over the spans in order. */
  function Aggregate(t: EpicTimes, spans: seq<Span>): EpicTimes
  {
    if spans == [] then t else UpdatedTimes(Aggregate(t, spans[..|spans| - 1]), spans[|spans| - 1])
  }

  /** One more Epic.updateTime extends the fold by one span. */
  lemma AggregateStep(t: EpicTimes, spans: seq<Span>, i: int)
    requires 0 <= i < |spans|
    ensures Aggregate(t, spans[..i + 1]) == UpdatedTimes(Aggregate(t, spans[..i]), spans[i])
  {
    assert spans[..i + 1][..i] == spans[..i];
  }

  predicate AllTimed(spans: seq<Span>) {
    forall i :: 0 <= i < |spans| ==> spans[i].Timed()
  }

  function EarliestStart(spans: seq<Span>): int
    requires |spans| > 0 && AllTimed(spans)
  {
    var last := spans[|spans| - 1].start.value;
    if |spans| == 1 then last else Min(EarliestStart(spans[..|spans| - 1]), last)
  }

  function LatestEnd(spans: seq<Span>): int
    requires |spans| > 0 && AllTimed(spans)
  {
    var last := spans[|spans| - 1].End().value;
    if |spans| == 1 then last else Max(LatestEnd(spans[..|spans| - 1]), last)
  }

  function TotalDuration(spans: seq<Span>): int
    requires AllTimed(spans)
  {
    if spans == [] then 0 else TotalDuration(spans[..|spans| - 1]) + spans[|spans| - 1].duration.value
  }

  /**
   * An epic whose subtasks all have a start and a duration starts at the
   * earliest start, ends at the latest end and lasts the sum of the durations,
   * whatever order the subtasks were added in.
   */
  lemma {:induction false} AggregateOfTimed(spans: seq<Span>)
    requires |spans| > 0 && AllTimed(spans)
    ensures Aggregate(NoTimes, spans) ==
              EpicTimes(Some(EarliestStart(spans)), Some(TotalDuration(spans)), Some(LatestEnd(spans)))
  {
    if |spans| > 1 {
      var init := spans[..|spans| - 1];
      assert AllTimed(init);
      AggregateOfTimed(init);
    }
  }

  /** The earliest start and the latest end bound every span of the epic. */
  lemma {:induction false} AggregateBounds(spans: seq<Span>)
    requires |spans| > 0 && AllTimed(spans)
    ensures forall i :: 0 <= i < |spans| ==>
              EarliestStart(spans) <= spans[i].start.value && spans[i].End().value <= LatestEnd(spans)
    ensures exists i :: 0 <= i < |spans| && EarliestStart(spans) == spans[i].start.value
    ensures exists j :: 0 <= j < |spans| && LatestEnd(spans) == spans[j].End().value
  {
    var n := |spans|;
    if n == 1 {
      assert EarliestStart(spans) == spans[0].start.value;
      assert LatestEnd(spans) == spans[0].End().value;
    } else {
      var init := spans[..n - 1];
      assert AllTimed(init);
      AggregateBounds(init);
      assert forall i :: 0 <= i < n - 1 ==> init[i] == spans[i];
      var i :| 0 <= i < n - 1 && EarliestStart(init) == init[i].start.value;
      var j :| 0 <= j < n - 1 && LatestEnd(init) == init[j].End().value;
      if EarliestStart(init) < spans[n - 1].start.value {
        assert EarliestStart(spans) == spans[i].start.value;
      } else {
        assert EarliestStart(spans) == spans[n - 1].start.value;
      }
      if LatestEnd(init) < spans[n - 1].End().value {
        assert LatestEnd(spans) == spans[n - 1].End().value;
      } else {
        assert LatestEnd(spans) == spans[j].End().value;
      }
    }
  }

  /** Removing the only subtask's span restores the times of an empty epic. */
  lemma RemoveUndoesOnlyAdd(s: Span)
    requires s.Timed() && s.duration.value > 0
    ensures RemovedTimes(UpdatedTimes(NoTimes, s), s) == Removal(NoTimes, true)
  {
  }

  /**
   * Removing a timed subtask and then adding one without a start or
   * duration leaves the epic with no start, duration or end.
   */
  lemma ReplaceOnlyByUntimed(s: Span, u: Span)
    requires s.Timed() && s.duration.value > 0
    requires u.start.None? && u.duration.None?
    ensures UpdatedTimes(RemovedTimes(UpdatedTimes(NoTimes, s), s).times, u) == NoTimes
  {
  }
}
