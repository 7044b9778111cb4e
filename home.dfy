/** The dashboard: pending tasks by priority, the next exam, the greeting
    and the focus-time figure. Everything here is derived from the shared
    state; the page keeps nothing of its own. */
module Home {
  import opened Common
  import opened Text
  import opened Seqs
  import opened Records
  import opened Dates
  import Collections
  import Exams
  import Assignments

  /** `priorityOrder[a.priority] || 4` (lines 13 and 16). */
  function Rank(priority: string): (r: nat)
    ensures 1 <= r <= 4
    ensures r == 1 <==> priority == "High"
    ensures r == 2 <==> priority == "Medium"
    ensures r == 3 <==> priority == "Low"
  {
    if priority == "High" then 1
    else if priority == "Medium" then 2
    else if priority == "Low" then 3
    else 4
  }

  predicate RankLe(a: Assignment, b: Assignment) {
    Rank(a.priority) <= Rank(b.priority)
  }

  lemma RankOrder()
    ensures TotalPreorder(RankLe)
  {
  }

  predicate IsPending(a: Assignment) {
    !a.completed
  }

  /** `pendingAssignments` (lines 14-16). */
  function PendingAssignments(assignments: seq<Assignment>): (r: seq<Assignment>)
    ensures forall i :: 0 <= i < |r| ==> !r[i].completed
    ensures SortedBy(r, RankLe)
  {
    RankOrder();
    var sorted := SortBy(Filter(assignments, IsPending), RankLe);
    PermutationEvery(sorted, Filter(assignments, IsPending), IsPending);
    sorted
  }

  /** Every unfinished task is listed as often as it is stored, and no
      finished one. */
  lemma PendingCount(assignments: seq<Assignment>, a: Assignment)
    ensures multiset(PendingAssignments(assignments))[a] ==
      if a.completed then 0 else multiset(assignments)[a]
  {
    RankOrder();
    FilterCount(assignments, IsPending, a);
  }

  /** The dashboard's pending tasks are those of the assignments page's
      "pending" view, in a different order; the counts agree. */
  lemma PendingAgreesWithAssignmentsPage(assignments: seq<Assignment>)
    ensures multiset(PendingAssignments(assignments)) == multiset(Assignments.FilteredAssignments(assignments, "pending"))
    ensures |PendingAssignments(assignments)| == |Assignments.FilteredAssignments(assignments, "pending")|
  {
    forall a
      ensures multiset(PendingAssignments(assignments))[a] == multiset(Assignments.FilteredAssignments(assignments, "pending"))[a]
    {
      PendingCount(assignments, a);
      Assignments.FilteredCount(assignments, "pending", a);
    }
    assert multiset(PendingAssignments(assignments)) == multiset(Assignments.FilteredAssignments(assignments, "pending"));
    assert |multiset(PendingAssignments(assignments))| == |multiset(Assignments.FilteredAssignments(assignments, "pending"))|;
  }

  /** The task cards (line 134): the first three pending tasks. */
  function TopTasks(assignments: seq<Assignment>): (r: seq<Assignment>)
    ensures r <= PendingAssignments(assignments)
    ensures |r| == if |PendingAssignments(assignments)| < 3 then |PendingAssignments(assignments)| else 3
  {
    var p := PendingAssignments(assignments);
    if |p| < 3 then p else p[..3]
  }

  /** A task outranked by no shown card is shown whenever fewer than three
      tasks rank at most as it does: no task of higher priority is ever
      skipped in favour of a lower one. */
  lemma TopTasksHaveHighestPriority(assignments: seq<Assignment>, shown: Assignment, hidden: Assignment)
    requires shown in TopTasks(assignments)
    requires hidden in PendingAssignments(assignments) && hidden !in TopTasks(assignments)
    ensures Rank(shown.priority) <= Rank(hidden.priority)
  {
    var p := PendingAssignments(assignments);
    var t := TopTasks(assignments);
    var i :| 0 <= i < |t| && t[i] == shown;
    var j :| 0 <= j < |p| && p[j] == hidden;
    assert t[i] == p[i];
    assert forall k :: 0 <= k < |t| ==> p[k] == t[k];
  }

  /** `nextExam` (line 18): the first of a sorted copy, or none. */
  function NextExam(exams: seq<Exam>): (r: Option<Exam>)
    ensures r.None? <==> exams == []
    ensures r.Some? ==> r.value in exams
  {
    ExamDateOrders();
    if exams == [] then None
    else
      assert exams[0] in exams;
      SortByFirstIsLeast(exams, ExamDateLe, exams[0]);
      Some(SortBy(exams, ExamDateLe)[0])
  }

  /** The next exam is at most as late as every exam, past ones included;
      it is undated only when every exam is. */
  lemma NextExamIsEarliest(exams: seq<Exam>, e: Exam)
    requires e in exams
    ensures NextExam(exams).Some?
    ensures e.date.Some? ==> NextExam(exams).value.date.Some? && NextExam(exams).value.date.value <= e.date.value
  {
    ExamDateOrders();
    SortByFirstIsLeast(exams, ExamDateLe, e);
  }

  /** Pending tasks of the same priority appear in the order they are
      stored, so which of them get one of the three cards follows that
      order. */
  lemma EqualRankInStoredOrder(assignments: seq<Assignment>, k: nat)
    ensures Filter(PendingAssignments(assignments), (a: Assignment) => Rank(a.priority) == k)
         == Filter(Filter(assignments, IsPending), (a: Assignment) => Rank(a.priority) == k)
  {
    RankOrder();
    SortByStable(Filter(assignments, IsPending), RankLe, (a: Assignment) => Rank(a.priority) == k);
  }

  /** An exam already over is still shown as the next one when it is the
      earliest. */
  lemma NextExamMayBePast(past: Exam, future: Exam, today: int)
    requires past.date == Some(today - 1) && future.date == Some(today + 1)
    ensures NextExam([future, past]) == Some(past)
  {
    NextExamIsEarliest([future, past], past);
  }

  /** The countdown (line 103), from the corrected days-left value: the
      least count over the dated exams, reached by one of them; an undated
      exam has none. */
  function Countdown(exams: seq<Exam>, today: int): (r: Option<int>)
    ensures r.Some? ==> forall e :: e in exams && e.date.Some? ==> r.value <= Exams.DaysLeft(e.date.value, today)
    ensures r.Some? ==> exists e :: e in exams && e.date.Some? && r.value == Exams.DaysLeft(e.date.value, today)
  {
    match NextExam(exams)
    case None => None
    case Some(e) =>
      if e.date.None? then None
      else
        assert forall x :: x in exams && x.date.Some? ==> e.date.value <= x.date.value by {
          forall x | x in exams && x.date.Some?
            ensures e.date.value <= x.date.value
          {
            NextExamIsEarliest(exams, x);
          }
        }
        Some(Exams.DaysLeft(e.date.value, today))
  }

  /** There is a countdown exactly when some exam has a date. */
  lemma CountdownShown(exams: seq<Exam>, today: int)
    ensures Countdown(exams, today).Some? <==> exists e :: e in exams && e.date.Some?
  {
    if e :| e in exams && e.date.Some? {
      NextExamIsEarliest(exams, e);
    }
  }

  /** `handleCompleteTask` (lines 40-42) as written: the task object is
      passed as the id and nothing else, so no element matches. */
  function CompleteTaskAsWritten(assignments: seq<Assignment>, task: Assignment): (r: seq<Assignment>)
    ensures |r| == |assignments|
  {
    Collections.UpdateAssignment(assignments, Collections.TaskObject(task.(completed := true)), None)
  }

  /** The check button changes nothing: the task stays pending. */
  lemma CompleteTaskChangesNothing(assignments: seq<Assignment>, task: Assignment)
    ensures CompleteTaskAsWritten(assignments, task) == assignments
    ensures task in assignments && !task.completed ==> task in PendingAssignments(CompleteTaskAsWritten(assignments, task))
  {
    Collections.UpdateAssignmentByObject(assignments, task.(completed := true), None);
    PendingCount(assignments, task);
    assert task in assignments ==> task in multiset(assignments);
  }

  /** The evidently intended action: the task with that id is marked
      done. */
  function CompleteTask(assignments: seq<Assignment>, task: Assignment): (r: seq<Assignment>)
    ensures |r| == |assignments|
    ensures forall i :: 0 <= i < |r| ==>
      r[i] == if assignments[i].id == task.id then assignments[i].(completed := true) else assignments[i]
  {
    MapWhere(assignments, (a: Assignment) => a.id == task.id, (a: Assignment) => a.(completed := true))
  }

  /** After completing a task, no task with its id is pending, and every
      other pending task still is. */
  lemma CompletedTaskLeavesDashboard(assignments: seq<Assignment>, task: Assignment, a: Assignment)
    ensures a in PendingAssignments(CompleteTask(assignments, task)) <==>
      a in assignments && !a.completed && a.id != task.id
  {
    var r := CompleteTask(assignments, task);
    PendingCount(r, a);
    assert a in PendingAssignments(r) <==> a in multiset(PendingAssignments(r));
    CompleteTaskPendingMember(assignments, task, a);
  }

  lemma CompleteTaskPendingMember(assignments: seq<Assignment>, task: Assignment, a: Assignment)
    ensures var r := CompleteTask(assignments, task);
      (a in r && !a.completed) <==> (a in assignments && !a.completed && a.id != task.id)
  {
    var r := CompleteTask(assignments, task);
    if a in r && !a.completed {
      var i :| 0 <= i < |r| && r[i] == a;
      assert assignments[i].id != task.id;
      assert assignments[i] == a;
    }
    if a in assignments && !a.completed && a.id != task.id {
      var i :| 0 <= i < |assignments| && assignments[i] == a;
      assert r[i] == a;
    }
  }

  /** Completing a pending task is toggling it. */
  lemma CompleteTaskIsToggle(assignments: seq<Assignment>, task: Assignment)
    requires forall i :: 0 <= i < |assignments| && assignments[i].id == task.id ==> !assignments[i].completed
    ensures CompleteTask(assignments, task) == Collections.ToggleAssignment(assignments, task.id)
  {
    Collections.ToggleAssignmentEffect(assignments, task.id);
    var r, t := CompleteTask(assignments, task), Collections.ToggleAssignment(assignments, task.id);
    forall i | 0 <= i < |r|
      ensures r[i] == t[i]
    {
    }
  }

  /** The greeting's name (line 56). */
  function Greeting(userName: string): (r: string)
    ensures userName == "" ==> r == "Scholar"
    ensures userName != "" ==> r <= userName && ' ' !in r && (r == userName || userName[|r|] == ' ')
  {
    if userName == "" then "Scholar" else FirstWord(userName)
  }

  /** A name that starts with a space greets nobody. */
  lemma GreetingEmpty(userName: string)
    requires userName != ""
    ensures Greeting(userName) == "" <==> userName[0] == ' '
  {
  }

  /** JavaScript's `%`: the remainder takes the sign of the dividend. */
  function JsRem(a: int, b: int): (r: int)
    requires b > 0
    ensures a >= 0 ==> 0 <= r < b && r == a % b
    ensures a < 0 ==> -b < r <= 0
  {
    if a >= 0 then a % b else -((-a) % b)
  }

  /** Negating the dividend negates the remainder. */
  lemma JsRemOdd(a: int, b: int)
    requires b > 0
    ensures JsRem(-a, b) == -JsRem(a, b)
  {
  }

  /** The hours and minutes shown (line 78): `Math.floor(daily / 60)` and
      `daily % 60`. */
  function FocusParts(daily: int): (hm: (int, int))
  {
    (daily / 60, JsRem(daily, 60))
  }

  /** For a non-negative total the figure splits it into whole hours and
      the minutes left over. */
  lemma FocusPartsSplit(daily: int)
    requires daily >= 0
    ensures var (h, m) := FocusParts(daily); 60 * h + m == daily && 0 <= m < 60 && h >= 0
  {
  }

  lemma FocusPartsSplitIfNatural(daily: int)
    ensures daily >= 0 ==> var (h, m) := FocusParts(daily); 60 * h + m == daily && 0 <= m < 60
  {
    if daily >= 0 {
      FocusPartsSplit(daily);
    }
  }

  /** For a negative total (a corrupt stored value) hours round down while
      minutes round toward zero, so the figure no longer adds up. */
  lemma FocusPartsNegative()
    ensures FocusParts(-75) == (-2, -15)
  {
  }

  /** `${h}h ${m}m`: for a non-negative total, the whole hours and the
      minutes left over. */
  function FocusTime(daily: int): (r: string)
    ensures |r| > 0 && (r[0] == '-' <==> daily < 0)
    ensures daily >= 0 ==> exists h: int, m: int ::
      60 * h + m == daily && 0 <= m < 60 && r == IntToString(h) + "h " + IntToString(m) + "m"
  {
    var (h, m) := FocusParts(daily);
    FocusPartsSplitIfNatural(daily);
    IntToString(h) + "h " + IntToString(m) + "m"
  }
}
