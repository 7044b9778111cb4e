/** The exams page: the upcoming and past lists, the days-left badge, and
    the add and edit forms with their guards. Dates are day numbers and
    `today` is a parameter. */
module Exams {
  import opened Common
  import opened Text
  import opened Seqs
  import opened Records
  import opened Dates
  import Collections
  import AppContext

  /** The blank add form: today's date and 09:00 (lines 13-19, 25-31). */
  function BlankForm(today: int): ExamForm {
    ExamForm("", "", Some(today), "09:00", "")
  }

  predicate IsUpcoming(e: Exam, today: int) {
    e.date.Some? && e.date.value >= today
  }

  /** An unparsable date compares false both ways, so it is neither. */
  predicate IsPast(e: Exam, today: int) {
    e.date.Some? && e.date.value < today
  }

  /** `upcomingExams` (lines 54-56): from today on, soonest first. */
  function UpcomingExams(exams: seq<Exam>, today: int): (r: seq<Exam>)
    ensures forall i :: 0 <= i < |r| ==> IsUpcoming(r[i], today)
    ensures SortedBy(r, ExamDateLe)
  {
    ExamDateOrders();
    var keep := (e: Exam) => IsUpcoming(e, today);
    var sorted := SortBy(Filter(exams, keep), ExamDateLe);
    PermutationEvery(sorted, Filter(exams, keep), keep);
    sorted
  }

  /** `pastExams` (lines 58-60): before today, most recent first. */
  function PastExams(exams: seq<Exam>, today: int): (r: seq<Exam>)
    ensures forall i :: 0 <= i < |r| ==> IsPast(r[i], today)
    ensures SortedBy(r, ExamDateGe)
  {
    ExamDateOrders();
    var keep := (e: Exam) => IsPast(e, today);
    var sorted := SortBy(Filter(exams, keep), ExamDateGe);
    PermutationEvery(sorted, Filter(exams, keep), keep);
    sorted
  }

  lemma UpcomingCount(exams: seq<Exam>, today: int, e: Exam)
    ensures multiset(UpcomingExams(exams, today))[e] == if IsUpcoming(e, today) then multiset(exams)[e] else 0
  {
    ExamDateOrders();
    FilterCount(exams, (x: Exam) => IsUpcoming(x, today), e);
  }

  lemma PastCount(exams: seq<Exam>, today: int, e: Exam)
    ensures multiset(PastExams(exams, today))[e] == if IsPast(e, today) then multiset(exams)[e] else 0
  {
    ExamDateOrders();
    FilterCount(exams, (x: Exam) => IsPast(x, today), e);
  }

  /** Every dated exam is listed exactly once, either as upcoming or as
      past; an undated one is in neither list. */
  lemma UpcomingPastPartition(exams: seq<Exam>, today: int, e: Exam)
    ensures e.date.Some? ==>
      multiset(UpcomingExams(exams, today))[e] + multiset(PastExams(exams, today))[e] == multiset(exams)[e]
    ensures e.date.Some? && e in exams ==>
      (e in UpcomingExams(exams, today) <==> e !in PastExams(exams, today))
    ensures e.date.None? ==> e !in UpcomingExams(exams, today) && e !in PastExams(exams, today)
  {
    UpcomingCount(exams, today, e);
    PastCount(exams, today, e);
    assert e in UpcomingExams(exams, today) <==> e in multiset(UpcomingExams(exams, today));
    assert e in PastExams(exams, today) <==> e in multiset(PastExams(exams, today));
  }

  // ---------------------------------------------------------------------------
  // Days left

  const MsPerDay := 86_400_000

  /** `differenceInDays(later, earlier)` on two instants in milliseconds:
      the number of whole 24-hour periods between them, truncated toward
      zero. */
  function FullDaysBetween(later: int, earlier: int): int {
    var d := later - earlier;
    if d >= 0 then d / MsPerDay else -((-d) / MsPerDay)
  }

  /** The days-left value as written (line 80): from the present instant,
      `msIntoDay` milliseconds after today's midnight, to the exam day's
      midnight. */
  function DaysLeftAsWritten(examDay: int, today: int, msIntoDay: nat): int
    requires msIntoDay < MsPerDay
  {
    FullDaysBetween(examDay * MsPerDay, today * MsPerDay + msIntoDay)
  }

  lemma DivIsQuotient(d: int, q: int)
    requires q * MsPerDay <= d < (q + 1) * MsPerDay && d >= 0
    ensures d / MsPerDay == q
  {
  }

  /** Any time after midnight, the value as written is one less than the
      number of calendar days to a later exam. */
  lemma DaysLeftAsWrittenLags(examDay: int, today: int, msIntoDay: nat)
    requires 0 < msIntoDay < MsPerDay && examDay > today
    ensures DaysLeftAsWritten(examDay, today, msIntoDay) == examDay - today - 1
  {
    var k := examDay - today;
    var d := examDay * MsPerDay - (today * MsPerDay + msIntoDay);
    assert d == k * MsPerDay - msIntoDay;
    DivIsQuotient(d, k - 1);
  }

  /** The corrected value: calendar days from today to the exam day. */
  function DaysLeft(examDay: int, today: int): (r: int)
    ensures r == 0 <==> examDay == today
    ensures r > 0 <==> examDay > today
  {
    examDay - today
  }

  /** At midnight the two agree. */
  lemma DaysLeftAtMidnight(examDay: int, today: int)
    requires examDay >= today
    ensures DaysLeftAsWritten(examDay, today, 0) == DaysLeft(examDay, today)
  {
    var k := examDay - today;
    assert examDay * MsPerDay - today * MsPerDay == k * MsPerDay;
    DivIsQuotient(k * MsPerDay, k);
  }

  /** The badge text (line 91). */
  function BadgeLabel(daysLeft: int): (r: string)
    ensures r == "Today" <==> daysLeft == 0
    ensures r == "Tomorrow" <==> daysLeft == 1
    ensures daysLeft != 0 && daysLeft != 1 ==> r == IntToString(daysLeft) + " days left"
  {
    if daysLeft == 0 then "Today"
    else if daysLeft == 1 then "Tomorrow"
    else IntToString(daysLeft) + " days left"
  }

  /** Different day counts never share a badge. */
  lemma BadgeLabelInjective(a: int, b: int)
    requires BadgeLabel(a) == BadgeLabel(b)
    ensures a == b
  {
    if a != 0 && a != 1 && b != 0 && b != 1 {
      var sa, sb := IntToString(a), IntToString(b);
      assert BadgeLabel(a)[..|sa|] == sa;
      assert |sa| == |sb|;
      assert BadgeLabel(b)[..|sb|] == sb;
      IntToStringInjective(a, b);
    }
  }

  /** The badge is highlighted as urgent within three days (line 90). */
  predicate IsUrgent(daysLeft: int) {
    daysLeft <= 3
  }

  /** With the value as written, the badge of tomorrow's exam reads
      "Today" from one millisecond after midnight on. */
  lemma TomorrowShownAsToday(today: int, msIntoDay: nat)
    requires 0 < msIntoDay < MsPerDay
    ensures BadgeLabel(DaysLeftAsWritten(today + 1, today, msIntoDay)) == "Today"
    ensures BadgeLabel(DaysLeft(today + 1, today)) == "Tomorrow"
  {
    DaysLeftAsWrittenLags(today + 1, today, msIntoDay);
  }

  /** The badge of an upcoming exam, from the corrected days-left value. */
  function Badge(e: Exam, today: int): (r: (string, bool))
    requires IsUpcoming(e, today)
    ensures r.0 == "Today" <==> e.date.value == today
    ensures r.0 == "Tomorrow" <==> e.date.value == today + 1
    ensures r.1 <==> e.date.value <= today + 3
    ensures var n := e.date.value - today;
      n != 0 && n != 1 ==> r.0 == IntToString(n) + " days left"
  {
    var n := DaysLeft(e.date.value, today);
    (BadgeLabel(n), IsUrgent(n))
  }

  // ---------------------------------------------------------------------------
  // The page

  class Page {
    var newExam: ExamForm
    var editingExam: Option<Exam>
    var showAddModal: bool
    var showEditModal: bool

    constructor (today: int)
      ensures newExam == BlankForm(today) && editingExam == None
      ensures !showAddModal && !showEditModal
    {
      newExam := BlankForm(today);
      editingExam := None;
      showAddModal := false;
      showEditModal := false;
    }

    /** `handleSubmit` (lines 21-33): an exam needs a subject and a name;
        afterwards the form is blank again. */
    method HandleSubmit(app: AppContext.App, id: string, today: int)
      modifies this`newExam, this`showAddModal, app`exams
      ensures if old(newExam).subject == "" || old(newExam).name == "" then
          newExam == old(newExam) && showAddModal == old(showAddModal) && app.exams == old(app.exams)
        else
          app.exams == Collections.AddExam(old(app.exams), old(newExam), id)
          && newExam == BlankForm(today) && !showAddModal
    {
      if newExam.subject == "" || newExam.name == "" {
        return;
      }
      app.AddExam(newExam, id);
      newExam := BlankForm(today);
      showAddModal := false;
    }

    /** `handleEdit` (lines 35-38). */
    method HandleEdit(exam: Exam)
      modifies this`editingExam, this`showEditModal
      ensures editingExam == Some(exam) && showEditModal
    {
      editingExam := Some(exam);
      showEditModal := true;
    }

    /** `handleUpdateSubmit` (lines 40-52). The edit form exists only while
        an exam is being edited (line 204). */
    method HandleUpdateSubmit(app: AppContext.App)
      requires editingExam.Some?
      modifies this`editingExam, this`showEditModal, app`exams
      ensures var e := old(editingExam).value;
        if e.subject == "" || e.name == "" then
          editingExam == old(editingExam) && showEditModal == old(showEditModal)
          && app.exams == old(app.exams)
        else
          app.exams == Collections.UpdateExam(old(app.exams), e.id, e.Form())
          && editingExam == None && !showEditModal
    {
      var e := editingExam.value;
      if e.subject == "" || e.name == "" {
        return;
      }
      app.UpdateExam(e.id, ExamForm(e.subject, e.name, e.date, e.startTime, e.location));
      showEditModal := false;
      editingExam := None;
    }
  }
}
