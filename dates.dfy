/** Calendar dates as day numbers, and the orders the pages sort by. A
    missing or unparsable date is `None`; the comparators put it last. */
module Dates {
  import opened Common
  import opened Records
  import opened Seqs

  /** Ascending by day, undated last. */
  predicate DateLe(a: Option<int>, b: Option<int>) {
    b.None? || (a.Some? && a.value <= b.value)
  }

  /** Descending by day, undated last. */
  predicate DateGe(a: Option<int>, b: Option<int>) {
    b.None? || (a.Some? && a.value >= b.value)
  }

  predicate ExamDateLe(a: Exam, b: Exam) {
    DateLe(a.date, b.date)
  }

  predicate ExamDateGe(a: Exam, b: Exam) {
    DateGe(a.date, b.date)
  }

  predicate DueDateLe(a: Assignment, b: Assignment) {
    DateLe(a.dueDate, b.dueDate)
  }

  lemma ExamDateOrders()
    ensures TotalPreorder(ExamDateLe) && TotalPreorder(ExamDateGe)
  {
  }

  lemma DueDateOrder()
    ensures TotalPreorder(DueDateLe)
  {
  }
}
