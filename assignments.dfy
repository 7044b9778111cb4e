/** The assignments page: the status filter sorted by due date, and the
    add and edit forms with their guards. */
module Assignments {
  import opened Common
  import opened Seqs
  import opened Records
  import opened Dates
  import Collections
  import AppContext

  /** The blank add form: today's date and priority "Medium" (lines 14-19,
      25-30). */
  function BlankForm(today: int): AssignmentForm {
    AssignmentForm("", "", Some(today), "Medium")
  }

  /** The filter callback (lines 55-58). */
  predicate Keeps(filter: string, a: Assignment) {
    if filter == "pending" then !a.completed
    else if filter == "completed" then a.completed
    else true
  }

  /** `filteredAssignments` (lines 55-59), due date ascending. */
  function FilteredAssignments(assignments: seq<Assignment>, filter: string): (r: seq<Assignment>)
    ensures forall i :: 0 <= i < |r| ==> Keeps(filter, r[i])
    ensures SortedBy(r, DueDateLe)
  {
    DueDateOrder();
    var keep := (a: Assignment) => Keeps(filter, a);
    var sorted := SortBy(Filter(assignments, keep), DueDateLe);
    PermutationEvery(sorted, Filter(assignments, keep), keep);
    sorted
  }

  /** Each assignment the filter accepts is shown as often as it occurs,
      and no other is. */
  lemma FilteredCount(assignments: seq<Assignment>, filter: string, a: Assignment)
    ensures multiset(FilteredAssignments(assignments, filter))[a] ==
      if Keeps(filter, a) then multiset(assignments)[a] else 0
  {
    DueDateOrder();
    FilterCount(assignments, (x: Assignment) => Keeps(filter, x), a);
  }

  /** "pending" shows exactly the unfinished ones, "completed" exactly the
      finished ones, and any other filter value everything. */
  lemma FilterSemantics(assignments: seq<Assignment>, a: Assignment)
    ensures a in FilteredAssignments(assignments, "pending") <==> a in assignments && !a.completed
    ensures a in FilteredAssignments(assignments, "completed") <==> a in assignments && a.completed
    ensures forall other :: other != "pending" && other != "completed" ==>
      multiset(FilteredAssignments(assignments, other)) == multiset(assignments)
  {
    FilteredCount(assignments, "pending", a);
    FilteredCount(assignments, "completed", a);
    assert a in FilteredAssignments(assignments, "pending") <==> a in multiset(FilteredAssignments(assignments, "pending"));
    assert a in FilteredAssignments(assignments, "completed") <==> a in multiset(FilteredAssignments(assignments, "completed"));
    forall other | other != "pending" && other != "completed"
      ensures multiset(FilteredAssignments(assignments, other)) == multiset(assignments)
    {
      DueDateOrder();
      FilterKeepsAll(assignments, (x: Assignment) => Keeps(other, x));
    }
  }

  /** The pending and completed views split the list between them. */
  lemma PendingCompletedPartition(assignments: seq<Assignment>)
    ensures multiset(FilteredAssignments(assignments, "pending")) + multiset(FilteredAssignments(assignments, "completed"))
      == multiset(assignments)
  {
    DueDateOrder();
    FilterPartition(assignments, (x: Assignment) => Keeps("pending", x), (x: Assignment) => Keeps("completed", x));
  }

  class Page {
    var filter: string
    var newAssignment: AssignmentForm
    var editingAssignment: Option<Assignment>
    var showAddModal: bool
    var showEditModal: bool

    constructor (today: int)
      ensures filter == "all" && newAssignment == BlankForm(today) && editingAssignment == None
      ensures !showAddModal && !showEditModal
    {
      filter := "all";
      newAssignment := BlankForm(today);
      editingAssignment := None;
      showAddModal := false;
      showEditModal := false;
    }

    /** `handleSubmit` (lines 21-32): a task needs a title and a subject;
        afterwards the form is blank again. */
    method HandleSubmit(app: AppContext.App, id: string, today: int)
      modifies this`newAssignment, this`showAddModal, app`assignments
      ensures if old(newAssignment).title == "" || old(newAssignment).subject == "" then
          newAssignment == old(newAssignment) && showAddModal == old(showAddModal)
          && app.assignments == old(app.assignments)
        else
          app.assignments == Collections.AddAssignment(old(app.assignments), old(newAssignment), id)
          && newAssignment == BlankForm(today) && !showAddModal
    {
      if newAssignment.title == "" || newAssignment.subject == "" {
        return;
      }
      app.AddAssignment(newAssignment, id);
      newAssignment := BlankForm(today);
      showAddModal := false;
    }

    /** `handleEdit` (lines 34-40): a task without a due date is edited with
        today's. */
    method HandleEdit(a: Assignment, today: int)
      modifies this`editingAssignment, this`showEditModal
      ensures editingAssignment == Some(a.(dueDate := if a.dueDate.Some? then a.dueDate else Some(today)))
      ensures showEditModal
    {
      editingAssignment := Some(a.(dueDate := if a.dueDate.Some? then a.dueDate else Some(today)));
      showEditModal := true;
    }

    /** `handleUpdateSubmit` (lines 42-53): only the four form fields are
        sent, so the edit cannot change whether the task is done. The edit
        form exists only while a task is being edited (line 191). */
    method HandleUpdateSubmit(app: AppContext.App)
      requires editingAssignment.Some?
      modifies this`editingAssignment, this`showEditModal, app`assignments
      ensures var e := old(editingAssignment).value;
        if e.title == "" || e.subject == "" then
          editingAssignment == old(editingAssignment) && showEditModal == old(showEditModal)
          && app.assignments == old(app.assignments)
        else
          app.assignments == Collections.UpdateAssignment(old(app.assignments), Collections.StringId(e.id), Some(e.Form()))
          && editingAssignment == None && !showEditModal
    {
      var e := editingAssignment.value;
      if e.title == "" || e.subject == "" {
        return;
      }
      app.UpdateAssignment(Collections.StringId(e.id), Some(AssignmentForm(e.title, e.subject, e.dueDate, e.priority)));
      showEditModal := false;
      editingAssignment := None;
    }

    /** The filter chips (line 78). */
    method SetFilter(f: string)
      requires f in ["all", "pending", "completed"]
      modifies this`filter
      ensures filter == f
    {
      filter := f;
    }
  }
}
