/** The list updaters of the application context: each takes the previous
    list (`prev`) and returns the new one, as the `set...(prev => ...)`
    calls do. Ids and timestamps, which the source draws from `Date.now()`
    and `new Date()`, are parameters. */
module Collections {
  import opened Common
  import opened Records
  import Seqs

  // ===========================================================================
  // Timetable

  /** `addTimetableEntry`: appends `{ ...entry, id }`. */
  function AddTimetableEntry(list: seq<TimetableEntry>, f: ClassForm, id: string): (r: seq<TimetableEntry>)
    ensures |r| == |list| + 1 && r[..|list|] == list
    ensures r[|list|].id == id && r[|list|].Form() == f
  {
    list + [EntryOf(f, id)]
  }

  /** `updateTimetableEntry`: every entry with this id becomes `{ ...form, id }`. */
  function UpdateTimetableEntry(list: seq<TimetableEntry>, id: string, f: ClassForm): (r: seq<TimetableEntry>)
    ensures |r| == |list|
    ensures forall i :: 0 <= i < |list| ==> r[i] == if list[i].id == id then EntryOf(f, id) else list[i]
  {
    Seqs.MapWhere(list, (t: TimetableEntry) => t.id == id, (t: TimetableEntry) => EntryOf(f, id))
  }

  /** `deleteTimetableEntry`: keeps the entries with another id. */
  function DeleteTimetableEntry(list: seq<TimetableEntry>, id: string): (r: seq<TimetableEntry>)
    ensures forall i :: 0 <= i < |r| ==> r[i].id != id
    ensures multiset(r) <= multiset(list)
  {
    Seqs.Filter(list, (t: TimetableEntry) => t.id != id)
  }

  /** An update keeps every id, so the list keeps its shape. */
  lemma UpdateTimetableKeepsIds(list: seq<TimetableEntry>, id: string, f: ClassForm)
    ensures var r := UpdateTimetableEntry(list, id, f);
      forall i :: 0 <= i < |list| ==> r[i].id == list[i].id
  {
  }

  /** An update for an id that no entry carries changes nothing. */
  lemma UpdateTimetableUnmatched(list: seq<TimetableEntry>, id: string, f: ClassForm)
    requires forall i :: 0 <= i < |list| ==> list[i].id != id
    ensures UpdateTimetableEntry(list, id, f) == list
  {
    Seqs.MapWhereNoMatch(list, (t: TimetableEntry) => t.id == id, (t: TimetableEntry) => EntryOf(f, id));
  }

  /** An entry survives a delete exactly when its id differs. */
  lemma DeleteTimetableMember(list: seq<TimetableEntry>, id: string, e: TimetableEntry)
    ensures e in DeleteTimetableEntry(list, id) <==> e in list && e.id != id
  {
    Seqs.FilterMember(list, (t: TimetableEntry) => t.id != id, e);
  }

  /** Deleting an id no entry carries is a no-op. */
  lemma DeleteTimetableAbsent(list: seq<TimetableEntry>, id: string)
    requires forall i :: 0 <= i < |list| ==> list[i].id != id
    ensures DeleteTimetableEntry(list, id) == list
  {
    Seqs.FilterKeepsAll(list, (t: TimetableEntry) => t.id != id);
  }

  /** Deleting what was just added undoes the add. */
  lemma DeleteAfterAddTimetable(list: seq<TimetableEntry>, f: ClassForm, id: string)
    ensures DeleteTimetableEntry(AddTimetableEntry(list, f, id), id) == DeleteTimetableEntry(list, id)
  {
    var keep := (t: TimetableEntry) => t.id != id;
    Seqs.FilterAppend(list, [EntryOf(f, id)], keep);
    assert Seqs.Filter([EntryOf(f, id)], keep) == [];
  }

  /** A delete after an update leaves what the delete alone leaves: the
      updated entries keep their id, so they go too. */
  lemma DeleteAfterUpdateTimetable(list: seq<TimetableEntry>, id: string, f: ClassForm)
    ensures DeleteTimetableEntry(UpdateTimetableEntry(list, id, f), id) == DeleteTimetableEntry(list, id)
  {
    Seqs.FilterMapWhere(list, (t: TimetableEntry) => t.id == id, (t: TimetableEntry) => EntryOf(f, id),
      (t: TimetableEntry) => t.id != id);
  }

  // ---------------------------------------------------------------------------
  // Runs of operations on a list keyed by id

  /** One call of an add, update or delete helper on a list whose elements
      are `{ ...form, id }`. */
  datatype KeyedOp<F> =
    | AddOp(form: F, newId: string)
    | UpdateOp(id: string, form: F)
    | DeleteOp(id: string)

  /** What one operation means for the id-to-form map: an add or an update
      of a live id sets its form, a delete drops the id. */
  function NextForms<F>(m: map<string, F>, op: KeyedOp<F>): map<string, F> {
    match op
    case AddOp(f, id) => m[id := f]
    case UpdateOp(id, f) => if id in m then m[id := f] else m
    case DeleteOp(id) => m - {id}
  }

  /** What a run of operations means: each id that was added and not since
      deleted, with the form of its latest add or update. */
  function ExpectedForms<F>(m: map<string, F>, ops: seq<KeyedOp<F>>): map<string, F>
    decreases |ops|
  {
    if ops == [] then m else ExpectedForms(NextForms(m, ops[0]), ops[1..])
  }

  /** Every add uses an id that is not live at that point. `Date.now()`
      does not guarantee this: two adds in the same millisecond collide. */
  predicate FreshAdds<F>(m: map<string, F>, ops: seq<KeyedOp<F>>)
    decreases |ops|
  {
    ops == [] || ((ops[0].AddOp? ==> ops[0].newId !in m) && FreshAdds(NextForms(m, ops[0]), ops[1..]))
  }

  /** The list holds one element per key of `m`, with that key's form, and
      no two elements share a key. */
  ghost predicate Represents<T, F>(list: seq<T>, m: map<string, F>, key: T -> string, form: T -> F) {
    && Seqs.DistinctBy(list, key)
    && (forall i :: 0 <= i < |list| ==> key(list[i]) in m && m[key(list[i])] == form(list[i]))
    && (forall k :: k in m ==> exists i :: 0 <= i < |list| && key(list[i]) == k)
  }

  /** Appending an element with a new key extends the map by that key. */
  lemma RepresentsAppend<T, F>(list: seq<T>, m: map<string, F>, key: T -> string, form: T -> F, x: T)
    requires Represents(list, m, key, form) && key(x) !in m
    ensures Represents(list + [x], m[key(x) := form(x)], key, form)
  {
    var r := list + [x];
    var m' := m[key(x) := form(x)];
    forall i | 0 <= i < |list|
      ensures r[i] == list[i] && key(r[i]) != key(x)
    {
      assert key(list[i]) in m;
    }
    assert r[|list|] == x;
    forall k | k in m'
      ensures exists i :: 0 <= i < |r| && key(r[i]) == k
    {
      if k != key(x) {
        var i :| 0 <= i < |list| && key(list[i]) == k;
        assert r[i] == list[i];
      }
    }
  }

  /** Replacing, in place, the elements with key `id` by elements with the
      same key and form `v`, and nothing else, sets that key's form to `v`. */
  lemma RepresentsPointwise<T, F>(list: seq<T>, r: seq<T>, m: map<string, F>, key: T -> string, form: T -> F,
                                  id: string, v: F)
    requires Represents(list, m, key, form) && |r| == |list|
    requires forall i :: 0 <= i < |list| && key(list[i]) != id ==> r[i] == list[i]
    requires forall i :: 0 <= i < |list| && key(list[i]) == id ==> key(r[i]) == id && form(r[i]) == v
    ensures Represents(r, if id in m then m[id := v] else m, key, form)
  {
    var m' := if id in m then m[id := v] else m;
    forall i | 0 <= i < |r|
      ensures key(r[i]) == key(list[i])
      ensures key(r[i]) in m' && m'[key(r[i])] == form(r[i])
    {
      assert key(list[i]) in m;
    }
    forall k | k in m'
      ensures exists i :: 0 <= i < |r| && key(r[i]) == k
    {
      var i :| 0 <= i < |list| && key(list[i]) == k;
      assert key(r[i]) == k;
    }
  }

  lemma FilterKeepsForms<T, F>(list: seq<T>, m: map<string, F>, key: T -> string, form: T -> F, id: string,
                               p: T -> bool)
    requires forall x :: p(x) == (key(x) != id)
    requires forall i :: 0 <= i < |list| ==> key(list[i]) in m && m[key(list[i])] == form(list[i])
    ensures var r := Seqs.Filter(list, p);
      forall i :: 0 <= i < |r| ==> key(r[i]) in m - {id} && (m - {id})[key(r[i])] == form(r[i])
  {
    var r := Seqs.Filter(list, p);
    forall i | 0 <= i < |r|
      ensures key(r[i]) in m - {id} && (m - {id})[key(r[i])] == form(r[i])
    {
      Seqs.FilterMember(list, p, r[i]);
      var j :| 0 <= j < |list| && list[j] == r[i];
    }
  }

  lemma FilterKeepsOthers<T>(list: seq<T>, r: seq<T>, keys: set<string>, key: T -> string, id: string,
                             p: T -> bool)
    requires forall x :: p(x) == (key(x) != id)
    requires r == Seqs.Filter(list, p)
    requires forall k :: k in keys ==> exists i :: 0 <= i < |list| && key(list[i]) == k
    ensures forall k :: k in keys - {id} ==> exists i :: 0 <= i < |r| && key(r[i]) == k
  {
    forall k | k in keys - {id}
      ensures exists i :: 0 <= i < |r| && key(r[i]) == k
    {
      var i :| 0 <= i < |list| && key(list[i]) == k;
      Seqs.FilterMember(list, p, list[i]);
      var j :| 0 <= j < |r| && r[j] == list[i];
    }
  }

  /** Filtering out a key, with a test `p` that keeps exactly the other
      keys, removes exactly that key from the map. */
  lemma RepresentsFilter<T, F>(list: seq<T>, m: map<string, F>, key: T -> string, form: T -> F, id: string,
                               p: T -> bool)
    requires forall x :: p(x) == (key(x) != id)
    requires Represents(list, m, key, form)
    ensures Represents(Seqs.Filter(list, p), m - {id}, key, form)
  {
    Seqs.FilterKeepsDistinct(list, p, key);
    FilterKeepsForms(list, m, key, form, id, p);
    FilterKeepsOthers(list, Seqs.Filter(list, p), m.Keys, key, id, p);
  }

  // ---------------------------------------------------------------------------
  // Runs of timetable operations

  function TimetableId(t: TimetableEntry): string { t.id }

  function TimetableForm(t: TimetableEntry): ClassForm { t.Form() }

  function ApplyTimetableOp(list: seq<TimetableEntry>, op: KeyedOp<ClassForm>): seq<TimetableEntry> {
    match op
    case AddOp(f, id) => AddTimetableEntry(list, f, id)
    case UpdateOp(id, f) => UpdateTimetableEntry(list, id, f)
    case DeleteOp(id) => DeleteTimetableEntry(list, id)
  }

  function ApplyTimetableOps(list: seq<TimetableEntry>, ops: seq<KeyedOp<ClassForm>>): seq<TimetableEntry>
    decreases |ops|
  {
    if ops == [] then list else ApplyTimetableOps(ApplyTimetableOp(list, ops[0]), ops[1..])
  }

  /** One timetable operation with a fresh id moves the list along with
      its id-to-form map. */
  lemma TimetableOpMeaning(list: seq<TimetableEntry>, m: map<string, ClassForm>, op: KeyedOp<ClassForm>)
    requires Represents(list, m, TimetableId, TimetableForm) && (op.AddOp? ==> op.newId !in m)
    ensures Represents(ApplyTimetableOp(list, op), NextForms(m, op), TimetableId, TimetableForm)
  {
    match op
    case AddOp(f, id) =>
      RepresentsAppend(list, m, TimetableId, TimetableForm, EntryOf(f, id));
    case UpdateOp(id, f) =>
      RepresentsPointwise(list, UpdateTimetableEntry(list, id, f), m, TimetableId, TimetableForm, id, f);
    case DeleteOp(id) =>
      RepresentsFilter(list, m, TimetableId, TimetableForm, id, (t: TimetableEntry) => t.id != id);
  }

  /** For any run of operations with fresh ids, the list holds exactly the
      entries whose ids were added and not deleted, each with the fields of
      its latest add or update. */
  lemma {:induction false} ApplyTimetableOpsMeaning(list: seq<TimetableEntry>, m: map<string, ClassForm>,
                                                   ops: seq<KeyedOp<ClassForm>>)
    requires Represents(list, m, TimetableId, TimetableForm) && FreshAdds(m, ops)
    ensures Represents(ApplyTimetableOps(list, ops), ExpectedForms(m, ops), TimetableId, TimetableForm)
    decreases |ops|
  {
    if ops != [] {
      TimetableOpMeaning(list, m, ops[0]);
      ApplyTimetableOpsMeaning(ApplyTimetableOp(list, ops[0]), NextForms(m, ops[0]), ops[1..]);
    }
  }

  // ===========================================================================
  // Assignments

  /** The id argument of `updateAssignment`. The pages pass a string id,
      except the dashboard, which passes a whole task object. */
  datatype IdArg = StringId(s: string) | TaskObject(task: Assignment)

  /** `a.id === id`: strict equality never holds between a string and an
      object. */
  predicate IdMatches(elementId: string, arg: IdArg) {
    arg.StringId? && arg.s == elementId
  }

  /** What `{ ...undefined }` contributes: no field at all. Missing fields
      are read as empty strings and no due date here. */
  const AbsentForm := AssignmentForm("", "", None, "")

  /** `addAssignment`: appends `{ ...assignment, id, completed: false }`. */
  function AddAssignment(list: seq<Assignment>, f: AssignmentForm, id: string): (r: seq<Assignment>)
    ensures |r| == |list| + 1 && r[..|list|] == list
    ensures r[|list|].id == id && r[|list|].Form() == f && !r[|list|].completed
  {
    list + [AssignmentOf(f, id, false)]
  }

  /** `updateAssignment`: a matching element becomes
      `{ ...updatedAssignment, id, completed: a.completed }`. */
  function UpdateAssignment(list: seq<Assignment>, id: IdArg, draft: Option<AssignmentForm>): (r: seq<Assignment>)
    ensures |r| == |list|
    ensures forall i :: 0 <= i < |list| ==>
      r[i] == if IdMatches(list[i].id, id) then AssignmentOf(draft.GetOr(AbsentForm), list[i].id, list[i].completed) else list[i]
  {
    Seqs.MapWhere(list, (a: Assignment) => IdMatches(a.id, id),
      (a: Assignment) => AssignmentOf(draft.GetOr(AbsentForm), a.id, a.completed))
  }

  /** `toggleAssignment`: flips `completed` of the matching elements. */
  function ToggleAssignment(list: seq<Assignment>, id: string): (r: seq<Assignment>)
    ensures |r| == |list|
    ensures forall i :: 0 <= i < |list| ==>
      r[i] == if list[i].id == id then list[i].(completed := !list[i].completed) else list[i]
  {
    Seqs.MapWhere(list, (a: Assignment) => a.id == id, (a: Assignment) => a.(completed := !a.completed))
  }

  /** `deleteAssignment`. */
  function DeleteAssignment(list: seq<Assignment>, id: string): (r: seq<Assignment>)
    ensures forall i :: 0 <= i < |r| ==> r[i].id != id
    ensures multiset(r) <= multiset(list)
  {
    Seqs.Filter(list, (a: Assignment) => a.id != id)
  }

  /** An edit keeps every element's id and completion flag. */
  lemma UpdateAssignmentKeepsIdAndCompletion(list: seq<Assignment>, id: IdArg, draft: Option<AssignmentForm>)
    ensures var r := UpdateAssignment(list, id, draft);
      forall i :: 0 <= i < |list| ==> r[i].id == list[i].id && r[i].completed == list[i].completed
  {
  }

  /** Toggling changes only the completion flag, and only of matching
      elements. */
  lemma ToggleAssignmentEffect(list: seq<Assignment>, id: string)
    ensures var r := ToggleAssignment(list, id);
      forall i :: 0 <= i < |list| ==>
        r[i].Form() == list[i].Form() && r[i].id == list[i].id &&
        (r[i].completed <==> (list[i].completed != (list[i].id == id)))
  {
  }

  /** Toggling twice gives back the list. */
  lemma ToggleAssignmentTwice(list: seq<Assignment>, id: string)
    ensures ToggleAssignment(ToggleAssignment(list, id), id) == list
  {
    Seqs.MapWhereInvolution(list, (a: Assignment) => a.id == id, (a: Assignment) => a.(completed := !a.completed));
  }

  /** An update whose id argument is not a string matches nothing. */
  lemma UpdateAssignmentByObject(list: seq<Assignment>, task: Assignment, draft: Option<AssignmentForm>)
    ensures UpdateAssignment(list, TaskObject(task), draft) == list
  {
    Seqs.MapWhereNoMatch(list, (a: Assignment) => IdMatches(a.id, TaskObject(task)),
      (a: Assignment) => AssignmentOf(draft.GetOr(AbsentForm), a.id, a.completed));
  }

  /** An element survives a delete exactly when its id differs. */
  lemma DeleteAssignmentMember(list: seq<Assignment>, id: string, a: Assignment)
    ensures a in DeleteAssignment(list, id) <==> a in list && a.id != id
  {
    Seqs.FilterMember(list, (x: Assignment) => x.id != id, a);
  }

  /** Deleting an id no element carries is a no-op. */
  lemma DeleteAssignmentAbsent(list: seq<Assignment>, id: string)
    requires forall i :: 0 <= i < |list| ==> list[i].id != id
    ensures DeleteAssignment(list, id) == list
  {
    Seqs.FilterKeepsAll(list, (a: Assignment) => a.id != id);
  }

  /** Toggling the id that is then deleted makes no difference to the delete. */
  lemma DeleteAfterToggleAssignment(list: seq<Assignment>, id: string)
    ensures DeleteAssignment(ToggleAssignment(list, id), id) == DeleteAssignment(list, id)
  {
    Seqs.FilterMapWhere(list, (a: Assignment) => a.id == id, (a: Assignment) => a.(completed := !a.completed),
      (a: Assignment) => a.id != id);
  }

  // ---------------------------------------------------------------------------
  // Runs of assignment operations

  /** One call of an assignment helper, as the pages and the dashboard make them. */
  datatype AssignmentOp =
    | AddTask(form: AssignmentForm, newId: string)
    | UpdateTask(arg: IdArg, draft: Option<AssignmentForm>)
    | ToggleTask(id: string)
    | DeleteTask(id: string)

  function AssignmentId(a: Assignment): string { a.id }

  function AssignmentSelf(a: Assignment): Assignment { a }

  function ApplyAssignmentOp(list: seq<Assignment>, op: AssignmentOp): seq<Assignment> {
    match op
    case AddTask(f, id) => AddAssignment(list, f, id)
    case UpdateTask(arg, d) => UpdateAssignment(list, arg, d)
    case ToggleTask(id) => ToggleAssignment(list, id)
    case DeleteTask(id) => DeleteAssignment(list, id)
  }

  function ApplyAssignmentOps(list: seq<Assignment>, ops: seq<AssignmentOp>): seq<Assignment>
    decreases |ops|
  {
    if ops == [] then list else ApplyAssignmentOps(ApplyAssignmentOp(list, ops[0]), ops[1..])
  }

  /** What one operation means for the id-to-task map: an add stores a new
      unfinished task, an edit of a live id takes the draft's fields and
      keeps the completion flag, a toggle flips it, a delete drops the id;
      an edit addressed by an object changes nothing. */
  function NextTasks(m: map<string, Assignment>, op: AssignmentOp): map<string, Assignment> {
    match op
    case AddTask(f, id) => m[id := AssignmentOf(f, id, false)]
    case UpdateTask(arg, d) =>
      if arg.StringId? && arg.s in m then m[arg.s := AssignmentOf(d.GetOr(AbsentForm), arg.s, m[arg.s].completed)]
      else m
    case ToggleTask(id) => if id in m then m[id := m[id].(completed := !m[id].completed)] else m
    case DeleteTask(id) => m - {id}
  }

  function ExpectedTasks(m: map<string, Assignment>, ops: seq<AssignmentOp>): map<string, Assignment>
    decreases |ops|
  {
    if ops == [] then m else ExpectedTasks(NextTasks(m, ops[0]), ops[1..])
  }

  /** Every add uses an id that is not live at that point. */
  predicate FreshTaskAdds(m: map<string, Assignment>, ops: seq<AssignmentOp>)
    decreases |ops|
  {
    ops == [] || ((ops[0].AddTask? ==> ops[0].newId !in m) && FreshTaskAdds(NextTasks(m, ops[0]), ops[1..]))
  }

  lemma UpdateTaskMeaning(list: seq<Assignment>, m: map<string, Assignment>, s: string, d: Option<AssignmentForm>)
    requires Represents(list, m, AssignmentId, AssignmentSelf)
    ensures Represents(UpdateAssignment(list, StringId(s), d), NextTasks(m, UpdateTask(StringId(s), d)),
      AssignmentId, AssignmentSelf)
  {
    var r := UpdateAssignment(list, StringId(s), d);
    var v := if s in m then AssignmentOf(d.GetOr(AbsentForm), s, m[s].completed) else AssignmentOf(AbsentForm, s, false);
    forall i | 0 <= i < |list| && list[i].id == s
      ensures AssignmentId(r[i]) == s && AssignmentSelf(r[i]) == v
    {
      assert AssignmentId(list[i]) in m && m[AssignmentId(list[i])] == AssignmentSelf(list[i]);
    }
    RepresentsPointwise(list, r, m, AssignmentId, AssignmentSelf, s, v);
  }

  lemma ToggleTaskMeaning(list: seq<Assignment>, m: map<string, Assignment>, id: string)
    requires Represents(list, m, AssignmentId, AssignmentSelf)
    ensures Represents(ToggleAssignment(list, id), NextTasks(m, ToggleTask(id)), AssignmentId, AssignmentSelf)
  {
    var r := ToggleAssignment(list, id);
    var v := if id in m then m[id].(completed := !m[id].completed) else AssignmentOf(AbsentForm, id, false);
    forall i | 0 <= i < |list| && list[i].id == id
      ensures AssignmentId(r[i]) == id && AssignmentSelf(r[i]) == v
    {
      assert AssignmentId(list[i]) in m && m[AssignmentId(list[i])] == AssignmentSelf(list[i]);
    }
    RepresentsPointwise(list, r, m, AssignmentId, AssignmentSelf, id, v);
  }

  /** One assignment operation with a fresh id moves the list along with
      its id-to-task map. */
  lemma AssignmentOpMeaning(list: seq<Assignment>, m: map<string, Assignment>, op: AssignmentOp)
    requires Represents(list, m, AssignmentId, AssignmentSelf) && (op.AddTask? ==> op.newId !in m)
    ensures Represents(ApplyAssignmentOp(list, op), NextTasks(m, op), AssignmentId, AssignmentSelf)
  {
    match op
    case AddTask(f, id) =>
      RepresentsAppend(list, m, AssignmentId, AssignmentSelf, AssignmentOf(f, id, false));
    case UpdateTask(arg, d) =>
      if arg.StringId? {
        UpdateTaskMeaning(list, m, arg.s, d);
      } else {
        UpdateAssignmentByObject(list, arg.task, d);
      }
    case ToggleTask(id) =>
      ToggleTaskMeaning(list, m, id);
    case DeleteTask(id) =>
      RepresentsFilter(list, m, AssignmentId, AssignmentSelf, id, (a: Assignment) => a.id != id);
  }

  /** For any run of calls with fresh ids, the list holds exactly the tasks
      whose ids were added and not deleted, each with the fields of its
      latest add or string-addressed edit and the completion flag its
      toggles leave. */
  lemma {:induction false} ApplyAssignmentOpsMeaning(list: seq<Assignment>, m: map<string, Assignment>,
                                                    ops: seq<AssignmentOp>)
    requires Represents(list, m, AssignmentId, AssignmentSelf) && FreshTaskAdds(m, ops)
    ensures Represents(ApplyAssignmentOps(list, ops), ExpectedTasks(m, ops), AssignmentId, AssignmentSelf)
    decreases |ops|
  {
    if ops != [] {
      AssignmentOpMeaning(list, m, ops[0]);
      ApplyAssignmentOpsMeaning(ApplyAssignmentOp(list, ops[0]), NextTasks(m, ops[0]), ops[1..]);
    }
  }

  // ===========================================================================
  // Exams

  /** `addExam`: appends `{ ...exam, id }`. */
  function AddExam(list: seq<Exam>, f: ExamForm, id: string): (r: seq<Exam>)
    ensures |r| == |list| + 1 && r[..|list|] == list
    ensures r[|list|].id == id && r[|list|].Form() == f
  {
    list + [ExamOf(f, id)]
  }

  /** `updateExam`: every exam with this id becomes `{ ...form, id }`. */
  function UpdateExam(list: seq<Exam>, id: string, f: ExamForm): (r: seq<Exam>)
    ensures |r| == |list|
    ensures forall i :: 0 <= i < |list| ==> r[i] == if list[i].id == id then ExamOf(f, id) else list[i]
  {
    Seqs.MapWhere(list, (e: Exam) => e.id == id, (e: Exam) => ExamOf(f, id))
  }

  /** `deleteExam`. */
  function DeleteExam(list: seq<Exam>, id: string): (r: seq<Exam>)
    ensures forall i :: 0 <= i < |r| ==> r[i].id != id
    ensures multiset(r) <= multiset(list)
  {
    Seqs.Filter(list, (e: Exam) => e.id != id)
  }

  lemma UpdateExamUnmatched(list: seq<Exam>, id: string, f: ExamForm)
    requires forall i :: 0 <= i < |list| ==> list[i].id != id
    ensures UpdateExam(list, id, f) == list
  {
    Seqs.MapWhereNoMatch(list, (e: Exam) => e.id == id, (e: Exam) => ExamOf(f, id));
  }

  lemma DeleteExamMember(list: seq<Exam>, id: string, e: Exam)
    ensures e in DeleteExam(list, id) <==> e in list && e.id != id
  {
    Seqs.FilterMember(list, (x: Exam) => x.id != id, e);
  }

  lemma DeleteExamAbsent(list: seq<Exam>, id: string)
    requires forall i :: 0 <= i < |list| ==> list[i].id != id
    ensures DeleteExam(list, id) == list
  {
    Seqs.FilterKeepsAll(list, (e: Exam) => e.id != id);
  }

  lemma DeleteAfterAddExam(list: seq<Exam>, f: ExamForm, id: string)
    ensures DeleteExam(AddExam(list, f, id), id) == DeleteExam(list, id)
  {
    var keep := (e: Exam) => e.id != id;
    Seqs.FilterAppend(list, [ExamOf(f, id)], keep);
    assert Seqs.Filter([ExamOf(f, id)], keep) == [];
  }

  // ---------------------------------------------------------------------------
  // Runs of exam operations

  function ExamId(e: Exam): string { e.id }

  function ExamFormOf(e: Exam): ExamForm { e.Form() }

  function ApplyExamOp(list: seq<Exam>, op: KeyedOp<ExamForm>): seq<Exam> {
    match op
    case AddOp(f, id) => AddExam(list, f, id)
    case UpdateOp(id, f) => UpdateExam(list, id, f)
    case DeleteOp(id) => DeleteExam(list, id)
  }

  function ApplyExamOps(list: seq<Exam>, ops: seq<KeyedOp<ExamForm>>): seq<Exam>
    decreases |ops|
  {
    if ops == [] then list else ApplyExamOps(ApplyExamOp(list, ops[0]), ops[1..])
  }

  /** One exam operation with a fresh id moves the list along with its
      id-to-form map. */
  lemma ExamOpMeaning(list: seq<Exam>, m: map<string, ExamForm>, op: KeyedOp<ExamForm>)
    requires Represents(list, m, ExamId, ExamFormOf) && (op.AddOp? ==> op.newId !in m)
    ensures Represents(ApplyExamOp(list, op), NextForms(m, op), ExamId, ExamFormOf)
  {
    match op
    case AddOp(f, id) =>
      RepresentsAppend(list, m, ExamId, ExamFormOf, ExamOf(f, id));
    case UpdateOp(id, f) =>
      RepresentsPointwise(list, UpdateExam(list, id, f), m, ExamId, ExamFormOf, id, f);
    case DeleteOp(id) =>
      RepresentsFilter(list, m, ExamId, ExamFormOf, id, (e: Exam) => e.id != id);
  }

  /** For any run of operations with fresh ids, the exam list holds exactly
      the exams whose ids were added and not deleted, each with the fields
      of its latest add or update. */
  lemma {:induction false} ApplyExamOpsMeaning(list: seq<Exam>, m: map<string, ExamForm>, ops: seq<KeyedOp<ExamForm>>)
    requires Represents(list, m, ExamId, ExamFormOf) && FreshAdds(m, ops)
    ensures Represents(ApplyExamOps(list, ops), ExpectedForms(m, ops), ExamId, ExamFormOf)
    decreases |ops|
  {
    if ops != [] {
      ExamOpMeaning(list, m, ops[0]);
      ApplyExamOpsMeaning(ApplyExamOp(list, ops[0]), NextForms(m, ops[0]), ops[1..]);
    }
  }

  // ===========================================================================
  // Notes

  /** `addNote`: appends `{ ...note, id, date }`. */
  function AddNote(list: seq<Note>, f: NoteForm, id: string, now: int): (r: seq<Note>)
    ensures |r| == |list| + 1 && r[..|list|] == list
    ensures r[|list|].id == Some(id) && r[|list|].Form() == f && r[|list|].date == now
  {
    list + [NoteOf(f, Some(id), now)]
  }

  /** `updateNote`: a matching note becomes `{ ...updatedNote, date }`. The
      form carries no id and none is added, so the new note has none.
      The id argument is the edited note's `id`, itself possibly absent. */
  function UpdateNote(list: seq<Note>, id: Option<string>, f: NoteForm, now: int): (r: seq<Note>)
    ensures |r| == |list|
    ensures forall i :: 0 <= i < |list| ==> r[i] == if list[i].id == id then NoteOf(f, None, now) else list[i]
  {
    Seqs.MapWhere(list, (n: Note) => n.id == id, (n: Note) => NoteOf(f, None, now))
  }

  /** `deleteNote`. */
  function DeleteNote(list: seq<Note>, id: Option<string>): (r: seq<Note>)
    ensures forall i :: 0 <= i < |r| ==> r[i].id != id
    ensures multiset(r) <= multiset(list)
  {
    Seqs.Filter(list, (n: Note) => n.id != id)
  }

  /** After an edit no note carries the edited id any more, so a later
      delete or edit addressed to that id does nothing. */
  lemma UpdateNoteLosesId(list: seq<Note>, id: string, f: NoteForm, now: int)
    ensures var r := UpdateNote(list, Some(id), f, now);
      && (forall i :: 0 <= i < |r| ==> r[i].id != Some(id))
      && DeleteNote(r, Some(id)) == r
      && UpdateNote(r, Some(id), f, now) == r
  {
    var r := UpdateNote(list, Some(id), f, now);
    Seqs.FilterKeepsAll(r, (n: Note) => n.id != Some(id));
    Seqs.MapWhereNoMatch(r, (n: Note) => n.id == Some(id), (n: Note) => NoteOf(f, None, now));
  }

  /** Deleting an edited note (whose id is absent) removes every edited
      note and keeps every other. */
  lemma DeleteEditedNote(list: seq<Note>, n: Note)
    ensures n in DeleteNote(list, None) <==> n in list && n.id.Some?
  {
    Seqs.FilterMember(list, (x: Note) => x.id != None, n);
  }

  lemma DeleteNoteAbsent(list: seq<Note>, id: Option<string>)
    requires forall i :: 0 <= i < |list| ==> list[i].id != id
    ensures DeleteNote(list, id) == list
  {
    Seqs.FilterKeepsAll(list, (n: Note) => n.id != id);
  }

  // ===========================================================================
  // Focus-timer statistics

  /** `updateStudyTime(minutes)`. */
  function UpdateStudyTime(s: PomodoroStats, minutes: int): (r: PomodoroStats)
    ensures r.daily == s.daily + minutes && r.total == s.total + minutes && r.sessions == s.sessions + 1
  {
    s.(daily := s.daily + minutes, total := s.total + minutes, sessions := s.sessions + 1)
  }

  function Sum(ms: seq<int>): int
    decreases |ms|
  {
    if ms == [] then 0 else ms[0] + Sum(ms[1..])
  }

  function UpdateStudyTimes(s: PomodoroStats, ms: seq<int>): PomodoroStats
    decreases |ms|
  {
    if ms == [] then s else UpdateStudyTimes(UpdateStudyTime(s, ms[0]), ms[1..])
  }

  /** After any run of completed sessions, the session count grew by their
      number, both totals by their minutes, and the gap between lifetime and
      daily minutes is what it was. */
  lemma {:induction false} UpdateStudyTimesTotals(s: PomodoroStats, ms: seq<int>)
    ensures var r := UpdateStudyTimes(s, ms);
      && r.sessions == s.sessions + |ms|
      && r.daily == s.daily + Sum(ms)
      && r.total == s.total + Sum(ms)
      && r.total - r.daily == s.total - s.daily
    decreases |ms|
  {
    if ms != [] {
      UpdateStudyTimesTotals(UpdateStudyTime(s, ms[0]), ms[1..]);
    }
  }
}
