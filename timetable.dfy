/** The timetable page: the classes of the selected weekday in order of
    start time, and the add and edit forms with their guards. */
module Timetable {
  import opened Common
  import opened Text
  import opened Seqs
  import opened Records
  import Collections
  import AppContext

  const Days := ["Mon", "Tue", "Wed", "Thu", "Fri", "Sat", "Sun"]

  /** The add form's initial fields (lines 15-23). */
  const InitialForm := ClassForm("", "", "", "09:00", "10:00", "Mon", "#6366f1")

  /** `a.startTime.localeCompare(b.startTime) <= 0`, for the zero-padded
      "HH:MM" strings the time inputs produce. */
  predicate StartLe(a: TimetableEntry, b: TimetableEntry) {
    LexLe(a.startTime, b.startTime)
  }

  lemma StartLeOrder()
    ensures TotalPreorder(StartLe)
  {
    forall a: TimetableEntry, b: TimetableEntry
      ensures StartLe(a, b) || StartLe(b, a)
    {
      LexLeTotal(a.startTime, b.startTime);
    }
    forall a: TimetableEntry, b: TimetableEntry, c: TimetableEntry | StartLe(a, b) && StartLe(b, c)
      ensures StartLe(a, c)
    {
      LexLeTransitive(a.startTime, b.startTime, c.startTime);
    }
  }

  predicate OnDay(t: TimetableEntry, day: string) {
    t.day == day
  }

  /** `dayEntries` (lines 56-58): the entries of `activeDay`, earliest
      start first. */
  function DayEntries(timetable: seq<TimetableEntry>, activeDay: string): (r: seq<TimetableEntry>)
    ensures forall i :: 0 <= i < |r| ==> r[i].day == activeDay
    ensures SortedBy(r, StartLe)
  {
    StartLeOrder();
    var onDay := (t: TimetableEntry) => OnDay(t, activeDay);
    var sorted := SortBy(Filter(timetable, onDay), StartLe);
    PermutationEvery(sorted, Filter(timetable, onDay), onDay);
    sorted
  }

  /** Nothing of that day is lost or duplicated: every entry appears in the
      day view exactly as often as in the timetable when it is on that day,
      and not at all otherwise. */
  lemma DayEntriesCount(timetable: seq<TimetableEntry>, activeDay: string, e: TimetableEntry)
    ensures multiset(DayEntries(timetable, activeDay))[e] ==
      if e.day == activeDay then multiset(timetable)[e] else 0
  {
    StartLeOrder();
    var onDay := (t: TimetableEntry) => OnDay(t, activeDay);
    FilterCount(timetable, onDay, e);
  }

  lemma DayEntriesMember(timetable: seq<TimetableEntry>, activeDay: string, e: TimetableEntry)
    ensures e in DayEntries(timetable, activeDay) <==> e in timetable && e.day == activeDay
  {
    DayEntriesCount(timetable, activeDay, e);
    assert e in DayEntries(timetable, activeDay) <==> e in multiset(DayEntries(timetable, activeDay));
  }

  /** A class just added shows up in the view of its day. */
  lemma AddedEntryShows(timetable: seq<TimetableEntry>, f: ClassForm, id: string)
    ensures EntryOf(f, id) in DayEntries(Collections.AddTimetableEntry(timetable, f, id), f.day)
  {
    var after := Collections.AddTimetableEntry(timetable, f, id);
    assert after[|timetable|] == EntryOf(f, id);
    DayEntriesMember(after, f.day, EntryOf(f, id));
  }

  /** The page's own state. `editingEntry` is `None` while no entry is
      being edited. */
  class Page {
    var activeDay: string
    var newEntry: ClassForm
    var editingEntry: Option<TimetableEntry>
    var showAddModal: bool
    var showEditModal: bool

    constructor ()
      ensures activeDay == "Mon" && newEntry == InitialForm && editingEntry == None
      ensures !showAddModal && !showEditModal
    {
      activeDay := "Mon";
      newEntry := InitialForm;
      editingEntry := None;
      showAddModal := false;
      showEditModal := false;
    }

    /** `handleSubmit` (lines 27-33): a class needs a subject; after adding
        it, the form keeps its times, day and colour for the next one. */
    method HandleSubmit(app: AppContext.App, id: string)
      modifies this`newEntry, this`showAddModal, app`timetable
      ensures if old(newEntry).subject == "" then
          newEntry == old(newEntry) && showAddModal == old(showAddModal)
          && app.timetable == old(app.timetable)
        else
          app.timetable == Collections.AddTimetableEntry(old(app.timetable), old(newEntry), id)
          && newEntry == old(newEntry).(subject := "", teacher := "", room := "")
          && !showAddModal
    {
      if newEntry.subject == "" {
        return;
      }
      app.AddTimetableEntry(newEntry, id);
      newEntry := newEntry.(subject := "", teacher := "", room := "");
      showAddModal := false;
    }

    /** `handleEdit` (lines 35-38). */
    method HandleEdit(entry: TimetableEntry)
      modifies this`editingEntry, this`showEditModal
      ensures editingEntry == Some(entry) && showEditModal
    {
      editingEntry := Some(entry);
      showEditModal := true;
    }

    /** `handleUpdateSubmit` (lines 40-54). The edit form exists only while
        an entry is being edited (line 219). */
    method HandleUpdateSubmit(app: AppContext.App)
      requires editingEntry.Some?
      modifies this`editingEntry, this`showEditModal, app`timetable
      ensures var e := old(editingEntry).value;
        if e.subject == "" then
          editingEntry == old(editingEntry) && showEditModal == old(showEditModal)
          && app.timetable == old(app.timetable)
        else
          app.timetable == Collections.UpdateTimetableEntry(old(app.timetable), e.id, e.Form())
          && editingEntry == None && !showEditModal
    {
      var e := editingEntry.value;
      if e.subject == "" {
        return;
      }
      app.UpdateTimetableEntry(e.id, ClassForm(e.subject, e.teacher, e.room, e.startTime, e.endTime, e.day, e.color));
      showEditModal := false;
      editingEntry := None;
    }

    /** The day buttons (line 77). */
    method SelectDay(d: string)
      requires d in Days
      modifies this`activeDay
      ensures activeDay == d
    {
      activeDay := d;
    }

    /** The header's add button (line 67). */
    method OpenAdd()
      modifies this`showAddModal
      ensures showAddModal
    {
      showAddModal := true;
    }

    /** The empty day's "Add Class" button (line 122): the form is preset
        to the day being viewed. */
    method AddClassForActiveDay()
      modifies this`newEntry, this`showAddModal
      ensures newEntry == old(newEntry).(day := activeDay) && showAddModal
    {
      newEntry := newEntry.(day := activeDay);
      showAddModal := true;
    }
  }
}
