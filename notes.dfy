/** The notes page: the case-insensitive search, newest first, and the
    single modal that both adds and edits a note. */
module Notes {
  import opened Common
  import opened Text
  import opened Seqs
  import opened Records
  import Collections
  import AppContext

  /** The file input's size limit, in bytes (line 36). */
  const MaxImageBytes := 2_000_000

  /** The empty form (lines 13 and 30). */
  const BlankForm := NoteForm("", "", "", "")

  /** The search callback (lines 53-56): the query, lower-cased, occurs in
      the title, in a non-empty subject or in the content, each
      lower-cased. */
  predicate Matches(n: Note, search: string) {
    var q := Lower(search);
    Includes(Lower(n.title), q)
    || (n.subject != "" && Includes(Lower(n.subject), q))
    || Includes(Lower(n.content), q)
  }

  /** `new Date(b.date) - new Date(a.date) <= 0`: newer notes first. */
  predicate NewerOrSame(a: Note, b: Note) {
    a.date >= b.date
  }

  lemma NewestFirstOrder()
    ensures TotalPreorder(NewerOrSame)
  {
  }

  /** `filteredNotes` (lines 53-57). */
  function FilteredNotes(notes: seq<Note>, search: string): (r: seq<Note>)
    ensures forall i :: 0 <= i < |r| ==> Matches(r[i], search)
    ensures SortedBy(r, NewerOrSame)
  {
    NewestFirstOrder();
    var m := (n: Note) => Matches(n, search);
    var sorted := SortBy(Filter(notes, m), NewerOrSame);
    PermutationEvery(sorted, Filter(notes, m), m);
    sorted
  }

  /** Every matching note is shown as often as it is stored; no other note
      is shown. */
  lemma FilteredNotesCount(notes: seq<Note>, search: string, n: Note)
    ensures multiset(FilteredNotes(notes, search))[n] ==
      if Matches(n, search) then multiset(notes)[n] else 0
  {
    NewestFirstOrder();
    FilterCount(notes, (x: Note) => Matches(x, search), n);
  }

  lemma FilteredNotesMember(notes: seq<Note>, search: string, n: Note)
    ensures n in FilteredNotes(notes, search) <==> n in notes && Matches(n, search)
  {
    FilteredNotesCount(notes, search, n);
    assert n in FilteredNotes(notes, search) <==> n in multiset(FilteredNotes(notes, search));
  }

  /** The empty search box shows every note. */
  lemma EmptySearchShowsAll(notes: seq<Note>)
    ensures multiset(FilteredNotes(notes, "")) == multiset(notes)
  {
    forall n
      ensures multiset(FilteredNotes(notes, ""))[n] == multiset(notes)[n]
    {
      FilteredNotesCount(notes, "", n);
      assert [] <= Lower(n.title);
    }
  }

  /** The case of the query does not matter: searching the lower-cased
      query gives the very same list. */
  lemma SearchIgnoresCase(notes: seq<Note>, search: string)
    ensures FilteredNotes(notes, Lower(search)) == FilteredNotes(notes, search)
  {
    LowerIdempotent(search);
    NewestFirstOrder();
    FilterSameTest(notes, (x: Note) => Matches(x, Lower(search)), (x: Note) => Matches(x, search));
  }

  /** A note just added is found by searching its own title. */
  lemma AddedNoteFoundByTitle(notes: seq<Note>, f: NoteForm, id: string, now: int)
    ensures NoteOf(f, Some(id), now) in FilteredNotes(Collections.AddNote(notes, f, id, now), f.title)
  {
    var n := NoteOf(f, Some(id), now);
    var after := Collections.AddNote(notes, f, id, now);
    assert after[|notes|] == n;
    assert Lower(f.title) <= Lower(n.title);
    FilteredNotesMember(after, f.title, n);
  }

  /** The first card is the most recently saved match. */
  lemma NewestShownFirst(notes: seq<Note>, search: string, n: Note)
    requires n in notes && Matches(n, search)
    ensures FilteredNotes(notes, search) != []
    ensures FilteredNotes(notes, search)[0].date >= n.date
  {
    FilteredNotesMember(notes, search, n);
    var r := FilteredNotes(notes, search);
    var k :| 0 <= k < |r| && r[k] == n;
    assert k == 0 || NewerOrSame(r[0], r[k]);
  }

  /** The card's badge (line 96). */
  function SubjectBadge(n: Note): (r: string)
    ensures r != ""
    ensures n.subject != "" ==> r == n.subject
    ensures n.subject == "" ==> r == "General"
  {
    if n.subject != "" then n.subject else "General"
  }

  /** The page's own state. `pendingRead` is the form as it was when a
      `FileReader` was started: its completion callback spreads that
      captured form, not the current one (lines 40-44). */
  class Page {
    var search: string
    var editingNote: Option<Note>
    var isAdding: bool
    var noteForm: NoteForm
    var pendingRead: Option<NoteForm>

    constructor ()
      ensures search == "" && editingNote == None && !isAdding
      ensures noteForm == BlankForm && pendingRead == None
    {
      search := "";
      editingNote := None;
      isAdding := false;
      noteForm := BlankForm;
      pendingRead := None;
    }

    /** The modal is shown while adding or editing (line 138). */
    predicate ModalOpen()
      reads this`isAdding, this`editingNote
    {
      isAdding || editingNote.Some?
    }

    /** `closeModal` (lines 27-31). A read already started is not
        cancelled. */
    method CloseModal()
      modifies this`editingNote, this`isAdding, this`noteForm
      ensures editingNote == None && !isAdding && noteForm == BlankForm
      ensures !ModalOpen()
    {
      editingNote := None;
      isAdding := false;
      noteForm := BlankForm;
    }

    /** `handleSave` (lines 15-25): a note needs a title; it replaces the
        note being edited, or is added as a new one, and the modal closes. */
    method HandleSave(app: AppContext.App, id: string, now: int)
      modifies this`editingNote, this`isAdding, this`noteForm, app`notes
      ensures old(noteForm).title == "" ==>
        editingNote == old(editingNote) && isAdding == old(isAdding) && noteForm == old(noteForm)
        && app.notes == old(app.notes)
      ensures old(noteForm).title != "" ==>
        && app.notes == (if old(editingNote).Some?
                         then Collections.UpdateNote(old(app.notes), old(editingNote).value.id, old(noteForm), now)
                         else Collections.AddNote(old(app.notes), old(noteForm), id, now))
        && editingNote == None && !isAdding && noteForm == BlankForm
    {
      if noteForm.title == "" {
        return;
      }
      if editingNote.Some? {
        app.UpdateNote(editingNote.value.id, noteForm, now);
      } else {
        app.AddNote(noteForm, id, now);
      }
      CloseModal();
    }

    /** `openEdit` (lines 48-51): the form is filled from the note. */
    method OpenEdit(note: Note)
      modifies this`editingNote, this`noteForm
      ensures editingNote == Some(note) && noteForm == note.Form()
      ensures ModalOpen()
    {
      editingNote := Some(note);
      noteForm := NoteForm(note.title, note.content, note.subject, note.image);
    }

    /** `handleImageChange` (lines 33-46), given the chosen file's size
        (`None` when the picker was cancelled). A file over the limit is
        refused with an alert and changes nothing. */
    method HandleImageChange(size: Option<nat>) returns (tooLarge: bool)
      modifies this`pendingRead
      ensures tooLarge <==> size.Some? && size.value > MaxImageBytes
      ensures pendingRead == if size.Some? && !tooLarge then Some(noteForm) else old(pendingRead)
    {
      tooLarge := false;
      if size.Some? {
        if size.value > MaxImageBytes {
          tooLarge := true;
          return;
        }
        pendingRead := Some(noteForm);
      }
    }

    /** The reader's `onloadend` (lines 41-43): the form captured when the
        read began, with the image set. */
    method ImageLoaded(dataUrl: string)
      requires pendingRead.Some?
      modifies this`noteForm, this`pendingRead
      ensures noteForm == old(pendingRead).value.(image := dataUrl)
      ensures pendingRead == None
    {
      noteForm := pendingRead.value.(image := dataUrl);
      pendingRead := None;
    }

    /** The title input (line 165). */
    method EditTitle(title: string)
      modifies this`noteForm
      ensures noteForm == old(noteForm).(title := title)
    {
      noteForm := noteForm.(title := title);
    }

    /** The preview's remove button (line 188). */
    method RemoveImage()
      modifies this`noteForm
      ensures noteForm == old(noteForm).(image := "")
    {
      noteForm := noteForm.(image := "");
    }

    /** The header's add button (line 66). */
    method OpenAdd()
      modifies this`isAdding
      ensures isAdding && ModalOpen()
    {
      isAdding := true;
    }

    /** The search box (line 78). */
    method SetSearch(q: string)
      modifies this`search
      ensures search == q
    {
      search := q;
    }
  }

  /** A title typed while an image is still being read is overwritten when
      the read completes, because the callback spreads the form captured
      at the start of the read. */
  method TitleTypedDuringReadIsLost(p: Page, title: string, dataUrl: string, size: nat)
    requires size <= MaxImageBytes
    modifies p
    ensures p.noteForm == old(p.noteForm).(image := dataUrl)
  {
    var tooLarge := p.HandleImageChange(Some(size));
    p.EditTitle(title);
    p.ImageLoaded(dataUrl);
  }
}
