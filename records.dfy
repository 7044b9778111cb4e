/** The entities of a user's data, as the client keeps them in memory and in
    the `users_db` store. Ids are the decimal strings `Date.now()` produces;
    calendar dates are day numbers and an empty or unparsable date string is
    `None`; time-of-day values stay "HH:MM" strings; note timestamps are
    integers. */
module Records {
  import opened Common

  /** The fields of the "New Class" / "Edit Class" form. */
  datatype ClassForm = ClassForm(
    subject: string, teacher: string, room: string,
    startTime: string, endTime: string, day: string, color: string)

  /** A class in the weekly timetable: the form's fields plus an id. */
  datatype TimetableEntry = TimetableEntry(
    id: string, subject: string, teacher: string, room: string,
    startTime: string, endTime: string, day: string, color: string)
  {
    /** The seven fields the edit form sends back. */
    function Form(): ClassForm {
      ClassForm(subject, teacher, room, startTime, endTime, day, color)
    }
  }

  /** `{ ...form, id }`. */
  function EntryOf(f: ClassForm, id: string): (e: TimetableEntry)
    ensures e.id == id && e.Form() == f
  {
    TimetableEntry(id, f.subject, f.teacher, f.room, f.startTime, f.endTime, f.day, f.color)
  }

  /** The fields of the exam form. */
  datatype ExamForm = ExamForm(
    subject: string, name: string, date: Option<int>, startTime: string, location: string)

  datatype Exam = Exam(
    id: string, subject: string, name: string, date: Option<int>, startTime: string, location: string)
  {
    function Form(): ExamForm {
      ExamForm(subject, name, date, startTime, location)
    }
  }

  /** `{ ...form, id }`. */
  function ExamOf(f: ExamForm, id: string): (e: Exam)
    ensures e.id == id && e.Form() == f
  {
    Exam(id, f.subject, f.name, f.date, f.startTime, f.location)
  }

  /** The fields of the assignment form. The priority is a free string: the
      form offers "Low", "Medium" and "High", but stored data may hold any. */
  datatype AssignmentForm = AssignmentForm(
    title: string, subject: string, dueDate: Option<int>, priority: string)

  datatype Assignment = Assignment(
    id: string, title: string, subject: string, dueDate: Option<int>, priority: string,
    completed: bool)
  {
    function Form(): AssignmentForm {
      AssignmentForm(title, subject, dueDate, priority)
    }
  }

  /** `{ ...form, id, completed }`. */
  function AssignmentOf(f: AssignmentForm, id: string, completed: bool): (a: Assignment)
    ensures a.id == id && a.completed == completed && a.Form() == f
  {
    Assignment(id, f.title, f.subject, f.dueDate, f.priority, completed)
  }

  /** The fields of the note editor; an empty `image` means no image. */
  datatype NoteForm = NoteForm(title: string, content: string, subject: string, image: string)

  /** A note. Its `id` is optional because an edited note is stored without
      one (see `Collections.UpdateNote`). */
  datatype Note = Note(
    id: Option<string>, title: string, content: string, subject: string, image: string,
    date: int)
  {
    function Form(): NoteForm {
      NoteForm(title, content, subject, image)
    }
  }

  /** `{ ...form, date }` with, or without, an id. */
  function NoteOf(f: NoteForm, id: Option<string>, date: int): (n: Note)
    ensures n.id == id && n.date == date && n.Form() == f
  {
    Note(id, f.title, f.content, f.subject, f.image, date)
  }

  /** Focus-timer totals, in minutes and sessions. */
  datatype PomodoroStats = PomodoroStats(daily: int, total: int, sessions: int)

  const ZeroStats := PomodoroStats(0, 0, 0)
}
