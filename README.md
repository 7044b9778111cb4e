# Student-Life in Dafny

A model of the client core of Student-Life, a single-page student planner.
It has a weekly timetable, assignments, exams, notes and a Pomodoro focus
timer. Each user's data lives in a `users_db` dictionary in browser local
storage, keyed by email. The model covers:

- The application context (`AppContext.App`). This is the session, the
  signed-in user's data, the store, and the two effects that connect them:
  `Load` installs the stored record when the email changes, and `Sync`
  writes the seven data fields back after every change. Also modelled are
  login, registration, logout, theme toggling and the CRUD helpers. The
  helpers are pure list updates in `Collections`; the context's methods
  apply them to its fields.
- The focus timer (`Timer.Pomodoro`). This is a study/break state machine
  driven by a one-second tick. A finished study session credits its
  minutes to the statistics; saving settings restarts the countdown.
  `TimerDisplay` holds the `MM:SS` formatting and its read-back.
- The page derivations and form guards:
  - the timetable's day view, sorted by start time;
  - exams split into upcoming and past, with the days-left badge;
  - assignments under the all/pending/completed filter, by due date;
  - notes under a case-insensitive search, newest first;
  - the dashboard's priority list, next exam, greeting and focus time.

Generic list idioms live in `Seqs`: `filter`, a conditional `map`, and a
stable comparator sort proved sorted and a permutation. String idioms live
in `Text`: lexicographic order, lower case, `includes`, decimal numerals,
`padStart` and the first word of a string. Calendar dates are day numbers.
A missing or unparsable date is `None`, and the sort orders put undated
items last.

Some behaviour of the code as written is modelled as such and proved:

- An update of a note drops its id (`AppContext.jsx:141`). A later edit or
  delete of that note then addresses `undefined`, so deleting one edited
  note deletes every edited note.
- A record first written by a sync has no password, so no one can log in
  to it.
- The dashboard's "next exam" can be one already past.
- The file reader's callback writes back the note form as it was when the
  read started. A title typed during the read is lost.

## Model

| member | source | states |
|---|---|---|
| `AppContext.OrString` | src/context/AppContext.jsx:9-11 | `s \|\| fallback` gives the stored value when it is present and non-empty, and the fallback otherwise |
| `AppContext.SyncedRecord` | src/context/AppContext.jsx:45-54 | the written record keeps the stored email and password |
| `AppContext.LoadAfterSync` | src/context/AppContext.jsx:23-57 | loading a synced record gives back the synced data, except that an empty theme reads back as "light" |
| `AppContext.SyncAfterLoad` | src/context/AppContext.jsx:23-57 | syncing right after a load keeps credentials, every present list and stats, and every non-empty name and theme; the result loads the same |
| `AppContext.LoadNewUser` | src/context/AppContext.jsx:91-101 | a freshly registered user loads as empty data with the given name and the light theme |
| `AppContext.LoginAfterRegister` | src/context/AppContext.jsx:73 | after registering, a login attempt succeeds exactly when it gives the registered password |
| `AppContext.SyncCreatedRecordRefusesLogin` | src/context/AppContext.jsx:43-55 | a record created by a sync has no password, so every login to it fails |
| `AppContext.ToggledTheme` | src/context/AppContext.jsx:123 | the result is "light" or "dark", and differs from a light or dark input |
| `AppContext.ToggleThemeTwice` | src/context/AppContext.jsx:123 | toggling twice restores the theme exactly when it was "light" or "dark" |
| `AppContext.App.constructor` | src/context/AppContext.jsx:9-20 | theme and current user come from storage with their fallbacks; the data starts empty and loading starts true |
| `AppContext.App.Load` | src/context/AppContext.jsx:23-39 | the data becomes the loaded record when the email is set and stored, and is otherwise unchanged; loading ends |
| `AppContext.App.Sync` | src/context/AppContext.jsx:42-57 | once loaded and signed in, the store's entry for the email becomes the synced record; otherwise the store is unchanged |
| `AppContext.App.Login` | src/context/AppContext.jsx:66-80 | success exactly when the stored password matches; on success the session is the email, on failure it is unchanged and the error is "Invalid email or password" |
| `AppContext.App.Register` | src/context/AppContext.jsx:82-108 | a taken email fails with "User already exists" and changes nothing; otherwise the new record is stored and the session is the email |
| `AppContext.App.Logout` | src/context/AppContext.jsx:110-120 | the session and all data are cleared; the theme and the store are kept |
| `AppContext.App.ToggleTheme` | src/context/AppContext.jsx:122-124 | the theme becomes the toggled theme |
| `AppContext.App.SetUserName` | src/context/AppContext.jsx:12 | the user name becomes the given one |
| `AppContext.App.AddTimetableEntry` | src/context/AppContext.jsx:127 | the timetable becomes `Collections.AddTimetableEntry` of the old one |
| `AppContext.App.UpdateTimetableEntry` | src/context/AppContext.jsx:128 | the timetable becomes `Collections.UpdateTimetableEntry` of the old one |
| `AppContext.App.DeleteTimetableEntry` | src/context/AppContext.jsx:129 | the timetable becomes `Collections.DeleteTimetableEntry` of the old one |
| `AppContext.App.AddAssignment` | src/context/AppContext.jsx:131 | the assignments become `Collections.AddAssignment` of the old ones |
| `AppContext.App.UpdateAssignment` | src/context/AppContext.jsx:132 | the assignments become `Collections.UpdateAssignment` of the old ones |
| `AppContext.App.ToggleAssignment` | src/context/AppContext.jsx:133 | the assignments become `Collections.ToggleAssignment` of the old ones |
| `AppContext.App.DeleteAssignment` | src/context/AppContext.jsx:134 | the assignments become `Collections.DeleteAssignment` of the old ones |
| `AppContext.App.AddExam` | src/context/AppContext.jsx:136 | the exams become `Collections.AddExam` of the old ones |
| `AppContext.App.UpdateExam` | src/context/AppContext.jsx:137 | the exams become `Collections.UpdateExam` of the old ones |
| `AppContext.App.DeleteExam` | src/context/AppContext.jsx:138 | the exams become `Collections.DeleteExam` of the old ones |
| `AppContext.App.AddNote` | src/context/AppContext.jsx:140 | the notes become `Collections.AddNote` of the old ones |
| `AppContext.App.UpdateNote` | src/context/AppContext.jsx:141 | the notes become `Collections.UpdateNote` of the old ones |
| `AppContext.App.DeleteNote` | src/context/AppContext.jsx:142 | the notes become `Collections.DeleteNote` of the old ones |
| `AppContext.App.UpdateStudyTime` | src/context/AppContext.jsx:144 | the statistics become `Collections.UpdateStudyTime` of the old ones |
| `AppContext.LogoutLoginRoundTrip` | src/context/AppContext.jsx:66-120 | a sync, a logout, a sync, a login with the stored password and a load restore the same email and data |
| `Collections.AddTimetableEntry` | src/context/AppContext.jsx:127 | the old list is a prefix, and the one new entry has the given id and form |
| `Collections.UpdateTimetableEntry` | src/context/AppContext.jsx:128 | each entry with the id becomes the form with that id; every other entry is unchanged |
| `Collections.DeleteTimetableEntry` | src/context/AppContext.jsx:129 | no entry keeps the id, and nothing is added |
| `Collections.UpdateTimetableKeepsIds` | src/context/AppContext.jsx:128 | an update keeps every entry's id |
| `Collections.UpdateTimetableUnmatched` | src/context/AppContext.jsx:128 | updating an unknown id changes nothing |
| `Collections.DeleteTimetableMember` | src/context/AppContext.jsx:129 | an entry survives a delete exactly when its id differs |
| `Collections.DeleteTimetableAbsent` | src/context/AppContext.jsx:129 | deleting an unknown id changes nothing |
| `Collections.DeleteAfterAddTimetable` | src/context/AppContext.jsx:127-129 | deleting the id just added gives what deleting it before the add gives |
| `Collections.DeleteAfterUpdateTimetable` | src/context/AppContext.jsx:128-129 | an update of the id that is then deleted makes no difference |
| `Collections.RepresentsAppend` | src/context/AppContext.jsx:127 | with unique ids, appending an element with a fresh id adds that id and form to the id-to-form map |
| `Collections.RepresentsPointwise` | src/context/AppContext.jsx:128 | with unique ids, replacing only the elements with an id by elements with that id and one new form sets the map's entry for that id, or changes nothing for an unknown id |
| `Collections.FilterKeepsForms` | src/context/AppContext.jsx:129 | after filtering out an id, every remaining element still has its form in the map without the id |
| `Collections.FilterKeepsOthers` | src/context/AppContext.jsx:129 | after filtering out an id, every other id in the map still has an element |
| `Collections.RepresentsFilter` | src/context/AppContext.jsx:129 | with unique ids, filtering out an id removes exactly that id from the map |
| `Collections.TimetableOpMeaning` | src/context/AppContext.jsx:127-129 | one add with a fresh id, update or delete moves the timetable along with its id-to-form map |
| `Collections.ApplyTimetableOpsMeaning` | src/context/AppContext.jsx:127-129 | any run of adds with fresh ids, updates and deletes keeps the timetable equal to the expected id-to-form map |
| `Collections.AddAssignment` | src/context/AppContext.jsx:131 | the old list is a prefix, and the new task has the id and form and is not completed |
| `Collections.UpdateAssignment` | src/context/AppContext.jsx:132 | each task whose id strictly equals the id argument takes the draft's fields and keeps its id and completion; every other task is unchanged |
| `Collections.ToggleAssignment` | src/context/AppContext.jsx:133 | each task with the id has its completion flipped; every other task is unchanged |
| `Collections.DeleteAssignment` | src/context/AppContext.jsx:134 | no task keeps the id, and nothing is added |
| `Collections.UpdateAssignmentKeepsIdAndCompletion` | src/context/AppContext.jsx:132 | an edit never changes an id or a completion flag |
| `Collections.ToggleAssignmentEffect` | src/context/AppContext.jsx:133 | toggling flips exactly the matching tasks' completion and changes nothing else |
| `Collections.ToggleAssignmentTwice` | src/context/AppContext.jsx:133 | toggling twice gives back the list |
| `Collections.UpdateAssignmentByObject` | src/context/AppContext.jsx:132 | an update whose id argument is an object matches nothing |
| `Collections.DeleteAssignmentMember` | src/context/AppContext.jsx:134 | a task survives a delete exactly when its id differs |
| `Collections.DeleteAssignmentAbsent` | src/context/AppContext.jsx:134 | deleting an unknown id changes nothing |
| `Collections.UpdateTaskMeaning` | src/context/AppContext.jsx:132 | an edit addressed by a string id gives that task the draft's fields and keeps its completion flag in the id-to-task map |
| `Collections.ToggleTaskMeaning` | src/context/AppContext.jsx:133 | a toggle flips that task's completion flag in the id-to-task map |
| `Collections.AssignmentOpMeaning` | src/context/AppContext.jsx:131-134 | one add with a fresh id, edit, toggle or delete moves the assignments along with the id-to-task map; an edit addressed by an object leaves both alone |
| `Collections.ApplyAssignmentOpsMeaning` | src/context/AppContext.jsx:131-134 | any run of the four helpers with fresh ids keeps the assignments equal to the expected id-to-task map |
| `Collections.DeleteAfterToggleAssignment` | src/context/AppContext.jsx:133-134 | toggling the id that is then deleted makes no difference |
| `Collections.AddExam` | src/context/AppContext.jsx:136 | the old list is a prefix, and the new exam has the id and form |
| `Collections.UpdateExam` | src/context/AppContext.jsx:137 | each exam with the id becomes the form with that id; the others are unchanged |
| `Collections.DeleteExam` | src/context/AppContext.jsx:138 | no exam keeps the id, and nothing is added |
| `Collections.UpdateExamUnmatched` | src/context/AppContext.jsx:137 | updating an unknown id changes nothing |
| `Collections.DeleteExamMember` | src/context/AppContext.jsx:138 | an exam survives a delete exactly when its id differs |
| `Collections.DeleteExamAbsent` | src/context/AppContext.jsx:138 | deleting an unknown id changes nothing |
| `Collections.DeleteAfterAddExam` | src/context/AppContext.jsx:136-138 | deleting the id just added gives what deleting it before the add gives |
| `Collections.ExamOpMeaning` | src/context/AppContext.jsx:136-138 | one add with a fresh id, update or delete moves the exams along with their id-to-form map |
| `Collections.ApplyExamOpsMeaning` | src/context/AppContext.jsx:136-138 | any run of adds with fresh ids, updates and deletes keeps the exams equal to the expected id-to-form map |
| `Collections.AddNote` | src/context/AppContext.jsx:140 | the old list is a prefix, and the new note has the id, the form and the timestamp |
| `Collections.UpdateNote` | src/context/AppContext.jsx:141 | each note with the id becomes the form, restamped and without an id; the others are unchanged |
| `Collections.DeleteNote` | src/context/AppContext.jsx:142 | no note keeps the id, and nothing is added |
| `Collections.UpdateNoteLosesId` | src/context/AppContext.jsx:141-142 | after an edit no note has that id, so a later delete or edit of it does nothing |
| `Collections.DeleteEditedNote` | src/context/AppContext.jsx:141-142 | deleting an edited note, whose id is undefined, removes every edited note and keeps every other |
| `Collections.DeleteNoteAbsent` | src/context/AppContext.jsx:142 | deleting an unknown id changes nothing |
| `Collections.UpdateStudyTime` | src/context/AppContext.jsx:144 | both minute totals grow by the minutes and the session count by one |
| `Collections.UpdateStudyTimesTotals` | src/context/AppContext.jsx:144 | after any run of sessions, the count grows by their number, both totals by their sum, and the gap between the totals is kept |
| `Seqs.Filter` | src/pages/Timetable.jsx:57 | `filter` keeps only passing elements and adds none |
| `Seqs.FilterCount` | src/pages/Timetable.jsx:57 | an element occurs as often as before if it passes, else not at all |
| `Seqs.FilterAppend` | src/context/AppContext.jsx:129 | filtering distributes over concatenation |
| `Seqs.FilterPartition` | src/pages/Assignments.jsx:55-58 | a filter and its complement split the list |
| `Seqs.FilterKeepsDistinct` | src/context/AppContext.jsx:129 | filtering keeps keys distinct |
| `Seqs.MapWhereInvolution` | src/context/AppContext.jsx:133 | a conditional map that keeps its condition and undoes itself is an involution |
| `Seqs.FilterMapWhere` | src/context/AppContext.jsx:128-129 | a filter that drops every mapped element hides the map |
| `Seqs.InsertSorted` | src/pages/Timetable.jsx:58 | inserting into a sorted list keeps it sorted |
| `Seqs.SortBy` | src/pages/Timetable.jsx:58 | `sort` with a consistent comparator returns a sorted permutation |
| `Seqs.InsertKeepsTies` | src/pages/Timetable.jsx:58 | insertion keeps the elements of a tie class in order, the new one first |
| `Seqs.SortByStable` | src/pages/Timetable.jsx:58 | the sort is stable: filtering the result by any tie class gives the input's filter |
| `Seqs.SortByKeepsEqualsInOrder` | src/pages/Timetable.jsx:58 | elements equal under the comparator keep their input order |
| `Seqs.SortByFirstIsLeast` | src/pages/Home.jsx:18 | the first element of the sorted list is a least element of the list |
| `Text.LexLeTotal` | src/pages/Timetable.jsx:58 | `localeCompare` order on the time strings is total |
| `Text.LexLeTransitive` | src/pages/Timetable.jsx:58 | the order is transitive |
| `Text.LexLeAntisymmetric` | src/pages/Timetable.jsx:58 | the order is antisymmetric |
| `Text.LowerIdempotent` | src/pages/Notes.jsx:54-56 | lower-casing twice is lower-casing once |
| `Text.IncludesIff` | src/pages/Notes.jsx:54-56 | `includes` holds exactly when the query occurs at some offset |
| `Text.NatToString` | src/pages/Timer.jsx:79 | a decimal numeral without leading zeros that denotes the number |
| `Text.IntToStringInjective` | src/pages/Exams.jsx:91 | different numbers print differently |
| `Text.PadStart` | src/pages/Timer.jsx:79 | `padStart` reaches the width, ends with the string and fills the front with the pad character |
| `Text.PadZerosValue` | src/pages/Timer.jsx:79 | padding a numeral with zeros keeps its value |
| `Text.FirstWord` | src/pages/Home.jsx:56 | `split(' ')[0]` is a prefix with no space that ends at the first space or at the end |
| `Timer.Duration` | src/pages/Timer.jsx:28 | a session lasts whole minutes, and between one minute and ten hours for any settings the sliders allow |
| `Timer.NextMode` | src/pages/Timer.jsx:50-57 | a finished session switches mode |
| `Timer.Pomodoro.constructor` | src/pages/Timer.jsx:11-30 | the settings are the saved ones or 25/5; study mode, full countdown, paused |
| `Timer.Pomodoro.Tick` | src/pages/Timer.jsx:34-36 | a tick takes one second off the countdown |
| `Timer.Pomodoro.SessionEnd` | src/pages/Timer.jsx:46-59 | the mode switches, the countdown is the new mode's full length, the timer pauses, and only a study session credits its minutes |
| `Timer.Pomodoro.CountdownEffect` | src/pages/Timer.jsx:32-44 | the session ends exactly when the countdown is zero, active or not; otherwise nothing changes |
| `Timer.Pomodoro.ToggleTimer` | src/pages/Timer.jsx:61 | the timer starts or pauses |
| `Timer.Pomodoro.ResetTimer` | src/pages/Timer.jsx:63-66 | paused, with the current session rewound |
| `Timer.Pomodoro.SelectMode` | src/pages/Timer.jsx:110-129 | the chosen mode with its full countdown, paused |
| `Timer.Pomodoro.OpenSettings` | src/pages/Timer.jsx:199 | the dialog opens on the current settings |
| `Timer.Pomodoro.CloseSettings` | src/pages/Timer.jsx:262-272 | the dialog closes; the draft is kept but not applied |
| `Timer.Pomodoro.SetTempStudy` | src/pages/Timer.jsx:285-291 | the study slider sets the draft's study minutes within 5..600 in steps of 5 |
| `Timer.Pomodoro.SetTempBreak` | src/pages/Timer.jsx:305-311 | the break slider sets the draft's break minutes within 1..60 |
| `Timer.Pomodoro.SaveSettings` | src/pages/Timer.jsx:68-74 | the draft becomes the settings and is stored; paused, with the countdown restarted at the new length |
| `Timer.RunSession` | src/pages/Timer.jsx:32-59 | a session left to run ticks down to zero, then switches mode and credits a study session's minutes once |
| `TimerDisplay.TwoDigits` | src/pages/Timer.jsx:79 | at least two characters, and exactly two below 100 |
| `TimerDisplay.TwoDigitsValue` | src/pages/Timer.jsx:79 | the padded numeral is all digits and denotes the number |
| `TimerDisplay.FormatTime` | src/pages/Timer.jsx:76-80 | a colon three from the end, and five characters below 100 minutes |
| `TimerDisplay.ParseFormatTime` | src/pages/Timer.jsx:76-80 | the minutes field is `seconds / 60`, the seconds field is `seconds % 60` (below 60), and reading the display back gives the seconds it came from |
| `TimerDisplay.FormatTimeInjective` | src/pages/Timer.jsx:76-80 | different countdowns display differently |
| `Timetable.StartLeOrder` | src/pages/Timetable.jsx:58 | the start-time comparator is a total preorder |
| `Timetable.DayEntries` | src/pages/Timetable.jsx:56-58 | only the active day's classes, earliest start first |
| `Timetable.DayEntriesCount` | src/pages/Timetable.jsx:56-58 | each class of the day appears as often as stored; classes of other days never |
| `Timetable.DayEntriesMember` | src/pages/Timetable.jsx:56-58 | a class is shown exactly when it is stored and on the active day |
| `Timetable.AddedEntryShows` | src/pages/Timetable.jsx:27-33 | a class just added is shown on its day |
| `Timetable.Page.constructor` | src/pages/Timetable.jsx:8-23 | Monday, the 09:00-10:00 blank form, no modal |
| `Timetable.Page.HandleSubmit` | src/pages/Timetable.jsx:27-33 | without a subject nothing changes; otherwise the class is added and the form keeps times, day and colour |
| `Timetable.Page.HandleEdit` | src/pages/Timetable.jsx:35-38 | the edit modal opens on a copy of the entry |
| `Timetable.Page.HandleUpdateSubmit` | src/pages/Timetable.jsx:40-54 | without a subject nothing changes; otherwise the entry's id gets the form's seven fields and the modal closes |
| `Timetable.Page.SelectDay` | src/pages/Timetable.jsx:73-77 | the weekday button makes that day active |
| `Timetable.Page.OpenAdd` | src/pages/Timetable.jsx:67 | the add modal opens |
| `Timetable.Page.AddClassForActiveDay` | src/pages/Timetable.jsx:122 | the add form is preset to the day being viewed |
| `Exams.UpcomingExams` | src/pages/Exams.jsx:54-56 | only exams from today on, soonest first |
| `Exams.PastExams` | src/pages/Exams.jsx:58-60 | only exams before today, most recent first |
| `Exams.UpcomingCount` | src/pages/Exams.jsx:54-56 | each upcoming exam appears as often as stored, others never |
| `Exams.PastCount` | src/pages/Exams.jsx:58-60 | each past exam appears as often as stored, others never |
| `Exams.UpcomingPastPartition` | src/pages/Exams.jsx:54-60 | every dated exam is in exactly one of the two lists; an undated one is in neither |
| `Exams.DaysLeftAsWrittenLags` | src/pages/Exams.jsx:80 | after midnight the full-days count is one less than the calendar days to a later exam |
| `Exams.DaysLeft` | src/pages/Exams.jsx:80 | the corrected count is zero exactly on the exam day and positive exactly before it |
| `Exams.DaysLeftAtMidnight` | src/pages/Exams.jsx:80 | at midnight the count as written and the corrected count agree |
| `Exams.BadgeLabel` | src/pages/Exams.jsx:91 | "Today" exactly for 0 days, "Tomorrow" exactly for 1, and "n days left" with the decimal count otherwise |
| `Exams.BadgeLabelInjective` | src/pages/Exams.jsx:91 | different day counts show different badges |
| `Exams.TomorrowShownAsToday` | src/pages/Exams.jsx:80-91 | as written, tomorrow's exam reads "Today" after midnight; the corrected badge reads "Tomorrow" |
| `Exams.Badge` | src/pages/Exams.jsx:80-91 | the badge of an upcoming exam: "Today" on its day, "Tomorrow" the day before, otherwise "n days left" for the n calendar days to go; urgent within three days |
| `Exams.Page.constructor` | src/pages/Exams.jsx:9-19 | the blank form dated today, no modal |
| `Exams.Page.HandleSubmit` | src/pages/Exams.jsx:21-33 | without a subject or a name nothing changes; otherwise the exam is added and the form reset |
| `Exams.Page.HandleEdit` | src/pages/Exams.jsx:35-38 | the edit modal opens on a copy of the exam |
| `Exams.Page.HandleUpdateSubmit` | src/pages/Exams.jsx:40-52 | without a subject or a name nothing changes; otherwise the exam's id gets the form's five fields and the modal closes |
| `Assignments.FilteredAssignments` | src/pages/Assignments.jsx:55-59 | only tasks the filter keeps, earliest due first |
| `Assignments.FilteredCount` | src/pages/Assignments.jsx:55-59 | each kept task appears as often as stored, others never |
| `Assignments.FilterSemantics` | src/pages/Assignments.jsx:55-58 | "pending" shows exactly the unfinished tasks, "completed" exactly the finished ones, any other value all |
| `Assignments.PendingCompletedPartition` | src/pages/Assignments.jsx:55-58 | the pending and completed views together are the whole list |
| `Assignments.Page.constructor` | src/pages/Assignments.jsx:9-19 | the "all" filter and the blank form, no modal |
| `Assignments.Page.HandleSubmit` | src/pages/Assignments.jsx:21-32 | without a title or a subject nothing changes; otherwise the task is added and the form reset |
| `Assignments.Page.HandleEdit` | src/pages/Assignments.jsx:34-40 | the edit modal opens on the task, dated today if it had no due date |
| `Assignments.Page.HandleUpdateSubmit` | src/pages/Assignments.jsx:42-53 | without a title or a subject nothing changes; otherwise the task's id gets the form's four fields, so completion cannot change |
| `Assignments.Page.SetFilter` | src/pages/Assignments.jsx:74-78 | the chip sets the filter |
| `Notes.FilteredNotes` | src/pages/Notes.jsx:53-57 | only notes matching the search, newest first |
| `Notes.FilteredNotesCount` | src/pages/Notes.jsx:53-57 | each matching note appears as often as stored, others never |
| `Notes.FilteredNotesMember` | src/pages/Notes.jsx:53-57 | a note is shown exactly when it is stored and matches |
| `Notes.EmptySearchShowsAll` | src/pages/Notes.jsx:53-56 | the empty search shows every note |
| `Notes.SearchIgnoresCase` | src/pages/Notes.jsx:53-56 | searching the lower-cased query gives the same list |
| `Notes.AddedNoteFoundByTitle` | src/pages/Notes.jsx:53-56 | a note just added is found by its own title |
| `Notes.NewestShownFirst` | src/pages/Notes.jsx:57 | the first card is at least as recent as every match |
| `Notes.SubjectBadge` | src/pages/Notes.jsx:96 | the subject, or "General" when it is empty |
| `Notes.Page.constructor` | src/pages/Notes.jsx:9-13 | empty search, blank form, modal closed |
| `Notes.Page.CloseModal` | src/pages/Notes.jsx:27-31 | not editing, not adding, blank form; a pending read is not cancelled |
| `Notes.Page.HandleSave` | src/pages/Notes.jsx:15-25 | without a title nothing changes; otherwise the edited note is updated or a new one added, and the modal closes |
| `Notes.Page.OpenEdit` | src/pages/Notes.jsx:48-51 | editing the note, with the form filled from it |
| `Notes.Page.HandleImageChange` | src/pages/Notes.jsx:33-46 | a file over 2,000,000 bytes is refused and nothing changes; otherwise a read starts from the current form |
| `Notes.Page.ImageLoaded` | src/pages/Notes.jsx:41-43 | the form becomes the form captured at the start of the read, with the image |
| `Notes.Page.EditTitle` | src/pages/Notes.jsx:165 | the title input sets the form's title |
| `Notes.Page.RemoveImage` | src/pages/Notes.jsx:188 | the image is cleared |
| `Notes.Page.OpenAdd` | src/pages/Notes.jsx:66 | the add modal opens |
| `Notes.Page.SetSearch` | src/pages/Notes.jsx:78 | the search box sets the query |
| `Notes.TitleTypedDuringReadIsLost` | src/pages/Notes.jsx:40-44 | a title typed while an image is read is overwritten when the read completes |
| `Home.Rank` | src/pages/Home.jsx:13-16 | High is 1, Medium 2 and Low 3; anything else is 4 |
| `Home.PendingAssignments` | src/pages/Home.jsx:14-16 | only unfinished tasks, by priority rank |
| `Home.PendingCount` | src/pages/Home.jsx:14-16 | each unfinished task appears as often as stored, finished ones never |
| `Home.PendingAgreesWithAssignmentsPage` | src/pages/Home.jsx:14-16 | the dashboard's pending tasks are the pending view of the assignments page, and the counts agree |
| `Home.TopTasks` | src/pages/Home.jsx:134 | the first three pending tasks, or all of them when there are fewer |
| `Home.TopTasksHaveHighestPriority` | src/pages/Home.jsx:134 | no hidden pending task outranks a shown one |
| `Home.EqualRankInStoredOrder` | src/pages/Home.jsx:14-16 | pending tasks of one priority appear in their stored order |
| `Home.NextExam` | src/pages/Home.jsx:18 | none exactly when there are no exams; otherwise one of them |
| `Home.NextExamIsEarliest` | src/pages/Home.jsx:18 | the next exam is no later than any dated exam, past ones included |
| `Home.NextExamMayBePast` | src/pages/Home.jsx:18 | yesterday's exam is shown as the next one before tomorrow's |
| `Home.Countdown` | src/pages/Home.jsx:100-103 | the countdown, with the corrected day count, is the least count over the dated exams: at most every one's, and equal to one's |
| `Home.CountdownShown` | src/pages/Home.jsx:100-103 | there is a countdown exactly when some exam has a date |
| `Home.CompleteTaskAsWritten` | src/pages/Home.jsx:40-42 | as written, the length is kept |
| `Home.CompleteTaskChangesNothing` | src/pages/Home.jsx:40-42 | as written, the check button leaves the list unchanged and the task pending |
| `Home.CompleteTask` | src/pages/Home.jsx:40-42 | corrected: the tasks with that id are marked done, and nothing else changes |
| `Home.CompletedTaskLeavesDashboard` | src/pages/Home.jsx:14-16 | after the corrected completion, exactly the other unfinished tasks are pending |
| `Home.CompleteTaskIsToggle` | src/context/AppContext.jsx:133 | completing a pending task is toggling it |
| `Home.Greeting` | src/pages/Home.jsx:56 | "Scholar" for an empty name; otherwise the name up to its first space |
| `Home.GreetingEmpty` | src/pages/Home.jsx:56 | the greeting's name is empty exactly when the name starts with a space |
| `Home.JsRem` | src/pages/Home.jsx:78 | JavaScript's `%` takes the sign of the dividend and is smaller than the divisor |
| `Home.JsRemOdd` | src/pages/Home.jsx:78 | negating the dividend negates the remainder |
| `Home.FocusPartsSplit` | src/pages/Home.jsx:78 | for a non-negative total, 60 times the hours plus the minutes is the total, with minutes below 60 |
| `Home.FocusPartsNegative` | src/pages/Home.jsx:78 | for -75 minutes the figure is -2 hours and -15 minutes |
| `Home.FocusTime` | src/pages/Home.jsx:78 | the figure starts with a minus sign exactly when the total is negative; for a non-negative total it is "Hh Mm" with 60H + M the total and M below 60 |

## Left out

- The REST backend (`server.js`) is not part of this model. The context
  uses only local storage, and so does the model.
- JSON serialisation. Local storage is a map of typed records, and the
  stored `theme` and `currentUser` keys are constructor parameters.
- `login` and `register` wait 500 ms first. The delay is not modelled.
  Each call is atomic.
- React's scheduling is not modelled. Batched state updates, effect
  ordering and re-renders are not captured; the effects are explicit
  methods (`App.Load`, `App.Sync`, `Pomodoro.CountdownEffect`) that the
  caller runs.
- AppContext.LogoutLoginRoundTrip runs a load after the login and no sync
  in between. In React the commit of the login runs the load effect and
  then the sync effect (`AppContext.jsx:23-57`), and that sync still sees
  the cleared data of the logout. It briefly stores the empty name, lists
  and statistics for the email; the sync of the next render writes the
  loaded data back. That intermediate store is not modelled.
- The theme effect (`AppContext.jsx:60-63`) is modelled only as the
  `theme` field. It writes the DOM attribute and the stored theme key.
- The alarm sound and `setInterval`. A tick is the explicit
  `Pomodoro.Tick`.
- Timer.Pomodoro.constructor takes the stored settings as two naturals. A
  corrupt stored value, such as a string or a negative number, is outside
  the model.
- Ids come from `Date.now()`, which can repeat within one millisecond.
  The model takes ids as parameters. `Collections.ApplyTimetableOpsMeaning`
  and `Collections.ApplyExamOpsMeaning` assume fresh ids through
  `FreshAdds`, and `Collections.ApplyAssignmentOpsMeaning` through
  `FreshTaskAdds`.
- Notes have no sequence property like the other three collections,
  because it does not hold as written: `updateNote` stores the edited note
  without an id (`AppContext.jsx:141`). `Collections.UpdateNoteLosesId`
  and `Collections.DeleteEditedNote` state what happens instead.
- Dates are day numbers and the current day is a parameter. Time zones,
  UTC parsing of `yyyy-MM-dd`, and `date-fns` `format` are not modelled.
  An unparsable date is `None`.
- Home.Countdown: when the next exam has no date the model shows no
  countdown. In the app the card still renders and the `format` call on
  the invalid date (`Home.jsx:110`) throws. The exam form requires a date
  (`Exams.jsx:176`), so only stored data can hold such an exam.
- Undated items are put last by the sort orders. For them the JavaScript
  comparator returns `NaN`, and the resulting order depends on the engine.
- `toLowerCase` is modelled on the ASCII letters only.
- `priorityOrder[a.priority]` is modelled as an explicit lookup.
  Inherited property names such as "constructor" are ignored.
- Floating point is not modelled: the timer's progress ring and any
  fractional minute totals.
- The `FileReader` contents are a parameter of `Notes.Page.ImageLoaded`.
  The page holds at most one read in flight.
- The form inputs' field setters are plain field assignments, except the
  note title (`Notes.Page.EditTitle`).
- Animations and navigation are not modelled.
- Profile, AuthScreen, Layout, App and main are presentation only and are
  not part of this model.

## Findings

| source | as written | input that shows it | evidently intended | confidence | as-written member | corrected member |
|---|---|---|---|---|---|---|
| src/pages/Exams.jsx:80, src/pages/Home.jsx:103 | `differenceInDays(new Date(exam.date), new Date())` counts full 24-hour periods from the present instant | an exam dated tomorrow, viewed at 10:00 today: the value is 0 and the badge reads "Today" | calendar days from today to the exam day, so tomorrow reads "Tomorrow" | not executed | `Exams.TomorrowShownAsToday` | `Exams.Badge` |
| src/pages/Home.jsx:41, src/context/AppContext.jsx:132 | `updateAssignment({ ...task, completed: true })` passes the task object as the id and no update | a pending task with id "1": no task's id equals the object, so the list is unchanged and the task stays pending | the task with that id is marked completed and leaves the dashboard | not executed | `Home.CompleteTaskChangesNothing` | `Home.CompletedTaskLeavesDashboard` |
