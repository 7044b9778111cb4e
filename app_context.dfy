/** The application context: the signed-in session, the in-memory copy of
    the user's data, and the `users_db` dictionary in local storage that maps
    each email to its stored record. The two React effects that connect
    them, loading when the email changes and writing back after every
    change, are the explicit methods `Load` and `Sync`. */
module AppContext {
  import opened Common
  import opened Records
  import Collections

  // ===========================================================================
  // Stored records

  /** A value of `users_db`. Each field may be missing: `register` writes all
      of them, but a record first written by a sync has no email or
      password. */
  datatype UserRecord = UserRecord(
    email: Option<string>,
    password: Option<string>,
    userName: Option<string>,
    timetable: Option<seq<TimetableEntry>>,
    assignments: Option<seq<Assignment>>,
    exams: Option<seq<Exam>>,
    notes: Option<seq<Note>>,
    pomodoroStats: Option<PomodoroStats>,
    theme: Option<string>)

  const EmptyRecord := UserRecord(None, None, None, None, None, None, None, None, None)

  /** The record `register` stores. */
  function NewUserRecord(email: string, password: string, name: string): UserRecord {
    UserRecord(Some(email), Some(password), Some(name), Some([]), Some([]), Some([]), Some([]),
      Some(ZeroStats), Some("light"))
  }

  /** The seven fields the context keeps for the signed-in user and syncs. */
  datatype UserData = UserData(
    userName: string,
    timetable: seq<TimetableEntry>,
    assignments: seq<Assignment>,
    exams: seq<Exam>,
    notes: seq<Note>,
    pomodoroStats: PomodoroStats,
    theme: string)

  /** `value || fallback` for a string that may be missing; the empty string
      is falsy too. */
  function OrString(o: Option<string>, fallback: string): (r: string)
    ensures o.Some? && o.value != "" ==> r == o.value
    ensures !(o.Some? && o.value != "") ==> r == fallback
  {
    if o.Some? && o.value != "" then o.value else fallback
  }

  /** What the load effect installs from a stored record (lines 29-35). */
  function LoadedData(rec: UserRecord): UserData {
    UserData(
      OrString(rec.userName, ""),
      rec.timetable.GetOr([]),
      rec.assignments.GetOr([]),
      rec.exams.GetOr([]),
      rec.notes.GetOr([]),
      rec.pomodoroStats.GetOr(ZeroStats),
      OrString(rec.theme, "light"))
  }

  /** `{ ...allUsers[userEmail], userName, timetable, ..., theme }`: the
      stored record with the seven synced fields overwritten. */
  function SyncedRecord(stored: Option<UserRecord>, d: UserData): (r: UserRecord)
    ensures r.email == stored.GetOr(EmptyRecord).email
    ensures r.password == stored.GetOr(EmptyRecord).password
  {
    stored.GetOr(EmptyRecord).(
      userName := Some(d.userName),
      timetable := Some(d.timetable),
      assignments := Some(d.assignments),
      exams := Some(d.exams),
      notes := Some(d.notes),
      pomodoroStats := Some(d.pomodoroStats),
      theme := Some(d.theme))
  }

  function Lookup(db: map<string, UserRecord>, email: string): Option<UserRecord> {
    if email in db then Some(db[email]) else None
  }

  /** Loading what a sync wrote gives back the synced data, except that an
      empty theme reads back as "light". */
  lemma LoadAfterSync(stored: Option<UserRecord>, d: UserData)
    ensures LoadedData(SyncedRecord(stored, d)) == d.(theme := if d.theme == "" then "light" else d.theme)
  {
  }

  /** Syncing right after a load writes back what was loaded: the synced
      fields become present (missing ones with their defaults) and every
      field that was present and not empty stays as it was. */
  lemma SyncAfterLoad(rec: UserRecord)
    ensures var r := SyncedRecord(Some(rec), LoadedData(rec));
      && r.email == rec.email && r.password == rec.password
      && (rec.timetable.Some? ==> r.timetable == rec.timetable)
      && (rec.assignments.Some? ==> r.assignments == rec.assignments)
      && (rec.exams.Some? ==> r.exams == rec.exams)
      && (rec.notes.Some? ==> r.notes == rec.notes)
      && (rec.pomodoroStats.Some? ==> r.pomodoroStats == rec.pomodoroStats)
      && (rec.userName.Some? && rec.userName.value != "" ==> r.userName == rec.userName)
      && (rec.theme.Some? && rec.theme.value != "" ==> r.theme == rec.theme)
      && LoadedData(r) == LoadedData(rec)
  {
  }

  /** A freshly registered user loads as empty data with the given name. */
  lemma LoadNewUser(email: string, password: string, name: string)
    ensures LoadedData(NewUserRecord(email, password, name)) == UserData(name, [], [], [], [], ZeroStats, "light")
  {
  }

  // ===========================================================================
  // Authentication

  const InvalidCredentials := "Invalid email or password"
  const UserExists := "User already exists"

  datatype AuthResult = Success | Failure(error: string)

  /** `user && user.password === password`. */
  predicate CredentialsMatch(db: map<string, UserRecord>, email: string, password: string) {
    email in db && db[email].password == Some(password)
  }

  /** Right after registering, a login for that email succeeds with exactly
      the registered password. */
  lemma LoginAfterRegister(db: map<string, UserRecord>, email: string, password: string, name: string, attempt: string)
    ensures CredentialsMatch(db[email := NewUserRecord(email, password, name)], email, attempt) <==> attempt == password
  {
  }

  /** A record first created by a sync has no password, so nobody can log
      in to it. */
  lemma SyncCreatedRecordRefusesLogin(db: map<string, UserRecord>, email: string, d: UserData, attempt: string)
    requires email !in db
    ensures !CredentialsMatch(db[email := SyncedRecord(Lookup(db, email), d)], email, attempt)
  {
  }

  /** `toggleTheme`. */
  function ToggledTheme(t: string): (r: string)
    ensures r == "light" || r == "dark"
    ensures r != t || (t != "light" && t != "dark")
  {
    if t == "light" then "dark" else "light"
  }

  /** Toggling twice restores the theme exactly when it was one of the two
      known ones. */
  lemma ToggleThemeTwice(t: string)
    ensures ToggledTheme(ToggledTheme(t)) == t <==> t == "light" || t == "dark"
  {
    if t != "light" && t != "dark" {
      assert ToggledTheme(t) == "light";
    }
  }

  // ===========================================================================
  // The context

  class App {
    // local storage
    var usersDb: map<string, UserRecord>
    var currentUser: Option<string>
    // session
    var token: string
    var userEmail: string
    var isLoading: bool
    // the signed-in user's data
    var userName: string
    var timetable: seq<TimetableEntry>
    var assignments: seq<Assignment>
    var exams: seq<Exam>
    var notes: seq<Note>
    var pomodoroStats: PomodoroStats
    var theme: string

    /** The token is the email, and both mirror the stored current user. */
    ghost predicate Valid()
      reads this
    {
      token == userEmail && userEmail == OrString(currentUser, "")
    }

    function Data(): UserData
      reads this
    {
      UserData(userName, timetable, assignments, exams, notes, pomodoroStats, theme)
    }

    /** The state initialisers (lines 9-20), given what local storage holds. */
    constructor (savedTheme: Option<string>, savedUser: Option<string>, db: map<string, UserRecord>)
      ensures Valid()
      ensures usersDb == db && currentUser == savedUser && isLoading
      ensures userEmail == OrString(savedUser, "")
      ensures Data() == UserData("", [], [], [], [], ZeroStats, OrString(savedTheme, "light"))
    {
      usersDb := db;
      currentUser := savedUser;
      theme := OrString(savedTheme, "light");
      token := OrString(savedUser, "");
      userEmail := OrString(savedUser, "");
      userName := "";
      timetable, assignments, exams, notes := [], [], [], [];
      pomodoroStats := ZeroStats;
      isLoading := true;
    }

    /** The load effect (lines 23-39): installs the stored record of the
        current email, if there is one, and ends loading. */
    method Load()
      modifies this`userName, this`timetable, this`assignments, this`exams, this`notes,
        this`pomodoroStats, this`theme, this`isLoading
      ensures Data() == if userEmail != "" && userEmail in usersDb
        then LoadedData(usersDb[userEmail]) else old(Data())
      ensures !isLoading
    {
      if userEmail != "" && userEmail in usersDb {
        var d := LoadedData(usersDb[userEmail]);
        userName, timetable, assignments, exams, notes, pomodoroStats, theme :=
          d.userName, d.timetable, d.assignments, d.exams, d.notes, d.pomodoroStats, d.theme;
      }
      isLoading := false;
    }

    /** The sync effect (lines 42-57): once loading is over and someone is
        signed in, the seven fields overwrite theirs in the stored record;
        the record's other fields stay. */
    method Sync()
      modifies this`usersDb
      ensures usersDb == if userEmail != "" && !isLoading
        then old(usersDb)[userEmail := SyncedRecord(Lookup(old(usersDb), userEmail), Data())]
        else old(usersDb)
    {
      if userEmail != "" && !isLoading {
        usersDb := usersDb[userEmail := SyncedRecord(Lookup(usersDb, userEmail), Data())];
      }
    }

    /** `login` (lines 66-80). */
    method Login(email: string, password: string) returns (r: AuthResult)
      requires Valid()
      modifies this`token, this`userEmail, this`currentUser
      ensures Valid()
      ensures r == if CredentialsMatch(usersDb, email, password) then Success else Failure(InvalidCredentials)
      ensures r.Success? ==> token == email && userEmail == email && currentUser == Some(email)
      ensures r.Failure? ==> token == old(token) && userEmail == old(userEmail) && currentUser == old(currentUser)
    {
      if email in usersDb && usersDb[email].password == Some(password) {
        token := email;
        userEmail := email;
        currentUser := Some(email);
        return Success;
      }
      return Failure(InvalidCredentials);
    }

    /** `register` (lines 82-108). */
    method Register(email: string, password: string, name: string) returns (r: AuthResult)
      requires Valid()
      modifies this`usersDb, this`token, this`userEmail, this`currentUser
      ensures Valid()
      ensures r == if email in old(usersDb) then Failure(UserExists) else Success
      ensures r.Failure? ==> usersDb == old(usersDb) && token == old(token) && userEmail == old(userEmail)
                             && currentUser == old(currentUser)
      ensures r.Success? ==> usersDb == old(usersDb)[email := NewUserRecord(email, password, name)]
                             && token == email && userEmail == email && currentUser == Some(email)
    {
      if email in usersDb {
        return Failure(UserExists);
      }
      usersDb := usersDb[email := NewUserRecord(email, password, name)];
      token := email;
      userEmail := email;
      currentUser := Some(email);
      return Success;
    }

    /** `logout` (lines 110-120): clears the session and the user's data,
        but not the theme and not the store. */
    method Logout()
      modifies this`token, this`userEmail, this`currentUser, this`userName, this`timetable,
        this`assignments, this`exams, this`notes, this`pomodoroStats
      ensures Valid()
      ensures token == "" && userEmail == "" && currentUser == None
      ensures Data() == UserData("", [], [], [], [], ZeroStats, theme)
    {
      token := "";
      userEmail := "";
      currentUser := None;
      userName := "";
      timetable, assignments, exams, notes := [], [], [], [];
      pomodoroStats := ZeroStats;
    }

    method ToggleTheme()
      modifies this`theme
      ensures theme == ToggledTheme(old(theme))
    {
      theme := if theme == "light" then "dark" else "light";
    }

    method SetUserName(name: string)
      modifies this`userName
      ensures userName == name
    {
      userName := name;
    }

    // --- CRUD helpers (lines 127-142) ---

    method AddTimetableEntry(f: ClassForm, id: string)
      modifies this`timetable
      ensures timetable == Collections.AddTimetableEntry(old(timetable), f, id)
    {
      timetable := Collections.AddTimetableEntry(timetable, f, id);
    }

    method UpdateTimetableEntry(id: string, f: ClassForm)
      modifies this`timetable
      ensures timetable == Collections.UpdateTimetableEntry(old(timetable), id, f)
    {
      timetable := Collections.UpdateTimetableEntry(timetable, id, f);
    }

    method DeleteTimetableEntry(id: string)
      modifies this`timetable
      ensures timetable == Collections.DeleteTimetableEntry(old(timetable), id)
    {
      timetable := Collections.DeleteTimetableEntry(timetable, id);
    }

    method AddAssignment(f: AssignmentForm, id: string)
      modifies this`assignments
      ensures assignments == Collections.AddAssignment(old(assignments), f, id)
    {
      assignments := Collections.AddAssignment(assignments, f, id);
    }

    method UpdateAssignment(id: Collections.IdArg, draft: Option<AssignmentForm>)
      modifies this`assignments
      ensures assignments == Collections.UpdateAssignment(old(assignments), id, draft)
    {
      assignments := Collections.UpdateAssignment(assignments, id, draft);
    }

    method ToggleAssignment(id: string)
      modifies this`assignments
      ensures assignments == Collections.ToggleAssignment(old(assignments), id)
    {
      assignments := Collections.ToggleAssignment(assignments, id);
    }

    method DeleteAssignment(id: string)
      modifies this`assignments
      ensures assignments == Collections.DeleteAssignment(old(assignments), id)
    {
      assignments := Collections.DeleteAssignment(assignments, id);
    }

    method AddExam(f: ExamForm, id: string)
      modifies this`exams
      ensures exams == Collections.AddExam(old(exams), f, id)
    {
      exams := Collections.AddExam(exams, f, id);
    }

    method UpdateExam(id: string, f: ExamForm)
      modifies this`exams
      ensures exams == Collections.UpdateExam(old(exams), id, f)
    {
      exams := Collections.UpdateExam(exams, id, f);
    }

    method DeleteExam(id: string)
      modifies this`exams
      ensures exams == Collections.DeleteExam(old(exams), id)
    {
      exams := Collections.DeleteExam(exams, id);
    }

    method AddNote(f: NoteForm, id: string, now: int)
      modifies this`notes
      ensures notes == Collections.AddNote(old(notes), f, id, now)
    {
      notes := Collections.AddNote(notes, f, id, now);
    }

    method UpdateNote(id: Option<string>, f: NoteForm, now: int)
      modifies this`notes
      ensures notes == Collections.UpdateNote(old(notes), id, f, now)
    {
      notes := Collections.UpdateNote(notes, id, f, now);
    }

    method DeleteNote(id: Option<string>)
      modifies this`notes
      ensures notes == Collections.DeleteNote(old(notes), id)
    {
      notes := Collections.DeleteNote(notes, id);
    }

    /** `updateStudyTime` (line 144). */
    method UpdateStudyTime(minutes: int)
      modifies this`pomodoroStats
      ensures pomodoroStats == Collections.UpdateStudyTime(old(pomodoroStats), minutes)
    {
      pomodoroStats := Collections.UpdateStudyTime(pomodoroStats, minutes);
    }
  }

  /** Signing out and back in, with a sync before and after the logout and
      a load after the login, restores the user's data: the sync after
      logout finds no email and writes nothing, and the load after login
      reads back what the last sync stored. The sync that React also runs
      in the login commit, before the loaded data is rendered, is not part
      of this sequence. */
  method LogoutLoginRoundTrip(app: App, password: string)
    requires app.Valid() && !app.isLoading && app.userEmail != ""
    requires app.theme != ""
    requires app.userEmail in app.usersDb && app.usersDb[app.userEmail].password == Some(password)
    modifies app
    ensures app.Valid() && app.userEmail == old(app.userEmail)
    ensures app.Data() == old(app.Data())
  {
    var email := app.userEmail;
    ghost var before := app.Data();
    app.Sync();
    assert app.usersDb[email] == SyncedRecord(Lookup(old(app.usersDb), email), before);
    app.Logout();
    app.Sync();
    var r := app.Login(email, password);
    assert r.Success?;
    app.Load();
    LoadAfterSync(Lookup(old(app.usersDb), email), before);
  }
}
