/** The focus timer: a Pomodoro state machine that alternates study and
    break sessions, counts down once a second while active, and credits a
    finished study session to the user's statistics. The interval callback
    and the two React effects are explicit methods here (`Tick`,
    `CountdownEffect`, and the settings effect folded into `SaveSettings`). */
module Timer {
  import opened Common
  import opened Text
  import opened Records
  import Collections
  import AppContext

  datatype Mode = Study | Break

  /** Session lengths in minutes (`{ study, break }`). */
  datatype Settings = Settings(study: nat, brk: nat)

  const DefaultSettings := Settings(25, 5)

  /** The values the two range inputs of the settings dialog can produce. */
  predicate InSliderRange(s: Settings) {
    5 <= s.study <= 600 && s.study % 5 == 0 && 1 <= s.brk <= 60
  }

  /** The length of a session of mode `m`, in seconds: whole minutes, and
      between one minute and ten hours for any settings the sliders allow. */
  function Duration(s: Settings, m: Mode): (r: nat)
    ensures r % 60 == 0
    ensures InSliderRange(s) ==> 60 <= r <= 36000
  {
    if m == Study then s.study * 60 else s.brk * 60
  }

  /** The mode that follows a finished session. */
  function NextMode(m: Mode): (r: Mode)
    ensures r != m
  {
    if m == Study then Break else Study
  }

  class Pomodoro {
    var settings: Settings
    /** What `pomodoroSettings` in local storage holds. */
    var storedSettings: Settings
    var mode: Mode
    var timeLeft: nat
    var isActive: bool
    var showSettings: bool
    var tempSettings: Settings

    /** The countdown never exceeds the current session's length, and the
        stored settings are the ones in use. */
    ghost predicate Valid()
      reads this
    {
      timeLeft <= Duration(settings, mode) && storedSettings == settings
    }

    /** The state initialisers (lines 11-20) and the first run of the
        settings effect, which stores the settings. */
    constructor (saved: Option<Settings>)
      ensures Valid()
      ensures settings == saved.GetOr(DefaultSettings) && tempSettings == settings
      ensures mode == Study && timeLeft == Duration(settings, Study)
      ensures !isActive && !showSettings
    {
      settings := saved.GetOr(DefaultSettings);
      storedSettings := saved.GetOr(DefaultSettings);
      tempSettings := saved.GetOr(DefaultSettings);
      mode := Study;
      timeLeft := saved.GetOr(DefaultSettings).study * 60;
      isActive := false;
      showSettings := false;
    }

    /** One firing of the one-second interval, which exists only while the
        timer is active with time left. */
    method Tick()
      requires Valid() && isActive && timeLeft > 0
      modifies this`timeLeft
      ensures Valid()
      ensures timeLeft == old(timeLeft) - 1
    {
      timeLeft := timeLeft - 1;
    }

    /** `handleSessionEnd` (lines 46-59): a finished study session credits
        its minutes, and the other mode starts, paused, at full length. */
    method SessionEnd(app: AppContext.App)
      requires Valid()
      modifies this`mode, this`timeLeft, this`isActive, app`pomodoroStats
      ensures Valid()
      ensures mode == NextMode(old(mode)) && timeLeft == Duration(settings, mode) && !isActive
      ensures app.pomodoroStats == if old(mode) == Study
        then Collections.UpdateStudyTime(old(app.pomodoroStats), settings.study)
        else old(app.pomodoroStats)
    {
      if mode == Study {
        app.UpdateStudyTime(settings.study);
        mode := Break;
        timeLeft := settings.brk * 60;
      } else {
        mode := Study;
        timeLeft := settings.study * 60;
      }
      isActive := false;
    }

    /** The countdown effect (lines 32-44), run whenever `isActive` or
        `timeLeft` changes: it arms the interval while there is time left,
        and ends the session once the countdown reaches zero, whether or
        not the timer is active. */
    method CountdownEffect(app: AppContext.App)
      requires Valid()
      modifies this`mode, this`timeLeft, this`isActive, app`pomodoroStats
      ensures Valid()
      ensures if !(old(isActive) && old(timeLeft) > 0) && old(timeLeft) == 0 then
          mode == NextMode(old(mode)) && timeLeft == Duration(settings, mode) && !isActive
          && app.pomodoroStats == (if old(mode) == Study
            then Collections.UpdateStudyTime(old(app.pomodoroStats), settings.study)
            else old(app.pomodoroStats))
        else
          mode == old(mode) && timeLeft == old(timeLeft) && isActive == old(isActive)
          && app.pomodoroStats == old(app.pomodoroStats)
    {
      if isActive && timeLeft > 0 {
      } else if timeLeft == 0 {
        SessionEnd(app);
      }
    }

    /** `toggleTimer` (line 61). */
    method ToggleTimer()
      modifies this`isActive
      ensures isActive == !old(isActive)
    {
      isActive := !isActive;
    }

    /** `resetTimer` (lines 63-66): pause and rewind the current session. */
    method ResetTimer()
      requires Valid()
      modifies this`isActive, this`timeLeft
      ensures Valid()
      ensures !isActive && timeLeft == Duration(settings, mode)
    {
      isActive := false;
      timeLeft := if mode == Study then settings.study * 60 else settings.brk * 60;
    }

    /** The two mode buttons (lines 110 and 129). */
    method SelectMode(m: Mode)
      requires Valid()
      modifies this`mode, this`timeLeft, this`isActive
      ensures Valid()
      ensures mode == m && timeLeft == Duration(settings, m) && !isActive
    {
      mode := m;
      timeLeft := if m == Study then settings.study * 60 else settings.brk * 60;
      isActive := false;
    }

    /** The settings button (line 199): the dialog starts from the settings
        in use. */
    method OpenSettings()
      modifies this`tempSettings, this`showSettings
      ensures tempSettings == settings && showSettings
    {
      tempSettings := settings;
      showSettings := true;
    }

    /** The dialog's close button and backdrop (lines 262 and 272): the
        draft is kept but not applied. */
    method CloseSettings()
      modifies this`showSettings
      ensures !showSettings
    {
      showSettings := false;
    }

    /** The study slider (lines 285-291). */
    method SetTempStudy(minutes: nat)
      requires 5 <= minutes <= 600 && minutes % 5 == 0
      modifies this`tempSettings
      ensures tempSettings == old(tempSettings).(study := minutes)
    {
      tempSettings := tempSettings.(study := minutes);
    }

    /** The break slider (lines 305-311). */
    method SetTempBreak(minutes: nat)
      requires 1 <= minutes <= 60
      modifies this`tempSettings
      ensures tempSettings == old(tempSettings).(brk := minutes)
    {
      tempSettings := tempSettings.(brk := minutes);
    }

    /** `saveSettings` (lines 68-74) followed by the settings effect (lines
        25-30), which stores them; the effect's own rewind finds the timer
        already paused at the new length. */
    method SaveSettings()
      modifies this`settings, this`storedSettings, this`showSettings, this`isActive, this`timeLeft
      ensures Valid()
      ensures settings == old(tempSettings)
      ensures !showSettings && !isActive && timeLeft == Duration(settings, mode)
    {
      settings := tempSettings;
      storedSettings := tempSettings;
      showSettings := false;
      isActive := false;
      timeLeft := if mode == Study then tempSettings.study * 60 else tempSettings.brk * 60;
    }
  }

  /** A session run to its end: starting from an active timer, the interval
      fires once a second and the effect runs after each change, until the
      session ends. Afterwards the other mode waits, paused, at full length,
      and a study session has credited its minutes exactly once. */
  method RunSession(p: Pomodoro, app: AppContext.App)
    requires p.Valid() && p.isActive
    modifies p, app`pomodoroStats
    ensures p.Valid() && p.settings == old(p.settings)
    ensures p.mode == NextMode(old(p.mode)) && !p.isActive
    ensures p.timeLeft == Duration(p.settings, p.mode)
    ensures app.pomodoroStats == if old(p.mode) == Study
      then Collections.UpdateStudyTime(old(app.pomodoroStats), p.settings.study)
      else old(app.pomodoroStats)
  {
    var m0 := p.mode;
    p.CountdownEffect(app);
    while p.mode == m0
      invariant p.Valid() && p.settings == old(p.settings)
      invariant p.mode == m0 ==> p.isActive && p.timeLeft > 0 && app.pomodoroStats == old(app.pomodoroStats)
      invariant p.mode != m0 ==>
        && p.mode == NextMode(m0) && !p.isActive
        && p.timeLeft == Duration(p.settings, p.mode)
        && app.pomodoroStats == (if m0 == Study
          then Collections.UpdateStudyTime(old(app.pomodoroStats), p.settings.study)
          else old(app.pomodoroStats))
      decreases if p.mode == m0 then p.timeLeft + 1 else 0
    {
      p.Tick();
      p.CountdownEffect(app);
    }
  }
}

/** The countdown display of the focus timer. */
module TimerDisplay {
  import opened Text

  lemma NatToStringShort(n: nat)
    ensures n < 100 ==> |NatToString(n)| <= 2
  {
    if 10 <= n < 100 {
      assert n / 10 < 10;
    }
  }

  /** Digits padded to two places on the left with zeros. */
  function TwoDigits(n: nat): (r: string)
    ensures |r| >= 2
    ensures n < 100 ==> |r| == 2
  {
    NatToStringShort(n);
    PadStart(NatToString(n), 2, '0')
  }

  /** The padded numeral still denotes `n`. */
  lemma TwoDigitsValue(n: nat)
    ensures AllDigits(TwoDigits(n)) && DigitsValue(TwoDigits(n)) == n
  {
    PadZerosValue(NatToString(n), 2);
  }

  lemma MinutesAndSeconds(seconds: nat)
    ensures seconds == 60 * (seconds / 60) + seconds % 60
    ensures seconds % 60 < 60
    ensures seconds < 6000 ==> seconds / 60 < 100
  {
  }

  /** `formatTime` (lines 76-80): at least two digits of minutes, a colon,
      and exactly two digits of seconds. */
  function FormatTime(seconds: nat): (r: string)
    ensures |r| >= 5 && r[|r| - 3] == ':'
    ensures seconds < 6000 ==> |r| == 5
  {
    MinutesAndSeconds(seconds);
    TwoDigits(seconds / 60) + ":" + TwoDigits(seconds % 60)
  }

  /** The shape `formatTime` produces: a numeral of minutes, a colon, and
      two digits of seconds below 60. */
  predicate IsClock(r: string) {
    |r| >= 5 && r[|r| - 3] == ':' && AllDigits(r[..|r| - 3]) && AllDigits(r[|r| - 2..])
    && DigitsValue(r[|r| - 2..]) < 60
  }

  /** The minutes a clock display shows. */
  function MinutesField(r: string): nat
    requires IsClock(r)
  {
    DigitsValue(r[..|r| - 3])
  }

  /** The seconds a clock display shows. */
  function SecondsField(r: string): nat
    requires IsClock(r)
  {
    DigitsValue(r[|r| - 2..])
  }

  /** The number of seconds a clock display stands for. */
  function ParseClock(r: string): nat
    requires IsClock(r)
  {
    60 * MinutesField(r) + SecondsField(r)
  }

  /** A display `mm:ss` built from a numeral of `a` minutes and two digits
      of `b < 60` seconds reads back field by field. */
  lemma ClockOf(mm: string, ss: string, a: nat, b: nat)
    requires |mm| >= 2 && |ss| == 2 && AllDigits(mm) && AllDigits(ss)
    requires DigitsValue(mm) == a && DigitsValue(ss) == b && b < 60
    ensures IsClock(mm + ":" + ss)
    ensures MinutesField(mm + ":" + ss) == a && SecondsField(mm + ":" + ss) == b
  {
    var r := mm + ":" + ss;
    assert r[..|r| - 3] == mm;
    assert r[|r| - 2..] == ss;
  }

  /** Reading a display back gives the countdown it was made from: the
      minutes field is `seconds / 60` and the seconds field, always below
      60, is `seconds % 60`. */
  lemma ParseFormatTime(seconds: nat)
    ensures IsClock(FormatTime(seconds))
    ensures MinutesField(FormatTime(seconds)) == seconds / 60
    ensures SecondsField(FormatTime(seconds)) == seconds % 60
    ensures ParseClock(FormatTime(seconds)) == seconds
  {
    var minutes, secs := seconds / 60, seconds % 60;
    MinutesAndSeconds(seconds);
    TwoDigitsValue(minutes);
    TwoDigitsValue(secs);
    ClockOf(TwoDigits(minutes), TwoDigits(secs), minutes, secs);
  }

  /** Different countdown values display differently. */
  lemma FormatTimeInjective(a: nat, b: nat)
    ensures FormatTime(a) == FormatTime(b) ==> a == b
  {
    ParseFormatTime(a);
    ParseFormatTime(b);
  }
}
