/** The exam screen's session: its state fields, the key-value store standing in for localStorage,
    and the handlers that change them (the tick, submit, "New Exam" and the Escape key). */
module Session {
  import opened Text
  import opened Countdown
  import opened Schedule

  const TitleKey := "examTitle"
  const StartKey := "startDate"
  const EndKey := "endTime"
  const SubmittedKey := "formSubmitted"
  const SessionKeys := {TitleKey, StartKey, EndKey}
  const EscapeKey := "Escape"

  type Store = map<string, string>

  /** The value React holds for formSubmitted: a boolean set by a handler, or the string read back from storage. */
  datatype Flag = Bool(b: bool) | Str(s: string)

  /** JavaScript truthiness, which decides whether the setup form or the exam screen is rendered. */
  predicate Truthy(f: Flag)
  {
    match f
    case Bool(b) => b
    case Str(s) => s != ""
  }

  /** String(f): what localStorage.setItem stores for the flag. */
  function Stringify(f: Flag): string
  {
    match f
    case Bool(b) => if b then "true" else "false"
    case Str(s) => s
  }

  /** The flag as the component reads it on mount: the stored string when there is a non-empty one, else false. */
  function LoadFlag(store: Store): Flag
  {
    if SubmittedKey in store && store[SubmittedKey] != "" then Str(store[SubmittedKey]) else Bool(false)
  }

  /** Everything the exam screen keeps: its state variables and the store. Instants are milliseconds. */
  datatype Snapshot = Snapshot(title: string, currentTime: int, start: int, end: int, countdown: string,
                               examOver: bool, formSubmitted: Flag, store: Store)

  /** The effect on formSubmitted has run: the store holds the flag written as a string. */
  predicate Persisted(s: Snapshot)
  {
    SubmittedKey in s.store && s.store[SubmittedKey] == Stringify(s.formSubmitted)
  }

  /** What every mounted session keeps: the flag is persisted, and the text stored for it is non-empty. */
  predicate Settled(s: Snapshot)
  {
    Persisted(s) && Stringify(s.formSubmitted) != ""
  }

  /** Mounting at `now`: every Date state is `now`, the flag is loaded, and its effect writes it back. */
  function Mounted(stored: Store, now: int): Snapshot
  {
    var flag := LoadFlag(stored);
    Snapshot("", now, now, now, "", false, flag, stored[SubmittedKey := Stringify(flag)])
  }

  /** The title input's change handler. */
  function AfterTitleInput(s: Snapshot, title: string): Snapshot
  {
    s.(title := title)
  }

  /** One interval callback at wall-clock `now`. The difference is taken from the time the previous
      callback stored, and only then is the stored time replaced by `now`. */
  function AfterTick(s: Snapshot, now: int): Snapshot
  {
    var diff := Diff(s.currentTime, s.start, s.end);
    s.(currentTime := now, examOver := s.examOver || IsOver(diff), countdown := Format(diff))
  }

  /** The submit handler followed by the formSubmitted effect; `dateText` stands for Date.prototype.toString. */
  function AfterSubmit(s: Snapshot, date: string, startTime: string, endTime: string,
                       localMidnight: CalendarDate -> int, dateText: int -> string): Snapshot
    requires ParseSchedule(date, startTime, endTime, localMidnight).Some?
  {
    var iv := ParseSchedule(date, startTime, endTime, localMidnight).value;
    s.(start := iv.start, end := iv.end, examOver := false, formSubmitted := Bool(true),
       store := s.store[TitleKey := s.title][StartKey := dateText(iv.start)][EndKey := dateText(iv.end)]
                       [SubmittedKey := Stringify(Bool(true))])
  }

  /** "New Exam" (and a confirmed Escape) followed by the formSubmitted effect. */
  function AfterNewExam(s: Snapshot): Snapshot
  {
    s.(formSubmitted := Bool(false), store := (s.store - SessionKeys)[SubmittedKey := Stringify(Bool(false))])
  }

  /** The countdown panel, rendered on the exam screen while the countdown text is non-empty and the exam is not
      over: its heading and its text. */
  function Panel(s: Snapshot): Option<(string, string)>
  {
    if Truthy(s.formSubmitted) && s.countdown != "" && !s.examOver then Some((Label(s.currentTime, s.start), s.countdown))
    else None
  }

  /** The flag read from storage is never the boolean true: it is false when nothing (or "") is stored,
      and otherwise the stored string, so a stored "false" is truthy. */
  lemma LoadFlagQuirk(store: Store)
    ensures LoadFlag(store) != Bool(true)
    ensures Truthy(LoadFlag(store)) <==> SubmittedKey in store && store[SubmittedKey] != ""
    ensures SubmittedKey in store && store[SubmittedKey] == "false" ==> Truthy(LoadFlag(store))
  {
  }

  /** On the very first load (nothing stored) the setup form is shown, and the effect stores "false". */
  lemma FirstLoad(stored: Store, now: int)
    requires SubmittedKey !in stored
    ensures !Truthy(Mounted(stored, now).formSubmitted)
    ensures Mounted(stored, now).store == stored[SubmittedKey := "false"]
  {
  }

  /** Mounting over any store settles the session: `getItem || false` yields false or a non-empty string,
      and either is written back as non-empty text. */
  lemma {:induction false} MountSettles(stored: Store, now: int)
    ensures Settled(Mounted(stored, now))
  {
    var flag := LoadFlag(stored);
    assert Stringify(flag) != "" by {
      match flag
      case Bool(b) =>
      case Str(t) =>
    }
  }

  /** A reload over the store of a settled session never shows the setup form. */
  lemma ReloadSkipsSetupForm(s: Snapshot, later: int)
    requires Settled(s)
    ensures Truthy(Mounted(s.store, later).formSubmitted)
    ensures Mounted(s.store, later).formSubmitted == Str(Stringify(s.formSubmitted))
  {
  }

  /** The formSubmitted effect only runs when the flag changes, while the model writes it back after every
      handler; on a persisted state that write changes nothing, so the two agree. */
  lemma {:induction false} WriteBackIsNoOpWhenPersisted(s: Snapshot)
    requires Persisted(s)
    ensures s.store[SubmittedKey := Stringify(s.formSubmitted)] == s.store
  {
    assert s.store[SubmittedKey := Stringify(s.formSubmitted)].Keys == s.store.Keys;
  }

  /** Every handler keeps the stored flag in step with the state, as the formSubmitted effect does. */
  lemma {:induction false} HandlersPersistFlag(s: Snapshot, now: int, title: string, date: string, startTime: string,
                                               endTime: string, localMidnight: CalendarDate -> int, dateText: int -> string)
    requires Persisted(s)
    ensures Persisted(AfterTitleInput(s, title))
    ensures Persisted(AfterTick(s, now))
    ensures Persisted(AfterNewExam(s))
    ensures ParseSchedule(date, startTime, endTime, localMidnight).Some? ==>
      Persisted(AfterSubmit(s, date, startTime, endTime, localMidnight, dateText))
  {
  }

  /** A tick sets the clock to `now` and flags the exam over exactly when the previous clock reading had
      reached the end (for start <= end); before the start it never flags it, and it touches nothing else. */
  lemma TickFlagsOver(s: Snapshot, now: int)
    ensures AfterTick(s, now).currentTime == now
    ensures s.currentTime < s.start ==> AfterTick(s, now).examOver == s.examOver
    ensures s.start <= s.end ==> (AfterTick(s, now).examOver <==> s.examOver || s.currentTime >= s.end)
    ensures AfterTick(s, now).(currentTime := s.currentTime, examOver := s.examOver, countdown := s.countdown) == s
  {
    OverExactlyFromEnd(s.currentTime, s.start, s.end);
  }

  /** While time is left, the countdown a tick writes reads back as the whole hours, minutes and seconds
      left until the instant it counts to, measured from the previous clock reading. */
  lemma {:induction false} TickShowsRemaining(s: Snapshot, now: int)
    requires !IsOver(Diff(s.currentTime, s.start, s.end))
    ensures var diff := Diff(s.currentTime, s.start, s.end);
      var c := ParseCountdown(AfterTick(s, now).countdown);
      c.Some? && c.value.hours * 3600 + c.value.minutes * 60 + c.value.seconds == diff / MsPerSecond &&
      0 <= c.value.minutes < 60 && 0 <= c.value.seconds < 60
  {
    var diff := Diff(s.currentTime, s.start, s.end);
    FormatRoundTrip(diff);
    Decomposition(diff);
  }

  /** Every handler keeps a settled session settled, so every later reload shows the exam screen. */
  lemma HandlersKeepSettled(s: Snapshot, now: int, title: string, date: string, startTime: string,
                            endTime: string, localMidnight: CalendarDate -> int, dateText: int -> string)
    requires Settled(s)
    ensures Settled(AfterTitleInput(s, title))
    ensures Settled(AfterTick(s, now))
    ensures Settled(AfterNewExam(s))
    ensures ParseSchedule(date, startTime, endTime, localMidnight).Some? ==>
      Settled(AfterSubmit(s, date, startTime, endTime, localMidnight, dateText))
  {
  }

  /** Only submit clears examOver: the tick, the title input and "New Exam" leave a set flag set. */
  lemma OverIsSticky(s: Snapshot, now: int, title: string, date: string, startTime: string, endTime: string,
                     localMidnight: CalendarDate -> int, dateText: int -> string)
    ensures s.examOver ==> AfterTick(s, now).examOver && AfterTitleInput(s, title).examOver && AfterNewExam(s).examOver
    ensures ParseSchedule(date, startTime, endTime, localMidnight).Some? ==>
      !AfterSubmit(s, date, startTime, endTime, localMidnight, dateText).examOver
  {
  }

  /** The panel heading uses the clock after the tick while the text was computed from the clock before it:
      on the tick that crosses the start, the heading already says "Time remaining:" while the text still
      counts down to the start. */
  lemma {:induction false} LabelLagsCountdown(s: Snapshot, now: int)
    requires Truthy(s.formSubmitted) && !s.examOver
    requires s.currentTime < s.start <= now
    ensures Panel(AfterTick(s, now)) == Some((RemainingLabel, Format(s.start - s.currentTime)))
  {
    var diff := s.start - s.currentTime;
    FormatNonEmpty(diff);
    var t := AfterTick(s, now);
    assert t.countdown == Format(diff) && !t.examOver && t.formSubmitted == s.formSubmitted;
    assert Label(t.currentTime, t.start) == RemainingLabel;
  }

  /** Submitting stores the parsed instants, clears examOver, sets the flag, and writes the title, both
      instants and the flag to the store; every other key keeps its value. */
  lemma {:induction false} SubmitStoresSession(s: Snapshot, date: string, startTime: string, endTime: string,
                                               localMidnight: CalendarDate -> int, dateText: int -> string)
    requires ParseSchedule(date, startTime, endTime, localMidnight).Some?
    ensures var iv := ParseSchedule(date, startTime, endTime, localMidnight).value;
      var r := AfterSubmit(s, date, startTime, endTime, localMidnight, dateText);
      r.start == iv.start && r.end == iv.end && !r.examOver && Truthy(r.formSubmitted) &&
      r.title == s.title && r.currentTime == s.currentTime && r.countdown == s.countdown &&
      r.store.Keys == s.store.Keys + SessionKeys + {SubmittedKey} &&
      r.store[TitleKey] == s.title && r.store[StartKey] == dateText(iv.start) &&
      r.store[EndKey] == dateText(iv.end) && r.store[SubmittedKey] == "true" &&
      forall k :: k in s.store && k !in SessionKeys && k != SubmittedKey ==> r.store[k] == s.store[k]
  {
    var r := AfterSubmit(s, date, startTime, endTime, localMidnight, dateText);
    assert r.store.Keys == s.store.Keys + SessionKeys + {SubmittedKey};
  }

  /** "New Exam" removes exactly the three session keys, stores "false" as the flag and clears it;
      every other field and key is unchanged. */
  lemma {:induction false} NewExamClearsSession(s: Snapshot)
    ensures var r := AfterNewExam(s);
      !Truthy(r.formSubmitted) && r.(formSubmitted := s.formSubmitted, store := s.store) == s &&
      r.store.Keys == s.store.Keys - SessionKeys + {SubmittedKey} && r.store[SubmittedKey] == "false" &&
      forall k :: k in s.store && k !in SessionKeys && k != SubmittedKey ==> r.store[k] == s.store[k]
  {
    var r := AfterNewExam(s);
    assert r.store.Keys == s.store.Keys - SessionKeys + {SubmittedKey};
  }

  /** Doing "New Exam" twice leaves the same state as doing it once. */
  lemma {:induction false} NewExamIdempotent(s: Snapshot)
    ensures AfterNewExam(AfterNewExam(s)) == AfterNewExam(s)
  {
    var once := AfterNewExam(s).store;
    var twice := AfterNewExam(AfterNewExam(s)).store;
    assert twice.Keys == once.Keys;
    assert twice == once;
  }

  /** After "New Exam" or a confirmed Escape, a reload finds no session keys but the string "false" under
      formSubmitted, which is truthy: the reloaded page shows the exam screen, not the setup form. */
  lemma {:induction false} ResetThenReload(s: Snapshot, later: int)
    ensures var r := Mounted(AfterNewExam(s).store, later);
      TitleKey !in r.store && StartKey !in r.store && EndKey !in r.store &&
      r.formSubmitted == Str("false") && Truthy(r.formSubmitted)
  {
    var cleared := AfterNewExam(s).store;
    assert cleared[SubmittedKey] == "false";
  }

  /** The exam screen as a mutable object, one field per state variable of the component. */
  class ExamSession {
    var title: string
    var currentTime: int
    var start: int
    var end: int
    var countdown: string
    var examOver: bool
    var formSubmitted: Flag
    var store: Store

    function State(): Snapshot
      reads this
    {
      Snapshot(title, currentTime, start, end, countdown, examOver, formSubmitted, store)
    }

    ghost predicate Valid()
      reads this
    {
      Settled(State())
    }

    /** Mounting the component over the given store at wall-clock `now`. */
    constructor (stored: Store, now: int)
      ensures Valid() && State() == Mounted(stored, now)
    {
      title := "";
      currentTime := now;
      start := now;
      end := now;
      countdown := "";
      examOver := false;
      formSubmitted := LoadFlag(stored);
      store := stored;
      new;
      PersistFlag();
      MountSettles(stored, now);
    }

    /** The formSubmitted effect: writes the flag to the store as a string. */
    method PersistFlag()
      modifies this
      ensures Persisted(State())
      ensures State() == old(State()).(store := old(store)[SubmittedKey := Stringify(formSubmitted)])
    {
      store := store[SubmittedKey := Stringify(formSubmitted)];
    }

    /** The title input's change handler. */
    method EnterTitle(t: string)
      requires Valid()
      modifies this
      ensures Valid() && State() == AfterTitleInput(old(State()), t)
    {
      title := t;
    }

    /** One interval callback at wall-clock `now`. */
    method Tick(now: int)
      requires Valid()
      modifies this
      ensures Valid() && State() == AfterTick(old(State()), now)
    {
      var captured := currentTime;
      currentTime := now;
      var diff := Diff(captured, start, end);
      if IsOver(diff) {
        examOver := true;
      }
      countdown := Format(diff);
    }

    /** The submit handler: parses the form's date and times, sets the state, writes the store. */
    method Submit(date: string, startTime: string, endTime: string,
                  localMidnight: CalendarDate -> int, dateText: int -> string)
      requires Valid()
      requires ParseSchedule(date, startTime, endTime, localMidnight).Some?
      modifies this
      ensures Valid() && State() == AfterSubmit(old(State()), date, startTime, endTime, localMidnight, dateText)
    {
      var day := ParseDate(date).value;
      var from := ParseTime(startTime).value;
      var to := ParseTime(endTime).value;
      var newStart := LocalInstant(localMidnight(day), from);
      var newEnd := LocalInstant(localMidnight(day), to);
      start := newStart;
      end := newEnd;
      examOver := false;
      formSubmitted := Bool(true);
      store := store[TitleKey := title];
      store := store[StartKey := dateText(newStart)];
      store := store[EndKey := dateText(newEnd)];
      PersistFlag();
    }

    /** The "New Exam" button: removes the session keys and returns to the setup form. */
    method NewExam()
      requires Valid()
      modifies this
      ensures Valid() && State() == AfterNewExam(old(State()))
    {
      ghost var before := store;
      store := store - {TitleKey};
      store := store - {StartKey};
      store := store - {EndKey};
      assert store == before - SessionKeys;
      formSubmitted := Bool(false);
      PersistFlag();
    }

    /** Reloading the page: a new session mounted over this session's store, which never shows the setup form. */
    method Reload(later: int) returns (next: ExamSession)
      requires Valid()
      ensures fresh(next) && next.Valid() && next.State() == Mounted(store, later)
      ensures Truthy(next.formSubmitted)
    {
      ReloadSkipsSetupForm(State(), later);
      next := new ExamSession(store, later);
    }

    /** The keydown listener: only Escape with a confirmed prompt does anything, and then it is "New Exam". */
    method OnKey(key: string, confirmed: bool)
      requires Valid()
      modifies this
      ensures Valid()
      ensures key == EscapeKey && confirmed ==> State() == AfterNewExam(old(State()))
      ensures key != EscapeKey || !confirmed ==> State() == old(State())
    {
      if key == EscapeKey {
        if confirmed {
          NewExam();
        }
      }
    }
  }

}
