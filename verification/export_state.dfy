/** The per-user export conversation and the global files switch.

    A user presses "export", chooses a format and, for HTML exports, whether
    to include files; the export itself runs until it is done. While it runs
    the user is locked (`user_exporting`). A finished export with files
    leaves an active record (`user_active_exports`) that blocks a new export
    with files for 600 seconds while its directory still exists. The global
    switch `_files_enabled` is turned off by an admin or when the disk
    budget is used up, and in the latter case turned back on by a timer.

    Clock readings, whether a directory exists and the switch's value are
    parameters of each step. */
module ExportState {
  import opened Options

  // ------------------------------------------------------------- rounding

  /** Python's `round` on a float: to the nearest integer, halves to even. */
  function Round(x: real): (r: int)
    ensures x - 0.5 <= r as real <= x + 0.5
    ensures x - x.Floor as real == 0.5 ==> r % 2 == 0
  {
    var f := x.Floor;
    var frac := x - f as real;
    if frac < 0.5 then f
    else if frac > 0.5 then f + 1
    else if f % 2 == 0 then f else f + 1
  }

  lemma RoundExamples()
    ensures Round(2.5) == 2 && Round(3.5) == 4 && Round(2.4) == 2 && Round(2.6) == 3
  {
    assert (2.5).Floor == 2 && (3.5).Floor == 3 && (2.4).Floor == 2 && (2.6).Floor == 2;
  }

  // --------------------------------------------------------- active export

  /** The record of a finished export with files. */
  datatype Active = Active(id: string, path: string, createdAt: real)

  const ActiveSeconds: real := 600.0

  /** Seconds until the record's files are removed. */
  function Remaining(a: Active, now: real): real
  {
    ActiveSeconds - (now - a.createdAt)
  }

  /** A new export with files is refused: there is a record, its directory
      exists and its time has not run out. */
  predicate Blocks(active: Option<Active>, now: real, dirExists: bool)
  {
    active.Some? && dirExists && Remaining(active.value, now) > 0.0
  }

  /** A record blocks exactly while its directory exists and less than 600
      seconds have passed since it was made. */
  lemma BlocksWithinWindow(active: Option<Active>, now: real, dirExists: bool)
    ensures Blocks(active, now, dirExists) <==>
      active.Some? && dirExists && now < active.value.createdAt + 600.0
  {
  }

  /** The minutes shown in the warning: `max(1, round(remaining / 60))`. */
  function WarningMinutes(remaining: real): (m: int)
    ensures m >= 1
    ensures remaining >= 30.0 ==> remaining / 60.0 - 0.5 <= m as real <= remaining / 60.0 + 0.5
  {
    var r := Round(remaining / 60.0);
    if r < 1 then 1 else r
  }

  /** A record made no later than now shows between 1 and 10 minutes. */
  lemma WarningMinutesRange(a: Active, now: real)
    requires a.createdAt <= now && Remaining(a, now) > 0.0
    ensures 1 <= WarningMinutes(Remaining(a, now)) <= 10
  {
  }

  // ----------------------------------------------------------- conversation

  datatype Format = Json | Html | Both | FilesOnly

  /** The "files:" answer; any other value counts as no. */
  datatype Choice = Yes | No | Delete

  /** What the user's state holds between steps. */
  datatype User = User(exporting: bool, active: Option<Active>)

  /** The callbacks of the export conversation. The files answer carries
      the format chosen before it. */
  datatype Event =
    | ExportPressed(hasSession: bool, selected: nat)
    | FormatChosen(format: Format)
    | FilesChosen(format: Format, choice: Choice)
    | ExportDone(record: Option<Active>)
    | DeletePressed(id: string)

  datatype Reply =
    | NoSession
    | NothingSelected
    | Busy
    | AskAvatars
    | FilesDisabled
    | ActiveWarning(minutes: int, offerWithout: bool)
    | AskFiles
    | Started(format: Format, withFiles: bool)
    | Finished
    | FilesDeleted
    | AlreadyDeleted

  datatype Transition = Transition(user: User, reply: Reply)

  /** `do_actual_export` takes the lock and starts. */
  function Start(u: User, f: Format, withFiles: bool): (t: Transition)
    ensures t.user.exporting && t.user.active == u.active
  {
    Transition(u.(exporting := true), Started(f, withFiles))
  }

  /** The question about files, or the warning about an active record.
      With files off the export starts without them; over a blocking record
      the warning offers "without files"; otherwise a stale record is
      dropped and the question asked. */
  function FilesQuestion(u: User, filesOn: bool, f: Format, now: real, dirExists: bool): (t: Transition)
    ensures t.reply.Started? <==> !filesOn
    ensures t.reply.Started? ==> t.reply == Started(f, false) && t.user.exporting
    ensures t.reply.ActiveWarning? <==> filesOn && Blocks(u.active, now, dirExists)
    ensures t.reply.ActiveWarning? ==> t.user == u && t.reply.offerWithout && t.reply.minutes >= 1
    ensures t.reply == AskFiles <==> filesOn && !Blocks(u.active, now, dirExists)
    ensures t.reply == AskFiles ==> t.user == User(u.exporting, None)
  {
    if !filesOn then Start(u, f, false)
    else if Blocks(u.active, now, dirExists) then
      Transition(u, ActiveWarning(WarningMinutes(Remaining(u.active.value, now)), true))
    else Transition(u.(active := None), AskFiles)
  }

  /** The format answer: refused while exporting; files-only refused while
      files are off; JSON starts at once; files-only starts with files
      unless a record blocks; HTML and both go on to the files question. */
  function FormatStep(u: User, filesOn: bool, f: Format, now: real, dirExists: bool): (t: Transition)
    ensures t.reply == Busy <==> u.exporting
    ensures t.reply == FilesDisabled <==> !u.exporting && f == FilesOnly && !filesOn
    ensures t.reply.Started? ==> t.reply.format == f && t.user.exporting && !u.exporting
    ensures t.reply.Started? && t.reply.withFiles ==> filesOn && !Blocks(u.active, now, dirExists)
    ensures !u.exporting && f == Json ==> t.reply == Started(Json, false)
    ensures t.reply == AskFiles ==> f.Html? || f.Both?
    ensures !t.reply.Started? ==> !t.user.exporting || t.user == u
  {
    if u.exporting then Transition(u, Busy)
    else if f == FilesOnly && !filesOn then Transition(u, FilesDisabled)
    else if f == Json then Start(u, Json, false)
    else if f == FilesOnly then
      if Blocks(u.active, now, dirExists)
      then Transition(u, ActiveWarning(WarningMinutes(Remaining(u.active.value, now)), false))
      else Start(u.(active := None), FilesOnly, true)
    else FilesQuestion(u, filesOn, f, now, dirExists)
  }

  /** The files answer. As written (`guarded` false) the lock is not
      looked at; corrected (`guarded` true) a locked user is told an export
      is running, as the other steps do. */
  function FilesStep(u: User, filesOn: bool, f: Format, c: Choice, guarded: bool): (t: Transition)
    ensures t.reply == Busy <==> guarded && u.exporting
    ensures t.reply != Busy ==> t.reply.Started? && t.reply.format == f && t.user.exporting
    ensures t.reply.Started? ==> (t.reply.withFiles <==> filesOn && !c.No?)
    ensures t.reply.Started? && c == Delete && filesOn ==> t.user.active == None
    ensures c != Delete || !filesOn ==> t.user.active == u.active
  {
    if guarded && u.exporting then Transition(u, Busy)
    else if (c == Yes || c == Delete) && !filesOn then Start(u, f, false)
    else if c == Delete then Start(u.(active := None), f, true)
    else if c == Yes then Start(u, f, true)
    else Start(u, f, false)
  }

  /** One step of the conversation. Only the format and files answers
      start an export, only the end of one releases the lock, and only the
      delete button or a new start can drop the record. */
  function Step(u: User, filesOn: bool, ev: Event, now: real, dirExists: bool, guarded: bool): (t: Transition)
    ensures t.reply == NoSession <==> ev.ExportPressed? && !ev.hasSession
    ensures t.reply == NothingSelected <==> ev.ExportPressed? && ev.hasSession && ev.selected == 0
    ensures t.reply.Started? ==> (ev.FormatChosen? || ev.FilesChosen?) && t.user.exporting
    ensures ev.ExportDone? ==> t == Transition(User(false, if ev.record.Some? then ev.record else u.active), Finished)
    ensures !ev.ExportDone? && !t.reply.Started? ==> t.user.exporting == u.exporting
    ensures ev.DeletePressed? ==> (t.reply == FilesDeleted <==> u.active.Some? && u.active.value.id == ev.id)
  {
    match ev
    case ExportPressed(hasSession, selected) =>
      if !hasSession then Transition(u, NoSession)
      else if selected == 0 then Transition(u, NothingSelected)
      else if u.exporting then Transition(u, Busy)
      else Transition(u, AskAvatars)
    case FormatChosen(f) => FormatStep(u, filesOn, f, now, dirExists)
    case FilesChosen(f, c) => FilesStep(u, filesOn, f, c, guarded)
    case ExportDone(record) =>
      Transition(User(false, if record.Some? then record else u.active), Finished)
    case DeletePressed(id) =>
      if u.active.Some? && u.active.value.id == id
      then Transition(u.(active := None), FilesDeleted)
      else Transition(u, AlreadyDeleted)
  }

  /** A step that starts an export takes the lock, and only the end of an
      export gives it back. */
  lemma StartLocks(u: User, filesOn: bool, ev: Event, now: real, dirExists: bool, guarded: bool)
    ensures var t := Step(u, filesOn, ev, now, dirExists, guarded);
      && (t.reply.Started? ==> t.user.exporting)
      && (u.exporting && !t.user.exporting ==> ev.ExportDone?)
      && (ev.ExportDone? ==> !t.user.exporting)
  {
  }

  /** Corrected: no step starts an export while one is running. */
  lemma NoSecondStart(u: User, filesOn: bool, ev: Event, now: real, dirExists: bool)
    requires u.exporting
    ensures !Step(u, filesOn, ev, now, dirExists, true).reply.Started?
  {
  }

  /** A refused step changes nothing. */
  lemma BusyChangesNothing(u: User, filesOn: bool, ev: Event, now: real, dirExists: bool, guarded: bool)
    ensures var t := Step(u, filesOn, ev, now, dirExists, guarded);
      t.reply == Busy <==> u.exporting && ((ev.ExportPressed? && ev.hasSession && ev.selected > 0)
                                         || ev.FormatChosen? || (guarded && ev.FilesChosen?))
    ensures Step(u, filesOn, ev, now, dirExists, guarded).reply == Busy ==>
      Step(u, filesOn, ev, now, dirExists, guarded).user == u
  {
  }

  /** No export with files starts while files are switched off. */
  lemma FilesOnlyWhenOn(u: User, filesOn: bool, ev: Event, now: real, dirExists: bool, guarded: bool)
    ensures var t := Step(u, filesOn, ev, now, dirExists, guarded);
      t.reply.Started? && t.reply.withFiles ==> filesOn
  {
  }

  /** The format step never starts an export with files over a blocking
      record; when it does not block, the stale record is dropped. */
  lemma FormatRespectsActive(u: User, filesOn: bool, f: Format, now: real, dirExists: bool)
    ensures var t := FormatStep(u, filesOn, f, now, dirExists);
      && (t.reply.Started? && t.reply.withFiles ==> !Blocks(u.active, now, dirExists) && t.user.active == None)
      && (t.reply.ActiveWarning? ==> Blocks(u.active, now, dirExists) && t.user == u)
      && (!u.exporting && filesOn && f != Json && !Blocks(u.active, now, dirExists) ==> t.user.active == None)
  {
  }

  /** A warning is shown exactly when a files export is asked for over a
      blocking record, and offers to go on without files unless the format
      was files only. */
  lemma WarningIff(u: User, filesOn: bool, f: Format, now: real, dirExists: bool)
    ensures FormatStep(u, filesOn, f, now, dirExists).reply.ActiveWarning? <==>
      !u.exporting && filesOn && f != Json && Blocks(u.active, now, dirExists)
    ensures var t := FormatStep(u, filesOn, f, now, dirExists);
      t.reply.ActiveWarning? ==> t.reply.offerWithout == (f != FilesOnly)
  {
  }

  /** Deleting removes the record only when the button belongs to it. */
  lemma DeleteMatchesRecord(u: User, filesOn: bool, id: string, now: real, dirExists: bool, guarded: bool)
    ensures var t := Step(u, filesOn, DeletePressed(id), now, dirExists, guarded);
      && (t.reply == FilesDeleted <==> u.active.Some? && u.active.value.id == id)
      && (t.reply == FilesDeleted ==> t.user.active == None)
      && (t.reply == AlreadyDeleted ==> t.user == u)
  {
  }

  // ----------------------------------------------------------------- traces

  /** A step's input: the callback, the clock, whether the record's
      directory exists and the files switch. */
  datatype Input = Input(ev: Event, now: real, dirExists: bool, filesOn: bool)

  /** The user's state before each step and after the last. */
  function States(u: User, ins: seq<Input>, guarded: bool): (s: seq<User>)
    ensures |s| == |ins| + 1 && s[0] == u
    decreases |ins|
  {
    if ins == [] then [u]
    else
      var t := Step(u, ins[0].filesOn, ins[0].ev, ins[0].now, ins[0].dirExists, guarded);
      [u] + States(t.user, ins[1..], guarded)
  }

  function ReplyAt(u: User, ins: seq<Input>, guarded: bool, i: nat): Reply
    requires i < |ins|
  {
    var s := States(u, ins, guarded)[i];
    Step(s, ins[i].filesOn, ins[i].ev, ins[i].now, ins[i].dirExists, guarded).reply
  }

  /** The state after step `i` is the step applied to the state before it. */
  lemma {:induction false} StatesStep(u: User, ins: seq<Input>, guarded: bool, i: nat)
    requires i < |ins|
    ensures var s := States(u, ins, guarded);
      s[i + 1] == Step(s[i], ins[i].filesOn, ins[i].ev, ins[i].now, ins[i].dirExists, guarded).user
    decreases i
  {
    if i > 0 {
      var t := Step(u, ins[0].filesOn, ins[0].ev, ins[0].now, ins[0].dirExists, guarded);
      StatesStep(t.user, ins[1..], guarded, i - 1);
    }
  }

  /** After a start the lock is held until an export ends. */
  lemma {:induction false} LockHeld(u: User, ins: seq<Input>, guarded: bool, i: nat, m: nat)
    requires i < m <= |ins| && ReplyAt(u, ins, guarded, i).Started?
    requires forall k :: i < k < m ==> !ins[k].ev.ExportDone?
    ensures States(u, ins, guarded)[m].exporting
    decreases m
  {
    var s := States(u, ins, guarded);
    StatesStep(u, ins, guarded, m - 1);
    StartLocks(s[m - 1], ins[m - 1].filesOn, ins[m - 1].ev, ins[m - 1].now, ins[m - 1].dirExists, guarded);
    if m - 1 > i {
      LockHeld(u, ins, guarded, i, m - 1);
    }
  }

  /** Corrected: between two starts some export has ended. */
  lemma OneExportAtATime(u: User, ins: seq<Input>, i: nat, j: nat)
    requires i < j < |ins|
    requires ReplyAt(u, ins, true, i).Started? && ReplyAt(u, ins, true, j).Started?
    ensures exists k :: i < k < j && ins[k].ev.ExportDone?
  {
    if forall k :: i < k < j ==> !ins[k].ev.ExportDone? {
      LockHeld(u, ins, true, i, j);
      var s := States(u, ins, true);
      NoSecondStart(s[j], ins[j].filesOn, ins[j].ev, ins[j].now, ins[j].dirExists);
    }
  }

  const Idle := User(false, None)

  /** HTML chosen, then the "with files" button pressed twice. */
  function DoubleTap(now: real): seq<Input>
  {
    [ Input(FormatChosen(Html), now, false, true),
      Input(FilesChosen(Html, Yes), now, false, true),
      Input(FilesChosen(Html, Yes), now, false, true) ]
  }

  /** As written, pressing "with files" again while the first export runs
      starts a second export: the files step does not look at the lock. */
  lemma DoubleTapStartsTwice(now: real)
    ensures var ins := DoubleTap(now);
      && ReplyAt(Idle, ins, false, 1) == Started(Html, true)
      && ReplyAt(Idle, ins, false, 2) == Started(Html, true)
      && States(Idle, ins, false)[2].exporting
  {
    var ins := DoubleTap(now);
    var s := States(Idle, ins, false);
    StatesStep(Idle, ins, false, 0);
    StatesStep(Idle, ins, false, 1);
    assert s[1] == Idle;
    assert s[2] == User(true, None);
  }

  /** Corrected, the second press is refused. */
  lemma DoubleTapRefused(now: real)
    ensures ReplyAt(Idle, DoubleTap(now), true, 1) == Started(Html, true)
    ensures ReplyAt(Idle, DoubleTap(now), true, 2) == Busy
  {
    var ins := DoubleTap(now);
    var s := States(Idle, ins, true);
    StatesStep(Idle, ins, true, 0);
    StatesStep(Idle, ins, true, 1);
    assert s[1] == Idle;
    assert s[2] == User(true, None);
  }

  // ------------------------------------------------------------ files switch

  /** `_files_enabled` and `_files_auto_reenable_at`. */
  datatype Switch = Switch(enabled: bool, reenableAt: Option<real>)

  const InitialSwitch := Switch(true, None)

  /** The disk budget turns files off for this many minutes. */
  const AutoDisableMinutes: int := 20

  /** `_auto_disable_files`: off, with a re-enable time `minutes` from now
      (the timer scheduled with that time is the caller's to keep). */
  function AutoDisable(s: Switch, now: real, minutes: int): (r: Switch)
    ensures !r.enabled && r.reenableAt.Some?
    ensures r.reenableAt.value - now == (minutes * 60) as real
  {
    Switch(false, Some(now + (minutes * 60) as real))
  }

  /** A full disk switches files off only while they are on. */
  function OnDiskFull(s: Switch, now: real): (r: Switch)
    ensures s.enabled ==> r == AutoDisable(s, now, AutoDisableMinutes)
    ensures !s.enabled ==> r == s
  {
    if s.enabled then AutoDisable(s, now, AutoDisableMinutes) else s
  }

  /** `_scheduled_reenable_task` waking with the time it was scheduled
      with: it turns files on only if that time is still the pending one. */
  function Reenable(s: Switch, expected: real): (r: Switch)
    ensures r != s <==> s.reenableAt == Some(expected)
    ensures s.reenableAt == Some(expected) ==> r.enabled && r.reenableAt == None
  {
    if s.reenableAt == Some(expected) then Switch(true, None) else s
  }

  /** The admin's "files_on": on, and any pending re-enable is cancelled. */
  function AdminOn(s: Switch): (r: Switch)
    ensures r.enabled && r.reenableAt == None
  {
    Switch(true, None)
  }

  /** The admin's "files_off": off; a pending re-enable time is kept. */
  function AdminOff(s: Switch): (r: Switch)
    ensures !r.enabled && r.reenableAt == s.reenableAt
  {
    s.(enabled := false)
  }

  /** The switch at start-up, from the stored setting and the stored
      re-enable time (`None` when it is empty or not a number): a time still
      ahead keeps files off, a time passed turns them on. */
  function Startup(stored: string, storedAt: Option<real>, now: real): (r: Switch)
    ensures storedAt == None ==> r == Switch(stored != "0", None)
    ensures storedAt.Some? && storedAt.value > now ==> r == Switch(false, storedAt)
    ensures storedAt.Some? && storedAt.value <= now ==> r == Switch(true, None)
  {
    match storedAt
    case None => Switch(stored != "0", None)
    case Some(t) => if t > now then Switch(false, Some(t)) else Switch(true, None)
  }

  /** A pending re-enable time means files are off. */
  predicate Consistent(s: Switch)
  {
    s.reenableAt.Some? ==> !s.enabled
  }

  datatype SwitchEvent = DiskFull(now: real) | Wake(expected: real) | TurnOn | TurnOff

  function Apply(s: Switch, e: SwitchEvent): Switch
  {
    match e
    case DiskFull(now) => OnDiskFull(s, now)
    case Wake(expected) => Reenable(s, expected)
    case TurnOn => AdminOn(s)
    case TurnOff => AdminOff(s)
  }

  /** The events, one after another. Only an admin's "on" or a timer can
      turn files on. */
  function Replay(s: Switch, es: seq<SwitchEvent>): (r: Switch)
    ensures !s.enabled && (forall i :: 0 <= i < |es| ==> !es[i].TurnOn? && !es[i].Wake?) ==> !r.enabled
    decreases |es|
  {
    if es == [] then s else Replay(Apply(s, es[0]), es[1..])
  }

  /** Every event keeps the switch consistent, from start-up on. */
  lemma {:induction false} ReplayConsistent(s: Switch, es: seq<SwitchEvent>)
    requires Consistent(s)
    ensures Consistent(Replay(s, es))
    decreases |es|
  {
    if es != [] {
      assert Consistent(Apply(s, es[0]));
      ReplayConsistent(Apply(s, es[0]), es[1..]);
    }
  }

  lemma StartupConsistent(stored: string, storedAt: Option<real>, now: real)
    ensures Consistent(Startup(stored, storedAt, now))
  {
  }

  /** An admin's "files_on" disarms every timer. */
  lemma TurnOnDisarms(s: Switch, expected: real)
    ensures Reenable(AdminOn(s), expected) == AdminOn(s)
  {
  }

  /** Only the latest auto-disable's timer acts: an earlier one wakes to a
      different pending time and changes nothing. */
  lemma OnlyLatestTimer(s: Switch, t1: real, t2: real, expected1: real)
    requires s.enabled
    requires expected1 == OnDiskFull(s, t1).reenableAt.value && t1 != t2
    ensures var s2 := AutoDisable(OnDiskFull(s, t1), t2, AutoDisableMinutes);
      Reenable(s2, expected1) == s2
  {
  }

  /** A timer acts at most once. */
  lemma WakeOnce(s: Switch, expected: real)
    ensures Reenable(Reenable(s, expected), expected) == Reenable(s, expected)
  {
  }

  /** An admin's "files_off" after an auto-disable does not stop the
      timer: it still turns files back on. */
  lemma TurnOffKeepsTimer(s: Switch, now: real)
    requires s.enabled
    ensures var off := AdminOff(OnDiskFull(s, now));
      Reenable(off, now + (AutoDisableMinutes * 60) as real).enabled
  {
  }
}
