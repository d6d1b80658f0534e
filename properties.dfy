/** What the recorder's actions promise, alone and in sequence. */
module Properties {
  import opened Wrappers
  import opened Text
  import opened Recorder

  // ---------------------------------------------------------------------
  // start and pause

  /** `start` sets the start mark only from a stopped timer; pressing it
      again, at any later time, changes nothing. */
  lemma StartOnlyWhenStopped(s: State, now: int, later: int)
    requires Valid(s)
    ensures !s.running ==> Start(s, now) == s.(running := true, startTime := Some(now))
    ensures s.running ==> Start(s, now) == s
    ensures Start(Start(s, now), later) == Start(s, now)
  {
  }

  /** `pause` banks exactly the running segment, and nothing when stopped;
      pressing it again changes nothing. */
  lemma PauseBanksSegment(s: State, now: int, later: int)
    requires Valid(s)
    ensures s.running ==> Pause(s, now).total == s.total + (now - s.startTime.value)
    ensures s.running ==> Pause(s, now).startTime == s.startTime && Pause(s, now).endTime == Some(now)
    ensures !s.running ==> Pause(s, now) == s
    ensures Pause(Pause(s, now), later) == Pause(s, now)
  {
  }

  /** A pause or a stop with no start before it records no time: a fresh
      recorder stays at zero, and its stop writes no file. */
  lemma NoStartNoTime(disk: Files, now: int, dialog: Option<string>, render: int -> string, description: string)
    ensures Pause(Initial(disk), now).total == 0
    ensures Stop(Initial(disk).(description := description), now, dialog, render).0.files == disk
    ensures Stop(Initial(disk).(description := description), now, dialog, render).0.total == 0
  {
  }

  /** A press of the Start or the Pause button at a given time. */
  datatype Press = StartPressed(at: int) | PausePressed(at: int)

  function Apply(s: State, p: Press): (r: State)
    requires Valid(s)
    ensures Valid(r)
  {
    match p
    case StartPressed(t) => Start(s, t)
    case PausePressed(t) => Pause(s, t)
  }

  /** The state after a sequence of presses; start and pause never touch
      the disk, the remembered path or the description. */
  function Run(s: State, presses: seq<Press>): (r: State)
    requires Valid(s)
    ensures Valid(r)
    ensures r.files == s.files && r.lastFilePath == s.lastFilePath && r.description == s.description
    decreases |presses|
  {
    if presses == [] then s else Run(Apply(s, presses[0]), presses[1..])
  }

  /** The clock never runs backwards across the presses. */
  predicate Monotone(presses: seq<Press>) {
    forall i, j | 0 <= i < j < |presses| :: presses[i].at <= presses[j].at
  }

  /** A running timer was started no later than `t`. */
  predicate StartedBy(s: State, t: int)
    requires Valid(s)
  {
    s.running ==> s.startTime.value <= t
  }

  /** With a monotone clock the total never decreases. */
  lemma {:induction false} TotalNeverDecreases(s: State, presses: seq<Press>)
    requires Valid(s) && Monotone(presses)
    requires presses != [] ==> StartedBy(s, presses[0].at)
    ensures Run(s, presses).total >= s.total
    decreases |presses|
  {
    if presses != [] {
      var next := Apply(s, presses[0]);
      assert next.total >= s.total;
      if |presses| > 1 {
        assert presses[0].at <= presses[1].at;
        assert StartedBy(next, presses[1..][0].at);
      }
      assert Monotone(presses[1..]) by {
        forall i, j | 0 <= i < j < |presses| - 1 ensures presses[1..][i].at <= presses[1..][j].at {
          assert presses[i + 1].at <= presses[j + 1].at;
        }
      }
      TotalNeverDecreases(next, presses[1..]);
    }
  }

  /** Start/pause cycles, one per `(start, end)` pair. */
  function Cycles(segments: seq<(int, int)>): seq<Press> {
    if segments == [] then []
    else [StartPressed(segments[0].0), PausePressed(segments[0].1)] + Cycles(segments[1..])
  }

  /** The wall-clock length of the segments, added up. */
  function SegmentSum(segments: seq<(int, int)>): int {
    if segments == [] then 0 else (segments[0].1 - segments[0].0) + SegmentSum(segments[1..])
  }

  /** After N start-pause cycles from a stopped timer the total has grown by
      exactly the sum of the N segments, whatever the clock does. */
  lemma {:induction false} CyclesAccumulate(s: State, segments: seq<(int, int)>)
    requires Valid(s) && !s.running
    ensures Run(s, Cycles(segments)).total == s.total + SegmentSum(segments)
    ensures !Run(s, Cycles(segments)).running
    decreases |segments|
  {
    if segments != [] {
      var presses := Cycles(segments);
      var (a, b) := segments[0];
      var started := Start(s, a);
      var paused := Pause(started, b);
      assert presses[0] == StartPressed(a);
      assert presses[1..][0] == PausePressed(b);
      assert presses[1..][1..] == Cycles(segments[1..]);
      assert Run(s, presses) == Run(paused, Cycles(segments[1..]));
      CyclesAccumulate(paused, segments[1..]);
    }
  }

  // ---------------------------------------------------------------------
  // stop

  /** `stop` on a running timer is `pause` then `stop`: the trailing segment
      is always banked, and the timer is stopped afterwards. */
  lemma StopPausesFirst(s: State, now: int, dialog: Option<string>, render: int -> string)
    requires Valid(s)
    ensures Stop(s, now, dialog, render) == Stop(Pause(s, now), now, dialog, render)
    ensures !Stop(s, now, dialog, render).0.running
  {
    var p := Pause(s, now);
    assert Pause(p, now) == p;
    assert (if s.running then Pause(s, now) else s) == p;
    assert !p.running;
  }

  /** A blank description stops the chain, before the zero-total test: no
      file and no remembered path changes, the just-paused total is kept and
      the description is left in place, whatever the total is. */
  lemma StopWithBlankDescription(s: State, now: int, dialog: Option<string>, render: int -> string)
    requires Valid(s) && IsBlank(s.description)
    ensures Stop(s, now, dialog, render) == (Pause(s, now), Warned)
    ensures Stop(s, now, dialog, render).0.files == s.files
    ensures Stop(s, now, dialog, render).0.lastFilePath == s.lastFilePath
    ensures Stop(s, now, dialog, render).0.total == Pause(s, now).total
    ensures Stop(s, now, dialog, render).0.description == s.description
  {
  }

  /** With a description but a zero total (after the implicit pause)
      nothing is written and nothing is reset. */
  lemma StopWithZeroTotal(s: State, now: int, dialog: Option<string>, render: int -> string)
    requires Valid(s) && !IsBlank(s.description) && Pause(s, now).total == 0
    ensures Stop(s, now, dialog, render) == (Pause(s, now), NothingRecorded)
  {
  }

  /** With a description and a non-zero total the recorder always resets;
      it writes one row of the stripped description and the total
      (trailing segment included) only to a chosen path, which it then
      remembers; a cancelled dialog leaves the disk and the path alone. */
  lemma StopRecords(s: State, now: int, dialog: Option<string>, render: int -> string)
    requires Valid(s) && !IsBlank(s.description) && Pause(s, now).total != 0
    ensures var r := Stop(s, now, dialog, render).0;
      !r.running && r.startTime == None && r.endTime == None && r.total == 0 && r.description == ""
    ensures Chosen(dialog) ==>
      Stop(s, now, dialog, render) ==
        (Initial(AppendRecord(s.files, dialog.value, [render(Pause(s, now).total), Strip(s.description)]))
           .(lastFilePath := dialog), Saved(dialog.value))
    ensures !Chosen(dialog) ==>
      Stop(s, now, dialog, render) == (Initial(s.files).(lastFilePath := s.lastFilePath), Discarded)
  {
  }

  /** After a stop that recorded (saved or discarded), start/pause cycles
      count from zero. */
  lemma {:induction false} FreshAfterStop(s: State, now: int, dialog: Option<string>, render: int -> string,
                                          segments: seq<(int, int)>)
    requires Valid(s) && !IsBlank(s.description) && Pause(s, now).total != 0
    ensures Run(Stop(s, now, dialog, render).0, Cycles(segments)).total == SegmentSum(segments)
  {
    StopRecords(s, now, dialog, render);
    CyclesAccumulate(Stop(s, now, dialog, render).0, segments);
  }

  // ---------------------------------------------------------------------
  // save_to_csv

  /** Two records into a missing or empty file: one header, then both rows
      in order. */
  lemma {:induction false} AppendTwice(files: Files, path: string, first: Row, second: Row)
    requires RowsOf(files, path) == []
    ensures AppendRecord(AppendRecord(files, path, first), path, second)[path] == [Header, first, second]
  {
    var once := AppendRecord(files, path, first);
    assert once[path] == [Header, first];
  }

  // ---------------------------------------------------------------------
  // reload_csv

  /** A remembered file that still exists is only opened: nothing changes. */
  lemma ReloadOpensRemembered(s: State, dialog: Option<string>)
    requires Valid(s) && s.lastFilePath.Some? && s.lastFilePath.value in s.files
    ensures ReloadCsv(s, dialog) == (s, Opened(s.lastFilePath.value))
  {
  }

  /** Otherwise a chosen path becomes a file holding just the header, even
      if it held rows before, and is remembered; other files are kept. */
  lemma ReloadCreates(s: State, dialog: Option<string>)
    requires Valid(s) && (s.lastFilePath.None? || s.lastFilePath.value !in s.files) && Chosen(dialog)
    ensures ReloadCsv(s, dialog).0.files[dialog.value] == [Header]
    ensures forall q | q in s.files && q != dialog.value :: ReloadCsv(s, dialog).0.files[q] == s.files[q]
    ensures ReloadCsv(s, dialog).0.files.Keys == s.files.Keys + {dialog.value}
    ensures ReloadCsv(s, dialog).0 == s.(files := ReloadCsv(s, dialog).0.files, lastFilePath := dialog)
  {
  }

  /** A cancelled dialog leaves everything as it was. */
  lemma ReloadCancelled(s: State, dialog: Option<string>)
    requires Valid(s) && (s.lastFilePath.None? || s.lastFilePath.value !in s.files) && !Chosen(dialog)
    ensures ReloadCsv(s, dialog) == (s, Cancelled)
  {
  }
}
