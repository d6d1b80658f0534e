/** The `TimeRecorder` controller as an object whose button handlers update
    its fields in place. Each handler is proved to move `Model()` exactly as
    the corresponding function of `Recorder` says, so every property proved
    in `Properties` holds of the object. */
module App {
  import opened Wrappers
  import opened Text
  import opened Recorder

  class TimeRecorder {
    var startTime: Option<int>
    var running: bool
    var totalDuration: int      // microseconds
    var lastFilePath: Option<string>
    var endTime: Option<int>
    /** The contents of the description text box. */
    var description: string
    /** The disk the CSV files live on. */
    var files: Files
    /** `str(timedelta)` for a duration in microseconds. */
    const render: int -> string

    function Model(): State
      reads this
    {
      State(running, startTime, endTime, totalDuration, lastFilePath, description, files)
    }

    predicate Valid()
      reads this
    {
      Recorder.Valid(Model())
    }

    constructor (disk: Files, render: int -> string)
      ensures Valid() && Model() == Initial(disk) && this.render == render
    {
      startTime := None;
      running := false;
      totalDuration := 0;
      lastFilePath := None;
      endTime := None;
      description := "";
      files := disk;
      this.render := render;
    }

    /** The user edits the text box. */
    method EnterDescription(text: string)
      requires Valid()
      modifies this`description
      ensures Valid() && Model() == old(Model()).(description := text)
    {
      description := text;
    }

    method Start(now: int)
      requires Valid()
      modifies this`startTime, this`running
      ensures Valid() && Model() == Recorder.Start(old(Model()), now)
      ensures running && (old(running) ==> startTime == old(startTime))
      ensures !old(running) ==> startTime == Some(now)
    {
      if !running {
        startTime := Some(now);
        running := true;
      }
    }

    method Pause(now: int)
      requires Valid()
      modifies this`endTime, this`running, this`totalDuration
      ensures Valid() && Model() == Recorder.Pause(old(Model()), now)
      ensures !running
      ensures totalDuration == old(totalDuration) + (if old(running) then now - startTime.value else 0)
    {
      if running {
        endTime := Some(now);
        running := false;
        var currentDuration := now - startTime.value;
        totalDuration := totalDuration + currentDuration;
      }
    }

    method Stop(now: int, dialog: Option<string>) returns (outcome: Outcome)
      requires Valid()
      modifies this
      ensures Valid() && (Model(), outcome) == Recorder.Stop(old(Model()), now, dialog, render)
    {
      ghost var paused := if running then Recorder.Pause(Model(), now) else Model();
      if running {
        Pause(now);
      }
      assert Model() == paused;
      var text := Strip(description);
      if text == "" {
        return Warned;
      }
      if totalDuration != 0 {
        text := Strip(description);
        ghost var saved := paused;
        if Chosen(dialog) {
          SaveToCsv(dialog.value, totalDuration, text);
          lastFilePath := dialog;
          saved := paused.(files := files, lastFilePath := dialog);
          outcome := Saved(dialog.value);
        } else {
          outcome := Discarded;
        }
        assert Model() == saved;
        startTime := None;
        endTime := None;
        totalDuration := 0;
        description := "";
        assert Model() == Reset(saved);
      } else {
        outcome := NothingRecorded;
      }
    }

    method SaveToCsv(path: string, timeSpent: int, text: string)
      requires Valid()
      modifies this`files
      ensures Valid() && files == AppendRecord(old(files), path, [render(timeSpent), text])
    {
      var fileIsNew := path !in files || files[path] == [];
      var rows := if path in files then files[path] else [];
      if fileIsNew {
        rows := rows + [Header];
      }
      assert rows == RowsOf(old(files), path) + (if fileIsNew then [Header] else []);
      rows := rows + [[render(timeSpent), text]];
      files := files[path := rows];
    }

    method ReloadCsv(dialog: Option<string>) returns (outcome: Outcome)
      requires Valid()
      modifies this`files, this`lastFilePath
      ensures Valid() && (Model(), outcome) == Recorder.ReloadCsv(old(Model()), dialog)
    {
      if lastFilePath.Some? && lastFilePath.value != "" && lastFilePath.value in files {
        outcome := Opened(lastFilePath.value);
      } else if Chosen(dialog) {
        files := files[dialog.value := [Header]];
        lastFilePath := dialog;
        outcome := Created(dialog.value);
      } else {
        outcome := Cancelled;
      }
    }
  }

  /** A session against a log that already holds a header and one record:
      work 0-5, pause, work 10-12, stop with a non-blank description and
      pick the log. The log keeps its single header and gains exactly one
      row: the 7 microseconds of both segments and the stripped text. */
  method ExampleSession(earlier: Row, text: string, render: int -> string) returns (rows: seq<Row>, outcome: Outcome)
    requires !IsBlank(text)
    ensures rows == [Header, earlier, [render(7), Strip(text)]]
    ensures outcome == Saved("log.csv")
  {
    var disk := map["log.csv" := [Header, earlier]];
    var recorder := new TimeRecorder(disk, render);
    recorder.Start(0);
    recorder.Pause(5);
    recorder.Start(10);
    recorder.EnterDescription(text);
    ghost var before := recorder.Model();
    assert before == State(true, Some(10), Some(5), 5, None, text, disk);
    ghost var paused := Pause(before, 12);
    assert paused.total == 7 && paused.files == disk && paused.description == text;
    outcome := recorder.Stop(12, Some("log.csv"));
    assert recorder.files == AppendRecord(paused.files, "log.csv", [render(paused.total), Strip(paused.description)]);
    rows := recorder.files["log.csv"];
  }
}
