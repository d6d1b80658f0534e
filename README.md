# TimeRecorder in Dafny

A model of the `TimeRecorder` controller of a small desktop time tracker. The
user presses Start and Pause to time work in segments. Stop banks the last
segment, asks for a file and appends one row (the total time and the stripped
description) to a CSV log, then resets. Reload CSV opens the remembered log,
or creates a new one that holds only the header.

The model has four modules:

- `Wrappers` defines `Option`, which stands for Python's `None`.
- `Text` defines `str.strip()` over Python's whitespace set as `Strip`. Two
  lemmas characterise it: the result is the text between a blank prefix and
  a blank suffix (`StripIsSlice`), and a text with non-whitespace ends strips
  back to itself under any such padding (`StripPadding`). Together they give
  that padding any text with whitespace does not change what `Strip`
  returns (`StripIgnoresPadding`).
- `Recorder` defines the controller's fields, the description box and the
  disk as a `State` value, and each button handler as a function from the
  old state to the new one. Stop and Reload also return an `Outcome`,
  which stands in for the message box or the file the handler opens.
- `App` has the class `TimeRecorder`, whose fields are the object's own. Its
  methods update those fields in place, and each is proved to move
  `Model()` exactly as the matching `Recorder` function does. `Properties`
  proves what the handlers promise, alone and in sequence.

The environment is passed in as parameters:

- the wall clock is an integer `now`, counted in microseconds, the
  resolution of `datetime`;
- the save dialog's answer is a `dialog: Option<string>`;
- `str(timedelta)` is a function `render` that the constructor receives;
- the disk is a map from path to the list of CSV rows the file holds. A
  zero-length file is a path that maps to no rows.

Python's `if file_path:` is false for a cancelled dialog's empty string,
so `None` and `Some("")` both mean "cancelled" (`Recorder.Chosen`).

## Model

| member | source | states |
|---|---|---|
| Recorder.Initial | TimeRecorder.py:11-14 | a new recorder is not running, has no start or end mark, no remembered path, a zero total and an empty description, and leaves the disk as it was |
| App.TimeRecorder.constructor | TimeRecorder.py:9-14 | the object's fields start in the initial state over the given disk |
| Recorder.Start | TimeRecorder.py:43-46 | after start the timer runs; the total, the disk and the description are untouched |
| Properties.StartOnlyWhenStopped | TimeRecorder.py:43-46 | a stopped timer gets the start mark `now`; a running one is left exactly as it was; a second press changes nothing |
| App.TimeRecorder.Start | TimeRecorder.py:43-46 | the object's new state is `Recorder.Start` of its old state; the start mark changes only from a stopped timer |
| Recorder.Pause | TimeRecorder.py:49-54 | after pause the timer is stopped; the disk, the remembered path and the description are untouched |
| Properties.PauseBanksSegment | TimeRecorder.py:49-54 | pausing a running timer adds exactly `now - start` to the total and sets the end mark; pausing a stopped one changes nothing; a second press changes nothing |
| App.TimeRecorder.Pause | TimeRecorder.py:49-54 | the object's new state is `Recorder.Pause` of its old state, with the banked segment written out |
| Properties.NoStartNoTime | TimeRecorder.py:43-68 | with no start, pause records no time and stop writes no file |
| Properties.Apply | TimeRecorder.py:43-54 | one button press keeps the state well formed |
| Properties.Run | TimeRecorder.py:43-54 | any sequence of presses keeps the state well formed and never touches the disk, the remembered path or the description |
| Properties.TotalNeverDecreases | TimeRecorder.py:49-54 | if the clock never runs backwards, no sequence of presses lowers the total |
| Properties.CyclesAccumulate | TimeRecorder.py:43-54 | N start/pause cycles from a stopped timer add exactly the sum of the N segment lengths and leave it stopped |
| Text.Strip | TimeRecorder.py:63 | `strip()` is empty exactly when the text is all whitespace, and otherwise begins and ends with a non-whitespace character |
| Text.StripIsSlice | TimeRecorder.py:63 | the stripped text is a slice of the input with only whitespace before and after it |
| Text.StripPadding | TimeRecorder.py:63 | conversely, a text with non-whitespace ends strips back to itself whatever whitespace surrounds it |
| Text.StripIgnoresPadding | TimeRecorder.py:63 | whitespace before and after any text, blank or not, does not change its `strip()` |
| Recorder.Reset | TimeRecorder.py:78-82 | the reset leaves no start or end mark, a zero total and an empty description, and keeps the disk and the remembered path |
| Recorder.Stop | TimeRecorder.py:59-82 | after stop the timer is stopped; the warning is given exactly when the description strips to nothing; the disk changes only on a save |
| Properties.StopPausesFirst | TimeRecorder.py:59-61 | stopping a running timer is the same as pausing it first and then stopping |
| Properties.StopWithBlankDescription | TimeRecorder.py:59-66 | a blank description gives the warning, leaves the disk, the path and the description alone, and keeps the just-paused total |
| Properties.StopWithZeroTotal | TimeRecorder.py:63-68 | a description with a zero total records nothing and resets nothing |
| Properties.StopRecords | TimeRecorder.py:68-82 | a description with a nonzero total always resets; a chosen path gets one row with the total and the stripped description and is remembered; a cancelled dialog leaves the disk and the path alone |
| Properties.FreshAfterStop | TimeRecorder.py:78-82 | after a stop that recorded, later start/pause cycles count from zero |
| App.TimeRecorder.Stop | TimeRecorder.py:59-82 | the object's new state and the outcome are exactly `Recorder.Stop` of its old state |
| Recorder.AppendRecord | TimeRecorder.py:84-90 | appending keeps the earlier rows and other files, writes the header first only into a missing or empty file, and ends the file with the new row |
| Properties.AppendTwice | TimeRecorder.py:84-90 | two records into a missing or empty file give one header followed by both rows in order |
| App.TimeRecorder.SaveToCsv | TimeRecorder.py:84-90 | the disk after the call is the old disk with the record appended as `AppendRecord` says |
| Recorder.ReloadCsv | TimeRecorder.py:93-104 | reload changes only the disk and the remembered path, never the timer, its marks, the total or the description, and changes the state exactly when it creates a file |
| Properties.ReloadOpensRemembered | TimeRecorder.py:94-96 | a remembered file that exists is only opened |
| Properties.ReloadCreates | TimeRecorder.py:97-104 | otherwise a chosen path becomes a file holding just the header, even if it held rows, and is remembered; other files are kept |
| Properties.ReloadCancelled | TimeRecorder.py:97-100 | a cancelled dialog changes nothing |
| App.TimeRecorder.ReloadCsv | TimeRecorder.py:93-104 | the object's new state and the outcome are exactly `Recorder.ReloadCsv` of its old state |
| App.ExampleSession | TimeRecorder.py:43-90 | a log holding a header and one row, after 0-5 and 10-12 of work and a stop onto that log, holds the same header and row plus one new row of 7 microseconds and the stripped text |

## Left out

- The tkinter window, its buttons and `main` are not modelled. Each button
  handler is a method, and the text box is the `description` field, which
  `EnterDescription` sets.
- `print` output and the message boxes are not modelled. Stop and Reload
  return an `Outcome` instead.
- `os.startfile` is not modelled. Opening the remembered file is the
  outcome `Opened`.
- The exact text of `str(timedelta)` is not modelled. It is the `render`
  function that the caller supplies.
- CSV quoting and line endings are not modelled. A row is the list of
  fields passed to `writerow`.
- Real file I/O is not modelled, and I/O errors are not modelled either.
  `Path.exists()` is membership in the disk map, and a zero-length file is
  a path with no rows.
- The clock and the dialogs are parameters. Wall-clock time is an
  integer, and `datetime` arithmetic is integer arithmetic on microseconds.
- Tk's text box adds a trailing newline to what `get` returns. The model
  leaves it out, because `strip()` removes it anyway.
- The handlers follow the code as written, including three behaviours a user might not expect:
  - Stop with a cancelled save dialog still resets the timer and the text,
    and records nothing.
  - Reload with no usable remembered file opens the chosen path in mode
    `'w'`, so an existing file there is cut back to the header.
  - `if self.total_duration:` is false only for zero, so a negative total
    (from a clock that went backwards) is saved.
