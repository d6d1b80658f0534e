/** The state of a `TimeRecorder` controller and its four actions (start,
    pause, stop, reload) as functions from the old state to the new one.
    The wall clock is an integer `now` (microseconds, the resolution of
    `datetime`), the save dialog a `dialog: Option<string>` whose `None` or
    empty path means the user cancelled, and `str(timedelta)` a function
    `render` supplied by the caller. */
module Recorder {
  import opened Wrappers
  import opened Text

  /** One CSV row, as the list of fields handed to `csv.writer.writerow`. */
  type Row = seq<string>

  /** The disk: every existing file, by path, with the rows it holds; an
      empty (zero-length) file holds no rows. */
  type Files = map<string, seq<Row>>

  const Header: Row := ["Time Spent", "Description"]

  /** The controller's fields, the description text box and the disk. */
  datatype State = State(
    running: bool,
    startTime: Option<int>,
    endTime: Option<int>,
    total: int,
    lastFilePath: Option<string>,
    description: string,
    files: Files)

  /** What stop and reload report in place of a message box. */
  datatype Outcome =
    | Warned            // stop: blank description
    | NothingRecorded   // stop: the total is zero
    | Saved(path: string)
    | Discarded         // stop: the save dialog was cancelled
    | Opened(path: string)
    | Created(path: string)
    | Cancelled         // reload: the dialog was cancelled

  /** A running timer has a start mark; a remembered path is a real one. */
  predicate Valid(s: State) {
    (s.running ==> s.startTime.Some?) &&
    (s.lastFilePath.Some? ==> s.lastFilePath.value != "")
  }

  /** Python truthiness of the dialog's result: a non-empty path. */
  predicate Chosen(dialog: Option<string>) {
    dialog.Some? && dialog.value != ""
  }

  /** The recorder right after construction, over a given disk. */
  function Initial(disk: Files): (s: State)
    ensures Valid(s) && !s.running && s.total == 0 && s.files == disk
    ensures s.startTime == None && s.endTime == None && s.lastFilePath == None && s.description == ""
  {
    State(false, None, None, 0, None, "", disk)
  }

  /** The rows of `path`: none when the file is missing. */
  function RowsOf(files: Files, path: string): seq<Row> {
    if path in files then files[path] else []
  }

  /** `start`: a stopped timer starts at `now`; a running one is left alone. */
  function Start(s: State, now: int): (r: State)
    requires Valid(s)
    ensures Valid(r) && r.running
    ensures r.total == s.total && r.files == s.files && r.description == s.description
  {
    if !s.running then s.(startTime := Some(now), running := true) else s
  }

  /** `pause`: a running timer stops and banks the segment since its start. */
  function Pause(s: State, now: int): (r: State)
    requires Valid(s)
    ensures Valid(r) && !r.running
    ensures r.files == s.files && r.lastFilePath == s.lastFilePath && r.description == s.description
  {
    if s.running then
      s.(endTime := Some(now), running := false, total := s.total + (now - s.startTime.value))
    else
      s
  }

  /** `save_to_csv`: appends `row` to `path`, writing the header first when
      the file is missing or empty; earlier rows and other files are kept. */
  function AppendRecord(files: Files, path: string, row: Row): (r: Files)
    ensures r.Keys == files.Keys + {path}
    ensures forall q | q in files && q != path :: r[q] == files[q]
    ensures RowsOf(files, path) <= r[path]
    ensures RowsOf(files, path) == [] ==> |r[path]| == 2 && r[path][0] == Header
    ensures RowsOf(files, path) != [] ==> |r[path]| == |files[path]| + 1
    ensures r[path][|r[path]| - 1] == row
  {
    var existing := RowsOf(files, path);
    var fileIsNew := existing == [];
    files[path := existing + (if fileIsNew then [Header] else []) + [row]]
  }

  /** The reset at the end of a successful `stop`: no start mark, no end
      mark, a zero total and an empty text box. */
  function Reset(s: State): (r: State)
    requires Valid(s) && !s.running
    ensures Valid(r) && !r.running && r.total == 0 && r.description == ""
    ensures r.startTime == None && r.endTime == None
    ensures r.files == s.files && r.lastFilePath == s.lastFilePath
  {
    s.(startTime := None, endTime := None, total := 0, description := "")
  }

  /** `stop`: pause if running, refuse a blank description, do nothing for a
      zero total, otherwise save (only if a path was chosen) and reset. */
  function Stop(s: State, now: int, dialog: Option<string>, render: int -> string): (r: (State, Outcome))
    requires Valid(s)
    ensures Valid(r.0) && !r.0.running
    ensures r.1 == Warned <==> Strip(s.description) == ""
    ensures r.0.files != s.files ==> r.1.Saved?
  {
    var p := if s.running then Pause(s, now) else s;
    var description := Strip(p.description);
    if description == "" then
      (p, Warned)
    else if p.total != 0 then
      var saved :=
        if Chosen(dialog) then
          p.(files := AppendRecord(p.files, dialog.value, [render(p.total), description]),
             lastFilePath := dialog)
        else p;
      (Reset(saved), if Chosen(dialog) then Saved(dialog.value) else Discarded)
    else
      (p, NothingRecorded)
  }

  /** `reload_csv`: open the remembered file if it still exists; otherwise
      create a chosen file holding just the header (overwriting it) and
      remember it. */
  function ReloadCsv(s: State, dialog: Option<string>): (r: (State, Outcome))
    requires Valid(s)
    ensures Valid(r.0)
    ensures r.0 == s.(files := r.0.files, lastFilePath := r.0.lastFilePath)
    ensures r.1.Created? <==> r.0 != s
  {
    if s.lastFilePath.Some? && s.lastFilePath.value != "" && s.lastFilePath.value in s.files then
      (s, Opened(s.lastFilePath.value))
    else if Chosen(dialog) then
      (s.(files := s.files[dialog.value := [Header]], lastFilePath := dialog), Created(dialog.value))
    else
      (s, Cancelled)
  }
}
