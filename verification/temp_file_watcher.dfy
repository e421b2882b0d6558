/** ConsoleApp5: `TempFileWatcher` watches one folder for `*.tmp` files, deletes every such file
    that is created or renamed into a `.tmp` name, and appends an entry to its log file for every
    event and every outcome. The file system is the set of full paths that exist; the log file
    is the sequence of its entries, each ending in the line terminator. What cannot be known in
    advance (whether an append or a delete succeeds, and the message of the exception when it
    does not) is chosen nondeterministically, and a ghost trace records every log write and
    every delete the watcher attempted, in order. */
module TempFileWatching {
  import opened Wrappers
  import opened LogFormat

  /** The outcome of `File.Delete`: no exception, or an exception with its message. */
  datatype DeleteOutcome = Deleted | Failed(cause: string)

  /** One thing the watcher did: an attempt to log `message` at time `at`, or an attempt to
      delete the file `path`, reached through the event's file `name`. */
  datatype Step =
    | Write(at: Moment, message: string, written: bool)
    | Delete(name: string, path: string, outcome: DeleteOutcome)

  predicate IsWriteOf(s: Step, at: Moment, message: string)
  {
    s.Write? && s.at == at && s.message == message
  }

  /** The entries that reached the log file, in order. */
  function Written(steps: seq<Step>, newline: string): seq<string>
  {
    if steps == [] then []
    else
      var last := steps[|steps| - 1];
      var prior := Written(steps[..|steps| - 1], newline);
      if last.Write? && last.written then prior + [LogEntry(last.at, last.message, newline)] else prior
  }

  /** The timestamps and messages of the successful writes, in order. */
  function Logged(steps: seq<Step>): seq<(Timestamp, string)>
  {
    if steps == [] then []
    else
      var last := steps[|steps| - 1];
      var prior := Logged(steps[..|steps| - 1]);
      if last.Write? && last.written then prior + [(last.at, last.message)] else prior
  }

  /** Reading the log back: entry i parses as the timestamp and message of the i-th successful
      write, so the log holds exactly the messages logged, in the order they were logged. */
  lemma {:induction false} LogReadsBack(steps: seq<Step>, newline: string)
    ensures |Written(steps, newline)| == |Logged(steps)|
    ensures forall i :: 0 <= i < |Logged(steps)| ==>
      ParseLogEntry(Written(steps, newline)[i], newline) == Some(Logged(steps)[i])
  {
    if steps != [] {
      var last := steps[|steps| - 1];
      LogReadsBack(steps[..|steps| - 1], newline);
      if last.Write? && last.written {
        LogEntryRoundTrip(last.at, last.message, newline);
      }
    }
  }

  /** A delete of a `.tmp` file in the watched folder. */
  predicate DeletesTmpIn(s: Step, folder: string)
  {
    s.Delete? ==> IsTmpName(s.name) && s.path == Combine(folder, s.name)
  }

  /** Every step of `steps` keeps to the rule. */
  predicate AllDeletesTmpIn(steps: seq<Step>, folder: string)
  {
    steps == [] || (AllDeletesTmpIn(steps[..|steps| - 1], folder) && DeletesTmpIn(steps[|steps| - 1], folder))
  }

  lemma AppendDeletesTmp(steps: seq<Step>, s: Step, folder: string)
    ensures AllDeletesTmpIn(steps + [s], folder) <==> AllDeletesTmpIn(steps, folder) && DeletesTmpIn(s, folder)
  {
    assert (steps + [s])[..|steps|] == steps;
  }

  /** The rule holds of each step: every delete in the trace was of a `.tmp` file in the folder. */
  lemma {:induction false} AllDeletesTmpInEach(steps: seq<Step>, folder: string, k: nat)
    requires AllDeletesTmpIn(steps, folder) && k < |steps|
    ensures steps[k].Delete? ==> IsTmpName(steps[k].name) && steps[k].path == Combine(folder, steps[k].name)
  {
    if k < |steps| - 1 {
      AllDeletesTmpInEach(steps[..|steps| - 1], folder, k);
    }
  }

  /** A delete adds nothing to the log. */
  lemma WrittenUnchanged(steps: seq<Step>, s: Step, newline: string)
    requires s.Delete?
    ensures Written(steps + [s], newline) == Written(steps, newline)
  {
    assert (steps + [s])[..|steps|] == steps;
  }

  /** A write adds its entry to the log when it succeeds. */
  lemma WrittenAppend(steps: seq<Step>, s: Step, newline: string)
    requires s.Write?
    ensures Written(steps + [s], newline)
      == Written(steps, newline) + (if s.written then [LogEntry(s.at, s.message, newline)] else [])
  {
    assert (steps + [s])[..|steps|] == steps;
  }

  /** The events the `FileSystemWatcher` raises; a name is the file's name within the folder. */
  datatype FileEvent =
    | Created(name: string)
    | Removed(name: string)
    | Renamed(oldName: string, name: string)
    | WatcherError(cause: string)

  /** The watcher's filter "*.tmp": a name that ends in ".tmp" in any case. */
  predicate MatchesFilter(name: string)
  {
    EndsInTmp(name)
  }

  /** The events the filter lets through: a rename when either name matches, an error always. */
  predicate PassesFilter(e: FileEvent)
  {
    match e
    case Created(name) => MatchesFilter(name)
    case Removed(name) => MatchesFilter(name)
    case Renamed(oldName, name) => MatchesFilter(oldName) || MatchesFilter(name)
    case WatcherError(_) => true
  }

  /** The filter and the rename handler's extension test agree: a create or delete event gets
      through exactly when its name has the extension ".tmp" in any case, a rename exactly when
      one of its names has, and an error always. */
  lemma FilterIsExtensionRule(e: FileEvent)
    ensures e.WatcherError? ==> PassesFilter(e)
    ensures e.Created? || e.Removed? ==> (PassesFilter(e) <==> IsTmpName(e.name))
    ensures e.Renamed? ==> (PassesFilter(e) <==> IsTmpName(e.oldName) || IsTmpName(e.name))
  {
    match e
    case Created(name) => IsTmpNameIff(name);
    case Removed(name) => IsTmpNameIff(name);
    case Renamed(oldName, name) => IsTmpNameIff(oldName); IsTmpNameIff(name);
    case WatcherError(_) =>
  }

  /** `FileSystemEventArgs.FullPath`: the watched folder joined with the file's name. */
  function Combine(folder: string, name: string): string
  {
    if folder == [] || IsDirectorySeparator(folder[|folder| - 1]) then folder + name
    else folder + "\\" + name
  }

  /** The first message an event makes the watcher log. */
  function FirstMessage(e: FileEvent): string
  {
    match e
    case Created(name) => DetectedMessage(name)
    case Removed(name) => RemovedMessage(name)
    case Renamed(oldName, name) => RenamedMessage(oldName, name)
    case WatcherError(cause) => WatcherErrorMessage(cause)
  }

  /** The message logged after deleting a created file. */
  function CreatedOutcomeMessage(name: string, outcome: DeleteOutcome): string
  {
    match outcome
    case Deleted => DeletedMessage(name)
    case Failed(cause) => DeleteFailedMessage(name, cause)
  }

  /** The message logged after deleting a file renamed to a `.tmp` name. */
  function RenamedOutcomeMessage(name: string, outcome: DeleteOutcome): string
  {
    match outcome
    case Deleted => RenamedDeletedMessage(name)
    case Failed(cause) => RenamedDeleteFailedMessage(cause)
  }

  /** The file name an event is about (the new name for a rename), if any. */
  function EventName(e: FileEvent): string
  {
    match e
    case Created(name) => name
    case Removed(name) => name
    case Renamed(_, name) => name
    case WatcherError(_) => ""
  }

  class TempFileWatcher {
    /** The folder watched. */
    const folder: string
    /** `Environment.NewLine`, which ends every log entry. */
    const newline: string
    /** The log file's content from before this watcher started, taken as whole entries. */
    ghost const priorLog: seq<string>

    /** The full paths of the files that exist. */
    var files: set<string>
    /** The entries of the log file, each ending in `newline`. */
    var log: seq<string>
    /** `EnableRaisingEvents`: whether events are still delivered. */
    var watching: bool
    /** Every log write and delete attempted since the watcher started, in order. */
    ghost var trace: seq<Step>

    /** The log is what it was plus every entry whose write succeeded, and every delete was of
        a `.tmp` file in the watched folder. */
    ghost predicate Valid()
      reads this`log, this`trace
    {
      && log == priorLog + Written(trace, newline)
      && AllDeletesTmpIn(trace, folder)
    }

    /** Sets up the watcher on `folderToWatch`, starts raising events, and logs the start. */
    constructor (folderToWatch: string, present: set<string>, existingLog: seq<string>, newline: string, at: Moment)
      ensures Valid() && watching
      ensures folder == folderToWatch && this.newline == newline && priorLog == existingLog && files == present
      ensures |trace| == 1 && IsWriteOf(trace[0], at, StartedMessage(folderToWatch))
    {
      folder := folderToWatch;
      this.newline := newline;
      priorLog := existingLog;
      files := present;
      log := existingLog;
      watching := true;
      trace := [];
      new;
      assert Written([], newline) == [] && AllDeletesTmpIn([], folder);
      var written := LogMessage(StartedMessage(folderToWatch), at);
    }

    /** Appends "timestamp - message" and a line terminator to the log file. A failure to append
        is caught and only shown on the console, so the log is then as it was. */
    method LogMessage(message: string, at: Moment) returns (written: bool)
      requires Valid()
      modifies this`log, this`trace
      ensures Valid()
      ensures trace == old(trace) + [Write(at, message, written)]
      ensures log == old(log) + (if written then [LogEntry(at, message, newline)] else [])
    {
      written := *;
      log := log + (if written then [LogEntry(at, message, newline)] else []);
      var step := Write(at, message, written);
      WrittenAppend(trace, step, newline);
      AppendDeletesTmp(trace, step, folder);
      trace := trace + [step];
    }

    /** `File.Delete` on the event's full path. Deleting a file that does not exist succeeds and
        changes nothing; an existing file may be locked or protected, and then the delete fails. */
    method DeleteFile(name: string) returns (outcome: DeleteOutcome)
      requires Valid() && IsTmpName(name)
      modifies this`files, this`trace
      ensures Valid()
      ensures trace == old(trace) + [Delete(name, Combine(folder, name), outcome)]
      ensures outcome == Deleted ==> files == old(files) - {Combine(folder, name)}
      ensures outcome.Failed? ==> files == old(files) && Combine(folder, name) in old(files)
    {
      var path := Combine(folder, name);
      if path !in files {
        outcome := Deleted;
      } else {
        var removed: bool := *;
        if removed {
          files := files - {path};
          outcome := Deleted;
        } else {
          var cause: string := *;
          outcome := Failed(cause);
        }
      }
      var step := Delete(name, path, outcome);
      WrittenUnchanged(trace, step, newline);
      AppendDeletesTmp(trace, step, folder);
      trace := trace + [step];
    }

    /** A `.tmp` file appeared: log it, delete it, and log how the delete ended. */
    method OnFileCreated(name: string, detectedAt: Moment, outcomeAt: Moment) returns (ghost outcome: DeleteOutcome)
      requires Valid() && MatchesFilter(name)
      modifies this`files, this`log, this`trace
      ensures Valid() && old(log) <= log
      ensures |trace| == old(|trace|) + 3 && trace[..old(|trace|)] == old(trace)
      ensures IsWriteOf(trace[old(|trace|)], detectedAt, DetectedMessage(name))
      ensures trace[old(|trace|) + 1] == Delete(name, Combine(folder, name), outcome)
      ensures IsWriteOf(trace[old(|trace|) + 2], outcomeAt, CreatedOutcomeMessage(name, outcome))
      ensures outcome == Deleted ==> files == old(files) - {Combine(folder, name)}
      ensures outcome.Failed? ==> files == old(files)
    {
      var written := LogMessage(DetectedMessage(name), detectedAt);
      IsTmpNameIff(name);
      var result := DeleteFile(name);
      outcome := result;
      written := LogMessage(CreatedOutcomeMessage(name, result), outcomeAt);
    }

    /** A `.tmp` file disappeared: log it. */
    method OnFileDeleted(name: string, at: Moment)
      requires Valid()
      modifies this`log, this`trace
      ensures Valid() && old(log) <= log
      ensures |trace| == old(|trace|) + 1 && trace[..old(|trace|)] == old(trace)
      ensures IsWriteOf(trace[old(|trace|)], at, RemovedMessage(name))
    {
      var written := LogMessage(RemovedMessage(name), at);
    }

    /** A file was renamed: log the rename; when the new name has the extension ".tmp" in any
        case, delete the file and log how the delete ended. Any other new name is left alone. */
    method OnFileRenamed(oldName: string, name: string, renamedAt: Moment, outcomeAt: Moment) returns (ghost outcome: DeleteOutcome)
      requires Valid()
      modifies this`files, this`log, this`trace
      ensures Valid() && old(log) <= log
      ensures |trace| == old(|trace|) + (if IsTmpName(name) then 3 else 1)
      ensures trace[..old(|trace|)] == old(trace)
      ensures IsWriteOf(trace[old(|trace|)], renamedAt, RenamedMessage(oldName, name))
      ensures IsTmpName(name) ==>
        && trace[old(|trace|) + 1] == Delete(name, Combine(folder, name), outcome)
        && IsWriteOf(trace[old(|trace|) + 2], outcomeAt, RenamedOutcomeMessage(name, outcome))
        && (outcome == Deleted ==> files == old(files) - {Combine(folder, name)})
        && (outcome.Failed? ==> files == old(files))
      ensures !IsTmpName(name) ==> files == old(files)
    {
      var written := LogMessage(RenamedMessage(oldName, name), renamedAt);
      outcome := Deleted;
      if IsTmpName(name) {
        var result := DeleteFile(name);
        outcome := result;
        written := LogMessage(RenamedOutcomeMessage(name, result), outcomeAt);
      }
    }

    /** The watcher reported an error: log its message. */
    method OnError(cause: string, at: Moment)
      requires Valid()
      modifies this`log, this`trace
      ensures Valid() && old(log) <= log
      ensures |trace| == old(|trace|) + 1 && trace[..old(|trace|)] == old(trace)
      ensures IsWriteOf(trace[old(|trace|)], at, WatcherErrorMessage(cause))
    {
      var written := LogMessage(WatcherErrorMessage(cause), at);
    }

    /** The `FileSystemWatcher` delivering one change: only while events are raised and only
        when the filter lets the event through, and then to its handler. `first` is the time of
        the handler's first log line and `second` the time of its second, if it has one. */
    method Deliver(e: FileEvent, first: Moment, second: Moment)
      requires Valid()
      modifies this`files, this`log, this`trace
      ensures Valid()
      ensures !(watching && PassesFilter(e)) ==> trace == old(trace) && log == old(log) && files == old(files)
      ensures watching && PassesFilter(e) ==>
        && |trace| > old(|trace|) && trace[..old(|trace|)] == old(trace)
        && IsWriteOf(trace[old(|trace|)], first, FirstMessage(e))
      ensures watching && PassesFilter(e) && (e.Created? || (e.Renamed? && IsTmpName(e.name))) ==>
        && |trace| == old(|trace|) + 3 && trace[..old(|trace|)] == old(trace)
        && !trace[old(|trace|)].Delete? && !trace[old(|trace|) + 2].Delete?
        && trace[old(|trace|) + 1].Delete? && trace[old(|trace|) + 1].path == Combine(folder, EventName(e))
      ensures watching && PassesFilter(e) && (e.Removed? || e.WatcherError? || (e.Renamed? && !IsTmpName(e.name))) ==>
        && |trace| == old(|trace|) + 1 && trace[old(|trace|)].Write? && files == old(files)
      ensures old(log) <= log && files <= old(files)
      ensures old(files) - files <= {Combine(folder, EventName(e))}
      ensures files != old(files) ==> IsTmpName(EventName(e))
    {
      if !(watching && PassesFilter(e)) {
        return;
      }
      match e {
        case Created(name) =>
          IsTmpNameIff(name);
          var outcome := OnFileCreated(name, first, second);
          assert trace[|trace| - 2].path == Combine(folder, EventName(e));
        case Removed(name) =>
          OnFileDeleted(name, first);
        case Renamed(oldName, name) =>
          var outcome := OnFileRenamed(oldName, name, first, second);
          if IsTmpName(name) {
            assert trace[|trace| - 2].path == Combine(folder, EventName(e));
          }
        case WatcherError(cause) =>
          OnError(cause, first);
      }
    }

    /** Another program creates a file in the watched folder, or renames one into it. */
    method FileAppears(name: string)
      modifies this`files
      ensures files == old(files) + {Combine(folder, name)}
    {
      files := files + {Combine(folder, name)};
    }

    /** Stops raising events and logs that watching stopped; calling it again logs again. */
    method StopWatching(at: Moment)
      requires Valid()
      modifies this`watching, this`log, this`trace
      ensures Valid() && !watching && old(log) <= log
      ensures |trace| == old(|trace|) + 1 && trace[..old(|trace|)] == old(trace)
      ensures IsWriteOf(trace[old(|trace|)], at, StoppedMessage)
    {
      watching := false;
      var written := LogMessage(StoppedMessage, at);
    }
  }
}
