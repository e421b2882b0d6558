# Transactions file and temp-file watcher, modelled in Dafny

This project models three small C# console programs.

- **ConsoleApp3**, a transaction file writer. `Transaction` holds a 32-bit `Id` and a
  `decimal` `Amount`, and its text form is the single line `Id|Amount`.
  `TransactionFileWriter` creates the file when it is missing and appends one line per
  transaction. It also lists the file back: each well-formed line is shown and each
  malformed line is reported.
- **ConsoleApp4**, a transaction file reader and query object.
  - `TransactionFileReader.ReadTransactions` raises "file not found" for a missing file.
  - Otherwise it reads the file line by line and skips blank lines.
  - It keeps every line that parses as `Id|Amount` and reports every other line by its
    1-based number.
  - `TransactionProcessor` answers queries over the list that was read: filter by minimum
    amount, stable sort ascending and descending by amount, find the first transaction
    with a given Id, and copy the list.
- **ConsoleApp5**, a temp-file watcher. `TempFileWatcher` watches one folder for `*.tmp`
  files.
  - It deletes every such file that is created there.
  - A file renamed into a name whose extension is `.tmp` (in any case) is deleted as well.
  - It appends a line `yyyy-MM-dd HH:mm:ss - message` to a log file for every event and
    every outcome.

The Dafny modules follow the programs:

| module | file | models |
|---|---|---|
| `Wrappers` | wrappers.dfy | `Option`, `Result` |
| `Text` | text.dfy | `string.Split(char)`, digit strings, `string.IsNullOrWhiteSpace` |
| `Numbers` | numbers.dfy | `int` (as `int32`), `decimal` (mantissa and scale), their text forms, `int.Parse`, `decimal.Parse` |
| `Transactions` | transactions.dfy | `Transaction`, `ToFileString`, `FromFileString` |
| `TransactionFileWriting` | transaction_file_writer.dfy | `TransactionFileWriter` as a class over the file's lines |
| `TransactionFileReading` | transaction_file_reader.dfy | `ReadTransactions` as a method with its loop |
| `TransactionProcessing` | transaction_processor.dfy | `TransactionProcessor` as a datatype with query functions |
| `LogFormat` | log_format.dfy | the log-line format, the logged messages, `Path.GetExtension` and the `.tmp` rule |
| `TempFileWatching` | temp_file_watcher.dfy | `TempFileWatcher` as a class over the folder's files and the log's entries |

A file is modelled as `None` when it does not exist and otherwise as the sequence of its lines.
The watcher's folder is the set of full paths that exist.

Some outcomes depend on the environment: whether an append or a delete succeeds, and the
message of the exception when one does not. The methods choose these nondeterministically.
The watcher keeps a ghost trace of every log write and every delete it attempted, in order.
Its invariant `Valid` ties the log file to that trace and says that every delete in it was
of a `.tmp` file in the watched folder. A file appears in the folder only through
`FileAppears`, which stands for another program creating a file there or renaming one into it.

## Model

| member | source | states |
|---|---|---|
| Text.Split | ConsoleApp3/ConsoleApp3/Program.cs:23 | splitting on '\|' gives one more part than there are separators, and no part contains the separator |
| Text.JoinSplit | ConsoleApp3/ConsoleApp3/Program.cs:23 | splitting loses nothing: joining the parts with the separator gives back the line |
| Text.SplitPair | ConsoleApp3/ConsoleApp3/Program.cs:23-25 | a line `a\|b` where neither side contains '\|' splits into exactly `[a, b]` |
| Text.BlankConcat | ConsoleApp4/ConsoleApp4/Program.cs:52 | `string.IsNullOrWhiteSpace` on a line is true exactly when it holds of both pieces of the line |
| Text.BlankExamples | ConsoleApp4/ConsoleApp4/Program.cs:52 | the empty line and lines of spaces, tabs, line breaks, no-break and ideographic spaces are blank; " 1 " and "\|" are not |
| Numbers.FormatInt | ConsoleApp3/ConsoleApp3/Program.cs:18 | the Id's text is non-empty, its first character is '-' or a digit and all the others are digits; it starts with a digit exactly when the Id is non-negative |
| Numbers.ParseInt32 | ConsoleApp3/ConsoleApp3/Program.cs:28 | `int.Parse` gives a format error exactly when the text is not an optional '-' followed by at least one digit; a numeral succeeds exactly when its value fits in 32 bits, and then the result is that value ("007" is 7, "-0" is 0); any other numeral is an overflow error |
| Numbers.IntRoundTrip | ConsoleApp3/ConsoleApp3/Program.cs:18-28 | every 32-bit Id written by ToFileString parses back to itself |
| Numbers.OutOfRangeId | ConsoleApp3/ConsoleApp3/Program.cs:28 | a digit string of value 2^31 or more is an overflow error, not a format error |
| Numbers.FractionDigits | ConsoleApp3/ConsoleApp3/Program.cs:18 | the digits after the point are exactly `scale` digits long, trailing zeros included, and denote the mantissa modulo 10^scale |
| Numbers.FormatDecimal | ConsoleApp3/ConsoleApp3/Program.cs:18 | the Amount's text is a non-empty run of digits, signs and points, and starts with a digit exactly when the Amount is not negative |
| Numbers.FormatDecimalLayout | ConsoleApp3/ConsoleApp3/Program.cs:18 | an Amount of scale 0 is written without a point; otherwise the text holds one point followed by exactly `scale` digits, so 100.50 keeps its trailing zero |
| Numbers.ParseDecimal | ConsoleApp3/ConsoleApp3/Program.cs:29 | `decimal.Parse` fails only with a format error, and a negative result comes from text that starts with '-' |
| Numbers.ParseDecimalGrammar | ConsoleApp3/ConsoleApp3/Program.cs:29 | `decimal.Parse` succeeds exactly on an optional '-', then one or more digits, then optionally a point and one or more digits; any other text ("abc", "1e5", "") is a format error |
| Numbers.MagnitudeGrammar | ConsoleApp3/ConsoleApp3/Program.cs:29 | the unsigned part is read exactly when it is one or more digits, optionally followed by a point and one or more digits |
| Numbers.ParseDecimalWhole | ConsoleApp3/ConsoleApp3/Program.cs:29 | every non-empty digit string parses, to its value with scale 0 ("007" is 7) |
| Numbers.ParseDecimalPointed | ConsoleApp3/ConsoleApp3/Program.cs:29 | digits, a point and digits parse to all the digits read as one number, with the number of digits after the point as the scale ("100.50" is 10050 at scale 2) |
| Numbers.ParseNegated | ConsoleApp3/ConsoleApp3/Program.cs:29 | a '-' in front of any accepted magnitude gives the same scale and the negated mantissa ("-0" is 0) |
| Numbers.PointRejections | ConsoleApp3/ConsoleApp3/Program.cs:29 | ".5", "5." and "1.2.3" are format errors |
| Numbers.SignRejections | ConsoleApp3/ConsoleApp3/Program.cs:29 | "--1", "+1" and " 1" are format errors |
| Numbers.DecimalRoundTrip | ConsoleApp3/ConsoleApp3/Program.cs:18-29 | every Amount written by ToFileString parses back to the same value with the same scale |
| Transactions.ToFileString | ConsoleApp3/ConsoleApp3/Program.cs:16-19 | the line holds exactly one '\|', splits into the Id's text and the Amount's text, is not blank, and holds no line break |
| Transactions.FromFileString | ConsoleApp3/ConsoleApp3/Program.cs:21-30 | anything other than exactly one '\|' is a format error; with one '\|' it succeeds exactly when both the Id and the Amount parse, and then it is the transaction of the parsed Id and the parsed Amount; otherwise the Id's error comes first, and the Amount's error is the result when only the Amount fails |
| Transactions.RoundTrip | ConsoleApp3/ConsoleApp3/Program.cs:16-30 | `FromFileString(ToFileString(t))` is `t` for every transaction |
| TransactionFileWriting.LineNotice | ConsoleApp3/ConsoleApp3/Program.cs:81-89 | a line that parses is listed as its parsed transaction; a format error is reported as malformed and the listing goes on; an Id overflow escapes the per-line handler as a read error; each exactly in its case |
| TransactionFileWriting.Listing | ConsoleApp3/ConsoleApp3/Program.cs:78-96 | as written, the listing has at most one notice per line and no read error before its last notice |
| TransactionFileWriting.ListingUpToOverflow | ConsoleApp3/ConsoleApp3/Program.cs:78-96 | as written, the lines before the first out-of-range Id are each listed or reported as format errors, that line ends the listing as a read error, and no line after it is listed |
| TransactionFileWriting.DisplayReport | ConsoleApp3/ConsoleApp3/Program.cs:65-97 | a missing or empty file gives only the "empty" notice; any other file gives the heading first and never the "empty" notice |
| TransactionFileWriting.ListingVisitsEveryLine | ConsoleApp3/ConsoleApp3/Program.cs:79-90 | when no Id overflows, every line is visited in order: line k gets its own notice, and a malformed line does not stop the listing |
| TransactionFileWriting.ListingOfWritten | ConsoleApp3/ConsoleApp3/Program.cs:47-90 | a file of lines written by AppendTransaction lists back exactly the transactions written, in order |
| TransactionFileWriting.OverflowEndsListing | ConsoleApp3/ConsoleApp3/Program.cs:83-96 | as written, the line `2147483648\|0` ends the listing with a read error, and the line after it is never shown, however well-formed it is |
| TransactionFileWriting.IntendedNotice | ConsoleApp3/ConsoleApp3/Program.cs:81-89 | the intended per-line notice lists a line exactly when it parses and otherwise reports a format error, never a read error |
| TransactionFileWriting.IntendedListing | ConsoleApp3/ConsoleApp3/Program.cs:78-90 | the intended listing has exactly one notice per line, each line's intended notice, and no read error ever stops it |
| TransactionFileWriting.IntendedListingAgrees | ConsoleApp3/ConsoleApp3/Program.cs:78-96 | on files where no Id overflows, the intended listing is the listing as written |
| TransactionFileWriting.TransactionFileWriter.constructor | ConsoleApp3/ConsoleApp3/Program.cs:37-45 | a missing file is created empty, and an existing file is kept as it is |
| TransactionFileWriting.TransactionFileWriter.AppendTransaction | ConsoleApp3/ConsoleApp3/Program.cs:47-63 | on success the file is its old lines plus `ToFileString(t)` (created if missing); on a caught failure the file is unchanged |
| TransactionFileWriting.TransactionFileWriter.DisplayAllTransactions | ConsoleApp3/ConsoleApp3/Program.cs:65-97 | the loop reports exactly DisplayReport of the file |
| TransactionFileReading.ReadTransactions | ConsoleApp4/ConsoleApp4/Program.cs:32-80 | a missing file is FileNotFound; otherwise the result is the parsed transactions of the non-blank lines in file order, and the reported numbers are those of the malformed lines |
| TransactionFileReading.RejectedExactly | ConsoleApp4/ConsoleApp4/Program.cs:48-69 | line number n is reported if and only if line n exists, is not blank and does not parse |
| TransactionFileReading.RejectedIncreasing | ConsoleApp4/ConsoleApp4/Program.cs:46-50 | the reported line numbers are strictly increasing, so each line is reported at most once |
| TransactionFileReading.RejectedBounded | ConsoleApp4/ConsoleApp4/Program.cs:46-50 | every reported number is between 1 and the number of lines |
| TransactionFileReading.EveryNonBlankLineAccounted | ConsoleApp4/ConsoleApp4/Program.cs:52-69 | every non-blank line is either kept or reported, never both, and blank lines are neither |
| TransactionFileReading.AcceptedConcat | ConsoleApp4/ConsoleApp4/Program.cs:48-70 | reading is line by line: two stretches of a file read as the first's transactions followed by the second's |
| TransactionFileReading.ReadBackParsed | ConsoleApp4/ConsoleApp4/Program.cs:48-64 | non-blank lines that all parse read back as their transactions, in file order |
| TransactionFileReading.ReadBackWritten | ConsoleApp4/ConsoleApp4/Program.cs:57-64 | a file written by AppendTransaction reads back as exactly the transactions written, with no line reported |
| TransactionProcessing.Insert | ConsoleApp4/ConsoleApp4/Program.cs:99-111 | inserting one transaction into a sorted list keeps it sorted and adds exactly that transaction |
| TransactionProcessing.InsertionSortStable | ConsoleApp4/ConsoleApp4/Program.cs:99-111 | the sort keeps the stored order of transactions with equal amounts |
| TransactionProcessing.AtLeast | ConsoleApp4/ConsoleApp4/Program.cs:94-96 | the filter keeps every transaction with an amount of at least the minimum, and only those |
| TransactionProcessing.AtLeastConcat | ConsoleApp4/ConsoleApp4/Program.cs:94-96 | the filter keeps the stored order: filtering a concatenation is concatenating the filtered parts |
| TransactionProcessing.AtLeastSubMultiset | ConsoleApp4/ConsoleApp4/Program.cs:94-96 | the filter never duplicates a transaction |
| TransactionProcessing.FirstWithId | ConsoleApp4/ConsoleApp4/Program.cs:115 | the result is None exactly when no transaction has the Id, and otherwise it is the first transaction that does |
| TransactionProcessing.TransactionProcessor.FilterByAmount | ConsoleApp4/ConsoleApp4/Program.cs:92-97 | every result has an amount at least the minimum, every stored transaction that qualifies is in the result, nothing is added, and the result is `AtLeast` of the list, so stored order and repeated transactions are kept |
| TransactionProcessing.TransactionProcessor.SortByAmount | ConsoleApp4/ConsoleApp4/Program.cs:99-104 | the result is a permutation in non-decreasing amount, and equal amounts keep their stored order |
| TransactionProcessing.TransactionProcessor.SortByAmountDescending | ConsoleApp4/ConsoleApp4/Program.cs:106-111 | the result is a permutation in non-increasing amount, and equal amounts keep their stored order |
| TransactionProcessing.StableSortUnique | ConsoleApp4/ConsoleApp4/Program.cs:99-111 | any sorted and stable rearrangement of the list equals the model's sort, so the sort is exactly the one `OrderBy`/`OrderByDescending` define |
| TransactionProcessing.TransactionProcessor.FindById | ConsoleApp4/ConsoleApp4/Program.cs:113-116 | the result is None (null) exactly when no stored transaction has the Id; otherwise it has the Id and no earlier transaction has it |
| TransactionProcessing.TransactionProcessor.GetAllTransactions | ConsoleApp4/ConsoleApp4/Program.cs:118-121 | the copy has the same transactions in the same order |
| LogFormat.TimestampRoundTrip | ConsoleApp5/ConsoleApp5/Program.cs:78 | every valid timestamp formats as 19 characters `yyyy-MM-dd HH:mm:ss` that parse back to it |
| LogFormat.FormatTimestamp | ConsoleApp5/ConsoleApp5/Program.cs:78 | `yyyy-MM-dd HH:mm:ss` is nineteen characters with '-', '-', ' ', ':' and ':' at the places of the format |
| LogFormat.LogEntry | ConsoleApp5/ConsoleApp5/Program.cs:78 | an entry is the nineteen-character timestamp, " - ", the message and the line terminator, at fixed places; LogEntryRoundTrip reads it back |
| LogFormat.LogEntryRoundTrip | ConsoleApp5/ConsoleApp5/Program.cs:78 | every log entry reads back as its timestamp and its message, whatever the message holds |
| LogFormat.OutcomesDistinguishable | ConsoleApp5/ConsoleApp5/Program.cs:38-42 | the log tells a successful delete from a failed one, for created and for renamed files |
| LogFormat.GetExtension | ConsoleApp5/ConsoleApp5/Program.cs:55 | the extension is empty, or it is a suffix of the name that starts with '.' and has at least one more character |
| LogFormat.GetExtensionShape | ConsoleApp5/ConsoleApp5/Program.cs:55 | a non-empty extension runs from the last '.' of the file name, with no '.' or separator after it; an empty one means the path ends in '.', or has no '.', or every '.' is followed by a separator (belongs to a directory) |
| LogFormat.IsTmpNameIff | ConsoleApp5/ConsoleApp5/Program.cs:55 | a new name has the `.tmp` extension, ignoring case, if and only if it ends in '.' followed by t, m and p in any case |
| LogFormat.TmpNameExamples | ConsoleApp5/ConsoleApp5/Program.cs:55 | "x.TMP" and "a.Tmp" are `.tmp` names; "x.tmp.bak", "x.tmp." and "tmp" are not |
| TempFileWatching.FilterIsExtensionRule | ConsoleApp5/ConsoleApp5/Program.cs:17 | the `*.tmp` filter lets a create or delete event through exactly when its name has the extension `.tmp` in any case, a rename exactly when one of its two names has, and an error always |
| TempFileWatching.LogReadsBack | ConsoleApp5/ConsoleApp5/Program.cs:74-86 | the log holds one entry per successful write, and entry i parses as the timestamp and message of the i-th successful write |
| TempFileWatching.AllDeletesTmpInEach | ConsoleApp5/ConsoleApp5/Program.cs:37-59 | under the invariant, every delete in the trace was of a `.tmp` name in the watched folder |
| TempFileWatching.TempFileWatcher.constructor | ConsoleApp5/ConsoleApp5/Program.cs:9-27 | the watcher starts raising events on the folder, the invariant holds, and the first step is the "watching started" message |
| TempFileWatching.TempFileWatcher.LogMessage | ConsoleApp5/ConsoleApp5/Program.cs:74-86 | a successful append adds exactly the entry `timestamp - message` and the terminator; a caught failure leaves the log unchanged; the invariant holds |
| TempFileWatching.TempFileWatcher.DeleteFile | ConsoleApp5/ConsoleApp5/Program.cs:37 | the delete of the folder joined with the name removes exactly that path; a missing file counts as deleted; a failure leaves the files unchanged |
| TempFileWatching.TempFileWatcher.OnFileCreated | ConsoleApp5/ConsoleApp5/Program.cs:29-44 | the handler logs the detection, deletes the file, then logs the success or the failure message; the log only grows |
| TempFileWatching.TempFileWatcher.OnFileDeleted | ConsoleApp5/ConsoleApp5/Program.cs:46-49 | the handler logs exactly one "was deleted" message |
| TempFileWatching.TempFileWatcher.OnFileRenamed | ConsoleApp5/ConsoleApp5/Program.cs:51-67 | the handler logs the rename; only when the new name has the `.tmp` extension does it delete that file and log the outcome; otherwise no file changes |
| TempFileWatching.TempFileWatcher.OnError | ConsoleApp5/ConsoleApp5/Program.cs:69-72 | the handler logs exactly one watcher-error message |
| TempFileWatching.TempFileWatcher.Deliver | ConsoleApp5/ConsoleApp5/Program.cs:13-24 | nothing happens after watching stopped or for an event the `*.tmp` filter drops; a delivered event's first step is its handler's first message; a create, or a rename to a `.tmp` name, makes exactly one delete attempt, of the event's joined path, between two log writes; a delete, an error or a rename to another name makes one log write and changes no file; the log only grows; the only file that can disappear is the event's own `.tmp` file |
| TempFileWatching.TempFileWatcher.StopWatching | ConsoleApp5/ConsoleApp5/Program.cs:88-94 | events are no longer raised, and the "watching stopped" message is logged |

## Left out

- Culture-dependent formatting and parsing are not modelled. The interpolation
  `$"{Id}|{Amount}"` and `int.Parse`/`decimal.Parse` use the current culture; the model fixes
  '-' as the sign and '.' as the decimal separator, so under a culture with ',' as the
  separator the real file holds `100,50` where the model writes `100.50`.
- The model parses only an optional leading '-' and digits, for `decimal` with an optional
  '.' and digits after it. It rejects these forms that .NET accepts:
  - leading and trailing white space (both parsers);
  - a leading '+' sign (both parsers);
  - a trailing sign, as in `5-` for -5 (`decimal.Parse` only);
  - ".5" and "5." (`decimal.Parse` only);
  - thousands separators (`decimal.Parse` only).
- Numbers.ParseDecimal: does not model the 96-bit mantissa and 28-digit scale limit of
  `decimal`. Any digit string parses, so an overflow of `decimal.Parse` is never raised.
- File encodings, the UTF-8 byte-order mark, `ReadLine`'s treatment of "\r\n", and I/O
  failures in the middle of a read are not modelled. A file is the sequence of its lines.
- A file whose content does not end in a line break is not modelled: every existing file is
  taken to be empty or to end in one. `StreamWriter.WriteLine` appends right after the file's
  last character (ConsoleApp3/ConsoleApp3/Program.cs:52-55), and the constructor keeps an
  existing file as it is (ConsoleApp3/ConsoleApp3/Program.cs:41-44). A file holding `1|5`
  without a final line break therefore holds the single line `1|52|6` after Transaction(2, 6)
  is appended, and the listing reports that line as malformed; the model has the two lines
  `1|5` and `2|6`. The log file has the same gap: `File.AppendAllText`
  (ConsoleApp5/ConsoleApp5/Program.cs:79) writes after whatever the file held, which the model
  takes as whole entries (`priorLog`).
- The log is modelled as a sequence of entries, each ending in the line terminator, and not as
  the file's lines. A message that holds a line break (an exception's message, say) makes one
  entry that is several lines of the real file; LogReadsBack is a statement about entries.
- A file that exists but cannot be opened is not modelled. In ConsoleApp3 it ends
  `DisplayAllTransactions` through the outer handler (ConsoleApp3/ConsoleApp3/Program.cs:93-96);
  in ConsoleApp4 `ReadTransactions` logs it and rethrows it (ConsoleApp4/ConsoleApp4/Program.cs:75-78).
- The console output texts of ConsoleApp3 and ConsoleApp4 are not modelled. The model keeps
  only what they report (`Notice`, the reported line numbers).
- The `ArgumentNullException` checks of ConsoleApp4 are not modelled, because Dafny values
  are never null. Neither are the exceptions of the constructors' file creation.
- The `int` overflow of `lineNumber` in `ReadTransactions` after 2^31 lines is not modelled.
- The processor's list is modelled as a value. The aliasing between the caller's list and
  `_transactions` is not captured: a caller that mutates the list it passed in changes the
  processor's answers in C#, and not in the model.
- TempFileWatching.TempFileWatcher.constructor: cannot fail in the model. Setting the
  `FileSystemWatcher`'s `Path` to a folder that does not exist raises `ArgumentException`
  (ConsoleApp5/ConsoleApp5/Program.cs:15); the program's `Main` creates the folder before
  constructing the watcher (ConsoleApp5/ConsoleApp5/Program.cs:109).
- The `FileSystemWatcher`'s thread and the concurrency of its handlers are not modelled.
  Events are delivered one at a time by `Deliver`.
- The `NotifyFilter` and the event buffer overflow are not modelled.
- `Thread.Sleep(100)` is not modelled, and `DateTime.Now` is a parameter of each operation.
- TempFileWatching.MatchesFilter: the operating system's `*.tmp` wildcard match, including
  8.3 short names, is approximated by "ends in .tmp, ignoring case".
- TempFileWatching.Combine: models how `FileSystemEventArgs` builds `FullPath`: the watched
  folder, then a '\\' when the folder does not already end in a separator, then the name. The
  separators are the Windows ones, '\\' and '/', as in LogFormat.IsDirectorySeparator. Rooted
  names and invalid path characters are left out.
- LogFormat.GetExtension: the `ArgumentException` that older .NET versions raise for
  invalid path characters is not modelled.
- LogFormat.AsciiUpper: models `OrdinalIgnoreCase` for ASCII letters only. That is exact
  when one side is ".tmp" and only ASCII letters can match.
- The watcher's `Dispose`, and the `Program.Main` drivers of all three programs, are not
  modelled.
- The exception messages are free strings chosen nondeterministically, not .NET's texts.
- ConsoleApp2/ConsoleApp2/Program.cs is not part of this model.

## Findings

| source | as written | input that shows it | evidently intended | confidence | as-written member | corrected member |
|---|---|---|---|---|---|---|
| ConsoleApp3/ConsoleApp3/Program.cs:81-96 | the per-line handler in `DisplayAllTransactions` catches only `FormatException`. The `OverflowException` of an out-of-range Id reaches the outer handler, which ends the whole listing as a read error | a file whose line `2147483648\|0` is followed by a well-formed line: the second line is never shown; in general nothing after the first out-of-range Id is listed | report the line as malformed and go on listing the remaining lines, as is done for format errors | not executed | TransactionFileWriting.OverflowEndsListing | TransactionFileWriting.IntendedListing |
