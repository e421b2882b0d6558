/** The text logic of the temp-file watcher (ConsoleApp5): the log line
    `yyyy-MM-dd HH:mm:ss - message` followed by the platform's line terminator, the
    messages it logs, and the rule that decides whether a renamed file is a `.tmp` file. */
module LogFormat {
  import opened Wrappers
  import opened Text

  // ---------------------------------------------------------------------------
  // Timestamps
  // ---------------------------------------------------------------------------

  /** A local date and time to the second, as `DateTime.Now` gives it. */
  datatype Timestamp = Timestamp(year: nat, month: nat, day: nat, hour: nat, minute: nat, second: nat)

  predicate ValidTimestamp(t: Timestamp)
  {
    1 <= t.year <= 9999 && 1 <= t.month <= 12 && 1 <= t.day <= 31
    && t.hour < 24 && t.minute < 60 && t.second < 60
  }

  /** A timestamp `DateTime.Now` can return. */
  type Moment = t: Timestamp | ValidTimestamp(t) witness Timestamp(1, 1, 1, 0, 0, 0)

  /** A number below 100 as exactly two digits ("MM", "dd", "HH", "mm", "ss"). */
  function TwoDigits(n: nat): string
    requires n < 100
  {
    [DigitChar(n / 10), DigitChar(n % 10)]
  }

  /** A number below 10000 as exactly four digits ("yyyy"). */
  function FourDigits(n: nat): string
    requires n < 10000
  {
    TwoDigits(n / 100) + TwoDigits(n % 100)
  }

  lemma TwoDigitsRoundTrip(n: nat)
    requires n < 100
    ensures |TwoDigits(n)| == 2 && AllDigits(TwoDigits(n)) && DigitsToNat(TwoDigits(n)) == n
  {
    var s := TwoDigits(n);
    assert s[..1] == [s[0]];
    assert DigitsToNat(s[..1]) == DigitValue(s[0]);
  }

  lemma FourDigitsRoundTrip(n: nat)
    requires n < 10000
    ensures |FourDigits(n)| == 4 && AllDigits(FourDigits(n)) && DigitsToNat(FourDigits(n)) == n
  {
    var hi, lo := TwoDigits(n / 100), TwoDigits(n % 100);
    TwoDigitsRoundTrip(n / 100);
    TwoDigitsRoundTrip(n % 100);
    DigitsConcat(hi, lo);
    assert Pow10(2) == 100;
  }

  /** The custom format "yyyy-MM-dd HH:mm:ss": nineteen characters, with the date's dashes,
      the space and the time's colons at fixed places. */
  function FormatTimestamp(t: Timestamp): (s: string)
    requires ValidTimestamp(t)
    ensures |s| == 19 && s[4] == '-' && s[7] == '-' && s[10] == ' ' && s[13] == ':' && s[16] == ':'
  {
    Layout(FourDigits(t.year), TwoDigits(t.month), TwoDigits(t.day),
      TwoDigits(t.hour), TwoDigits(t.minute), TwoDigits(t.second));
    FourDigits(t.year) + "-" + TwoDigits(t.month) + "-" + TwoDigits(t.day) + " "
      + TwoDigits(t.hour) + ":" + TwoDigits(t.minute) + ":" + TwoDigits(t.second)
  }

  /** Reads "yyyy-MM-dd HH:mm:ss" back: the separators at their places and digits everywhere else. */
  function ParseTimestamp(s: string): Option<Timestamp>
  {
    if |s| == 19 && s[4] == '-' && s[7] == '-' && s[10] == ' ' && s[13] == ':' && s[16] == ':'
      && AllDigits(s[0..4]) && AllDigits(s[5..7]) && AllDigits(s[8..10])
      && AllDigits(s[11..13]) && AllDigits(s[14..16]) && AllDigits(s[17..19])
    then
      Some(Timestamp(DigitsToNat(s[0..4]), DigitsToNat(s[5..7]), DigitsToNat(s[8..10]),
        DigitsToNat(s[11..13]), DigitsToNat(s[14..16]), DigitsToNat(s[17..19])))
    else None
  }

  /** Every timestamp the log writes reads back as itself. */
  lemma TimestampRoundTrip(t: Timestamp)
    requires ValidTimestamp(t)
    ensures |FormatTimestamp(t)| == 19
    ensures ParseTimestamp(FormatTimestamp(t)) == Some(t)
  {
    FourDigitsRoundTrip(t.year);
    TwoDigitsRoundTrip(t.month);
    TwoDigitsRoundTrip(t.day);
    TwoDigitsRoundTrip(t.hour);
    TwoDigitsRoundTrip(t.minute);
    TwoDigitsRoundTrip(t.second);
    Layout(FourDigits(t.year), TwoDigits(t.month), TwoDigits(t.day),
      TwoDigits(t.hour), TwoDigits(t.minute), TwoDigits(t.second));
  }

  /** Where each field sits in "yyyy-MM-dd HH:mm:ss". */
  lemma Layout(y: string, mo: string, d: string, h: string, mi: string, se: string)
    requires |y| == 4 && |mo| == 2 && |d| == 2 && |h| == 2 && |mi| == 2 && |se| == 2
    ensures var s := y + "-" + mo + "-" + d + " " + h + ":" + mi + ":" + se;
      && |s| == 19 && s[4] == '-' && s[7] == '-' && s[10] == ' ' && s[13] == ':' && s[16] == ':'
      && s[0..4] == y && s[5..7] == mo && s[8..10] == d
      && s[11..13] == h && s[14..16] == mi && s[17..19] == se
  {
    var date := y + "-" + mo + "-" + d;
    var time := h + ":" + mi + ":" + se;
    assert date[0..4] == y && date[5..7] == mo && date[8..10] == d;
    assert time[0..2] == h && time[3..5] == mi && time[6..8] == se;
    var s := date + " " + time;
    assert s == y + "-" + mo + "-" + d + " " + h + ":" + mi + ":" + se;
    assert s[..10] == date && s[11..] == time;
    assert s[0..4] == date[0..4] && s[5..7] == date[5..7] && s[8..10] == date[8..10];
    assert s[11..13] == time[0..2] && s[14..16] == time[3..5] && s[17..19] == time[6..8];
  }

  // ---------------------------------------------------------------------------
  // Log lines
  // ---------------------------------------------------------------------------

  const Separator: string := " - "

  /** `LogMessage`'s entry: timestamp, " - ", the message, and `Environment.NewLine`. */
  function LogEntry(at: Timestamp, message: string, newline: string): (e: string)
    requires ValidTimestamp(at)
    ensures |e| == 22 + |message| + |newline|
    ensures e[..19] == FormatTimestamp(at) && e[19..22] == Separator
    ensures e[|e| - |newline|..] == newline
  {
    FormatTimestamp(at) + Separator + message + newline
  }

  /** Splits a log line into its timestamp and message, given the line terminator. */
  function ParseLogEntry(entry: string, newline: string): Option<(Timestamp, string)>
  {
    if |entry| >= 22 + |newline| && entry[19..22] == Separator && entry[|entry| - |newline|..] == newline
    then
      match ParseTimestamp(entry[..19])
      case Some(at) => Some((at, entry[22..|entry| - |newline|]))
      case None => None
    else None
  }

  /** Every line the watcher logs reads back as its timestamp and its message, whatever the message holds. */
  lemma LogEntryRoundTrip(at: Timestamp, message: string, newline: string)
    requires ValidTimestamp(at)
    ensures ParseLogEntry(LogEntry(at, message, newline), newline) == Some((at, message))
  {
    var ts := FormatTimestamp(at);
    TimestampRoundTrip(at);
    var entry := LogEntry(at, message, newline);
    assert entry == ts + Separator + message + newline;
    assert entry[..19] == ts;
    assert entry[19..22] == Separator;
    assert entry[|entry| - |newline|..] == newline;
    assert entry[22..|entry| - |newline|] == message;
    TimestampRoundTrip(at);
  }

  // ---------------------------------------------------------------------------
  // Messages
  // ---------------------------------------------------------------------------

  function StartedMessage(folder: string): string { "Начато наблюдение за папкой: " + folder }
  function DetectedMessage(name: string): string { "Обнаружен новый временный файл: " + name }
  function DeletedMessage(name: string): string { "Файл " + name + " успешно удален" }
  function DeleteFailedMessage(name: string, cause: string): string { "Ошибка при удалении файла " + name + ": " + cause }
  function RemovedMessage(name: string): string { "Файл " + name + " был удален" }
  function RenamedMessage(oldName: string, name: string): string { "Файл " + oldName + " переименован в " + name }
  function RenamedDeletedMessage(name: string): string { "Переименованный файл " + name + " удален" }
  function RenamedDeleteFailedMessage(cause: string): string { "Ошибка при удалении переименованного файла: " + cause }
  function WatcherErrorMessage(cause: string): string { "Ошибка в FileSystemWatcher: " + cause }
  const StoppedMessage: string := "Наблюдение за папкой остановлено"

  /** The log tells a successful delete from a failed one, for a created and for a renamed file. */
  lemma OutcomesDistinguishable(name: string, cause: string)
    ensures DeletedMessage(name) != DeleteFailedMessage(name, cause)
    ensures RenamedDeletedMessage(name) != RenamedDeleteFailedMessage(cause)
  {
    assert DeletedMessage(name)[0] == 'Ф' && DeleteFailedMessage(name, cause)[0] == 'О';
    assert RenamedDeletedMessage(name)[0] == 'П' && RenamedDeleteFailedMessage(cause)[0] == 'О';
  }

  // ---------------------------------------------------------------------------
  // The ".tmp" rule of OnFileRenamed
  // ---------------------------------------------------------------------------

  /** The directory separators of a Windows path. */
  predicate IsDirectorySeparator(c: char) { c == '\\' || c == '/' }

  /** `Path.GetExtension`, scanning from position `i` towards the start: the text from the last
      '.' to the end, or "" when a separator comes first, there is no '.', or the '.' is the last character. */
  function ExtensionScan(path: string, i: nat): (ext: string)
    requires i <= |path|
    ensures ext == [] || (2 <= |ext| <= |path| && ext[0] == '.' && ext == path[|path| - |ext|..])
  {
    if i == 0 then ""
    else if path[i - 1] == '.' then (if i == |path| then "" else path[i - 1..])
    else if IsDirectorySeparator(path[i - 1]) then ""
    else ExtensionScan(path, i - 1)
  }

  function GetExtension(path: string): (ext: string)
    ensures ext == [] || (2 <= |ext| <= |path| && ext[0] == '.' && ext == path[|path| - |ext|..])
  {
    ExtensionScan(path, |path|)
  }

  /** A non-empty scan result starts at a '.' before `i`, with neither a '.' nor a separator
      between that '.' and `i`. */
  lemma {:induction false} ScanFoundShape(path: string, i: nat)
    requires i <= |path| && ExtensionScan(path, i) != []
    ensures var start := |path| - |ExtensionScan(path, i)|;
      start < i && forall j :: start < j < i ==> path[j] != '.' && !IsDirectorySeparator(path[j])
  {
    if path[i - 1] == '.' {
      assert |ExtensionScan(path, i)| == |path| - (i - 1);
    } else {
      assert !IsDirectorySeparator(path[i - 1]);
      assert ExtensionScan(path, i) == ExtensionScan(path, i - 1);
      ScanFoundShape(path, i - 1);
    }
  }

  /** An empty scan result means the '.' is the path's last character, or every '.' before `i`
      is followed by a separator before `i`. */
  lemma {:induction false} ScanEmptyShape(path: string, i: nat)
    requires i <= |path| && ExtensionScan(path, i) == []
    ensures || (i == |path| && i > 0 && path[i - 1] == '.')
            || forall j :: 0 <= j < i && path[j] == '.' ==> exists k :: j < k < i && IsDirectorySeparator(path[k])
  {
    if i > 0 && path[i - 1] != '.' {
      if !IsDirectorySeparator(path[i - 1]) {
        ScanEmptyShape(path, i - 1);
      }
      forall j | 0 <= j < i && path[j] == '.' ensures exists k :: j < k < i && IsDirectorySeparator(path[k]) {
        if IsDirectorySeparator(path[i - 1]) {
          assert j < i - 1;
        } else {
          var k :| j < k < i - 1 && IsDirectorySeparator(path[k]);
        }
      }
    }
  }

  /** `Path.GetExtension` exactly: the extension runs from the last '.' of the file name to the
      end, with no '.' or separator after that '.'; it is empty when the name has no '.', or the
      path ends in '.', or every '.' belongs to a directory name. */
  lemma GetExtensionShape(path: string)
    ensures var ext := GetExtension(path);
      ext != [] ==> forall j :: 1 <= j < |ext| ==> ext[j] != '.' && !IsDirectorySeparator(ext[j])
    ensures var ext := GetExtension(path);
      ext == [] ==>
        || (|path| > 0 && path[|path| - 1] == '.')
        || forall j :: 0 <= j < |path| && path[j] == '.' ==> exists k :: j < k < |path| && IsDirectorySeparator(path[k])
  {
    var ext := GetExtension(path);
    if ext == [] {
      ScanEmptyShape(path, |path|);
    } else {
      ScanFoundShape(path, |path|);
      forall j | 1 <= j < |ext| ensures ext[j] != '.' && !IsDirectorySeparator(ext[j]) {
        assert ext[j] == path[|path| - |ext| + j];
      }
    }
  }

  /** `char` upper-casing as `StringComparison.OrdinalIgnoreCase` applies it; only the ASCII
      letters matter when the other side is ".tmp". */
  function AsciiUpper(c: char): char
  {
    if 'a' <= c <= 'z' then (c as int - 32) as char else c
  }

  predicate EqualsIgnoreCase(a: string, b: string)
  {
    |a| == |b| && forall i :: 0 <= i < |a| ==> AsciiUpper(a[i]) == AsciiUpper(b[i])
  }

  /** The rename rule: the new name's extension equals ".tmp", ignoring case. */
  predicate IsTmpName(name: string)
  {
    EqualsIgnoreCase(GetExtension(name), ".tmp")
  }

  /** An independent statement of the rule: the name ends in '.' followed by t, m, p in any case. */
  predicate EndsInTmp(name: string)
  {
    && |name| >= 4 && name[|name| - 4] == '.'
    && (name[|name| - 3] == 't' || name[|name| - 3] == 'T')
    && (name[|name| - 2] == 'm' || name[|name| - 2] == 'M')
    && (name[|name| - 1] == 'p' || name[|name| - 1] == 'P')
  }

  /** The extension rule and the suffix rule agree on every name. */
  lemma IsTmpNameIff(name: string)
    ensures IsTmpName(name) <==> EndsInTmp(name)
  {
    if EndsInTmp(name) {
      EndsInTmpIsTmp(name);
    }
    if EqualsIgnoreCase(GetExtension(name), ".tmp") {
      IsTmpEndsInTmp(name);
    }
  }

  /** Scanning past a character that is neither '.' nor a separator. */
  lemma ScanSkips(path: string, i: nat)
    requires 1 <= i <= |path| && path[i - 1] != '.' && !IsDirectorySeparator(path[i - 1])
    ensures ExtensionScan(path, i) == ExtensionScan(path, i - 1)
  {
  }

  /** Scanning stops at a '.' that is not the last character. */
  lemma ScanDot(path: string, i: nat)
    requires 1 <= i < |path| && path[i - 1] == '.'
    ensures ExtensionScan(path, i) == path[i - 1..]
  {
  }

  lemma EndsInTmpIsTmp(name: string)
    requires EndsInTmp(name)
    ensures IsTmpName(name)
  {
    var n := |name|;
    TmpTail(name);
    ScanSkips(name, n);
    ScanSkips(name, n - 1);
    ScanSkips(name, n - 2);
    ScanDot(name, n - 3);
    var ext := GetExtension(name);
    assert ext == name[n - 4..];
    assert ext[1] == name[n - 3] && ext[2] == name[n - 2] && ext[3] == name[n - 1];
  }

  /** The last three characters of a name ending in ".tmp" are not separators, and upper-case to "TMP". */
  lemma TmpTail(name: string)
    requires EndsInTmp(name)
    ensures forall k :: |name| - 3 <= k < |name| ==> name[k] != '.' && !IsDirectorySeparator(name[k])
    ensures AsciiUpper(name[|name| - 3]) == 'T' && AsciiUpper(name[|name| - 2]) == 'M' && AsciiUpper(name[|name| - 1]) == 'P'
    ensures AsciiUpper('.') == '.'
  {
    UpperTmp();
  }

  lemma IsTmpEndsInTmp(name: string)
    requires IsTmpName(name)
    ensures EndsInTmp(name)
  {
    var n := |name|;
    var ext := GetExtension(name);
    assert |ext| == 4 && ext == name[n - 4..];
    assert ext[1] == name[n - 3] && ext[2] == name[n - 2] && ext[3] == name[n - 1];
    UpperTmp();
    UpperTmpInverse(ext[1]);
    UpperTmpInverse(ext[2]);
    UpperTmpInverse(ext[3]);
  }

  lemma UpperTmp()
    ensures AsciiUpper('.') == '.' && AsciiUpper('t') == 'T' && AsciiUpper('m') == 'M' && AsciiUpper('p') == 'P'
    ensures AsciiUpper('T') == 'T' && AsciiUpper('M') == 'M' && AsciiUpper('P') == 'P'
  {
  }

  /** Only 't' and 'T' upper-case to 'T', and likewise for '.', 'M' and 'P'. */
  lemma UpperTmpInverse(c: char)
    ensures AsciiUpper(c) == '.' ==> c == '.'
    ensures AsciiUpper(c) == 'T' ==> c == 't' || c == 'T'
    ensures AsciiUpper(c) == 'M' ==> c == 'm' || c == 'M'
    ensures AsciiUpper(c) == 'P' ==> c == 'p' || c == 'P'
  {
  }

  /** The rule on the examples: "x.TMP" matches; "x.tmp.bak", "x.tmp." and "tmp" do not. */
  lemma TmpNameExamples()
    ensures IsTmpName("x.TMP") && IsTmpName("a.Tmp")
    ensures !IsTmpName("x.tmp.bak") && !IsTmpName("x.tmp.") && !IsTmpName("tmp")
  {
    IsTmpNameIff("x.TMP");
    IsTmpNameIff("a.Tmp");
    IsTmpNameIff("x.tmp.bak");
    IsTmpNameIff("x.tmp.");
    IsTmpNameIff("tmp");
  }
}
