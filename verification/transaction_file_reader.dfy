/** ConsoleApp4, the reader: `TransactionFileReader.ReadTransactions` reads the transaction file
    line by line, skips blank lines, keeps every line that parses and reports every other line
    by its 1-based line number. The file is `None` when it does not exist, else its lines. */
module TransactionFileReading {
  import opened Wrappers
  import opened Text
  import opened Transactions

  /** The only error ReadTransactions raises to its caller in this model. */
  datatype ReadError = FileNotFound

  /** The transactions read from `lines`, in file order: one per non-blank line that parses. */
  function Accepted(lines: seq<string>): (ts: seq<Transaction>)
  {
    if lines == [] then []
    else
      var prior := Accepted(lines[..|lines| - 1]);
      var line := lines[|lines| - 1];
      if IsBlank(line) then prior
      else match FromFileString(line)
        case Success(t) => prior + [t]
        case Failure(_) => prior
  }

  /** The 1-based numbers of the lines reported as malformed, in file order. */
  function Rejected(lines: seq<string>): (ns: seq<nat>)
  {
    if lines == [] then []
    else
      var prior := Rejected(lines[..|lines| - 1]);
      var line := lines[|lines| - 1];
      if IsBlank(line) || FromFileString(line).Success? then prior else prior + [|lines|]
  }

  /** The number of lines that are not blank. */
  function NonBlankCount(lines: seq<string>): (n: nat)
    ensures n <= |lines|
  {
    if lines == [] then 0
    else NonBlankCount(lines[..|lines| - 1]) + (if IsBlank(lines[|lines| - 1]) then 0 else 1)
  }

  /** `ReadTransactions`: FileNotFound when the file is missing; otherwise the loop over lines,
      counting every line (blank ones too), skipping blank lines, keeping parsed transactions
      and reporting the number of each line that does not parse. */
  method ReadTransactions(file: Option<seq<string>>) returns (result: Result<seq<Transaction>, ReadError>, reported: seq<nat>)
    ensures file.None? ==> result == Failure(FileNotFound) && reported == []
    ensures file.Some? ==> result == Success(Accepted(file.value)) && reported == Rejected(file.value)
  {
    reported := [];
    if file.None? {
      return Failure(FileNotFound), reported;
    }
    var lines := file.value;
    var transactions: seq<Transaction> := [];
    var lineNumber := 0;
    while lineNumber < |lines|
      invariant 0 <= lineNumber <= |lines|
      invariant transactions == Accepted(lines[..lineNumber])
      invariant reported == Rejected(lines[..lineNumber])
    {
      var line := lines[lineNumber];
      assert lines[..lineNumber + 1][..lineNumber] == lines[..lineNumber];
      lineNumber := lineNumber + 1;
      if IsBlank(line) {
        continue;
      }
      match FromFileString(line) {
        case Success(t) =>
          transactions := transactions + [t];
        case Failure(_) =>
          reported := reported + [lineNumber];
      }
    }
    assert lines[..lineNumber] == lines;
    result := Success(transactions);
  }

  /** A line number is reported exactly when that line exists, is not blank, and does not parse. */
  lemma {:induction false} RejectedExactly(lines: seq<string>, n: nat)
    ensures n in Rejected(lines) <==>
      1 <= n <= |lines| && !IsBlank(lines[n - 1]) && FromFileString(lines[n - 1]).Failure?
  {
    if lines != [] {
      var prefix := lines[..|lines| - 1];
      RejectedExactly(prefix, n);
      if 1 <= n < |lines| {
        assert prefix[n - 1] == lines[n - 1];
      }
      if n in Rejected(prefix) {
        RejectedBounded(prefix);
      }
    }
  }

  lemma {:induction false} RejectedBounded(lines: seq<string>)
    ensures forall k :: 0 <= k < |Rejected(lines)| ==> 1 <= Rejected(lines)[k] <= |lines|
  {
    if lines != [] {
      RejectedBounded(lines[..|lines| - 1]);
    }
  }

  /** Reported line numbers come in increasing order, each once. */
  lemma {:induction false} RejectedIncreasing(lines: seq<string>)
    ensures forall i, j :: 0 <= i < j < |Rejected(lines)| ==> Rejected(lines)[i] < Rejected(lines)[j]
  {
    if lines != [] {
      RejectedIncreasing(lines[..|lines| - 1]);
      RejectedBounded(lines[..|lines| - 1]);
    }
  }

  /** Every non-blank line either yields a transaction or is reported, never both;
      so the result is never longer than the number of non-blank lines. */
  lemma {:induction false} EveryNonBlankLineAccounted(lines: seq<string>)
    ensures |Accepted(lines)| + |Rejected(lines)| == NonBlankCount(lines)
    ensures |Accepted(lines)| <= NonBlankCount(lines)
  {
    if lines != [] {
      EveryNonBlankLineAccounted(lines[..|lines| - 1]);
    }
  }

  /** Reading is line by line: the transactions of two consecutive stretches of a file are
      those of the first followed by those of the second. */
  lemma {:induction false} AcceptedConcat(a: seq<string>, b: seq<string>)
    ensures Accepted(a + b) == Accepted(a) + Accepted(b)
  {
    if b == [] {
      assert a + b == a;
    } else {
      var b' := b[..|b| - 1];
      assert (a + b)[..|a + b| - 1] == a + b';
      assert (a + b)[|a + b| - 1] == b[|b| - 1];
      AcceptedConcat(a, b');
    }
  }

  /** Lines that all parse read back as their transactions, in order. */
  lemma {:induction false} ReadBackParsed(lines: seq<string>, ts: seq<Transaction>)
    requires |lines| == |ts|
    requires forall i :: 0 <= i < |lines| ==> !IsBlank(lines[i]) && FromFileString(lines[i]) == Success(ts[i])
    ensures Accepted(lines) == ts
  {
    if lines != [] {
      var line, rest := lines[0], lines[1..];
      forall i | 0 <= i < |rest|
        ensures !IsBlank(rest[i]) && FromFileString(rest[i]) == Success(ts[1..][i])
      {
        assert rest[i] == lines[i + 1];
      }
      ReadBackParsed(rest, ts[1..]);
      AcceptedConcat([line], rest);
      assert [line] + rest == lines;
      assert [line][..0] == [];
      assert Accepted([line]) == [ts[0]];
      assert [ts[0]] + ts[1..] == ts;
    }
  }

  /** A file written by ConsoleApp3's AppendTransaction reads back as exactly the transactions
      written, in order, with nothing reported. */
  lemma ReadBackWritten(ts: seq<Transaction>)
    ensures Accepted(FileLines(ts)) == ts
    ensures Rejected(FileLines(ts)) == []
  {
    var lines := FileLines(ts);
    forall i | 0 <= i < |lines|
      ensures !IsBlank(lines[i]) && FromFileString(lines[i]) == Success(ts[i])
    {
      RoundTrip(ts[i]);
    }
    ReadBackParsed(lines, ts);
    EveryNonBlankLineAccounted(lines);
  }
}
