/** ConsoleApp3: a writer that keeps transactions in a text file, one `Id|Amount` line each,
    and lists the file back on the console. The file at the writer's path is modelled as
    `None` when it does not exist and otherwise as the sequence of its lines. */
module TransactionFileWriting {
  import opened Wrappers
  import opened Text
  import opened Numbers
  import opened Transactions

  /** What DisplayAllTransactions reports, one notice per console line that carries information. */
  datatype Notice =
    | EmptyFile               // the file is missing or has length zero
    | Heading                 // printed once before the listing
    | Listed(t: Transaction)  // a well-formed line, shown as its Id and Amount
    | FormatErrorReported     // a line that raised a format error: reported, and the listing goes on
    | ReadErrorReported       // any other exception while reading: reported, and the listing stops

  function LinesOf(file: Option<seq<string>>): seq<string>
  {
    if file.None? then [] else file.value
  }

  /** The notice for one line: its transaction, or the kind of exception parsing it raised.
      An Id outside the 32-bit range raises OverflowException, which the per-line handler
      (it catches FormatException only) lets through to the handler around the whole read. */
  function LineNotice(line: string): (n: Notice)
    ensures n.Listed? <==> FromFileString(line).Success?
    ensures n == ReadErrorReported <==> FromFileString(line) == Failure(OverflowError)
    ensures n == FormatErrorReported <==> FromFileString(line) == Failure(FormatError)
    ensures n.Listed? ==> n.t == FromFileString(line).value
  {
    match FromFileString(line)
    case Success(t) => Listed(t)
    case Failure(FormatError) => FormatErrorReported
    case Failure(OverflowError) => ReadErrorReported
  }

  /** The listing of `lines` as DisplayAllTransactions produces it, as written: one notice per
      line in file order, ending at the first line whose notice is a read error. */
  function Listing(lines: seq<string>): (r: seq<Notice>)
    ensures |r| <= |lines| && EmptyFile !in r && Heading !in r
    ensures forall k :: 0 <= k < |r| - 1 ==> r[k] != ReadErrorReported
  {
    if lines == [] then []
    else
      var n := LineNotice(lines[0]);
      if n == ReadErrorReported then [n] else [n] + Listing(lines[1..])
  }

  /** Everything DisplayAllTransactions reports for a given state of the file. */
  function DisplayReport(file: Option<seq<string>>): (r: seq<Notice>)
    ensures r == [EmptyFile] <==> file.None? || file.value == []
    ensures |r| >= 1 && (r != [EmptyFile] ==> r[0] == Heading && EmptyFile !in r)
  {
    if file.None? || file.value == [] then [EmptyFile] else [Heading] + Listing(file.value)
  }

  /** When no line overflows, the listing visits every line in order: line k gets notice k,
      and a malformed line is skipped without stopping the lines after it. */
  lemma {:induction false} ListingVisitsEveryLine(lines: seq<string>)
    requires forall i :: 0 <= i < |lines| ==> FromFileString(lines[i]) != Failure(OverflowError)
    ensures |Listing(lines)| == |lines|
    ensures forall k :: 0 <= k < |lines| ==> Listing(lines)[k] == LineNotice(lines[k])
  {
    if lines != [] {
      ListingVisitsEveryLine(lines[1..]);
    }
  }

  /** A file written by AppendTransaction alone lists back exactly the transactions written, in order. */
  lemma {:induction false} ListingOfWritten(ts: seq<Transaction>)
    ensures Listing(FileLines(ts)) == seq(|ts|, i requires 0 <= i < |ts| => Listed(ts[i]))
  {
    var lines := FileLines(ts);
    forall i | 0 <= i < |lines|
      ensures FromFileString(lines[i]) == Success(ts[i])
    {
      RoundTrip(ts[i]);
    }
    ListingVisitsEveryLine(lines);
  }

  /** As written, one line with an out-of-range Id ends the listing: the line after it is never
      shown, however well-formed it is. */
  lemma OverflowEndsListing(next: string)
    ensures Listing([NatToDigits(0x8000_0000) + "|0", next]) == [ReadErrorReported]
  {
    OverflowLine();
    ListingStops([NatToDigits(0x8000_0000) + "|0", next]);
  }

  /** The line "2147483648|0" does not parse: its Id overflows. */
  lemma OverflowLine()
    ensures FromFileString(NatToDigits(0x8000_0000) + "|0") == Failure(OverflowError)
  {
    var digits := NatToDigits(0x8000_0000);
    NotIn(digits, '|');
    NotIn("0", '|');
    assert digits + "|0" == digits + ['|'] + "0";
    SplitPair(digits, "0", '|');
    OutOfRangeId(0x8000_0000);
  }

  /** A first line whose Id overflows ends the listing at once. */
  lemma ListingStops(lines: seq<string>)
    requires lines != [] && FromFileString(lines[0]) == Failure(OverflowError)
    ensures Listing(lines) == [ReadErrorReported]
  {
  }

  /** The notice the per-line handler evidently intends: an out-of-range Id is reported like a
      format error instead of escaping the handler. */
  function IntendedNotice(line: string): (n: Notice)
    ensures n.Listed? <==> FromFileString(line).Success?
    ensures n.Listed? || n == FormatErrorReported
    ensures FromFileString(line).Success? ==> n == LineNotice(line)
  {
    if FromFileString(line).Success? then LineNotice(line) else FormatErrorReported
  }

  /** The listing the per-line handler evidently intends: every line gets its notice, so the
      lines after a malformed one, out-of-range Ids included, are still listed. */
  function IntendedListing(lines: seq<string>): (r: seq<Notice>)
    ensures |r| == |lines|
    ensures forall k :: 0 <= k < |lines| ==> r[k] == IntendedNotice(lines[k])
    ensures ReadErrorReported !in r
  {
    if lines == [] then []
    else
      var rest := IntendedListing(lines[1..]);
      assert forall k :: 1 <= k < |lines| ==> lines[1..][k - 1] == lines[k];
      [IntendedNotice(lines[0])] + rest
  }

  /** As written, in general: the lines before the first out-of-range Id are listed as intended,
      that line is reported as a read error, and nothing after it is listed. */
  lemma {:induction false} ListingUpToOverflow(a: seq<string>, overflowing: string, b: seq<string>)
    requires forall i :: 0 <= i < |a| ==> FromFileString(a[i]) != Failure(OverflowError)
    requires FromFileString(overflowing) == Failure(OverflowError)
    ensures Listing(a + [overflowing] + b) == IntendedListing(a) + [ReadErrorReported]
  {
    if a == [] {
      assert a + [overflowing] + b == [overflowing] + b;
    } else {
      assert (a + [overflowing] + b)[1..] == a[1..] + [overflowing] + b;
      assert (a + [overflowing] + b)[0] == a[0];
      ListingUpToOverflow(a[1..], overflowing, b);
    }
  }

  /** The intended listing only differs from the listing as written on files with an out-of-range Id. */
  lemma {:induction false} IntendedListingAgrees(lines: seq<string>)
    requires forall i :: 0 <= i < |lines| ==> FromFileString(lines[i]) != Failure(OverflowError)
    ensures IntendedListing(lines) == Listing(lines)
  {
    if lines != [] {
      IntendedListingAgrees(lines[1..]);
    }
  }

  /** `TransactionFileWriter`: the writer and the file at its path. */
  class TransactionFileWriter {
    /** The transaction file: `None` when it does not exist, otherwise its lines. */
    var file: Option<seq<string>>

    /** Creates an empty file when none exists; an existing file is left as it is. */
    constructor (existing: Option<seq<string>>)
      ensures file == Some(LinesOf(existing))
    {
      file := Some(LinesOf(existing));
    }

    /** Appends `ToFileString(t)` as one new line, creating the file if it has gone missing.
        An I/O failure is caught and reported, and then the file is as it was; `added` says
        which of the two console messages was printed. */
    method AppendTransaction(t: Transaction) returns (added: bool)
      modifies this
      ensures added ==> file == Some(LinesOf(old(file)) + [ToFileString(t)])
      ensures !added ==> file == old(file)
    {
      added := *;
      if added {
        file := Some(LinesOf(file) + [ToFileString(t)]);
      }
    }

    /** Reports "empty" for a missing or empty file; otherwise prints the heading and reads the
        file line by line, listing each well-formed line and reporting each malformed one. */
    method DisplayAllTransactions() returns (report: seq<Notice>)
      ensures report == DisplayReport(file)
    {
      if file.None? || |file.value| == 0 {
        report := [EmptyFile];
        return;
      }
      var lines := file.value;
      report := [Heading];
      var i := 0;
      while i < |lines|
        invariant 0 <= i <= |lines|
        invariant report + Listing(lines[i..]) == [Heading] + Listing(lines)
      {
        var notice := LineNotice(lines[i]);
        assert lines[i..][1..] == lines[i + 1..];
        report := report + [notice];
        if notice == ReadErrorReported {
          return;
        }
        i := i + 1;
      }
    }
  }
}
