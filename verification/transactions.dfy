/** The transaction record and its one-line text form `Id|Amount`, shared by the writer
    (ConsoleApp3) and the reader (ConsoleApp4), which declare the same record. */
module Transactions {
  import opened Wrappers
  import opened Text
  import opened Numbers

  datatype Transaction = Transaction(id: int32, amount: Decimal)

  /** `Transaction.ToFileString`: the Id, one '|', the Amount. */
  function ToFileString(t: Transaction): (line: string)
    ensures Count(line, '|') == 1
    ensures Split(line, '|') == [FormatInt(t.id as int), FormatDecimal(t.amount)]
    ensures !IsBlank(line)
    ensures '\n' !in line && '\r' !in line
  {
    var id, amount := FormatInt(t.id as int), FormatDecimal(t.amount);
    LineShape(id, amount);
    id + "|" + amount
  }

  lemma LineShape(id: string, amount: string)
    requires IsNumeral(id) && IsNumeral(amount)
    ensures var line := id + "|" + amount;
      && Count(line, '|') == 1 && Split(line, '|') == [id, amount]
      && !IsBlank(line) && '\n' !in line && '\r' !in line
  {
    var line := id + "|" + amount;
    NumeralChars(id);
    NumeralChars(amount);
    assert line == id + ['|'] + amount;
    SplitPair(id, amount, '|');
    assert line[|id|] == '|' && !IsWhiteSpace('|');
  }

  /** A number's text holds no separator, no line break and no white space. */
  lemma NumeralChars(s: string)
    requires IsNumeral(s)
    ensures '|' !in s && '\n' !in s && '\r' !in s
  {
    forall i | 0 <= i < |s| ensures s[i] != '|' && s[i] != '\n' && s[i] != '\r' {
      assert IsDigit(s[i]) || s[i] == '-' || s[i] == '.';
    }
  }

  /** `Transaction.FromFileString`: split on '|'; anything but exactly two parts is a format error;
      then the Id is parsed, then the Amount, and the first failure is the result. */
  function FromFileString(data: string): (r: Result<Transaction, ParseError>)
    ensures Count(data, '|') != 1 ==> r == Failure(FormatError)
    ensures Count(data, '|') == 1 ==>
      (r.Success? <==> ParseInt32(Split(data, '|')[0]).Success? && ParseDecimal(Split(data, '|')[1]).Success?)
    ensures Count(data, '|') == 1 && ParseInt32(Split(data, '|')[0]).Failure? ==>
      r == Failure(ParseInt32(Split(data, '|')[0]).error)
    ensures Count(data, '|') == 1 && ParseInt32(Split(data, '|')[0]).Success? && ParseDecimal(Split(data, '|')[1]).Failure? ==>
      r == Failure(ParseDecimal(Split(data, '|')[1]).error)
    ensures r.Success? ==>
      && Count(data, '|') == 1
      && ParseInt32(Split(data, '|')[0]).Success? && ParseDecimal(Split(data, '|')[1]).Success?
      && r.value == Transaction(ParseInt32(Split(data, '|')[0]).value, ParseDecimal(Split(data, '|')[1]).value)
  {
    var parts := Split(data, '|');
    if |parts| != 2 then Failure(FormatError)
    else
      match ParseInt32(parts[0])
      case Failure(e) => Failure(e)
      case Success(id) =>
        match ParseDecimal(parts[1])
        case Failure(e) => Failure(e)
        case Success(amount) => Success(Transaction(id, amount))
  }

  /** Reading a written line gives back the same transaction, Id and Amount (scale included). */
  lemma RoundTrip(t: Transaction)
    ensures FromFileString(ToFileString(t)) == Success(t)
  {
    IntRoundTrip(t.id);
    DecimalRoundTrip(t.amount);
  }

  /** The lines of a file holding `ts`, one written line per transaction, in order. */
  function FileLines(ts: seq<Transaction>): (lines: seq<string>)
    ensures |lines| == |ts|
  {
    seq(|ts|, i requires 0 <= i < |ts| => ToFileString(ts[i]))
  }
}
