/** Character and string helpers shared by the line codec and the watcher's log format:
    splitting on a separator character, decimal digit strings, zero padding, and the
    whitespace test that decides whether a line counts as blank. */
module Text {

  // ---------------------------------------------------------------------------
  // Splitting on a separator character (string.Split(char) in .NET)
  // ---------------------------------------------------------------------------

  /** Number of occurrences of `c` in `s`. */
  function Count(s: string, c: char): (n: nat)
    ensures n <= |s|
    ensures n == 0 <==> c !in s
  {
    if s == [] then 0 else (if s[0] == c then 1 else 0) + Count(s[1..], c)
  }

  /** Splits `s` at every occurrence of `sep`. Like .NET, the result is never empty:
      a string without `sep` gives one part, and adjacent separators give empty parts. */
  function Split(s: string, sep: char): (parts: seq<string>)
    ensures |parts| == Count(s, sep) + 1
    ensures forall i :: 0 <= i < |parts| ==> sep !in parts[i]
  {
    if s == [] then [""]
    else
      var rest := Split(s[1..], sep);
      if s[0] == sep then [""] + rest else [[s[0]] + rest[0]] + rest[1..]
  }

  /** Inverse of Split: the parts glued back together with the separator between them. */
  function Join(parts: seq<string>, sep: char): string
  {
    if parts == [] then ""
    else if |parts| == 1 then parts[0]
    else parts[0] + [sep] + Join(parts[1..], sep)
  }

  /** Splitting loses nothing: joining the parts gives back the original string. */
  lemma {:induction false} JoinSplit(s: string, sep: char)
    ensures Join(Split(s, sep), sep) == s
  {
    if s != [] {
      var rest := Split(s[1..], sep);
      JoinSplit(s[1..], sep);
      if s[0] == sep {
        assert Split(s, sep) == [""] + rest;
        assert ([""] + rest)[1..] == rest;
      } else {
        var parts := Split(s, sep);
        assert parts == [[s[0]] + rest[0]] + rest[1..];
        if |rest| == 1 {
          assert Join(parts, sep) == [s[0]] + rest[0];
        } else {
          assert parts[1..] == rest[1..];
          assert Join(rest, sep) == rest[0] + [sep] + Join(rest[1..], sep);
        }
      }
    }
  }

  /** A string without the separator is a single part. */
  lemma {:induction false} SplitWithoutSeparator(s: string, sep: char)
    requires sep !in s
    ensures Split(s, sep) == [s]
  {
    if s != [] {
      SplitWithoutSeparator(s[1..], sep);
      assert [s[0]] + s[1..] == s;
    }
  }

  /** A separator after a separator-free prefix ends the first part exactly there. */
  lemma {:induction false} SplitAtFirstSeparator(a: string, b: string, sep: char)
    requires sep !in a
    ensures Split(a + [sep] + b, sep) == [a] + Split(b, sep)
  {
    if a == [] {
      assert a + [sep] + b == [sep] + b;
      assert ([sep] + b)[1..] == b;
    } else {
      var s := a + [sep] + b;
      assert s[0] == a[0] && s[1..] == a[1..] + [sep] + b;
      SplitAtFirstSeparator(a[1..], b, sep);
      var rest := Split(s[1..], sep);
      assert rest == [a[1..]] + Split(b, sep);
      assert s[0] != sep;
      assert Split(s, sep) == [[s[0]] + rest[0]] + rest[1..];
      assert [a[0]] + a[1..] == a;
    }
  }

  /** Splitting `a + sep + b` where neither part holds the separator gives exactly `[a, b]`. */
  lemma SplitPair(a: string, b: string, sep: char)
    requires sep !in a && sep !in b
    ensures Split(a + [sep] + b, sep) == [a, b]
  {
    SplitAtFirstSeparator(a, b, sep);
    SplitWithoutSeparator(b, sep);
  }

  // ---------------------------------------------------------------------------
  // Decimal digits
  // ---------------------------------------------------------------------------

  predicate IsDigit(c: char) { '0' <= c <= '9' }

  predicate AllDigits(s: string) { forall i :: 0 <= i < |s| ==> IsDigit(s[i]) }

  function DigitChar(d: nat): (c: char)
    requires d < 10
    ensures IsDigit(c)
  {
    (d + '0' as int) as char
  }

  function DigitValue(c: char): (d: nat)
    requires IsDigit(c)
    ensures d < 10
  {
    c as int - '0' as int
  }

  function Pow10(k: nat): (p: nat)
    ensures p >= 1
  {
    if k == 0 then 1 else 10 * Pow10(k - 1)
  }

  /** The value of a string of decimal digits, most significant first. */
  function DigitsToNat(s: string): (n: nat)
    requires AllDigits(s)
    ensures n < Pow10(|s|)
  {
    if s == [] then 0 else DigitsToNat(s[..|s| - 1]) * 10 + DigitValue(s[|s| - 1])
  }

  /** The shortest decimal rendering of `n`: no leading zero, "0" for zero. */
  function NatToDigits(n: nat): (s: string)
    ensures |s| >= 1 && AllDigits(s)
    ensures |s| > 1 ==> s[0] != '0'
    ensures DigitsToNat(s) == n
  {
    if n < 10 then [DigitChar(n)]
    else
      var r := NatToDigits(n / 10) + [DigitChar(n % 10)];
      assert r[..|r| - 1] == NatToDigits(n / 10);
      r
  }

  function Zeros(k: nat): (s: string)
    ensures |s| == k && AllDigits(s)
  {
    seq(k, _ => '0')
  }

  /** `n` in decimal, left-padded with zeros to at least `width` characters
      (the "00" and "0000" custom formats, and a decimal's fraction digits). */
  function PadDigits(n: nat, width: nat): string
  {
    var d := NatToDigits(n);
    if |d| < width then Zeros(width - |d|) + d else d
  }

  /** Padding keeps the value, and a number below 10^width fills exactly `width` digits. */
  lemma PadDigitsShape(n: nat, width: nat)
    ensures AllDigits(PadDigits(n, width)) && DigitsToNat(PadDigits(n, width)) == n
    ensures n < Pow10(width) && width >= 1 ==> |PadDigits(n, width)| == width
  {
    var d := NatToDigits(n);
    if |d| < width {
      LeadingZeros(width - |d|, d);
    } else if n < Pow10(width) && width >= 1 {
      DigitsLength(n, width);
    }
  }

  lemma {:induction false} DigitsOfZeros(k: nat)
    ensures DigitsToNat(Zeros(k)) == 0
  {
    if k > 0 {
      assert Zeros(k)[..k - 1] == Zeros(k - 1);
      DigitsOfZeros(k - 1);
    }
  }

  lemma AllDigitsConcat(a: string, b: string)
    requires AllDigits(a) && AllDigits(b)
    ensures AllDigits(a + b)
  {
    forall i | 0 <= i < |a + b| ensures IsDigit((a + b)[i]) {
      if i < |a| { assert (a + b)[i] == a[i]; } else { assert (a + b)[i] == b[i - |a|]; }
    }
  }

  /** The arithmetic of one more digit: if v' = x·p' + y', appending digit d to both v' and y'
      keeps the shape with p = 10·p'. */
  lemma ShiftStep(v: int, v': int, x: int, y: int, y': int, p: int, p': int, d: int)
    requires v == v' * 10 + d && v' == x * p' + y' && y == y' * 10 + d && p == 10 * p'
    ensures v == x * p + y
  {
  }

  /** Reading `a` followed by `b` shifts `a` left by the length of `b`. */
  lemma {:induction false} DigitsConcat(a: string, b: string)
    requires AllDigits(a) && AllDigits(b)
    ensures AllDigits(a + b)
    ensures DigitsToNat(a + b) == DigitsToNat(a) * Pow10(|b|) + DigitsToNat(b)
  {
    AllDigitsConcat(a, b);
    if b == [] {
      assert a + b == a;
    } else {
      var b' := b[..|b| - 1];
      var d := DigitValue(b[|b| - 1]);
      assert (a + b)[..|a + b| - 1] == a + b';
      assert (a + b)[|a + b| - 1] == b[|b| - 1];
      DigitsConcat(a, b');
      ShiftStep(DigitsToNat(a + b), DigitsToNat(a + b'), DigitsToNat(a), DigitsToNat(b), DigitsToNat(b'),
        Pow10(|b|), Pow10(|b'|), d);
    }
  }

  /** Leading zeros do not change the value of a digit string. */
  lemma LeadingZeros(k: nat, s: string)
    requires AllDigits(s)
    ensures AllDigits(Zeros(k) + s) && DigitsToNat(Zeros(k) + s) == DigitsToNat(s)
  {
    DigitsConcat(Zeros(k), s);
    DigitsOfZeros(k);
  }

  /** A number below 10^k needs at most k digits. */
  lemma {:induction false} DigitsLength(n: nat, k: nat)
    requires k >= 1 && n < Pow10(k)
    ensures |NatToDigits(n)| <= k
  {
    if n >= 10 {
      assert k >= 2 by { assert Pow10(1) == 10; }
      assert n / 10 < Pow10(k - 1) by {
        assert Pow10(k) == 10 * Pow10(k - 1);
      }
      DigitsLength(n / 10, k - 1);
    }
  }

  // ---------------------------------------------------------------------------
  // Whitespace (char.IsWhiteSpace and string.IsNullOrWhiteSpace in .NET)
  // ---------------------------------------------------------------------------

  /** The Unicode white-space characters: the separators of categories Zs, Zl and Zp,
      the controls U+0009 to U+000D, and U+0085. */
  predicate IsWhiteSpace(c: char)
  {
    || c == ' ' || ('\t' <= c <= '\r') || c == '\U{85}' || c == '\U{A0}' || c == '\U{1680}'
    || ('\U{2000}' <= c <= '\U{200A}') || c == '\U{2028}' || c == '\U{2029}'
    || c == '\U{202F}' || c == '\U{205F}' || c == '\U{3000}'
  }

  /** A blank line: empty, or nothing but white space. */
  predicate IsBlank(s: string)
  {
    forall i :: 0 <= i < |s| ==> IsWhiteSpace(s[i])
  }

  /** A line is blank exactly when both of its pieces are. */
  lemma BlankConcat(a: string, b: string)
    ensures IsBlank(a + b) <==> IsBlank(a) && IsBlank(b)
  {
    if IsBlank(a + b) {
      forall i | 0 <= i < |a| ensures IsWhiteSpace(a[i]) { assert (a + b)[i] == a[i]; }
      forall i | 0 <= i < |b| ensures IsWhiteSpace(b[i]) { assert (a + b)[|a| + i] == b[i]; }
    }
  }

  /** The empty line, spaces, tabs, line breaks and the no-break and ideographic spaces are
      blank; a line holding a digit or a '|' is not. */
  lemma BlankExamples()
    ensures IsBlank("") && IsBlank("  \t\r\n") && IsBlank("\U{A0}\U{3000}")
    ensures !IsBlank(" 1 ") && !IsBlank("|")
  {
    assert " 1 "[1] == '1';
    assert "|"[0] == '|';
  }
}
