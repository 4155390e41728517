/** The CSV report written after the scan: a header line, then one line per
    row in row order, each `timestamp,blockHeight,txCount,medianBlockClosingTime`.
    The RFC 3339 (section 5.6) rendering of a timestamp is done by Go's time
    library; here it is a parameter `rfc3339` from the int64 nanosecond count
    to its text. Such text holds only digits, letters, '-', ':', '+' and '.',
    so never a comma or a line break, which is all the lemmas below assume. */
module Report {
  import opened Blocks

  /** The header line: the four column names separated by commas. It is
      spelled as a concatenation so that the verifier checks each short
      literal for line breaks instead of comparing one long literal. */
  const Header: string := "timestamp" + "," + "blockHeight" + "," + "txCount" + "," + "medianBlockClosingTime"

  predicate IsDigit(c: char)
  {
    '0' <= c <= '9'
  }

  predicate AllDigits(s: string)
  {
    forall i :: 0 <= i < |s| ==> IsDigit(s[i])
  }

  function DigitChar(d: nat): (c: char)
    requires d < 10
  {
    ('0' as int + d) as char
  }

  function DigitValue(c: char): nat
    requires IsDigit(c)
  {
    c as int - '0' as int
  }

  /** `%d` of a non-negative integer: base 10, at least one digit, no
      leading zero. */
  function Decimal(n: nat): string
  {
    if n < 10 then [DigitChar(n)] else Decimal(n / 10) + [DigitChar(n % 10)]
  }

  lemma {:induction false} DecimalDigits(n: nat)
    ensures |Decimal(n)| > 0 && AllDigits(Decimal(n))
    ensures |Decimal(n)| > 1 ==> Decimal(n)[0] != '0'
  {
    if n >= 10 {
      DecimalDigits(n / 10);
    }
  }

  /** `%d` of a signed integer. */
  function SignedDecimal(x: int): string
  {
    if x < 0 then "-" + Decimal(-x) else Decimal(x)
  }

  function ParseDecimal(s: string): nat
    requires AllDigits(s)
  {
    if s == [] then 0 else ParseDecimal(s[..|s| - 1]) * 10 + DigitValue(s[|s| - 1])
  }

  /** The text `SignedDecimal` can produce: digits, optionally after a '-'. */
  predicate IsSignedDecimal(s: string)
  {
    if |s| > 0 && s[0] == '-' then AllDigits(s[1..]) else AllDigits(s)
  }

  function ParseSigned(s: string): int
    requires IsSignedDecimal(s)
  {
    if |s| > 0 && s[0] == '-' then 0 - ParseDecimal(s[1..]) else ParseDecimal(s)
  }

  lemma {:induction false} DecimalRoundTrip(n: nat)
    ensures AllDigits(Decimal(n)) && ParseDecimal(Decimal(n)) == n
  {
    DecimalDigits(n);
    if n >= 10 {
      DecimalRoundTrip(n / 10);
      var s := Decimal(n);
      assert s[..|s| - 1] == Decimal(n / 10);
    }
  }

  lemma SignedDecimalRoundTrip(x: int)
    ensures IsSignedDecimal(SignedDecimal(x))
    ensures ParseSigned(SignedDecimal(x)) == x
  {
    if x < 0 {
      DecimalRoundTrip(-x);
      assert SignedDecimal(x)[1..] == Decimal(-x);
    } else {
      DecimalRoundTrip(x);
    }
  }

  /** One report line without its line break: `%s,%d,%d,%d`. */
  function CsvLine(row: Row, rfc3339: int -> string): string
  {
    rfc3339(ToInt64(row.timestamp)) + "," + Decimal(row.blockHeight) + "," + Decimal(row.txCount) + ","
      + SignedDecimal(row.medianBlockClosingTimeMs)
  }

  /** The lines of the report body, in row order. */
  function Lines(rows: seq<Row>, rfc3339: int -> string): seq<string>
  {
    if rows == [] then [] else Lines(rows[..|rows| - 1], rfc3339) + [CsvLine(Last(rows), rfc3339)]
  }

  /** Lines, each followed by a line break. */
  function Join(lines: seq<string>): string
  {
    if lines == [] then "" else Join(lines[..|lines| - 1]) + Last(lines) + "\n"
  }

  /** The whole report: the header line, then the rows' lines. */
  function ReportText(rows: seq<Row>, rfc3339: int -> string): string
  {
    Header + "\n" + Join(Lines(rows, rfc3339))
  }

  /** The report loop of main.go, writing into a growing buffer. */
  method Render(rows: seq<Row>, rfc3339: int -> string) returns (results: string)
    ensures results == ReportText(rows, rfc3339)
  {
    results := Header + "\n";
    for i := 0 to |rows|
      invariant results == Header + "\n" + Join(Lines(rows[..i], rfc3339))
    {
      var line := CsvLine(rows[i], rfc3339);
      LinesSnoc(rows, rfc3339, i);
      JoinSnoc(Lines(rows[..i], rfc3339), line);
      Associate(Header + "\n", Join(Lines(rows[..i], rfc3339)), line, "\n");
      results := results + line + "\n";
    }
    assert rows[..|rows|] == rows;
  }

  lemma LinesSnoc(rows: seq<Row>, rfc3339: int -> string, i: nat)
    requires i < |rows|
    ensures Lines(rows[..i + 1], rfc3339) == Lines(rows[..i], rfc3339) + [CsvLine(rows[i], rfc3339)]
  {
    assert rows[..i + 1][..i] == rows[..i];
  }

  lemma JoinSnoc(lines: seq<string>, line: string)
    ensures Join(lines + [line]) == Join(lines) + line + "\n"
  {
    assert (lines + [line])[..|lines|] == lines;
  }

  /** The pieces of `s` between occurrences of `sep` (Go's strings.Split). */
  function Split(s: string, sep: char): (fields: seq<string>)
    ensures |fields| > 0
  {
    if s == [] then [""]
    else
      var rest := Split(s[1..], sep);
      if s[0] == sep then [""] + rest else [[s[0]] + rest[0]] + rest[1..]
  }

  lemma {:induction false} SplitNoSeparator(s: string, sep: char)
    requires sep !in s
    ensures Split(s, sep) == [s]
  {
    if s != [] {
      SplitNoSeparator(s[1..], sep);
      assert [s[0]] + s[1..] == s;
    }
  }

  lemma {:induction false} SplitAfterField(a: string, sep: char, b: string)
    requires sep !in a
    ensures Split(a + [sep] + b, sep) == [a] + Split(b, sep)
  {
    var s := a + [sep] + b;
    if a == [] {
      assert s[1..] == b;
    } else {
      SplitAfterField(a[1..], sep, b);
      assert s[1..] == a[1..] + [sep] + b;
      assert [a[0]] + a[1..] == a;
    }
  }

  lemma DigitsAreNotSeparators(s: string)
    requires AllDigits(s)
    ensures ',' !in s && '\n' !in s && '-' !in s
  {
  }

  lemma SignedDecimalHasNoSeparator(x: int)
    ensures ',' !in SignedDecimal(x) && '\n' !in SignedDecimal(x)
  {
    DecimalDigits(if x < 0 then -x else x);
    DigitsAreNotSeparators(Decimal(if x < 0 then -x else x));
  }

  /** A line splits at its commas into exactly its four fields, in order. */
  lemma CsvLineFields(row: Row, rfc3339: int -> string)
    requires forall t :: ',' !in rfc3339(t)
    ensures Split(CsvLine(row, rfc3339), ',') == [rfc3339(ToInt64(row.timestamp)), Decimal(row.blockHeight),
                                                 Decimal(row.txCount), SignedDecimal(row.medianBlockClosingTimeMs)]
  {
    var f0, f1, f2, f3 := rfc3339(ToInt64(row.timestamp)), Decimal(row.blockHeight), Decimal(row.txCount),
                          SignedDecimal(row.medianBlockClosingTimeMs);
    DecimalDigits(row.blockHeight);
    DecimalDigits(row.txCount);
    DigitsAreNotSeparators(f1);
    DigitsAreNotSeparators(f2);
    SignedDecimalHasNoSeparator(row.medianBlockClosingTimeMs);
    var tail2 := f2 + [','] + f3;
    var tail1 := f1 + [','] + tail2;
    var line := f0 + [','] + tail1;
    assert CsvLine(row, rfc3339) == line;
    SplitNoSeparator(f3, ',');
    SplitAfterField(f2, ',', f3);
    SplitAfterField(f1, ',', tail2);
    SplitAfterField(f0, ',', tail1);
  }

  /** Reads a line back: its text timestamp and its three integers. */
  function ParseCsvLine(line: string): Option<(string, int, int, int)>
  {
    var f := Split(line, ',');
    if |f| == 4 && AllDigits(f[1]) && AllDigits(f[2]) && IsSignedDecimal(f[3])
    then Some((f[0], ParseDecimal(f[1]), ParseDecimal(f[2]), ParseSigned(f[3])))
    else None
  }

  /** Reading a line back gives the row's height, transaction count and
      closing time, and the rendered timestamp. */
  lemma CsvLineRoundTrip(row: Row, rfc3339: int -> string)
    requires forall t :: ',' !in rfc3339(t)
    ensures ParseCsvLine(CsvLine(row, rfc3339)) ==
              Some((rfc3339(ToInt64(row.timestamp)), row.blockHeight, row.txCount, row.medianBlockClosingTimeMs))
  {
    CsvLineFields(row, rfc3339);
    DecimalRoundTrip(row.blockHeight);
    DecimalRoundTrip(row.txCount);
    SignedDecimalRoundTrip(row.medianBlockClosingTimeMs);
  }

  lemma CsvLineHasNoLineBreak(row: Row, rfc3339: int -> string)
    requires forall t :: '\n' !in rfc3339(t)
    ensures '\n' !in CsvLine(row, rfc3339)
  {
    DecimalDigits(row.blockHeight);
    DecimalDigits(row.txCount);
    DigitsAreNotSeparators(Decimal(row.blockHeight));
    DigitsAreNotSeparators(Decimal(row.txCount));
    SignedDecimalHasNoSeparator(row.medianBlockClosingTimeMs);
  }

  lemma {:induction false} LinesAt(rows: seq<Row>, rfc3339: int -> string, i: nat)
    requires i < |rows|
    ensures |Lines(rows, rfc3339)| == |rows| && Lines(rows, rfc3339)[i] == CsvLine(rows[i], rfc3339)
  {
    var init := rows[..|rows| - 1];
    if |rows| > 1 {
      LinesAt(init, rfc3339, if i < |rows| - 1 then i else 0);
    }
  }

  lemma LinesHaveNoLineBreak(rows: seq<Row>, rfc3339: int -> string)
    requires forall t :: '\n' !in rfc3339(t)
    ensures |Lines(rows, rfc3339)| == |rows|
    ensures forall i :: 0 <= i < |rows| ==> '\n' !in Lines(rows, rfc3339)[i]
  {
    if rows == [] {
    } else {
      LinesAt(rows, rfc3339, 0);
    }
    forall i | 0 <= i < |rows|
      ensures '\n' !in Lines(rows, rfc3339)[i]
    {
      LinesAt(rows, rfc3339, i);
      CsvLineHasNoLineBreak(rows[i], rfc3339);
    }
  }

  /** Splitting joined lines at line breaks gives the lines back. */
  lemma {:induction false} JoinSplit(lines: seq<string>, rest: string)
    requires forall i :: 0 <= i < |lines| ==> '\n' !in lines[i]
    ensures Split(Join(lines) + rest, '\n') == lines + Split(rest, '\n')
  {
    if lines != [] {
      var init, line := lines[..|lines| - 1], Last(lines);
      var after := line + ['\n'] + rest;
      assert Join(lines) == Join(init) + line + "\n";
      Associate(Join(init), line, "\n", rest);
      assert Join(lines) + rest == Join(init) + after;
      assert forall i :: 0 <= i < |init| ==> init[i] == lines[i];
      JoinSplit(init, after);
      SplitAfterField(line, '\n', rest);
      assert init + [line] == lines;
      AssociateThree(init, [line], Split(rest, '\n'));
    } else {
      assert Join(lines) + rest == rest;
    }
  }

  /* Associate, AssociateThree and PartAt are stated over generic sequences
     only to keep the solver from expanding the report's concrete strings. */

  lemma Associate<T>(a: seq<T>, b: seq<T>, c: seq<T>, d: seq<T>)
    ensures a + b + c + d == a + (b + c + d)
  {
  }

  lemma PartAt<T>(first: T, middle: seq<T>, last: T, i: nat)
    requires i < |middle|
    ensures |[first] + middle + [last]| == |middle| + 2 && ([first] + middle + [last])[i + 1] == middle[i]
  {
  }

  lemma AssociateThree<T>(a: seq<T>, b: seq<T>, c: seq<T>)
    ensures a + (b + c) == a + b + c
  {
  }

  /** The report is the header line followed by one line per row, in row
      order, and ends with a line break. */
  lemma ReportLines(rows: seq<Row>, rfc3339: int -> string)
    requires forall t :: '\n' !in rfc3339(t)
    ensures Split(ReportText(rows, rfc3339), '\n') == [Header] + Lines(rows, rfc3339) + [""]
  {
    var lines := Lines(rows, rfc3339);
    LinesHaveNoLineBreak(rows, rfc3339);
    JoinSplit(lines, "");
    assert Join(lines) + "" == Join(lines);
    HeaderSplit(Join(lines));
  }

  lemma HeaderSplit(body: string)
    ensures Split(Header + "\n" + body, '\n') == [Header] + Split(body, '\n')
  {
    assert '\n' !in "timestamp" && '\n' !in "blockHeight" && '\n' !in "txCount";
    assert '\n' !in "medianBlockClosingTime";
    SplitAfterField(Header, '\n', body);
  }

  /** Line i + 1 of the report reads back as row i. */
  lemma ReportRoundTrip(rows: seq<Row>, rfc3339: int -> string, i: nat)
    requires forall t :: '\n' !in rfc3339(t) && ',' !in rfc3339(t)
    requires i < |rows|
    ensures |Split(ReportText(rows, rfc3339), '\n')| == |rows| + 2
    ensures ParseCsvLine(Split(ReportText(rows, rfc3339), '\n')[i + 1]) ==
              Some((rfc3339(ToInt64(rows[i].timestamp)), rows[i].blockHeight, rows[i].txCount, rows[i].medianBlockClosingTimeMs))
  {
    var lines, parts := Lines(rows, rfc3339), Split(ReportText(rows, rfc3339), '\n');
    ReportLines(rows, rfc3339);
    LinesAt(rows, rfc3339, i);
    PartAt(Header, lines, "", i);
    CsvLineRoundTrip(rows[i], rfc3339);
  }
}
