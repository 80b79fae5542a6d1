/** The textual side of the model: the spot identifier "R{row}-{col}" that
    the administrators build with String.format, the way the strategies and
    summaries take it apart again with String.split("-") and
    Integer.parseInt, and String.strip on row-template tokens. */
module SpotIds {
  import opened ParkingTypes

  /** A spot identifier that the row or column extraction could not read. */
  datatype IdError =
    | MalformedSpotId(spotId: string)   // split("-") did not give two parts
    | BadColumnNumber(text: string)     // parseInt failed on the column part

  // ---------------------------------------------------------------------
  // String.strip
  // ---------------------------------------------------------------------

  /** Character.isWhitespace: the Unicode space, line and paragraph
      separators other than the no-break spaces, and the ASCII controls
      U+0009..U+000D and U+001C..U+001F. */
  predicate IsWhitespace(c: char)
  {
    || c == ' '
    || ('\t' <= c <= '\r')
    || ('\U{1C}' <= c <= '\U{1F}')
    || c == '\U{1680}'
    || ('\U{2000}' <= c <= '\U{2006}')
    || ('\U{2008}' <= c <= '\U{200A}')
    || c == '\U{2028}' || c == '\U{2029}' || c == '\U{205F}' || c == '\U{3000}'
  }

  /** Number of whitespace characters at the front of `s`. */
  function LeadingWhitespace(s: string): (n: nat)
    ensures n <= |s|
    ensures forall k :: 0 <= k < n ==> IsWhitespace(s[k])
    ensures n < |s| ==> !IsWhitespace(s[n])
  {
    if |s| > 0 && IsWhitespace(s[0]) then 1 + LeadingWhitespace(s[1..]) else 0
  }

  /** Number of whitespace characters at the end of `s`. */
  function TrailingWhitespace(s: string): (n: nat)
    ensures n <= |s|
    ensures forall k :: |s| - n <= k < |s| ==> IsWhitespace(s[k])
    ensures n < |s| ==> !IsWhitespace(s[|s| - n - 1])
  {
    if |s| > 0 && IsWhitespace(s[|s| - 1]) then 1 + TrailingWhitespace(s[..|s| - 1]) else 0
  }

  /** String.strip: `s` without its leading and trailing whitespace. */
  function Strip(s: string): string
  {
    var t := s[LeadingWhitespace(s)..];
    t[..|t| - TrailingWhitespace(t)]
  }

  /** What strip promises: the result is a slice of `s` that neither starts
      nor ends with whitespace, and only whitespace was cut off either side. */
  lemma StripIsTrimmedSlice(s: string)
    ensures exists i, j :: 0 <= i <= j <= |s| && Strip(s) == s[i..j]
                           && (forall k :: 0 <= k < i ==> IsWhitespace(s[k]))
                           && (forall k :: j <= k < |s| ==> IsWhitespace(s[k]))
    ensures |Strip(s)| > 0 ==> !IsWhitespace(Strip(s)[0]) && !IsWhitespace(Strip(s)[|Strip(s)| - 1])
  {
    var i := LeadingWhitespace(s);
    var t := s[i..];
    var n := TrailingWhitespace(t);
    var j := |s| - n;
    assert Strip(s) == s[i..j];
    forall k | j <= k < |s| ensures IsWhitespace(s[k]) {
      assert s[k] == t[k - i];
    }
  }

  /** A token without surrounding whitespace is left alone. */
  lemma StripTrimmed(s: string)
    requires |s| > 0 ==> !IsWhitespace(s[0]) && !IsWhitespace(s[|s| - 1])
    ensures Strip(s) == s
  {
  }

  /** Blanks added on both sides of a trimmed string are stripped again. */
  lemma StripPadded(s: string, pad: nat)
    requires |s| > 0 && !IsWhitespace(s[0]) && !IsWhitespace(s[|s| - 1])
    ensures Strip(seq(pad, _ => ' ') + s + seq(pad, _ => ' ')) == s
  {
    var padded := seq(pad, _ => ' ') + s + seq(pad, _ => ' ');
    assert LeadingWhitespace(padded) == pad by {
      assert padded[pad] == s[0];
    }
    var rest := padded[pad..];
    assert rest == s + seq(pad, _ => ' ');
    assert TrailingWhitespace(rest) == pad by {
      assert rest[|rest| - pad - 1] == s[|s| - 1];
    }
    assert rest[..|rest| - pad] == s;
  }

  // ---------------------------------------------------------------------
  // String.split("-")
  // ---------------------------------------------------------------------

  /** Every field between occurrences of `c`, empty fields included. */
  function SplitFields(s: string, c: char): (r: seq<string>)
    ensures |r| >= 1
  {
    if |s| == 0 then [""]
    else if s[0] == c then [""] + SplitFields(s[1..], c)
    else
      var rest := SplitFields(s[1..], c);
      [[s[0]] + rest[0]] + rest[1..]
  }

  /** The fields with the trailing empty ones removed. */
  function DropTrailingEmpty(fields: seq<string>): (r: seq<string>)
    ensures |r| <= |fields| && r == fields[..|r|]
    ensures |r| > 0 ==> r[|r| - 1] != ""
    ensures forall k :: |r| <= k < |fields| ==> fields[k] == ""
  {
    if |fields| > 0 && fields[|fields| - 1] == "" then DropTrailingEmpty(fields[..|fields| - 1])
    else fields
  }

  /** String.split with a one-character separator and limit 0: the input
      itself when the separator does not occur, otherwise its fields with
      trailing empty strings removed. */
  function JavaSplit(s: string, c: char): seq<string>
  {
    if c !in s then [s] else DropTrailingEmpty(SplitFields(s, c))
  }

  lemma {:induction false} SplitFieldsNoSeparator(s: string, c: char)
    requires c !in s
    ensures SplitFields(s, c) == [s]
  {
    if |s| > 0 {
      assert c !in s[1..];
      SplitFieldsNoSeparator(s[1..], c);
      assert [s[0]] + s[1..] == s;
    }
  }

  lemma {:induction false} SplitFieldsAt(a: string, c: char, b: string)
    requires c !in a
    ensures SplitFields(a + [c] + b, c) == [a] + SplitFields(b, c)
  {
    if |a| == 0 {
      assert a + [c] + b == [c] + b;
      assert ([c] + b)[1..] == b;
    } else {
      assert (a + [c] + b)[1..] == a[1..] + [c] + b;
      assert c !in a[1..];
      SplitFieldsAt(a[1..], c, b);
      assert [a[0]] + a[1..] == a;
    }
  }

  /** Splitting "a-b" with neither part containing '-' and b non-empty
      yields exactly [a, b]. */
  lemma JavaSplitTwo(a: string, b: string)
    requires '-' !in a && '-' !in b && b != ""
    ensures JavaSplit(a + "-" + b, '-') == [a, b]
  {
    var s := a + "-" + b;
    assert s[|a|] == '-';
    SplitFieldsAt(a, '-', b);
    SplitFieldsNoSeparator(b, '-');
    assert SplitFields(s, '-') == [a, b];
  }

  // ---------------------------------------------------------------------
  // Decimal numbers: String.format("%d") and Integer.parseInt
  // ---------------------------------------------------------------------

  predicate IsDigit(c: char)
  {
    '0' <= c <= '9'
  }

  function DigitChar(d: nat): (c: char)
    requires d < 10
    ensures IsDigit(c)
  {
    ['0', '1', '2', '3', '4', '5', '6', '7', '8', '9'][d]
  }

  function DigitValue(c: char): (d: nat)
    requires IsDigit(c)
    ensures d < 10
  {
    (c as int - '0' as int) as nat
  }

  lemma DigitRoundTrip(d: nat)
    requires d < 10
    ensures DigitValue(DigitChar(d)) == d
  {
  }

  /** The decimal value of a digit string, most significant digit first. */
  function DigitsValue(s: string): nat
    requires forall k :: 0 <= k < |s| ==> IsDigit(s[k])
  {
    if |s| == 0 then 0 else 10 * DigitsValue(s[..|s| - 1]) + DigitValue(s[|s| - 1])
  }

  /** `%d` of a non-negative number: its decimal digits, no leading zeros. */
  function NatToString(n: nat): (s: string)
    ensures |s| > 0
    ensures forall k :: 0 <= k < |s| ==> IsDigit(s[k])
    ensures |s| > 1 ==> s[0] != '0'
  {
    if n < 10 then [DigitChar(n)] else NatToString(n / 10) + [DigitChar(n % 10)]
  }

  /** Integer.parseInt on a column text: plain decimal digits give their
      value, anything else is a NumberFormatException. */
  function ParseInt(text: string): (r: Result<int, IdError>)
  {
    if |text| > 0 && forall k :: 0 <= k < |text| ==> IsDigit(text[k])
    then Ok(DigitsValue(text))
    else Err(BadColumnNumber(text))
  }

  /** Formatting a number and parsing it back gives the number. */
  lemma {:induction false} ParseNatToString(n: nat)
    ensures ParseInt(NatToString(n)) == Ok(n)
  {
    var s := NatToString(n);
    if n < 10 {
      assert s == [DigitChar(n)] && s[..|s| - 1] == [];
      DigitRoundTrip(n);
      assert DigitsValue(s) == DigitValue(s[0]);
    } else {
      ParseNatToString(n / 10);
      assert s[..|s| - 1] == NatToString(n / 10);
      DigitRoundTrip(n % 10);
    }
  }

  lemma NatToStringInjective(m: nat, n: nat)
    requires NatToString(m) == NatToString(n)
    ensures m == n
  {
    ParseNatToString(m);
    ParseNatToString(n);
  }

  lemma NatToStringNoDash(n: nat)
    ensures '-' !in NatToString(n)
  {
  }

  // ---------------------------------------------------------------------
  // Spot identifiers
  // ---------------------------------------------------------------------

  /** The row part "R{row}" of a spot identifier. */
  function RowLabel(row: nat): string
  {
    "R" + NatToString(row)
  }

  /** String.format("R%d-%d", row, col) */
  function FormatSpotId(row: nat, col: nat): string
  {
    RowLabel(row) + "-" + NatToString(col)
  }

  /** extractRowFromSpotId: the part before '-', provided split("-") yields
      exactly two parts. */
  function ExtractRow(spotId: string): (r: Result<string, IdError>)
    ensures r.Ok? <==> |JavaSplit(spotId, '-')| == 2
    ensures r.Ok? ==> r.value == JavaSplit(spotId, '-')[0]
    ensures r.Err? ==> r.error == MalformedSpotId(spotId)
  {
    var parts := JavaSplit(spotId, '-');
    if |parts| != 2 then Err(MalformedSpotId(spotId)) else Ok(parts[0])
  }

  /** extractSpotNum: parseInt of the part after '-'. Only called on ids that
      passed ExtractRow; on any other id split(...)[1] has no element to read. */
  function ExtractSpotNum(spotId: string): (r: Result<int, IdError>)
    ensures |JavaSplit(spotId, '-')| < 2 ==> r == Err(MalformedSpotId(spotId))
    ensures |JavaSplit(spotId, '-')| >= 2 ==> r == ParseInt(JavaSplit(spotId, '-')[1])
  {
    var parts := JavaSplit(spotId, '-');
    if |parts| < 2 then Err(MalformedSpotId(spotId)) else ParseInt(parts[1])
  }

  /** Every id the administrators build splits into its row label and its
      column number. */
  lemma FormatSpotIdParts(row: nat, col: nat)
    ensures JavaSplit(FormatSpotId(row, col), '-') == [RowLabel(row), NatToString(col)]
    ensures ExtractRow(FormatSpotId(row, col)) == Ok(RowLabel(row))
    ensures ExtractSpotNum(FormatSpotId(row, col)) == Ok(col)
  {
    NatToStringNoDash(row);
    NatToStringNoDash(col);
    assert '-' !in RowLabel(row) by {
      assert RowLabel(row) == ['R'] + NatToString(row);
    }
    JavaSplitTwo(RowLabel(row), NatToString(col));
    ParseNatToString(col);
  }

  /** An id some row and column number format to. */
  ghost predicate BuiltId(spotId: string)
  {
    exists row: nat, col: nat :: spotId == FormatSpotId(row, col)
  }

  /** Different positions get different ids. */
  lemma FormatSpotIdInjective(r1: nat, c1: nat, r2: nat, c2: nat)
    requires FormatSpotId(r1, c1) == FormatSpotId(r2, c2)
    ensures r1 == r2 && c1 == c2
  {
    FormatSpotIdParts(r1, c1);
    FormatSpotIdParts(r2, c2);
    assert NatToString(r1) == RowLabel(r1)[1..];
    assert NatToString(r2) == RowLabel(r2)[1..];
    NatToStringInjective(r1, r2);
    NatToStringInjective(c1, c2);
  }

  /** The row bucket of RegularCompactLotAdmin.generateLotSummary: the part
      before the first '-' when the id contains one, otherwise "UNKNOWN".
      An id made only of '-' characters has no part 0 and is excluded. */
  function SummaryRowKey(spotId: string): string
    requires '-' in spotId ==> |JavaSplit(spotId, '-')| > 0
  {
    if '-' in spotId then JavaSplit(spotId, '-')[0] else "UNKNOWN"
  }

  /** The row bucket of the legacy ParkingLotAdmin.getLotSummary: the part
      before the first '-', with no fallback. */
  function LegacyRowKey(spotId: string): string
    requires |JavaSplit(spotId, '-')| > 0
  {
    JavaSplit(spotId, '-')[0]
  }

  /** Both summaries put a built id into its row label's bucket, and an id
      without '-' into "UNKNOWN" in the newer summary. */
  lemma RowKeysOfFormattedId(row: nat, col: nat)
    ensures '-' in FormatSpotId(row, col)
    ensures JavaSplit(FormatSpotId(row, col), '-') == [RowLabel(row), NatToString(col)]
    ensures SummaryRowKey(FormatSpotId(row, col)) == RowLabel(row)
    ensures LegacyRowKey(FormatSpotId(row, col)) == RowLabel(row)
  {
    var id := FormatSpotId(row, col);
    FormatSpotIdParts(row, col);
    assert id[|RowLabel(row)|] == '-';
  }

  lemma SummaryRowKeyNoDash(spotId: string)
    requires '-' !in spotId
    ensures SummaryRowKey(spotId) == "UNKNOWN" && LegacyRowKey(spotId) == spotId
  {
  }
}
