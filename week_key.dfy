/**
 * The reporting-period key: an ISO year and week rendered as
 * `f"{year}-W{week:02d}"`, the year as Python's `str` renders it and the
 * week zero-padded to two digits. For years 1000 to 9999 this is the
 * `YYYY-Www` week-date form of section 4.1.4.3 of ISO 8601:2004; a year
 * below 1000 gets fewer than four digits (`999-W05`), as in Python.
 * Computing the ISO year and week from a clock reading is a calendar
 * library call and is not modelled: they are inputs here.
 */
module WeekKey {
  import opened Wrappers
  import opened Text

  function DigitChar(d: nat): (c: char)
    requires d < 10
    ensures IsDigit(c)
  {
    ('0' as int + d) as char
  }

  function DigitValue(c: char): (d: nat)
    requires IsDigit(c)
    ensures d < 10
  {
    c as int - '0' as int
  }

  /** Decimal rendering of a non-negative integer, as Python's `str` gives it. */
  function Decimal(n: nat): (s: string)
    ensures |s| >= 1 && AllDigits(s)
    ensures s[0] == '0' <==> n == 0
  {
    if n < 10 then [DigitChar(n)] else Decimal(n / 10) + [DigitChar(n % 10)]
  }

  /** The number an all-digit string denotes; leading zeros are allowed. */
  function DecimalValue(s: string): nat
    requires AllDigits(s)
  {
    if s == [] then 0 else DecimalValue(s[..|s| - 1]) * 10 + DigitValue(s[|s| - 1])
  }

  /** `format(n, '02d')`: at least two digits, zero-padded on the left. */
  function PadTwo(n: nat): string {
    if n < 10 then "0" + Decimal(n) else Decimal(n)
  }

  /** `f"{year}-W{week:02d}"` (app.py, get_current_iso_week). */
  function WeekKey(year: nat, week: nat): string {
    Decimal(year) + "-W" + PadTwo(week)
  }

  /**
   * Reads a key back: the digits before the first `-`, then `W`, then at
   * least two digits.
   */
  function ParseWeekKey(s: string): Option<(nat, nat)> {
    var i := FirstIndex(s, '-');
    if 0 < i && i + 1 < |s| && s[i + 1] == 'W' && AllDigits(s[..i])
       && |s| - (i + 2) >= 2 && AllDigits(s[i + 2..])
    then Some((DecimalValue(s[..i]), DecimalValue(s[i + 2..])))
    else None
  }

  /** A string is canonical when it has no superfluous leading zero. */
  predicate Canonical(s: string) {
    |s| >= 1 && AllDigits(s) && (s[0] == '0' ==> |s| == 1)
  }

  lemma {:induction false} DecimalRoundTrip(n: nat)
    ensures DecimalValue(Decimal(n)) == n
  {
    if n >= 10 {
      var s := Decimal(n / 10);
      DecimalRoundTrip(n / 10);
      assert Decimal(n)[..|Decimal(n)| - 1] == s;
    }
  }

  lemma {:induction false} DecimalValuePositive(s: string)
    requires AllDigits(s) && |s| >= 1 && s[0] != '0'
    ensures DecimalValue(s) > 0
  {
    if |s| > 1 {
      var p := s[..|s| - 1];
      assert p[0] == s[0];
      DecimalValuePositive(p);
    }
  }

  /** Rendering the value of a canonical digit string gives the string back. */
  lemma {:induction false} DecimalOfCanonical(s: string)
    requires Canonical(s)
    ensures Decimal(DecimalValue(s)) == s
  {
    if |s| > 1 {
      var p := s[..|s| - 1];
      var d := DigitValue(s[|s| - 1]);
      assert p[0] == s[0];
      DecimalValuePositive(p);
      DecimalOfCanonical(p);
      var v := DecimalValue(s);
      assert v == DecimalValue(p) * 10 + d;
      assert v / 10 == DecimalValue(p) && v % 10 == d;
      assert DigitChar(d) == s[|s| - 1];
      assert s == p + [s[|s| - 1]];
    }
  }

  /** The week part of a key has at least two digits and denotes the week. */
  lemma PadTwoDenotes(n: nat)
    ensures |PadTwo(n)| >= 2 && AllDigits(PadTwo(n))
    ensures DecimalValue(PadTwo(n)) == n
    ensures n < 10 ==> PadTwo(n) == ['0', DigitChar(n)]
  {
    DecimalRoundTrip(n);
    if n < 10 {
      assert PadTwo(n) == ['0', DigitChar(n)];
    }
  }

  /** The key is the year's digits, `-W`, then exactly two digits for weeks 1 to 9 as for 10 to 99. */
  lemma WeekKeyShape(year: nat, week: nat)
    requires week < 100
    ensures var k := WeekKey(year, week);
      |k| == |Decimal(year)| + 4
      && k[..|Decimal(year)|] == Decimal(year)
      && k[|Decimal(year)|] == '-' && k[|Decimal(year)| + 1] == 'W'
      && k[|Decimal(year)| + 2] == DigitChar(week / 10)
      && k[|Decimal(year)| + 3] == DigitChar(week % 10)
  {
    var y := Decimal(year);
    if week >= 10 {
      assert Decimal(week / 10) == [DigitChar(week / 10)];
    }
    assert WeekKey(year, week)[..|y|] == y;
  }

  /** The key can be read back: distinct periods have distinct keys. */
  lemma ParseWeekKeyRoundTrip(year: nat, week: nat)
    ensures ParseWeekKey(WeekKey(year, week)) == Some((year, week))
  {
    var y, w := Decimal(year), PadTwo(week);
    var k := WeekKey(year, week);
    assert k == y + ("-W" + w);
    FirstIndexAfter(y, "-W" + w, '-');
    assert k[..|y|] == y;
    assert k[|y| + 2..] == w;
    DecimalRoundTrip(year);
    PadTwoDenotes(week);
  }

  lemma WeekKeyInjective(y1: nat, w1: nat, y2: nat, w2: nat)
    requires WeekKey(y1, w1) == WeekKey(y2, w2)
    ensures y1 == y2 && w1 == w2
  {
    ParseWeekKeyRoundTrip(y1, w1);
    ParseWeekKeyRoundTrip(y2, w2);
  }

  /** Two or more digits written as the week part of a key are the padding of their value. */
  lemma {:induction false} PadTwoOfDigits(ws: string)
    requires AllDigits(ws) && |ws| >= 2
    requires |ws| == 2 || Canonical(ws)
    ensures PadTwo(DecimalValue(ws)) == ws
  {
    var week := DecimalValue(ws);
    if |ws| == 2 && ws[0] == '0' {
      assert ws[..|ws| - 1] == [ws[0]];
      assert [ws[0]][..0] == [];
      assert DecimalValue([ws[0]]) == 0;
      assert week == DigitValue(ws[1]);
      assert PadTwo(week) == ['0', DigitChar(week)];
    } else {
      assert Canonical(ws);
      DecimalOfCanonical(ws);
      DecimalValuePositive(ws[..|ws| - 1]);
      assert week >= 10;
    }
  }

  /** A key that parses is its year digits, `-W` and its week digits. */
  lemma ParsedParts(s: string, i: nat)
    requires i == FirstIndex(s, '-') && ParseWeekKey(s).Some?
    ensures s == s[..i] + "-W" + s[i + 2..]
    ensures ParseWeekKey(s).value == (DecimalValue(s[..i]), DecimalValue(s[i + 2..]))
  {
    assert s[i..i + 2] == "-W";
    assert s == s[..i] + s[i..i + 2] + s[i + 2..];
  }

  /**
   * Conversely, every string that parses, with a canonical year and a week
   * written with two digits or without a leading zero, is the key of the
   * period it parses to.
   */
  lemma ParseWeekKeyCanonical(s: string, year: nat, week: nat)
    requires ParseWeekKey(s) == Some((year, week))
    requires var i := FirstIndex(s, '-');
      Canonical(s[..i]) && (|s| - (i + 2) == 2 || Canonical(s[i + 2..]))
    ensures WeekKey(year, week) == s
  {
    var i := FirstIndex(s, '-');
    ParsedParts(s, i);
    var ys, ws := s[..i], s[i + 2..];
    DecimalOfCanonical(ys);
    PadTwoOfDigits(ws);
  }

  /** The example in the source's docstring, and a week below ten. */
  lemma WeekKeyExamples()
    ensures WeekKey(2025, 43) == "2025-W43"
    ensures WeekKey(2025, 5) == "2025-W05"
  {
    assert Decimal(2025) == "2025" by {
      assert Decimal(2) == "2";
      assert Decimal(20) == "20";
      assert Decimal(202) == "202";
    }
    assert Decimal(43) == "43" by {
      assert Decimal(4) == "4";
    }
  }
}
