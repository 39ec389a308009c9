/** The ingestion script (data_proccess.py): the generation columns of the raw CSV are
    turned from German-formatted text into numbers, summed per row into `value`, and
    the rows are ordered by timestamp. Reading and writing files is not modelled; the
    table arrives with every cell as the text `astype(str)` gives it (a missing cell
    is the text "nan"), and parsing a date is the parameter `parseTime`. */
module DataProcess {
  import opened Hourly
  import Stats

  // ---------------------------------------------------------------------------
  // Per-cell normalisation
  // ---------------------------------------------------------------------------

  /** The characters Python's `str.strip()` removes (`str.isspace`). */
  predicate IsSpace(c: char)
  {
    ('\t' <= c <= '\r') || ('\U{1C}' <= c <= ' ') || c == '\U{85}' || c == '\U{A0}' ||
    c == '\U{1680}' || ('\U{2000}' <= c <= '\U{200A}') || c == '\U{2028}' || c == '\U{2029}' ||
    c == '\U{202F}' || c == '\U{205F}' || c == '\U{3000}'
  }

  /** `lstrip()`: leading whitespace removed. */
  function StripLeft(s: string): (r: string)
    ensures |r| <= |s|
    ensures r == [] || !IsSpace(r[0])
  {
    if s != [] && IsSpace(s[0]) then StripLeft(s[1..]) else s
  }

  /** `rstrip()`: trailing whitespace removed. */
  function StripRight(s: string): (r: string)
    ensures |r| <= |s|
    ensures r == [] || !IsSpace(r[|r| - 1])
  {
    if s != [] && IsSpace(s[|s| - 1]) then StripRight(s[..|s| - 1]) else s
  }

  /** `str.strip()`. */
  function Strip(s: string): string
  {
    StripRight(StripLeft(s))
  }

  /** The number of occurrences of `c` in `s`. */
  function Count(s: string, c: char): nat
  {
    if s == [] then 0 else Count(s[..|s| - 1], c) + (if s[|s| - 1] == c then 1 else 0)
  }

  /** `str.replace(c, "")`: every `c` deleted, everything else kept in order. */
  function DeleteChar(s: string, c: char): (r: string)
    ensures c !in r
    ensures |r| == |s| - Count(s, c)
  {
    if s == [] then []
    else
      var init := DeleteChar(s[..|s| - 1], c);
      var last := s[|s| - 1];
      if last == c then init
      else
        var r := init + [last];
        assert r[..|r| - 1] == init;
        r
  }

  /** `str.replace(a, b)` for single characters: each `a` becomes `b`. */
  function ReplaceChar(s: string, a: char, b: char): (r: string)
    ensures |r| == |s|
    ensures forall i :: 0 <= i < |s| ==> r[i] == if s[i] == a then b else s[i]
  {
    seq(|s|, i requires 0 <= i < |s| => if s[i] == a then b else s[i])
  }

  /** Lines 23, 28 and 29: strip, delete the thousands separator '.', turn the decimal
      comma into '.'. */
  function Normalise(cell: string): string
  {
    ReplaceChar(DeleteChar(Strip(cell), '.'), ',', '.')
  }

  /** The strings mapped to `None` before the numeric conversion. */
  const Markers: set<string> := {"nan", "None", "-", "\U{2013}"}

  predicate IsDigit(c: char)
  {
    '0' <= c <= '9'
  }

  predicate AllDigits(s: string)
  {
    forall i :: 0 <= i < |s| ==> IsDigit(s[i])
  }

  function DigitValue(c: char): nat
    requires IsDigit(c)
  {
    (c as int - '0' as int) as nat
  }

  /** The value of a string of decimal digits. */
  function DigitsValue(s: string): nat
    requires AllDigits(s)
  {
    if s == [] then 0 else DigitsValue(s[..|s| - 1]) * 10 + DigitValue(s[|s| - 1])
  }

  /** The value of the digits after a decimal point. */
  function FracValue(s: string): (r: real)
    requires AllDigits(s)
    ensures 0.0 <= r < 1.0
  {
    if s == [] then 0.0 else (DigitValue(s[0]) as real + FracValue(s[1..])) / 10.0
  }

  /** The position of the first `c` in `s`, or `|s|` when there is none. */
  function IndexOf(s: string, c: char): (i: nat)
    ensures i <= |s|
    ensures i < |s| ==> s[i] == c
    ensures forall j :: 0 <= j < i ==> s[j] != c
  {
    if s == [] then 0 else if s[0] == c then 0 else 1 + IndexOf(s[1..], c)
  }

  /** A decimal numeral as the numeric conversion reads it: its sign, the digits
      before the point and the digits after it. */
  datatype Numeral = Numeral(negative: bool, whole: string, frac: string)
  {
    /** Digit strings on both sides, at least one digit overall. */
    predicate WellFormed()
    {
      AllDigits(whole) && AllDigits(frac) && |whole| + |frac| > 0
    }

    function Value(): real
      requires WellFormed()
    {
      var v := DigitsValue(whole) as real + FracValue(frac);
      if negative then -v else v
    }
  }

  /** An unsigned decimal: digits, optionally a point and more digits, with at least
      one digit overall (`12`, `12.`, `12.5`, `.5`). */
  function ParseUnsigned(s: string): (r: Option<Numeral>)
    ensures r.Some? ==> r.value.WellFormed() && !r.value.negative
  {
    var i := IndexOf(s, '.');
    var whole, frac := s[..i], if i < |s| then s[i + 1..] else [];
    if AllDigits(whole) && AllDigits(frac) && |whole| + |frac| > 0
    then Some(Numeral(false, whole, frac))
    else None
  }

  /** `pd.to_numeric(s, errors="coerce")` on one string: a signed decimal, or missing. */
  function ParseNumber(s: string): (r: Option<Numeral>)
    ensures r.Some? ==> r.value.WellFormed()
  {
    if s != [] && (s[0] == '+' || s[0] == '-') then
      match ParseUnsigned(s[1..])
      case None => None
      case Some(n) => Some(n.(negative := s[0] == '-'))
    else ParseUnsigned(s)
  }

  /** Lines 23-32 on one cell: normalise, map the markers to missing, then convert,
      with anything unparseable missing as well. */
  function CellValue(cell: string): Option<real>
  {
    var s := Normalise(cell);
    if s in Markers then None
    else
      match ParseNumber(s)
      case None => None
      case Some(n) => Some(n.Value())
  }

  // ---------------------------------------------------------------------------
  // What the normalisation promises
  // ---------------------------------------------------------------------------

  /** A cell that neither starts nor ends with whitespace is not changed by `strip()`. */
  lemma {:induction false} StripClean(s: string)
    requires s == [] || (!IsSpace(s[0]) && !IsSpace(s[|s| - 1]))
    ensures Strip(s) == s
  {
    assert StripLeft(s) == s;
    assert StripRight(s) == s;
  }

  /** Deleting a character distributes over concatenation. */
  lemma {:induction false} DeleteConcat(a: string, b: string, c: char)
    ensures DeleteChar(a + b, c) == DeleteChar(a, c) + DeleteChar(b, c)
  {
    if b != [] {
      var n := |b|;
      DeleteConcat(a, b[..n - 1], c);
      assert (a + b)[..|a + b| - 1] == a + b[..n - 1];
    } else {
      assert a + b == a;
    }
  }

  /** Every '.' goes, whatever its role: a point between two parts of a cell is
      dropped as if it had never been there. */
  lemma {:induction false} PointDropped(a: string, b: string)
    requires a != [] && b != [] && !IsSpace(a[0]) && !IsSpace(b[|b| - 1])
    ensures Normalise(a + "." + b) == Normalise(a + b)
  {
    StripClean(a + "." + b);
    StripClean(a + b);
    DeleteConcat(a + ".", b, '.');
    DeleteConcat(a, ".", '.');
    DeleteConcat(a, b, '.');
    assert DeleteChar(".", '.') == [] by {
      assert "."[..0] == [];
    }
  }

  /** Digits, a decimal comma and digits normalise to the same digits around a point. */
  lemma {:induction false} NormaliseComma(w: string, f: string)
    requires AllDigits(w) && AllDigits(f)
    ensures Normalise(w + "," + f) == w + "." + f
  {
    var cell := w + "," + f;
    DigitsFacts(w);
    DigitsFacts(f);
    assert !IsSpace(cell[0]) && !IsSpace(cell[|cell| - 1]) by {
      assert cell[0] == if w == [] then ',' else w[0];
      assert cell[|cell| - 1] == if f == [] then ',' else f[|f| - 1];
    }
    NoPointNormalise(cell);
    CommaToPoint(w, f);
  }

  /** A cell without surrounding whitespace and without a point only has its commas
      turned into points. */
  lemma {:induction false} NoPointNormalise(s: string)
    requires s != [] && !IsSpace(s[0]) && !IsSpace(s[|s| - 1]) && '.' !in s
    ensures Normalise(s) == ReplaceChar(s, ',', '.')
  {
    StripClean(s);
    DeleteAbsent(s, '.');
  }

  /** The one comma between two comma-free parts becomes a point. */
  lemma {:induction false} CommaToPoint(w: string, f: string)
    requires ',' !in w && ',' !in f
    ensures ReplaceChar(w + "," + f, ',', '.') == w + "." + f
  {
    var s, t := w + "," + f, w + "." + f;
    var r := ReplaceChar(s, ',', '.');
    forall i | 0 <= i < |s| ensures r[i] == t[i] {
      if i < |w| {
        assert s[i] == w[i] && t[i] == w[i];
      } else if i == |w| {
        assert s[i] == ',' && t[i] == '.';
      } else {
        assert s[i] == f[i - |w| - 1] && t[i] == f[i - |w| - 1];
      }
    }
  }

  /** Replacing a character distributes over concatenation. */
  lemma {:induction false} ReplaceConcat(a: string, b: string, x: char, y: char)
    ensures ReplaceChar(a + b, x, y) == ReplaceChar(a, x, y) + ReplaceChar(b, x, y)
  {
    var l, r := ReplaceChar(a + b, x, y), ReplaceChar(a, x, y) + ReplaceChar(b, x, y);
    forall i | 0 <= i < |a + b| ensures l[i] == r[i] {
      if i < |a| {
        assert (a + b)[i] == a[i];
      } else {
        assert (a + b)[i] == b[i - |a|];
      }
    }
  }

  /** Digits, a point and digits, with at least one digit, read as that numeral. */
  lemma {:induction false} ParseUnsignedDecimal(w: string, f: string)
    requires AllDigits(w) && AllDigits(f) && |w| + |f| > 0
    ensures ParseUnsigned(w + "." + f) == Some(Numeral(false, w, f))
  {
    var s := w + "." + f;
    IndexAfterDigits(w, f);
    assert s[..|w|] == w;
    assert s[|w| + 1..] == f;
  }

  lemma {:induction false} IndexAfterDigits(w: string, f: string)
    requires AllDigits(w)
    ensures IndexOf(w + "." + f, '.') == |w|
  {
    var s := w + "." + f;
    DigitsFacts(w);
    forall j | 0 <= j < |w| ensures s[j] != '.' { assert s[j] == w[j]; }
    IndexOfFirst(s, '.', |w|);
  }

  /** Digits, a point and digits, with at least one digit, parse as that numeral:
      the text starts with a digit or the point, never with a sign. */
  lemma {:induction false} ParseDecimal(w: string, f: string)
    requires AllDigits(w) && AllDigits(f) && |w| + |f| > 0
    ensures ParseNumber(w + "." + f) == Some(Numeral(false, w, f))
  {
    var s := w + "." + f;
    ParseUnsignedDecimal(w, f);
    assert s[0] == if w == [] then '.' else w[0];
    assert w != [] ==> IsDigit(w[0]);
  }

  /** Digits alone parse as a whole number. */
  lemma {:induction false} ParseDigits(s: string)
    requires AllDigits(s) && s != []
    ensures ParseNumber(s) == Some(Numeral(false, s, []))
  {
    assert '.' !in s by {
      forall i | 0 <= i < |s| ensures s[i] != '.' { assert IsDigit(s[i]); }
    }
    assert IndexOf(s, '.') == |s|;
    assert s[..|s|] == s;
    assert IsDigit(s[0]);
  }

  /** A string starting with a digit is none of the markers. */
  lemma {:induction false} NotMarker(s: string)
    requires s != [] && IsDigit(s[0])
    ensures s !in Markers
  {
    assert s[0] != "nan"[0] && s[0] != "None"[0] && s[0] != "-"[0] && s[0] != "\U{2013}"[0];
  }

  /** Two runs of digits together are digits. */
  lemma {:induction false} DigitsConcat(a: string, b: string)
    requires AllDigits(a) && AllDigits(b)
    ensures AllDigits(a + b)
  {
    forall i | 0 <= i < |a + b| ensures IsDigit((a + b)[i]) {
      if i < |a| {
        assert (a + b)[i] == a[i];
      } else {
        assert (a + b)[i] == b[i - |a|];
      }
    }
  }

  /** A German-formatted cell `<a>.<b>,<f>`: the thousands point goes and the decimal
      comma becomes a point. */
  lemma {:induction false} GermanNormalise(a: string, b: string, f: string)
    requires AllDigits(a) && AllDigits(b) && AllDigits(f) && a != []
    ensures Normalise(a + "." + b + "," + f) == a + b + "." + f
  {
    var tail := b + "," + f;
    assert a + "." + b + "," + f == a + "." + tail;
    assert a + tail == (a + b) + "," + f;
    assert a + b + "." + f == (a + b) + "." + f;
    DigitsFacts(a);
    assert !IsSpace(tail[|tail| - 1]) by {
      assert tail[|tail| - 1] == if f == [] then ',' else f[|f| - 1];
      DigitsFacts(f);
    }
    PointDropped(a, tail);
    DigitsConcat(a, b);
    NormaliseComma(a + b, f);
  }

  /** ... and the cell reads as the numeral `<a><b>.<f>`, worth `<a><b>` plus the
      fraction `<f>`. */
  lemma {:induction false} GermanCell(a: string, b: string, f: string)
    requires AllDigits(a) && AllDigits(b) && AllDigits(f) && a != []
    ensures AllDigits(a + b) && Numeral(false, a + b, f).WellFormed()
    ensures CellValue(a + "." + b + "," + f) == Some(Numeral(false, a + b, f).Value())
    ensures Numeral(false, a + b, f).Value() == DigitsValue(a + b) as real + FracValue(f)
  {
    GermanNormalise(a, b, f);
    GermanParse(a, b, f);
    NormalisedCell(a + "." + b + "," + f, a + b + "." + f, Numeral(false, a + b, f));
    PositiveValue(a + b, f);
  }

  /** An unsigned numeral is worth its whole digits plus its fraction. */
  lemma {:induction false} PositiveValue(w: string, f: string)
    requires AllDigits(w) && AllDigits(f) && |w| + |f| > 0
    ensures Numeral(false, w, f).WellFormed()
    ensures Numeral(false, w, f).Value() == DigitsValue(w) as real + FracValue(f)
  {
  }

  /** The normalised German cell starts with a digit and parses as its numeral. */
  lemma {:induction false} GermanParse(a: string, b: string, f: string)
    requires AllDigits(a) && AllDigits(b) && AllDigits(f) && a != []
    ensures AllDigits(a + b)
    ensures var s := a + b + "." + f;
            s != [] && IsDigit(s[0]) && ParseNumber(s) == Some(Numeral(false, a + b, f))
  {
    DigitsConcat(a, b);
    ParseDecimal(a + b, f);
    assert (a + b + "." + f)[0] == a[0];
  }

  /** A cell that normalises to a numeral starting with a digit is no marker, so it
      reads as that numeral's value. */
  lemma {:induction false} NormalisedCell(cell: string, s: string, n: Numeral)
    requires Normalise(cell) == s && s != [] && IsDigit(s[0])
    requires ParseNumber(s) == Some(n)
    ensures n.WellFormed() && CellValue(cell) == Some(n.Value())
  {
    NotMarker(s);
  }

  /** A digit string extended by one digit is worth ten times as much plus that digit. */
  lemma {:induction false} DigitsSnoc(s: string, c: char)
    requires AllDigits(s) && IsDigit(c)
    ensures AllDigits(s + [c]) && DigitsValue(s + [c]) == DigitsValue(s) * 10 + DigitValue(c)
  {
    DigitsConcat(s, [c]);
    assert (s + [c])[..|s|] == s;
  }

  /** "1.234,5" becomes "1234.5", worth 1234.5. */
  lemma {:induction false} GermanThousands()
    ensures Normalise("1.234,5") == "1234.5"
    ensures CellValue("1.234,5") == Some(1234.5)
  {
    var a, b, f := ['1'], ['2', '3', '4'], ['5'];
    GermanSpelling(a, b, f);
    GermanNormalise(a, b, f);
    GermanCell(a, b, f);
    GermanDigits(a, b, f);
  }

  /** The pieces of "1.234,5" and of "1234.5". */
  lemma {:induction false} GermanSpelling(a: string, b: string, f: string)
    requires a == ['1'] && b == ['2', '3', '4'] && f == ['5']
    ensures a + "." + b + "," + f == "1.234,5"
    ensures a + b + "." + f == "1234.5"
  {
  }

  /** The digits of "1234" and "5" are worth 1234 and one half. */
  lemma {:induction false} GermanDigits(a: string, b: string, f: string)
    requires a == ['1'] && b == ['2', '3', '4'] && f == ['5']
    ensures AllDigits(a + b) && AllDigits(f)
    ensures DigitsValue(a + b) as real + FracValue(f) == 1234.5
  {
    DigitsSnoc(a, '2');
    DigitsSnoc(a + ['2'], '3');
    DigitsSnoc(a + ['2'] + ['3'], '4');
    assert a + b == a + ['2'] + ['3'] + ['4'];
    assert DigitsValue(a) == 1 by {
      assert a[..0] == [];
    }
    assert FracValue(f) == 0.5 by {
      assert f[1..] == [];
    }
  }

  /** A point used as a decimal separator is dropped like a thousands separator:
      "12.5" becomes "125", worth 125. */
  lemma {:induction false} DotDecimalLosesPoint()
    ensures Normalise("12.5") == "125"
    ensures CellValue("12.5") == Some(125.0)
  {
    var s := ['1', '2', '5'];
    DotDropped();
    DigitsOf125(s);
    ParseDigits(s);
    NormalisedCell("12.5", s, Numeral(false, s, []));
    PositiveValue(s, []);
  }

  /** "12.5" normalises to "125". */
  lemma {:induction false} DotDropped()
    ensures Normalise("12.5") == "125"
  {
    var w, f := ['1', '2'], ['5'];
    assert "12.5" == w + "." + f;
    PointDropped(w, f);
    assert w + f == "125";
    DigitsConcat(w, f);
    NormaliseDigits(w + f);
  }

  /** The digits "125" are worth 125. */
  lemma {:induction false} DigitsOf125(s: string)
    requires s == ['1', '2', '5']
    ensures AllDigits(s) && IsDigit(s[0])
    ensures DigitsValue(s) as real + FracValue([]) == 125.0
  {
    DigitsSnoc(['1'], '2');
    assert ['1'] + ['2'] == s[..2];
    DigitsSnoc(s[..2], '5');
    assert s[..2] + ['5'] == s;
    assert DigitsValue(['1']) == 1 by {
      assert ['1'][..0] == [];
    }
  }

  /** A cell of digits only comes through unchanged. */
  lemma {:induction false} NormaliseDigits(s: string)
    requires AllDigits(s)
    ensures Normalise(s) == s
  {
    DigitsFacts(s);
    StripClean(s);
    DeleteAbsent(s, '.');
    ReplaceAbsent(s, ',', '.');
  }

  /** Replacing a character that is not there changes nothing. */
  lemma {:induction false} ReplaceAbsent(s: string, a: char, b: char)
    requires a !in s
    ensures ReplaceChar(s, a, b) == s
  {
    var r := ReplaceChar(s, a, b);
    forall i | 0 <= i < |s| ensures r[i] == s[i] {
      assert s[i] != a;
    }
  }

  /** Digits hold no separator and no whitespace. */
  lemma {:induction false} DigitsFacts(w: string)
    requires AllDigits(w)
    ensures '.' !in w && ',' !in w
    ensures w == [] || (!IsSpace(w[0]) && !IsSpace(w[|w| - 1]))
  {
    if w != [] {
      assert IsDigit(w[0]) && IsDigit(w[|w| - 1]);
    }
    forall i | 0 <= i < |w| ensures w[i] != '.' && w[i] != ',' {
      assert IsDigit(w[i]);
    }
  }

  /** `strip()` removes whitespace and nothing else: what it keeps is a slice of the cell
      with everything before and after it whitespace. */
  lemma {:induction false} StripOnlySpace(s: string) returns (i: nat)
    ensures i + |Strip(s)| <= |s| && Strip(s) == s[i..i + |Strip(s)|]
    ensures forall k :: 0 <= k < i ==> IsSpace(s[k])
    ensures forall k :: i + |Strip(s)| <= k < |s| ==> IsSpace(s[k])
  {
    var l := StripLeft(s);
    i := |s| - |l|;
    LeftOnlySpace(s);
    RightOnlySpace(l);
    var r := StripRight(l);
    assert Strip(s) == r;
    assert r == s[i..][..|r|];
    assert s[i..][..|r|] == s[i..i + |r|];
    forall k | i + |r| <= k < |s| ensures IsSpace(s[k]) {
      assert s[k] == l[k - i];
    }
  }

  /** `lstrip()` keeps a suffix of the cell and removes only whitespace before it. */
  lemma {:induction false} LeftOnlySpace(s: string)
    ensures StripLeft(s) == s[|s| - |StripLeft(s)|..]
    ensures forall k :: 0 <= k < |s| - |StripLeft(s)| ==> IsSpace(s[k])
  {
    if s != [] && IsSpace(s[0]) {
      LeftOnlySpace(s[1..]);
      assert s[1..][|s| - 1 - |StripLeft(s)|..] == s[|s| - |StripLeft(s)|..];
      forall k | 1 <= k < |s| - |StripLeft(s)| ensures IsSpace(s[k]) {
        assert s[k] == s[1..][k - 1];
      }
    }
  }

  /** `rstrip()` keeps a prefix of the cell and removes only whitespace after it. */
  lemma {:induction false} RightOnlySpace(s: string)
    ensures StripRight(s) == s[..|StripRight(s)|]
    ensures forall k :: |StripRight(s)| <= k < |s| ==> IsSpace(s[k])
  {
    if s != [] && IsSpace(s[|s| - 1]) {
      RightOnlySpace(s[..|s| - 1]);
      assert s[..|s| - 1][..|StripRight(s)|] == s[..|StripRight(s)|];
      forall k | |StripRight(s)| <= k < |s| - 1 ensures IsSpace(s[k]) {
        assert s[k] == s[..|s| - 1][k];
      }
    }
  }

  /** Deleting `c` leaves the number of every other character as it was. */
  lemma {:induction false} DeleteKeepsOthers(s: string, c: char, x: char)
    requires x != c
    ensures Count(DeleteChar(s, c), x) == Count(s, x)
  {
    if s != [] {
      var n := |s|;
      DeleteKeepsOthers(s[..n - 1], c, x);
      var init := DeleteChar(s[..n - 1], c);
      if s[n - 1] != c {
        assert (init + [s[n - 1]])[..|init|] == init;
      }
    }
  }

  /** A character that is not in `s` occurs zero times. */
  lemma {:induction false} NoCount(s: string, c: char)
    requires c !in s
    ensures Count(s, c) == 0
  {
    if s != [] {
      assert c !in s[..|s| - 1];
      NoCount(s[..|s| - 1], c);
    }
  }

  /** Deleting a character that is not there changes nothing. */
  lemma {:induction false} DeleteAbsent(s: string, c: char)
    requires c !in s
    ensures DeleteChar(s, c) == s
  {
    if s != [] {
      assert c !in s[..|s| - 1];
      DeleteAbsent(s[..|s| - 1], c);
      assert s == s[..|s| - 1] + [s[|s| - 1]];
    }
  }

  /** The normalised cell has no comma left, and as many points as the stripped cell
      had commas: every point in the output was a decimal comma. */
  lemma {:induction false} NormalisedSeparators(cell: string)
    ensures ',' !in Normalise(cell)
    ensures Count(Normalise(cell), '.') == Count(Strip(cell), ',')
  {
    var t := DeleteChar(Strip(cell), '.');
    NoCount(t, '.');
    DeleteKeepsOthers(Strip(cell), '.', ',');
    CountReplace(t);
  }

  /** Turning commas into points: the points are the old points plus the old commas. */
  lemma {:induction false} CountReplace(t: string)
    ensures Count(ReplaceChar(t, ',', '.'), '.') == Count(t, '.') + Count(t, ',')
  {
    if t != [] {
      var n := |t|;
      CountReplace(t[..n - 1]);
      assert ReplaceChar(t, ',', '.')[..n - 1] == ReplaceChar(t[..n - 1], ',', '.');
    }
  }

  /** No marker is a number, so mapping the markers to missing first gives what the
      coercing conversion would have given anyway. */
  lemma {:induction false} MarkersAreNotNumbers(m: string)
    requires m in Markers
    ensures ParseNumber(m) == None
  {
    if m == "-" {
      assert m[1..] == [];
    } else {
      assert m[0] in {'n', 'N', '\U{2013}'};
      NoLeadingDigit(m);
    }
  }

  /** A string that starts with neither a digit, a sign nor a point is no number. */
  lemma {:induction false} NoLeadingDigit(s: string)
    requires s != [] && !IsDigit(s[0]) && s[0] != '+' && s[0] != '-' && s[0] != '.'
    ensures ParseNumber(s) == None
  {
    var i := IndexOf(s, '.');
    assert i > 0;
    assert s[..i][0] == s[0];
  }

  // ---------------------------------------------------------------------------
  // Rendering and parsing
  // ---------------------------------------------------------------------------

  /** The decimal digits of `n`, no leading zeros ("0" for zero). */
  function NatDigits(n: nat): (s: string)
    ensures AllDigits(s) && s != []
  {
    var d := ['0' + (n % 10) as char];
    if n < 10 then d else NatDigits(n / 10) + d
  }

  /** The digits of `n` read back are `n`. */
  lemma {:induction false} DigitsOfNat(n: nat)
    ensures DigitsValue(NatDigits(n)) == n
  {
    var s := NatDigits(n);
    assert s[..|s| - 1] == (if n < 10 then [] else NatDigits(n / 10));
    if n >= 10 {
      DigitsOfNat(n / 10);
    }
  }

  /** A rendered whole number, with or without a minus sign, parses back to itself. */
  lemma {:induction false} ParseNatDigits(n: nat)
    ensures ParseNumber(NatDigits(n)) == Some(Numeral(false, NatDigits(n), []))
    ensures ParseNumber("-" + NatDigits(n)) == Some(Numeral(true, NatDigits(n), []))
    ensures Numeral(false, NatDigits(n), []).Value() == n as real
    ensures Numeral(true, NatDigits(n), []).Value() == -(n as real)
  {
    var s := NatDigits(n);
    DigitsOfNat(n);
    ParseDigits(s);
    assert ("-" + s)[1..] == s;
  }

  /** A cell written with a decimal comma, `<whole>,<digits>`, reads as that decimal. */
  lemma {:induction false} DecimalCommaCell(n: nat, frac: string)
    requires AllDigits(frac)
    ensures Numeral(false, NatDigits(n), frac).WellFormed()
    ensures CellValue(NatDigits(n) + "," + frac) == Some(Numeral(false, NatDigits(n), frac).Value())
    ensures Numeral(false, NatDigits(n), frac).Value() == n as real + FracValue(frac)
  {
    var w := NatDigits(n);
    DigitsOfNat(n);
    NormaliseComma(w, frac);
    ParseDecimal(w, frac);
    var s := w + "." + frac;
    assert s[0] == w[0] && IsDigit(w[0]);
    NormalisedCell(w + "," + frac, s, Numeral(false, w, frac));
    PositiveValue(w, frac);
  }

  /** The first position holding `c` is the one `IndexOf` finds. */
  lemma {:induction false} IndexOfFirst(s: string, c: char, k: nat)
    requires k < |s| && s[k] == c
    requires forall j :: 0 <= j < k ==> s[j] != c
    ensures IndexOf(s, c) == k
  {
    if k > 0 {
      IndexOfFirst(s[1..], c, k - 1);
    }
  }

  // ---------------------------------------------------------------------------
  // Columns
  // ---------------------------------------------------------------------------

  /** The column the dates are read from, the two columns `main` adds, and the
      unit that marks a generation column. */
  const StartDate: string := "Start date"
  const Timestamp: string := "timestamp"
  const Total: string := "value"
  const Unit: string := "[MWh]"

  /** `p in s` for strings: `p` occurs somewhere in `s`. */
  predicate HasInfix(s: string, p: string)
    decreases |s|
  {
    p <= s || (s != [] && HasInfix(s[1..], p))
  }

  /** Line 19's test: a generation column has "[MWh]" in its name. */
  predicate IsValueColumn(name: string)
  {
    HasInfix(name, Unit)
  }

  predicate Distinct(names: seq<string>)
  {
    forall i, j :: 0 <= i < j < |names| ==> names[i] != names[j]
  }

  /** Line 19: the generation columns, in the table's column order. */
  function ValueColumns(names: seq<string>): (r: seq<string>)
    ensures |r| <= |names|
    ensures forall c :: c in r <==> c in names && IsValueColumn(c)
  {
    if names == [] then []
    else
      var rest := ValueColumns(names[1..]);
      assert forall c :: c in names <==> c == names[0] || c in names[1..];
      if IsValueColumn(names[0]) then [names[0]] + rest else rest
  }

  /** `p` occurs in `s` exactly when some suffix of `s` starts with it. */
  lemma {:induction false} InfixIff(s: string, p: string)
    ensures HasInfix(s, p) <==> exists i :: 0 <= i <= |s| && p <= s[i..]
  {
    if HasInfix(s, p) {
      var i := InfixAt(s, p);
    }
    if exists i :: 0 <= i <= |s| && p <= s[i..] {
      var i :| 0 <= i <= |s| && p <= s[i..];
      InfixFrom(s, p, i);
    }
  }

  /** Where an occurrence found by `HasInfix` starts. */
  lemma {:induction false} InfixAt(s: string, p: string) returns (i: nat)
    requires HasInfix(s, p)
    ensures i <= |s| && p <= s[i..]
  {
    if p <= s {
      i := 0;
      assert s[0..] == s;
    } else {
      var k := InfixAt(s[1..], p);
      assert s[1..][k..] == s[k + 1..];
      i := k + 1;
    }
  }

  /** An occurrence at any position is found by `HasInfix`. */
  lemma {:induction false} InfixFrom(s: string, p: string, i: nat)
    requires i <= |s| && p <= s[i..]
    ensures HasInfix(s, p)
  {
    if i > 0 {
      assert s[1..][i - 1..] == s[i..];
      InfixFrom(s[1..], p, i - 1);
    } else {
      assert s[0..] == s;
    }
  }

  /** Any name written with "[MWh]" in it is a generation column. */
  lemma {:induction false} UnitNamed(a: string, b: string)
    ensures IsValueColumn(a + Unit + b)
  {
    var s := a + Unit + b;
    assert Unit <= s[|a|..] by {
      assert s[|a|..] == Unit + b;
    }
    InfixFrom(s, Unit, |a|);
  }

  /** A name without '[' is not a generation column. */
  lemma {:induction false} NoBracketNoUnit(s: string)
    requires '[' !in s
    ensures !IsValueColumn(s)
  {
    assert Unit[0] == '[';
    if s != [] {
      assert '[' !in s[1..];
      NoBracketNoUnit(s[1..]);
    }
  }

  /** Neither the date column nor the two added columns is a generation column. */
  lemma {:induction false} FixedColumnsAreNotValues()
    ensures !IsValueColumn(StartDate) && !IsValueColumn(Timestamp) && !IsValueColumn(Total)
  {
    StartDateNotValue();
    TimestampNotValue();
    TotalNotValue();
  }

  lemma {:induction false} StartDateNotValue()
    ensures !IsValueColumn(StartDate)
  {
    NoBracketNoUnit(StartDate);
  }

  lemma {:induction false} TimestampNotValue()
    ensures !IsValueColumn(Timestamp)
  {
    NoBracketNoUnit(Timestamp);
  }

  lemma {:induction false} TotalNotValue()
    ensures !IsValueColumn(Total)
  {
    NoBracketNoUnit(Total);
  }

  /** Distinct names give distinct generation columns. */
  lemma {:induction false} ValueColumnsDistinct(names: seq<string>)
    requires Distinct(names)
    ensures Distinct(ValueColumns(names))
  {
    if names != [] {
      ValueColumnsDistinct(names[1..]);
      assert names[0] !in names[1..];
    }
  }

  /** A name appended at the end, if not there already. */
  function Extended(names: seq<string>, c: string): (r: seq<string>)
    ensures forall x :: x in r <==> x in names || x == c
  {
    if c in names then names else names + [c]
  }

  /** Adding a column that is not a generation column leaves the generation columns
      as they were. */
  lemma {:induction false} ValueColumnsExtended(names: seq<string>, c: string)
    requires !IsValueColumn(c)
    ensures ValueColumns(Extended(names, c)) == ValueColumns(names)
  {
    if c !in names {
      AppendOther(names, c);
    }
  }

  lemma {:induction false} AppendOther(names: seq<string>, c: string)
    requires !IsValueColumn(c)
    ensures ValueColumns(names + [c]) == ValueColumns(names)
  {
    if names != [] {
      assert (names + [c])[1..] == names[1..] + [c];
      AppendOther(names[1..], c);
    } else {
      assert ([c])[1..] == [];
    }
  }

  // ---------------------------------------------------------------------------
  // Row totals and ordering
  // ---------------------------------------------------------------------------

  /** Line 35 on one row: `sum(skipna=True)` adds the present cells, and a row with
      nothing present sums to 0. */
  function RowTotal(cells: seq<Option<real>>): real
  {
    Stats.Sum(Present(cells))
  }

  /** Dropping the missing cells distributes over concatenation. */
  lemma {:induction false} PresentConcat(a: seq<Option<real>>, b: seq<Option<real>>)
    ensures Present(a + b) == Present(a) + Present(b)
  {
    if a != [] {
      PresentConcat(a[1..], b);
      assert (a + b)[1..] == a[1..] + b;
    } else {
      assert a + b == b;
    }
  }

  /** A missing cell contributes nothing to its row's total. */
  lemma {:induction false} MissingAddsNothing(a: seq<Option<real>>, b: seq<Option<real>>)
    ensures RowTotal(a + [None] + b) == RowTotal(a + b)
  {
    var gap: seq<Option<real>> := [None];
    assert Present(gap) == [] by {
      assert gap[1..] == [];
    }
    PresentConcat(a + gap, b);
    PresentConcat(a, gap);
    PresentConcat(a, b);
    assert Present(a + gap) == Present(a);
  }

  /** A row with every cell missing totals 0, not missing. */
  lemma {:induction false} AllMissingTotalsZero(cells: seq<Option<real>>)
    requires NonePresent(cells)
    ensures RowTotal(cells) == 0.0
  {
  }

  /** A fully observed row totals the plain sum of its values. */
  lemma {:induction false} FullRowTotal(cells: seq<Option<real>>)
    requires AllPresent(cells)
    ensures RowTotal(cells) == Stats.Sum(Unwrap(cells))
  {
  }

  /** One row of the output table: its hour and its total. */
  datatype OutRow = OutRow(ts: int, value: real)

  predicate SortedByTime(rows: seq<OutRow>)
  {
    forall i, j :: 0 <= i < j < |rows| ==> rows[i].ts <= rows[j].ts
  }

  /** `row` placed before the first row with a later hour. */
  function InsertByTime(row: OutRow, rows: seq<OutRow>): (r: seq<OutRow>)
    ensures |r| == |rows| + 1
  {
    if rows == [] || row.ts <= rows[0].ts then [row] + rows
    else [rows[0]] + InsertByTime(row, rows[1..])
  }

  /** Line 37's `sort_values("timestamp")`, by insertion. */
  function SortByTime(rows: seq<OutRow>): (r: seq<OutRow>)
    ensures |r| == |rows|
  {
    if rows == [] then [] else InsertByTime(rows[0], SortByTime(rows[1..]))
  }

  /** Inserting keeps a sorted table sorted. */
  lemma {:induction false} InsertSorted(row: OutRow, rows: seq<OutRow>)
    requires SortedByTime(rows)
    ensures SortedByTime(InsertByTime(row, rows))
  {
    if rows != [] && row.ts > rows[0].ts {
      InsertSorted(row, rows[1..]);
      InsertAfter(rows[0].ts, row, rows[1..]);
    }
  }

  /** Inserting adds exactly the inserted row. */
  lemma {:induction false} InsertPermutes(row: OutRow, rows: seq<OutRow>)
    ensures multiset(InsertByTime(row, rows)) == multiset(rows) + multiset{row}
  {
    if rows != [] && row.ts > rows[0].ts {
      InsertPermutes(row, rows[1..]);
      assert rows == [rows[0]] + rows[1..];
    }
  }

  /** Rows no earlier than `t`, with a row no earlier than `t` inserted, are still
      no earlier than `t`. */
  lemma {:induction false} InsertAfter(t: int, row: OutRow, rows: seq<OutRow>)
    requires row.ts >= t && forall k :: 0 <= k < |rows| ==> rows[k].ts >= t
    ensures forall k :: 0 <= k < |rows| + 1 ==> InsertByTime(row, rows)[k].ts >= t
  {
    if rows != [] && row.ts > rows[0].ts {
      InsertAfter(t, row, rows[1..]);
    }
  }

  /** The sorted table is in hour order. */
  lemma {:induction false} SortByTimeSorted(rows: seq<OutRow>)
    ensures SortedByTime(SortByTime(rows))
  {
    if rows != [] {
      SortByTimeSorted(rows[1..]);
      InsertSorted(rows[0], SortByTime(rows[1..]));
    }
  }

  /** The sorted table holds exactly the rows it was given. */
  lemma {:induction false} SortByTimePermutes(rows: seq<OutRow>)
    ensures multiset(SortByTime(rows)) == multiset(rows)
  {
    if rows != [] {
      SortByTimePermutes(rows[1..]);
      InsertPermutes(rows[0], SortByTime(rows[1..]));
      assert rows == [rows[0]] + rows[1..];
    }
  }

  // ---------------------------------------------------------------------------
  // The table and `main`
  // ---------------------------------------------------------------------------

  /** A column of the table: text as read, numbers after the conversion, or hours. */
  datatype Column =
    | Text(cells: seq<string>)
    | Numbers(values: seq<Option<real>>)
    | Hours(hours: seq<int>)
  {
    function Height(): (n: nat)
      ensures Text? ==> n == |cells|
      ensures Numbers? ==> n == |values|
      ensures Hours? ==> n == |hours|
    {
      match this
      case Text(cells) => |cells|
      case Numbers(values) => |values|
      case Hours(hours) => |hours|
    }
  }

  /** Line 16 on a column of dates. */
  function Times(cells: seq<string>, parseTime: string -> int): (r: seq<int>)
    ensures |r| == |cells|
  {
    seq(|cells|, i requires 0 <= i < |cells| => parseTime(cells[i]))
  }

  /** Lines 23-32 on a whole column. */
  function Converted(cells: seq<string>): (r: seq<Option<real>>)
    ensures |r| == |cells|
  {
    seq(|cells|, i requires 0 <= i < |cells| => CellValue(cells[i]))
  }

  /** Every listed column is present, holds numbers and has `height` rows. */
  predicate NumbersAt(columns: map<string, Column>, vcs: seq<string>, height: nat)
  {
    forall k :: 0 <= k < |vcs| ==>
      vcs[k] in columns && columns[vcs[k]].Numbers? && columns[vcs[k]].Height() == height
  }

  /** The generation cells of row `i`, in column order. */
  function RowCells(columns: map<string, Column>, vcs: seq<string>, height: nat, i: nat): (r: seq<Option<real>>)
    requires NumbersAt(columns, vcs, height) && i < height
    ensures |r| == |vcs|
  {
    seq(|vcs|, k requires 0 <= k < |vcs| => columns[vcs[k]].values[i])
  }

  /** Line 35: every row's total, as a column with no missing entry. */
  function Totals(columns: map<string, Column>, vcs: seq<string>, height: nat): (r: seq<Option<real>>)
    requires NumbersAt(columns, vcs, height)
    ensures |r| == height && AllPresent(r)
  {
    seq(height, i requires 0 <= i < height => Some(RowTotal(RowCells(columns, vcs, height, i))))
  }

  /** The rows of `out` before sorting. */
  function Rows(hours: seq<int>, values: seq<real>): (r: seq<OutRow>)
    requires |hours| == |values|
    ensures |r| == |hours|
  {
    seq(|hours|, i requires 0 <= i < |hours| => OutRow(hours[i], values[i]))
  }

  /** Every column holds text, as `astype(str)` sees it. */
  predicate AsRead(columns: map<string, Column>)
  {
    forall c :: c in columns ==> columns[c].Text?
  }

  /** The start dates and every generation column are there, as text, `height` rows each. */
  predicate Readable(names: seq<string>, columns: map<string, Column>, height: nat)
  {
    var vcs := ValueColumns(names);
    StartDate in columns && columns[StartDate].Text? && columns[StartDate].Height() == height &&
    forall k :: 0 <= k < |vcs| ==>
      vcs[k] in columns && columns[vcs[k]].Text? && columns[vcs[k]].Height() == height
  }

  /** A text table of `height` rows holding every named column and the start dates. */
  predicate TextTable(names: seq<string>, columns: map<string, Column>, height: nat)
  {
    AsRead(columns) && StartDate in columns &&
    (forall c :: c in names ==> c in columns) &&
    (forall c :: c in columns ==> columns[c].Height() == height)
  }

  /** Such a table can be read. */
  lemma {:induction false} TableReadable(names: seq<string>, columns: map<string, Column>, height: nat)
    requires TextTable(names, columns, height)
    ensures Readable(names, columns, height)
  {
    var vcs := ValueColumns(names);
    forall k | 0 <= k < |vcs| ensures vcs[k] in columns {
      assert vcs[k] in vcs;
    }
  }

  /** Row `i`'s generation cells, converted straight from their text. */
  function TextRow(names: seq<string>, columns: map<string, Column>, height: nat, i: nat): (r: seq<Option<real>>)
    requires Readable(names, columns, height) && i < height
    ensures |r| == |ValueColumns(names)|
  {
    var vcs := ValueColumns(names);
    seq(|vcs|, k requires 0 <= k < |vcs| => CellValue(columns[vcs[k]].cells[i]))
  }

  /** What `main` writes, read straight from the text table: one row per input row,
      with the parsed start date and the total of the converted generation cells. */
  function Expected(names: seq<string>, columns: map<string, Column>, height: nat,
                    parseTime: string -> int): (r: seq<OutRow>)
    requires TextTable(names, columns, height)
    ensures |r| == height
  {
    TableReadable(names, columns, height);
    seq(height, i requires 0 <= i < height =>
      OutRow(parseTime(columns[StartDate].cells[i]), RowTotal(TextRow(names, columns, height, i))))
  }

  /** Only the generation columns and the start date feed the output: changing any
      other column changes nothing. */
  lemma {:induction false} ExpectedReadsOnlyValueColumns(names: seq<string>, a: map<string, Column>, b: map<string, Column>,
                                      height: nat, parseTime: string -> int)
    requires TextTable(names, a, height) && TextTable(names, b, height)
    requires a[StartDate] == b[StartDate]
    requires forall c :: c in names && IsValueColumn(c) && c in a && c in b ==> a[c] == b[c]
    ensures Expected(names, a, height, parseTime) == Expected(names, b, height, parseTime)
  {
    var vcs := ValueColumns(names);
    TableReadable(names, a, height);
    TableReadable(names, b, height);
    var ra, rb := Expected(names, a, height, parseTime), Expected(names, b, height, parseTime);
    forall i | 0 <= i < height ensures ra[i] == rb[i] {
      var ca, cb := TextRow(names, a, height, i), TextRow(names, b, height, i);
      forall k | 0 <= k < |vcs| ensures ca[k] == cb[k] {
        assert vcs[k] in vcs;
      }
      assert ca == cb;
    }
  }

  /** Each listed column of `converted` is the conversion of its text in `columns`. */
  predicate ConvertedFrom(converted: map<string, Column>, columns: map<string, Column>, vcs: seq<string>)
  {
    forall k :: 0 <= k < |vcs| ==>
      vcs[k] in columns && columns[vcs[k]].Text? && vcs[k] in converted &&
      converted[vcs[k]] == Numbers(Converted(columns[vcs[k]].cells))
  }

  /** The hours and totals `main` computes step by step are the rows `Expected` reads
      straight from the text table. */
  lemma {:induction false} PipelineRows(names: seq<string>, columns: map<string, Column>, height: nat,
                     parseTime: string -> int, converted: map<string, Column>)
    requires TextTable(names, columns, height)
    requires ConvertedFrom(converted, columns, ValueColumns(names))
    ensures NumbersAt(converted, ValueColumns(names), height)
    ensures Rows(Times(columns[StartDate].cells, parseTime), Unwrap(Totals(converted, ValueColumns(names), height))) ==
            Expected(names, columns, height, parseTime)
  {
    var vcs := ValueColumns(names);
    TableReadable(names, columns, height);
    forall k | 0 <= k < |vcs| ensures converted[vcs[k]].Height() == height {
      assert |Converted(columns[vcs[k]].cells)| == columns[vcs[k]].Height();
    }
    var totals := Unwrap(Totals(converted, vcs, height));
    var rows := Rows(Times(columns[StartDate].cells, parseTime), totals);
    var expected := Expected(names, columns, height, parseTime);
    forall i | 0 <= i < height ensures rows[i] == expected[i] {
      var cells, texts := RowCells(converted, vcs, height, i), TextRow(names, columns, height, i);
      forall k | 0 <= k < |vcs| ensures cells[k] == texts[k] { }
      assert cells == texts;
    }
  }

  /** The table `main` works on: its column names in order and its columns by name. */
  class Table {
    var names: seq<string>
    var columns: map<string, Column>
    var height: nat

    ghost predicate Valid()
      reads this
    {
      Distinct(names) &&
      (forall c :: c in columns <==> c in names) &&
      (forall c :: c in columns ==> columns[c].Height() == height)
    }

    /** The table `read_csv` gives, every cell as text. */
    constructor (names: seq<string>, cells: map<string, seq<string>>, height: nat)
      requires Distinct(names)
      requires forall c :: c in cells <==> c in names
      requires forall c :: c in cells ==> |cells[c]| == height
      ensures Valid() && AsRead(columns)
      ensures this.names == names && this.height == height
      ensures forall c :: c in columns <==> c in cells
      ensures forall c :: c in cells ==> columns[c] == Text(cells[c])
    {
      this.names := names;
      this.columns := map c | c in cells :: Text(cells[c]);
      this.height := height;
    }

    /** Line 16: `df["timestamp"]` from the start dates; false when there is no
        "Start date" column, where pandas raises. */
    method AddTimestamps(parseTime: string -> int) returns (found: bool)
      requires Valid() && AsRead(columns)
      modifies this
      ensures Valid()
      ensures found <==> StartDate in old(columns)
      ensures !found ==> names == old(names) && columns == old(columns) && height == old(height)
      ensures found ==> names == Extended(old(names), Timestamp) && height == old(height) &&
                        columns == old(columns)[Timestamp := Hours(Times(old(columns)[StartDate].cells, parseTime))]
    {
      if StartDate !in columns {
        return false;
      }
      var stamps := Times(columns[StartDate].cells, parseTime);
      if Timestamp !in names {
        forall i, j | 0 <= i < j < |names| + 1 ensures (names + [Timestamp])[i] != (names + [Timestamp])[j] {
          if j == |names| {
            assert names[i] in names;
          }
        }
      }
      names := Extended(names, Timestamp);
      columns := columns[Timestamp := Hours(stamps)];
      return true;
    }

    /** Lines 24-32 on one generation column: its cells replaced by their numbers. */
    method ConvertColumn(col: string)
      requires Valid() && col in columns && columns[col].Text?
      modifies this
      ensures Valid() && names == old(names) && height == old(height)
      ensures columns == old(columns)[col := Numbers(Converted(old(columns)[col].cells))]
    {
      columns := columns[col := Numbers(Converted(columns[col].cells))];
    }

    /** Lines 19-32: every generation column, in turn, replaced by its numbers. */
    method ConvertValueColumns()
      requires Valid()
      requires forall c :: c in columns && IsValueColumn(c) ==> columns[c].Text?
      modifies this
      ensures Valid() && names == old(names) && height == old(height)
      ensures forall c :: c in columns <==> c in old(columns)
      ensures forall c :: c in columns ==>
                columns[c] == if IsValueColumn(c) then Numbers(Converted(old(columns)[c].cells)) else old(columns)[c]
    {
      var vcs := ValueColumns(names);
      ValueColumnsDistinct(names);
      var j := 0;
      while j < |vcs|
        invariant 0 <= j <= |vcs|
        invariant Valid() && names == old(names) && height == old(height)
        invariant forall c :: c in columns <==> c in old(columns)
        invariant forall k :: 0 <= k < j ==> columns[vcs[k]] == Numbers(Converted(old(columns)[vcs[k]].cells))
        invariant forall k :: j <= k < |vcs| ==> columns[vcs[k]] == old(columns)[vcs[k]]
        invariant forall c :: c in columns && !IsValueColumn(c) ==> columns[c] == old(columns)[c]
      {
        assert forall k :: 0 <= k < |vcs| && k != j ==> vcs[k] != vcs[j];
        ConvertColumn(vcs[j]);
        j := j + 1;
      }
      forall c | c in columns && IsValueColumn(c)
        ensures columns[c] == Numbers(Converted(old(columns)[c].cells))
      {
        var k :| 0 <= k < |vcs| && vcs[k] == c;
      }
    }

    /** Line 35: `df["value"]`, each row's total over the generation columns. */
    method AddTotal()
      requires Valid() && NumbersAt(columns, ValueColumns(names), height)
      modifies this
      ensures Valid()
      ensures names == Extended(old(names), Total) && height == old(height)
      ensures columns == old(columns)[Total := Numbers(Totals(old(columns), ValueColumns(old(names)), old(height)))]
    {
      var totals := Totals(columns, ValueColumns(names), height);
      if Total !in names {
        forall i, j | 0 <= i < j < |names| + 1 ensures (names + [Total])[i] != (names + [Total])[j] {
          if j == |names| {
            assert names[i] in names;
          }
        }
      }
      names := Extended(names, Total);
      columns := columns[Total := Numbers(totals)];
    }

    /** Line 37: the hour and total of every row, ordered by hour. */
    method Output() returns (rows: seq<OutRow>)
      requires Valid()
      requires Timestamp in columns && columns[Timestamp].Hours?
      requires Total in columns && columns[Total].Numbers? && AllPresent(columns[Total].values)
      ensures SortedByTime(rows)
      ensures multiset(rows) == multiset(Rows(columns[Timestamp].hours, Unwrap(columns[Total].values)))
    {
      var unsorted := Rows(columns[Timestamp].hours, Unwrap(columns[Total].values));
      rows := SortByTime(unsorted);
      SortByTimeSorted(unsorted);
      SortByTimePermutes(unsorted);
    }

    /** `main` without the file handling: the output holds one row per input row,
        with its parsed start date and its generation total, ordered by hour. */
    method Process(parseTime: string -> int) returns (r: Result<seq<OutRow>>)
      requires Valid() && AsRead(columns)
      modifies this
      ensures r.Err? <==> StartDate !in old(columns)
      ensures r.Err? ==> r.failure == MissingColumn(StartDate)
      ensures r.Ok? ==> SortedByTime(r.value) &&
                        multiset(r.value) == multiset(Expected(old(names), old(columns), old(height), parseTime))
    {
      ghost var names0, columns0 := names, columns;
      var found := AddTimestamps(parseTime);
      if !found {
        return Err(MissingColumn(StartDate));
      }
      FixedColumnsAreNotValues();
      ValueColumnsExtended(names0, Timestamp);
      assert TextTable(names0, columns0, height);
      TableReadable(names0, columns0, height);
      ConvertValueColumns();
      ghost var vcs := ValueColumns(names0);
      forall k | 0 <= k < |vcs| ensures vcs[k] in columns && columns[vcs[k]] == Numbers(Converted(columns0[vcs[k]].cells)) {
        assert vcs[k] in vcs;
      }
      PipelineRows(names0, columns0, height, parseTime, columns);
      ghost var converted := columns;
      AddTotal();
      var rows := Output();
      return Ok(rows);
    }
  }
}
