/** The release-date cleanup and year extraction applied to the
    "Release Date" column: cut a bracketed annotation, trim whitespace,
    insert a comma before a four-digit year, and read the year from the
    last four characters. */
module ReleaseDate {
  import opened Wrappers
  import opened Text

  /** `re.sub(r'\[.*\].*', '', s)`: at each `[` that has a `]` later on the
      same line, the rest of that line is removed (`.` never crosses a line
      feed); scanning resumes at the line feed. */
  function StripBrackets(s: string): (r: string)
    ensures |r| <= |s|
    decreases |s|
  {
    if s == [] then []
    else if s[0] == '[' && ']' in s[1..IndexFrom(s, '\n', 1)] then StripBrackets(s[IndexFrom(s, '\n', 1)..])
    else [s[0]] + StripBrackets(s[1..])
  }

  /** On a single line whose first `[` is followed by a `]`, everything from
      that `[` onward is removed. */
  lemma {:induction false} CutAtFirstBracket(s: string, p: nat)
    requires '\n' !in s
    requires p < |s| && s[p] == '[' && ']' in s[p + 1..] && '[' !in s[..p]
    ensures StripBrackets(s) == s[..p]
    decreases p
  {
    if p == 0 {
      assert IndexFrom(s, '\n', 1) == |s|;
      assert s[|s|..] == [];
    } else {
      assert s[0] != '[' by { assert s[0] == s[..p][0]; }
      assert s[1..][p - 1] == s[p];
      assert s[1..][p..] == s[p + 1..];
      assert s[1..][..p - 1] == s[1..p];
      CutAtFirstBracket(s[1..], p - 1);
      assert s[..p] == [s[0]] + s[1..p];
    }
  }

  /** A single line with no `[` followed by a `]` is left as it is. */
  lemma {:induction false} NoClosedBracketUnchanged(s: string)
    requires '\n' !in s
    requires forall i, j :: 0 <= i < j < |s| && s[i] == '[' ==> s[j] != ']'
    ensures StripBrackets(s) == s
    decreases |s|
  {
    if s != [] {
      if s[0] == '[' {
        assert ']' !in s[1..IndexFrom(s, '\n', 1)] by {
          forall k | 1 <= k < IndexFrom(s, '\n', 1) ensures s[k] != ']' { }
        }
      }
      forall i, j | 0 <= i < j < |s[1..]| && s[1..][i] == '[' ensures s[1..][j] != ']' {
        assert s[1..][i] == s[i + 1] && s[1..][j] == s[j + 1];
      }
      NoClosedBracketUnchanged(s[1..]);
    }
  }

  /** The characters Python's `str.strip()` removes: those `str.isspace()` accepts. */
  predicate IsSpace(c: char)
  {
    '\t' <= c <= '\r' || '\U{1C}' <= c <= ' ' || c == '\U{85}' || c == '\U{A0}' ||
    c == '\U{1680}' || '\U{2000}' <= c <= '\U{200A}' || c == '\U{2028}' || c == '\U{2029}' ||
    c == '\U{202F}' || c == '\U{205F}' || c == '\U{3000}'
  }

  /** Every character of `s` in `[lo, hi)` is whitespace. */
  ghost predicate AllSpace(s: string, lo: int, hi: int)
  {
    forall i :: lo <= i < hi && 0 <= i < |s| ==> IsSpace(s[i])
  }

  /** Index of the first non-whitespace character at or after `k`, or `|s|`. */
  function SkipSpaces(s: string, k: nat): (e: nat)
    requires k <= |s|
    ensures k <= e <= |s| && AllSpace(s, k, e)
    ensures e == |s| || !IsSpace(s[e])
    decreases |s| - k
  {
    if k < |s| && IsSpace(s[k]) then SkipSpaces(s, k + 1) else k
  }

  /** Index just after the last non-whitespace character before `k`, or 0. */
  function BackSpaces(s: string, k: nat): (b: nat)
    requires k <= |s|
    ensures b <= k && AllSpace(s, b, k)
    ensures b == 0 || !IsSpace(s[b - 1])
    decreases k
  {
    if k > 0 && IsSpace(s[k - 1]) then BackSpaces(s, k - 1) else k
  }

  /** `s.lstrip()`. */
  function StripStart(s: string): (r: string)
    ensures |r| <= |s| && r == s[|s| - |r|..]
    ensures r == [] || !IsSpace(r[0])
    ensures AllSpace(s, 0, |s| - |r|)
  {
    s[SkipSpaces(s, 0)..]
  }

  /** `s.rstrip()`. */
  function StripEnd(s: string): (r: string)
    ensures |r| <= |s| && r == s[..|r|]
    ensures r == [] || !IsSpace(r[|r| - 1])
    ensures AllSpace(s, |r|, |s|)
  {
    s[..BackSpaces(s, |s|)]
  }

  /** `s.strip()`: the text between the leading and the trailing whitespace. */
  function Strip(s: string): (r: string)
    ensures |r| <= |s|
    ensures r == [] || (!IsSpace(r[0]) && !IsSpace(r[|r| - 1]))
  {
    StripEnd(StripStart(s))
  }

  /** The stripped text is the slice of the input between its leading and
      its trailing whitespace. */
  lemma StripIsTrimmedSlice(s: string)
    ensures var a := |s| - |StripStart(s)|;
            a + |Strip(s)| <= |s| && Strip(s) == s[a..a + |Strip(s)|] &&
            AllSpace(s, 0, a) && AllSpace(s, a + |Strip(s)|, |s|)
  {
    var t := StripStart(s);
    TrimmedSlice(s, t, StripEnd(t));
  }

  /** Cutting whitespace from the front and then from the back leaves a
      slice with only whitespace around it. */
  lemma TrimmedSlice(s: string, t: string, r: string)
    requires |t| <= |s| && t == s[|s| - |t|..] && AllSpace(s, 0, |s| - |t|)
    requires |r| <= |t| && r == t[..|r|] && AllSpace(t, |r|, |t|)
    ensures var a := |s| - |t|;
            r == s[a..a + |r|] && AllSpace(s, 0, a) && AllSpace(s, a + |r|, |s|)
  {
    var a := |s| - |t|;
    forall i | a + |r| <= i < |s| ensures IsSpace(s[i]) {
      assert s[i] == t[i - a];
    }
  }

  /** Stripping twice is stripping once. */
  lemma StripIdempotent(s: string)
    ensures Strip(Strip(s)) == Strip(s)
  {
    var r := Strip(s);
    assert SkipSpaces(r, 0) == 0;
    assert r[0..] == r;
    assert StripStart(r) == r;
    assert BackSpaces(r, |r|) == |r|;
    assert r[..|r|] == r;
  }

  /** Python's `\w`, restricted to ASCII. */
  predicate IsWordChar(c: char)
  {
    'A' <= c <= 'Z' || 'a' <= c <= 'z' || '0' <= c <= '9' || c == '_'
  }

  /** Python's `\d`, restricted to ASCII. */
  predicate IsDigit(c: char)
  {
    '0' <= c <= '9'
  }

  /** The pattern `(\w)( \d{4})` matches at `i`. */
  predicate YearGapAt(s: string, i: int)
  {
    0 <= i && i + 6 <= |s| && IsWordChar(s[i]) && s[i + 1] == ' ' &&
    IsDigit(s[i + 2]) && IsDigit(s[i + 3]) && IsDigit(s[i + 4]) && IsDigit(s[i + 5])
  }

  /** `re.sub(r'(\w)( \d{4})', r'\1,\2', s)`: left to right, each match gets
      a comma after its word character and scanning resumes after the match. */
  function InsertComma(s: string): (r: string)
    ensures |r| >= |s|
    decreases |s|
  {
    if YearGapAt(s, 0) then [s[0], ','] + s[1..6] + InsertComma(s[6..])
    else if s == [] then []
    else [s[0]] + InsertComma(s[1..])
  }

  /** Text without the pattern is left unchanged. */
  lemma {:induction false} NoGapUnchanged(s: string)
    requires forall i :: !YearGapAt(s, i)
    ensures InsertComma(s) == s
    decreases |s|
  {
    if s != [] {
      forall i ensures !YearGapAt(s[1..], i) {
        if YearGapAt(s[1..], i) { assert YearGapAt(s, i + 1); }
      }
      NoGapUnchanged(s[1..]);
    }
  }

  /** Text holding the pattern somewhere always gains a comma. */
  lemma {:induction false} GapGrows(s: string, i: nat)
    requires YearGapAt(s, i)
    ensures |InsertComma(s)| > |s|
    decreases i
  {
    if !YearGapAt(s, 0) {
      assert YearGapAt(s[1..], i - 1);
      GapGrows(s[1..], i - 1);
    }
  }

  /** The text without its commas. */
  function DropCommas(s: string): (r: string)
  {
    if s == [] then [] else (if s[0] == ',' then [] else [s[0]]) + DropCommas(s[1..])
  }

  /** Removing commas distributes over concatenation. */
  lemma {:induction false} DropCommasAppend(a: string, b: string)
    ensures DropCommas(a + b) == DropCommas(a) + DropCommas(b)
    decreases |a|
  {
    if a != [] {
      DropCommasAppend(a[1..], b);
      var h := if a[0] == ',' then [] else [a[0]];
      assert (a + b)[0] == a[0];
      assert (a + b)[1..] == a[1..] + b;
      assert DropCommas(a + b) == h + DropCommas(a[1..] + b);
      assert DropCommas(a) == h + DropCommas(a[1..]);
      assert h + (DropCommas(a[1..]) + DropCommas(b)) == (h + DropCommas(a[1..])) + DropCommas(b);
    } else {
      assert a + b == b;
    }
  }

  /** Commas are the only thing inserted: everything else is kept in order. */
  lemma {:induction false} OnlyCommasInserted(s: string)
    ensures DropCommas(InsertComma(s)) == DropCommas(s)
    decreases |s|
  {
    if YearGapAt(s, 0) {
      OnlyCommasInserted(s[6..]);
      DropCommasAppend([s[0], ','] + s[1..6], InsertComma(s[6..]));
      DropCommasAppend([s[0], ','], s[1..6]);
      DropCommasAppend([s[0]], [',']);
      DropCommasAppend([s[0]], s[1..6]);
      DropCommasAppend([s[0]] + s[1..6], s[6..]);
      assert s == [s[0]] + s[1..6] + s[6..];
    } else if s != [] {
      OnlyCommasInserted(s[1..]);
      DropCommasAppend([s[0]], InsertComma(s[1..]));
      DropCommasAppend([s[0]], s[1..]);
      assert s == [s[0]] + s[1..];
    }
  }

  /** The last four characters (fewer in a shorter text): `.str[-4:]`. */
  function LastFour(s: string): (t: string)
    ensures |t| == if |s| < 4 then |s| else 4
    ensures t == s[|s| - |t|..]
  {
    if |s| <= 4 then s else s[|s| - 4..]
  }

  /** The last four characters of a text ending in at least four given characters. */
  lemma LastFourAppend(a: string, b: string)
    requires |b| >= 4
    ensures LastFour(a + b) == LastFour(b)
  {
    assert (a + b)[|a + b| - 4..] == b[|b| - 4..];
  }

  /** Inserting commas never changes the last four characters, so the year
      read from a date does not depend on whether commas were inserted first. */
  lemma {:induction false} InsertCommaKeepsLastFour(s: string)
    ensures LastFour(InsertComma(s)) == LastFour(s)
    decreases |s|
  {
    if YearGapAt(s, 0) {
      var rest := InsertComma(s[6..]);
      assert s == s[..6] + s[6..];
      if |s| - 6 >= 4 {
        InsertCommaKeepsLastFour(s[6..]);
        LastFourAppend([s[0], ','] + s[1..6], rest);
        LastFourAppend(s[..6], s[6..]);
      } else {
        NoGapUnchanged(s[6..]);
        assert InsertComma(s) == [s[0], ','] + (s[1..6] + s[6..]);
        assert s[1..6] + s[6..] == s[1..];
        LastFourAppend([s[0], ','], s[1..]);
        LastFourAppend([s[0]], s[1..]);
        assert s == [s[0]] + s[1..];
      }
    } else if s != [] {
      var rest := InsertComma(s[1..]);
      assert s == [s[0]] + s[1..];
      if |s| - 1 >= 4 {
        InsertCommaKeepsLastFour(s[1..]);
        LastFourAppend([s[0]], rest);
        LastFourAppend([s[0]], s[1..]);
      } else {
        NoGapUnchanged(s[1..]);
      }
    }
  }

  /** Value of one ASCII digit. */
  function DigitValue(c: char): (d: nat)
    requires IsDigit(c)
    ensures d < 10
  {
    c as int - '0' as int
  }

  /** Decimal value of a string of ASCII digits. */
  function DigitsValue(t: string): (n: nat)
    requires forall i :: 0 <= i < |t| ==> IsDigit(t[i])
    ensures n < Pow10(|t|)
  {
    if t == [] then 0
    else
      var m := DigitsValue(t[..|t| - 1]);
      assert m * 10 + 9 < Pow10(|t| - 1) * 10;
      m * 10 + DigitValue(t[|t| - 1])
  }

  /** Ten to the power `k`. */
  function Pow10(k: nat): (p: nat)
    ensures p >= 1
  {
    if k == 0 then 1 else 10 * Pow10(k - 1)
  }

  /** The digit character for `d`. */
  function Digit(d: nat): (c: char)
    requires d < 10
    ensures IsDigit(c) && DigitValue(c) == d
  {
    ('0' as int + d) as char
  }

  /** `y` written with exactly `k` decimal digits, leading zeros included. */
  function DigitsOf(y: nat, k: nat): (t: string)
    ensures |t| == k
    ensures forall i :: 0 <= i < k ==> IsDigit(t[i])
  {
    if k == 0 then [] else DigitsOf(y / 10, k - 1) + [Digit(y % 10)]
  }

  /** Reading back the digits of a number that fits gives the number. */
  lemma {:induction false} DigitsRoundTrip(y: nat, k: nat)
    requires y < Pow10(k)
    ensures DigitsValue(DigitsOf(y, k)) == y
  {
    if k > 0 {
      DigitsRoundTrip(y / 10, k - 1);
      var t := DigitsOf(y, k);
      assert t[..k - 1] == DigitsOf(y / 10, k - 1);
    }
  }

  /** `astype(int)` on the last four characters: defined when they are all
      digits (an empty date has no year). */
  function ReleaseYear(s: string): (r: Option<nat>)
    ensures r.Some? ==> r.value < 10000
    ensures r.Some? ==> |s| > 0 && IsDigit(s[|s| - 1])
  {
    var t := LastFour(s);
    assert Pow10(1) == 10 && Pow10(2) == 100 && Pow10(3) == 1000 && Pow10(4) == 10000;
    if t != [] && forall i :: 0 <= i < |t| ==> IsDigit(t[i]) then Some(DigitsValue(t)) else None
  }

  /** Any date ending in a four-digit year yields that year. */
  lemma YearRoundTrip(prefix: string, y: nat)
    requires y < 10000
    ensures ReleaseYear(prefix + DigitsOf(y, 4)) == Some(y)
  {
    var t := DigitsOf(y, 4);
    assert Pow10(4) == 10000;
    DigitsRoundTrip(y, 4);
    LastFourAppend(prefix, t);
  }

  /** A date of one to four digits is read whole: `str[-4:]` keeps all of it. */
  lemma ShortYearRoundTrip(y: nat, k: nat)
    requires 1 <= k <= 4 && y < Pow10(k)
    ensures ReleaseYear(DigitsOf(y, k)) == Some(y)
  {
    DigitsRoundTrip(y, k);
  }

  /** The year of a date whose last four characters include a non-digit is undefined. */
  lemma NonDigitYearUndefined(s: string, i: nat)
    requires |s| - 4 <= i < |s| && !IsDigit(s[i])
    ensures ReleaseYear(s) == None
  {
    assert LastFour(s)[i - (|s| - |LastFour(s)|)] == s[i];
  }

  /** The value compared for the most common release date: bracket cut,
      trim and comma insertion. */
  function CleanDate(s: string): (r: string)
    ensures DropCommas(r) == DropCommas(Strip(StripBrackets(s)))
  {
    var t := Strip(StripBrackets(s));
    OnlyCommasInserted(t);
    InsertComma(t)
  }

  /** The year used for the average: bracket cut and trim, then the last four characters. */
  function DateYear(s: string): (r: Option<nat>)
    ensures r == ReleaseYear(CleanDate(s))
  {
    var t := Strip(StripBrackets(s));
    InsertCommaKeepsLastFour(t);
    ReleaseYear(t)
  }

  /** Characters before the first match are copied unchanged. */
  lemma {:induction false} CopyUntilGap(w: string, rest: string)
    requires forall i :: 0 <= i < |w| ==> !YearGapAt(w + rest, i)
    ensures InsertComma(w + rest) == w + InsertComma(rest)
    decreases |w|
  {
    if w != [] {
      var s := w + rest;
      assert !YearGapAt(s, 0);
      assert s[1..] == w[1..] + rest;
      forall i | 0 <= i < |w[1..]| ensures !YearGapAt(w[1..] + rest, i) {
        assert !YearGapAt(s, i + 1);
      }
      CopyUntilGap(w[1..], rest);
      assert InsertComma(s) == [s[0]] + InsertComma(s[1..]);
      assert s[0] == w[0];
      assert w == [w[0]] + w[1..];
    } else {
      assert w + rest == rest;
    }
  }

  /** `i` is the leftmost match of `(\w)( \d{4})` in `s`. */
  ghost predicate FirstGapAt(s: string, i: int)
  {
    YearGapAt(s, i) && forall j :: 0 <= j < i ==> !YearGapAt(s, j)
  }

  /** The leftmost match gets its comma right after its word character;
      everything before it is copied, and the scan resumes after the four
      digits, so matches never overlap. */
  lemma FirstGapGetsComma(s: string, i: nat)
    requires FirstGapAt(s, i)
    ensures InsertComma(s) == s[..i + 1] + "," + s[i + 1..i + 6] + InsertComma(s[i + 6..])
  {
    var w, rest := s[..i], s[i..];
    assert s == w + rest;
    CopyUntilGap(w, rest);
    assert YearGapAt(rest, 0);
    assert rest[6..] == s[i + 6..] && rest[1..6] == s[i + 1..i + 6];
    assert s[..i + 1] == w + [rest[0]];
  }

  /** The cleaned date is the cut and stripped date when that holds no match. */
  lemma CleanDateNoGap(s: string)
    requires forall i :: !YearGapAt(Strip(StripBrackets(s)), i)
    ensures CleanDate(s) == Strip(StripBrackets(s))
  {
    NoGapUnchanged(Strip(StripBrackets(s)));
  }

  /** In the cleaned date, the leftmost match of the cut and stripped date
      has a comma after its word character, and the rest is cleaned alike. */
  lemma CleanDateFirstGap(s: string, i: nat)
    requires FirstGapAt(Strip(StripBrackets(s)), i)
    ensures var t := Strip(StripBrackets(s));
            CleanDate(s) == t[..i + 1] + "," + t[i + 1..i + 6] + InsertComma(t[i + 6..])
  {
    FirstGapGetsComma(Strip(StripBrackets(s)), i);
  }

  /** The four digits of 2006. */
  lemma Digits2006()
    ensures DigitsOf(2006, 4) == "2006"
  {
    assert DigitsOf(2, 1) == "2";
    assert DigitsOf(20, 2) == "20";
    assert DigitsOf(200, 3) == "200";
  }

  /** The four digits of 1997. */
  lemma Digits1997()
    ensures DigitsOf(1997, 4) == "1997"
  {
    assert DigitsOf(1, 1) == "1";
    assert DigitsOf(19, 2) == "19";
    assert DigitsOf(199, 3) == "199";
  }

  /** The bracketed annotation of the first example is cut off. */
  lemma AnnotationCut()
    ensures StripBrackets("August 20, 2006 [EBook #102]") == "August 20, 2006 "
  {
    var s := "August 20, 2006 [EBook #102]";
    assert s[16] == '[' && s[..16] == "August 20, 2006 ";
    assert s[17..][10] == ']';
    assert '\n' !in s;
    CutAtFirstBracket(s, 16);
  }

  /** The trailing space left by the cut is trimmed. */
  lemma TrailingSpaceTrimmed()
    ensures Strip("August 20, 2006 ") == "August 20, 2006"
  {
    var u := "August 20, 2006 ";
    assert !IsSpace(u[0]);
    assert StripStart(u) == u;
    var t := u[..|u| - 1];
    assert t == "August 20, 2006";
    assert !IsSpace(t[|t| - 1]);
  }

  /** A date already holding its comma is left alone. */
  lemma CommaAlreadyPresent()
    ensures InsertComma("August 20, 2006") == "August 20, 2006"
  {
    var t := "August 20, 2006";
    forall i ensures !YearGapAt(t, i) {
      if 0 <= i && i + 6 <= |t| {
        assert t[9] == ',';
      }
    }
    NoGapUnchanged(t);
  }

  /** The year of the first example. */
  lemma Year2006()
    ensures ReleaseYear("August 20, 2006") == Some(2006)
  {
    Digits2006();
    YearRoundTrip("August 20, ", 2006);
    assert "August 20, " + "2006" == "August 20, 2006";
  }

  /** "August 20, 2006 [EBook #102]" loses its annotation and keeps its year. */
  lemma AnnotatedDateExample()
    ensures CleanDate("August 20, 2006 [EBook #102]") == "August 20, 2006"
    ensures DateYear("August 20, 2006 [EBook #102]") == Some(2006)
  {
    var s := "August 20, 2006 [EBook #102]";
    var t := "August 20, 2006";
    AnnotationCut();
    TrailingSpaceTrimmed();
    assert Strip(StripBrackets(s)) == t;
    CommaAlreadyPresent();
    Year2006();
  }

  /** No match starts within "Augus". */
  lemma NoGapBeforeYear()
    ensures forall i :: 0 <= i < 5 ==> !YearGapAt("Augus" + "t 1997", i)
  {
    var s := "Augus" + "t 1997";
    forall i | 0 <= i < 5 ensures !YearGapAt(s, i) {
      assert s[i + 1] != ' ';
    }
  }

  /** The match at the end of "t 1997" gets its comma. */
  lemma GapAtYear()
    ensures InsertComma("t 1997") == "t, 1997"
  {
    var g := "t 1997";
    assert YearGapAt(g, 0) && g[6..] == [];
  }

  /** The comma is inserted between "August" and " 1997". */
  lemma CommaInserted()
    ensures InsertComma("August 1997") == "August, 1997"
  {
    NoGapBeforeYear();
    CopyUntilGap("Augus", "t 1997");
    GapAtYear();
    assert "Augus" + "t 1997" == "August 1997";
    assert "Augus" + "t, 1997" == "August, 1997";
  }

  /** The year of the second example. */
  lemma Year1997()
    ensures ReleaseYear("August 1997") == Some(1997)
  {
    Digits1997();
    YearRoundTrip("August ", 1997);
    assert "August " + "1997" == "August 1997";
  }

  /** The second example has no bracket. */
  lemma BareDateNoBracket()
    ensures StripBrackets("August 1997") == "August 1997"
  {
    var s := "August 1997";
    assert '\n' !in s;
    assert forall i :: 0 <= i < |s| ==> s[i] != '[';
    NoClosedBracketUnchanged(s);
  }

  /** The second example has no leading whitespace. */
  lemma BareDateNoLeadingSpace()
    ensures StripStart("August 1997") == "August 1997"
  {
    var s := "August 1997";
    assert s[0] == 'A';
  }

  /** The second example has no trailing whitespace. */
  lemma BareDateNoTrailingSpace()
    ensures StripEnd("August 1997") == "August 1997"
  {
    var s := "August 1997";
    assert s[|s| - 1] == '7';
  }

  /** "August 1997" gains a comma before its year. */
  lemma BareYearExample()
    ensures CleanDate("August 1997") == "August, 1997"
    ensures DateYear("August 1997") == Some(1997)
  {
    BareDateNoBracket();
    BareDateNoLeadingSpace();
    BareDateNoTrailingSpace();
    CommaInserted();
    Year1997();
  }
}
