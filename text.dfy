/** Character classes, line splitting and integer text conversions that the
    zone editor relies on, written as Python's string primitives behave on
    text: `str.isspace()`, `str.strip()`, `readlines()`, `str(n)` and `int(s)`. */
module Text {
  import opened Wrappers

  /** A white-space character as `str.isspace()` decides it; the regular
      expression class `\s` and `str.strip()` use the same set on text. */
  predicate IsSpace(c: char)
  {
    || c == ' '
    || ('\t' <= c <= '\r')
    || ('\U{1c}' <= c <= '\U{1f}')
    || c == '\U{85}' || c == '\U{a0}' || c == '\U{1680}'
    || ('\U{2000}' <= c <= '\U{200a}')
    || c == '\U{2028}' || c == '\U{2029}' || c == '\U{202f}' || c == '\U{205f}' || c == '\U{3000}'
  }

  /** The white space `int()` skips around a number: tab to carriage return,
      space, and every `str.isspace()` character above U+007F (CPython turns
      those into spaces first). The separators U+001C to U+001F are white space
      to `str.isspace()` but not to `int()`. */
  predicate IsIntSpace(c: char)
  {
    IsSpace(c) && !('\U{1c}' <= c <= '\U{1f}')
  }

  predicate IsDigit(c: char)
  {
    '0' <= c <= '9'
  }

  predicate AllDigits(s: string)
  {
    forall k :: 0 <= k < |s| ==> IsDigit(s[k])
  }

  function DigitChar(d: nat): (c: char)
    requires d < 10
    ensures IsDigit(c)
  {
    (d + '0' as int) as char
  }

  function DigitValue(c: char): (d: nat)
    requires IsDigit(c)
    ensures d < 10 && DigitChar(d) == c
  {
    (c as int - '0' as int) as nat
  }

  /** The number a run of decimal digits denotes, most significant digit first. */
  function DigitsValue(s: string): nat
    requires AllDigits(s)
  {
    if s == "" then 0 else 10 * DigitsValue(s[..|s| - 1]) + DigitValue(s[|s| - 1])
  }

  /** Decimal text of a natural number, as `str(n)` writes it: digits only,
      and no leading zero except in "0" itself. */
  function NatToString(n: nat): (s: string)
    ensures s != "" && AllDigits(s)
    ensures s[0] == '0' ==> n == 0
  {
    if n < 10 then [DigitChar(n)] else NatToString(n / 10) + [DigitChar(n % 10)]
  }

  /** Decimal text of an integer, with a leading '-' when it is negative. */
  function IntToString(i: int): (s: string)
    ensures s != "" && IsDigit(s[|s| - 1])
    ensures i < 0 <==> s[0] == '-'
  {
    if i < 0 then "-" + NatToString(-i) else NatToString(i)
  }

  lemma {:induction false} NatToStringValue(n: nat)
    ensures DigitsValue(NatToString(n)) == n
  {
    if n >= 10 {
      var s := NatToString(n);
      assert s[..|s| - 1] == NatToString(n / 10);
      NatToStringValue(n / 10);
    }
  }

  /** End of the run of white space that starts at `i`. */
  function SkipSpaces(s: string, i: nat): (j: nat)
    requires i <= |s|
    ensures i <= j <= |s|
    ensures forall k :: i <= k < j ==> IsSpace(s[k])
    ensures j < |s| ==> !IsSpace(s[j])
    decreases |s| - i
  {
    if i < |s| && IsSpace(s[i]) then SkipSpaces(s, i + 1) else i
  }

  /** End of the run of decimal digits that starts at `i`. */
  function SkipDigits(s: string, i: nat): (j: nat)
    requires i <= |s|
    ensures i <= j <= |s|
    ensures forall k :: i <= k < j ==> IsDigit(s[k])
    ensures j < |s| ==> !IsDigit(s[j])
    decreases |s| - i
  {
    if i < |s| && IsDigit(s[i]) then SkipDigits(s, i + 1) else i
  }

  lemma SkipSpacesOver(s: string, i: nat, n: nat)
    requires i + n <= |s| && forall k :: i <= k < i + n ==> IsSpace(s[k])
    requires i + n == |s| || !IsSpace(s[i + n])
    ensures SkipSpaces(s, i) == i + n
    decreases n
  {
    if n > 0 {
      SkipSpacesOver(s, i + 1, n - 1);
    }
  }

  lemma SkipDigitsOver(s: string, i: nat, n: nat)
    requires i + n <= |s| && forall k :: i <= k < i + n ==> IsDigit(s[k])
    requires i + n == |s| || !IsDigit(s[i + n])
    ensures SkipDigits(s, i) == i + n
    decreases n
  {
    if n > 0 {
      SkipDigitsOver(s, i + 1, n - 1);
    }
  }

  lemma IntToStringExcludes(i: int, c: char)
    requires !IsDigit(c) && c != '-'
    ensures c !in IntToString(i)
  {
    var s := IntToString(i);
    if i < 0 {
      assert forall k :: 1 <= k < |s| ==> s[k] == NatToString(-i)[k - 1];
    }
  }

  /** `s` with its leading white space removed: the longest suffix that does
      not start with white space and drops only white space. */
  function TrimLeft(s: string, space: char -> bool): (r: string)
    ensures |r| <= |s| && r == s[|s| - |r|..]
    ensures r != "" ==> !space(r[0])
    ensures forall k :: 0 <= k < |s| - |r| ==> space(s[k])
  {
    if s != "" && space(s[0]) then TrimLeft(s[1..], space) else s
  }

  /** `s` with its trailing white space removed. */
  function TrimRight(s: string, space: char -> bool): (r: string)
    ensures |r| <= |s| && r == s[..|r|]
    ensures r != "" ==> !space(r[|r| - 1])
    ensures forall k :: |r| <= k < |s| ==> space(s[k])
  {
    if s != "" && space(s[|s| - 1]) then TrimRight(s[..|s| - 1], space) else s
  }

  /** `s` with the white space at both of its ends removed. */
  function StripWith(s: string, space: char -> bool): string
  {
    TrimRight(TrimLeft(s, space), space)
  }

  /** Python's `str.strip()` with no argument. */
  function Strip(s: string): string
  {
    StripWith(s, IsSpace)
  }

  lemma StripUnchanged(s: string, space: char -> bool)
    requires s != "" ==> !space(s[0]) && !space(s[|s| - 1])
    ensures StripWith(s, space) == s
  {
  }

  /** Decimal digits with single underscores between them, which is what
      `int()` accepts after the optional sign ("1_000", not "1__0" or "_1"). */
  predicate IsDigitGroups(s: string)
  {
    && s != ""
    && IsDigit(s[0]) && IsDigit(s[|s| - 1])
    && (forall k :: 0 <= k < |s| ==> IsDigit(s[k]) || s[k] == '_')
    && (forall i, j :: 0 <= i < |s| && 0 <= j < |s| && j == i + 1 ==> s[i] != '_' || s[j] != '_')
  }

  function RemoveUnderscores(s: string): (r: string)
    requires forall k :: 0 <= k < |s| ==> IsDigit(s[k]) || s[k] == '_'
    ensures AllDigits(r)
    ensures AllDigits(s) ==> r == s
  {
    if s == "" then "" else (if s[0] == '_' then "" else [s[0]]) + RemoveUnderscores(s[1..])
  }

  /** The most digits `int()` reads from decimal text: Python's default
      `sys.int_info.default_max_str_digits`. */
  const MaxStrDigits: nat := 4300

  /** The text after an optional sign. */
  function Unsigned(t: string): string
  {
    if t != "" && (t[0] == '-' || t[0] == '+') then t[1..] else t
  }

  /** Python's `int(s)` in base 10: the white space `IsIntSpace` admits is
      ignored at both ends, then one optional sign and digit groups; anything
      else is a ValueError (None), and so is text of more than `MaxStrDigits`
      digits, underscores and sign not counted. */
  function ParseInt(s: string): Option<int>
  {
    var t := StripWith(s, IsIntSpace);
    if IsDigitGroups(Unsigned(t)) && |RemoveUnderscores(Unsigned(t))| > MaxStrDigits then None
    else ParseDecimal(t)
  }

  /** The integer that signed decimal text denotes, read as `int()` reads text
      with no surrounding white space but with no bound on its length. */
  function ParseDecimal(t: string): Option<int>
  {
    var body := Unsigned(t);
    if IsDigitGroups(body) then
      var v: int := DigitsValue(RemoveUnderscores(body));
      Some(if t[0] == '-' then -v else v)
    else None
  }

  /** `int(str(n)) == n` whenever `str(n)` has at most `MaxStrDigits` digits;
      `int()` refuses longer text. */
  lemma ParseIntOfIntToString(n: int)
    ensures ParseInt(IntToString(n)) == if |Unsigned(IntToString(n))| <= MaxStrDigits then Some(n) else None
  {
    if n < 0 {
      ParseIntOfNegative(n);
    } else {
      ParseIntOfNat(n);
    }
  }

  lemma ParseIntOfNegative(n: int)
    requires n < 0
    ensures ParseInt(IntToString(n)) == if |Unsigned(IntToString(n))| <= MaxStrDigits then Some(n) else None
  {
    var body := NatToString(-n);
    NegativeText(n);
    DigitGroupsOfNat(-n);
    ParseDecimalNegated(body, -n);
    ParseIntSigned(IntToString(n), body, n);
  }

  /** `int(t)` for a minus sign followed by digit groups without underscores. */
  lemma ParseIntSigned(t: string, body: string, n: int)
    requires t != "" && t[0] == '-' && IsDigit(t[|t| - 1])
    requires Unsigned(t) == body && IsDigitGroups(body) && RemoveUnderscores(body) == body
    requires ParseDecimal(t) == Some(n)
    ensures ParseInt(t) == if |Unsigned(t)| <= MaxStrDigits then Some(n) else None
  {
    NotIntSpace(t[0]);
    NotIntSpace(t[|t| - 1]);
    ParseIntUnstripped(t, body);
  }

  /** `str(n)` of a negative `n` is '-' and the digits of `-n`. */
  lemma NegativeText(n: int)
    requires n < 0
    ensures IntToString(n) == "-" + NatToString(-n)
    ensures IntToString(n)[0] == '-' && Unsigned(IntToString(n)) == NatToString(-n)
    ensures RemoveUnderscores(NatToString(-n)) == NatToString(-n)
  {
    var body := NatToString(-n);
    assert ("-" + body)[0] == '-' && ("-" + body)[1..] == body;
  }

  lemma ParseIntOfNat(n: nat)
    ensures ParseInt(IntToString(n)) == if |Unsigned(IntToString(n))| <= MaxStrDigits then Some(n) else None
  {
    var s := NatToString(n);
    assert IntToString(n) == s;
    assert IsDigit(s[0]) && Unsigned(s) == s;
    assert RemoveUnderscores(s) == s;
    DigitGroupsOfNat(n);
    ParseIntUnsigned(s, n);
  }

  /** The text written for an integer reads back as it, with no bound on its length. */
  lemma ParseDecimalOfIntToString(n: int)
    ensures ParseDecimal(IntToString(n)) == Some(n)
  {
    if n < 0 {
      var body := NatToString(-n);
      DigitGroupsOfNat(-n);
      ParseDecimalNegated(body, -n);
    } else {
      DigitGroupsOfNat(n);
      ParseDecimalUnsigned(NatToString(n), n);
    }
  }

  lemma ParseDecimalNegated(body: string, v: nat)
    requires IsDigitGroups(body) && DigitsValue(RemoveUnderscores(body)) == v
    ensures ParseDecimal("-" + body) == Some(-(v as int))
  {
    var t := "-" + body;
    assert t[0] == '-' && Unsigned(t) == body;
  }

  lemma DigitGroupsOfNat(n: nat)
    ensures IsDigitGroups(NatToString(n))
    ensures DigitsValue(RemoveUnderscores(NatToString(n))) == n
  {
    NatToStringValue(n);
  }

  /** A digit or a minus sign is not white space, to `int()` or to `strip()`. */
  lemma NotIntSpace(c: char)
    requires IsDigit(c) || c == '-'
    ensures !IsIntSpace(c) && !IsSpace(c)
  {
  }

  /** `int()` of text with no white space around it: the decimal reading,
      within the limit on digits. */
  lemma ParseIntUnstripped(t: string, body: string)
    requires t != "" && !IsIntSpace(t[0]) && !IsIntSpace(t[|t| - 1])
    requires Unsigned(t) == body && IsDigitGroups(body)
    ensures ParseInt(t) == if |RemoveUnderscores(body)| <= MaxStrDigits then ParseDecimal(t) else None
  {
    StripUnchanged(t, IsIntSpace);
  }

  /** `int(t)` for digit groups `t` worth `n`. */
  lemma ParseIntUnsigned(t: string, n: int)
    requires IsDigitGroups(t) && DigitsValue(RemoveUnderscores(t)) == n
    ensures ParseInt(t) == if |RemoveUnderscores(t)| <= MaxStrDigits then Some(n) else None
  {
    NotIntSpace(t[0]);
    NotIntSpace(t[|t| - 1]);
    ParseDecimalUnsigned(t, n);
    ParseIntUnstripped(t, t);
  }

  lemma ParseDecimalUnsigned(t: string, n: int)
    requires IsDigitGroups(t) && DigitsValue(RemoveUnderscores(t)) == n
    ensures ParseDecimal(t) == Some(n)
  {
    assert IsDigit(t[0]) && Unsigned(t) == t;
  }

  // ----- searching -----

  /** The first position in `from..end` where `p` holds. */
  function FirstWhere(p: nat -> bool, from: nat, end: nat): (r: Option<nat>)
    ensures r.Some? ==> from <= r.value < end && p(r.value)
    ensures r.Some? ==> forall k :: from <= k < r.value ==> !p(k)
    ensures r.None? ==> forall k :: from <= k < end ==> !p(k)
    decreases end - from
  {
    if from >= end then None
    else if p(from) then Some(from)
    else FirstWhere(p, from + 1, end)
  }

  lemma {:induction false} FirstWhereIs(p: nat -> bool, from: nat, end: nat, i: nat)
    requires from <= i < end && p(i)
    requires forall k :: from <= k < i ==> !p(k)
    ensures FirstWhere(p, from, end) == Some(i)
    decreases i - from
  {
    if from < i {
      FirstWhereIs(p, from + 1, end, i);
    }
  }

  // ----- lines, as readlines() and writelines() see a file's text -----

  /** Length of the first line of `s`, its '\n' included when it has one. */
  function FirstLineLength(s: string): (n: nat)
    requires s != ""
    ensures 0 < n <= |s|
    ensures forall k :: 0 <= k < n - 1 ==> s[k] != '\n'
    ensures n < |s| ==> s[n - 1] == '\n'
  {
    if s[0] == '\n' || |s| == 1 then 1 else 1 + FirstLineLength(s[1..])
  }

  lemma FirstLineLengthIs(s: string, m: nat)
    requires 0 < m <= |s|
    requires forall k :: 0 <= k < m - 1 ==> s[k] != '\n'
    requires m == |s| || s[m - 1] == '\n'
    ensures FirstLineLength(s) == m
  {
  }

  /** `readlines()`: the text cut after every '\n'; a last line without one is kept. */
  function SplitLines(s: string): seq<string>
    decreases |s|
  {
    if s == "" then []
    else
      var n := FirstLineLength(s);
      [s[..n]] + SplitLines(s[n..])
  }

  /** `writelines()`: the lines written one after another. */
  function Join(lines: seq<string>): string
  {
    if lines == [] then "" else lines[0] + Join(lines[1..])
  }

  predicate EndsWithNewline(s: string)
  {
    s != "" && s[|s| - 1] == '\n'
  }

  /** One line of a file: non-empty, with a '\n' at most at its end. */
  predicate IsLine(l: string)
  {
    l != "" && forall k :: 0 <= k < |l| - 1 ==> l[k] != '\n'
  }

  /** The shape `readlines()` produces: lines, all but the last ending in '\n'. */
  predicate IsLineSplit(lines: seq<string>)
  {
    && (forall i :: 0 <= i < |lines| ==> IsLine(lines[i]))
    && (forall i :: 0 <= i < |lines| - 1 ==> EndsWithNewline(lines[i]))
  }

  lemma {:induction false} JoinOfSplitLines(s: string)
    ensures Join(SplitLines(s)) == s
    decreases |s|
  {
    if s != "" {
      var n := FirstLineLength(s);
      JoinOfSplitLines(s[n..]);
      assert s[..n] + s[n..] == s;
    }
  }

  lemma {:induction false} SplitLinesShape(s: string)
    ensures IsLineSplit(SplitLines(s))
    decreases |s|
  {
    if s != "" {
      var n := FirstLineLength(s);
      SplitLinesShape(s[n..]);
    }
  }

  lemma {:induction false} SplitLinesOfJoin(lines: seq<string>)
    requires IsLineSplit(lines)
    ensures SplitLines(Join(lines)) == lines
  {
    if lines != [] {
      var l, rest := lines[0], lines[1..];
      var s := Join(lines);
      assert s == l + Join(rest);
      FirstLineLengthIs(s, |l|);
      assert s[..|l|] == l;
      assert s[|l|..] == Join(rest);
      assert IsLineSplit(rest) by {
        forall i | 0 <= i < |rest| ensures IsLine(rest[i]) { assert rest[i] == lines[i + 1]; }
      }
      SplitLinesOfJoin(rest);
    }
  }

  lemma {:induction false} JoinAppend(a: seq<string>, b: seq<string>)
    ensures Join(a + b) == Join(a) + Join(b)
  {
    if a != [] {
      assert (a + b)[0] == a[0];
      assert (a + b)[1..] == a[1..] + b;
      JoinAppend(a[1..], b);
      calc {
        Join(a + b);
        a[0] + Join(a[1..] + b);
        a[0] + (Join(a[1..]) + Join(b));
        (a[0] + Join(a[1..])) + Join(b);
      }
    } else {
      assert a + b == b;
    }
  }

  /** Appending one line to a text that ends at a line boundary adds exactly
      that line to what `readlines()` returns. */
  lemma {:induction false} SplitLinesAppendLine(s: string, l: string)
    requires s == "" || EndsWithNewline(s)
    requires IsLine(l)
    ensures SplitLines(s + l) == SplitLines(s) + [l]
    decreases |s|
  {
    if s == "" {
      assert s + l == l;
      FirstLineLengthIs(l, |l|);
      assert l[..|l|] == l && l[|l|..] == "";
    } else {
      var n := FirstLineLength(s);
      FirstLineLengthIs(s + l, n);
      assert (s + l)[..n] == s[..n];
      assert (s + l)[n..] == s[n..] + l;
      SplitLinesAppendLine(s[n..], l);
    }
  }

  // ----- fields -----

  /** Position of the first `c` in `s`. */
  function IndexOf(s: string, c: char): (r: Option<nat>)
    ensures r.Some? ==> r.value < |s| && s[r.value] == c && c !in s[..r.value]
    ensures r.None? ==> c !in s
  {
    if s == [] then None
    else if s[0] == c then Some(0)
    else
      match IndexOf(s[1..], c)
      case Some(i) =>
        assert s[..i + 1] == [s[0]] + s[1..][..i];
        Some(i + 1)
      case None => None
  }

  /** Python's `s.split(c)` for a one-character separator. */
  function SplitOn(s: string, c: char): (parts: seq<string>)
    ensures parts != []
    decreases |s|
  {
    match IndexOf(s, c)
    case Some(i) => [s[..i]] + SplitOn(s[i + 1..], c)
    case None => [s]
  }

  lemma SplitOnNone(s: string, c: char)
    requires c !in s
    ensures SplitOn(s, c) == [s]
  {
  }

  lemma SplitOnField(a: string, c: char, b: string)
    requires c !in a
    ensures SplitOn(a + [c] + b, c) == [a] + SplitOn(b, c)
  {
    var s := a + [c] + b;
    assert s[..|a|] == a;
    IndexOfIs(s, c, |a|);
    assert s[|a| + 1..] == b;
  }

  lemma IndexOfIs(s: string, c: char, i: nat)
    requires i < |s| && s[i] == c && c !in s[..i]
    ensures IndexOf(s, c) == Some(i)
  {
  }
}
