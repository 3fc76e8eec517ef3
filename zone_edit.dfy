/** The line edits behind `delete_record` and `update_serial`: dropping the
    lines of one record name, and bumping the serial line. */
module ZoneEdit {
  import opened Wrappers
  import opened Text

  // ----- delete_record -----

  /** `re.match(rf'^{re.escape(name)}\s', line)`: the line starts with the
      name, taken literally, and then a white-space character. */
  predicate StartsWithName(line: string, name: string)
  {
    |name| < |line| && line[..|name|] == name && IsSpace(line[|name|])
  }

  /** The lines `delete_record` writes back, in their order. */
  function KeepLines(lines: seq<string>, name: string): seq<string>
  {
    if lines == [] then []
    else (if StartsWithName(lines[0], name) then [] else [lines[0]]) + KeepLines(lines[1..], name)
  }

  /** The loop of `delete_record`: every line is written unless it carries the name. */
  method FilterRecords(lines: seq<string>, name: string) returns (kept: seq<string>)
    ensures kept == KeepLines(lines, name)
  {
    kept := [];
    var i := 0;
    while i < |lines|
      invariant 0 <= i <= |lines|
      invariant kept == KeepLines(lines[..i], name)
    {
      var line := lines[i];
      assert lines[..i + 1] == lines[..i] + [line];
      KeepLinesAppend(lines[..i], [line], name);
      if !StartsWithName(line, name) {
        kept := kept + [line];
      }
      i := i + 1;
    }
    assert lines[..i] == lines;
  }

  /** Filtering goes line by line: it keeps the order of what it keeps. */
  lemma {:induction false} KeepLinesAppend(a: seq<string>, b: seq<string>, name: string)
    ensures KeepLines(a + b, name) == KeepLines(a, name) + KeepLines(b, name)
  {
    if a != [] {
      assert (a + b)[0] == a[0];
      assert (a + b)[1..] == a[1..] + b;
      KeepLinesAppend(a[1..], b, name);
    } else {
      assert a + b == b;
    }
  }

  /** A line survives exactly when it was there and does not carry the name. */
  lemma {:induction false} KeepLinesMembers(lines: seq<string>, name: string)
    ensures forall l :: l in KeepLines(lines, name) <==> l in lines && !StartsWithName(l, name)
  {
    if lines != [] {
      KeepLinesMembers(lines[1..], name);
      assert lines == [lines[0]] + lines[1..];
    }
  }

  /** Nothing is dropped from a file without a line of that name. */
  lemma {:induction false} KeepLinesNoMatch(lines: seq<string>, name: string)
    requires forall i :: 0 <= i < |lines| ==> !StartsWithName(lines[i], name)
    ensures KeepLines(lines, name) == lines
  {
    if lines != [] {
      KeepLinesNoMatch(lines[1..], name);
    }
  }

  /** Deleting the same name twice is the same as deleting it once. */
  lemma KeepLinesIdempotent(lines: seq<string>, name: string)
    ensures KeepLines(KeepLines(lines, name), name) == KeepLines(lines, name)
  {
    var kept := KeepLines(lines, name);
    KeepLinesMembers(lines, name);
    KeepLinesNoMatch(kept, name);
  }

  /** What `readlines()` gave is still the shape of a file after filtering. */
  lemma {:induction false} KeepLinesShape(lines: seq<string>, name: string)
    requires IsLineSplit(lines)
    ensures IsLineSplit(KeepLines(lines, name))
  {
    if lines != [] {
      assert IsLineSplit(lines[1..]) by {
        forall i | 0 <= i < |lines| - 1 ensures IsLine(lines[1..][i]) { assert lines[1..][i] == lines[i + 1]; }
      }
      KeepLinesShape(lines[1..], name);
      var rest := KeepLines(lines[1..], name);
      if !StartsWithName(lines[0], name) && rest != [] {
        assert EndsWithNewline(lines[0]);
      }
    }
  }

  // ----- update_serial -----

  /** Where the digits of a would-be serial line start and end, and where
      the ';' after them would be. */
  function DigitsStart(line: string): nat
    ensures DigitsStart(line) <= |line|
  {
    SkipSpaces(line, 0)
  }

  function DigitsEnd(line: string): nat
    ensures DigitsStart(line) <= DigitsEnd(line) <= |line|
  {
    SkipDigits(line, DigitsStart(line))
  }

  function SemicolonAt(line: string): nat
    ensures DigitsEnd(line) <= SemicolonAt(line) <= |line|
  {
    SkipSpaces(line, DigitsEnd(line))
  }

  /** `re.match(r'^\s*\d+\s*;\s*serial', line)`: white space, at least one
      digit, white space, ';', white space, then the word `serial`. */
  predicate IsSerialLine(line: string)
  {
    && DigitsStart(line) < DigitsEnd(line)
    && SemicolonAt(line) < |line| && line[SemicolonAt(line)] == ';'
    && "serial" <= line[SkipSpaces(line, SemicolonAt(line) + 1)..]
  }

  /** The digits of a serial line. */
  function SerialDigits(line: string): (digits: string)
    requires IsSerialLine(line)
    ensures digits != "" && AllDigits(digits)
  {
    line[DigitsStart(line)..DigitsEnd(line)]
  }

  /** The serial a serial line holds: the number its digits denote. */
  function SerialOf(line: string): nat
    requires IsSerialLine(line)
  {
    DigitsValue(SerialDigits(line))
  }

  /** `int(line.split(";")[0].strip())` reads the serial of a serial line,
      unless its digits are more than `int()` accepts. */
  lemma SerialOfIsInt(line: string)
    requires IsSerialLine(line)
    ensures ParseInt(Strip(SplitOn(line, ';')[0]))
      == if |SerialDigits(line)| <= MaxStrDigits then Some(SerialOf(line)) else None
  {
    SerialHead(line);
    StripSerialHead(line);
    var digits := SerialDigits(line);
    assert RemoveUnderscores(digits) == digits;
    ParseIntUnsigned(digits, DigitsValue(digits));
  }

  /** `line.split(";")[0]` of a serial line ends just before its first ';'. */
  lemma SerialHead(line: string)
    requires IsSerialLine(line)
    ensures SplitOn(line, ';')[0] == line[..SemicolonAt(line)]
  {
    var a, b, c := DigitsStart(line), DigitsEnd(line), SemicolonAt(line);
    assert ';' !in line[..c] by {
      forall k | 0 <= k < c ensures line[k] != ';' {
        if k < a { assert IsSpace(line[k]); } else if k < b { assert IsDigit(line[k]); } else { assert IsSpace(line[k]); }
      }
    }
    IndexOfIs(line, ';', c);
  }

  lemma StripSerialHead(line: string)
    requires IsSerialLine(line)
    ensures Strip(line[..SemicolonAt(line)]) == SerialDigits(line)
  {
    var a, b, c := DigitsStart(line), DigitsEnd(line), SemicolonAt(line);
    StripDigitRunPrefix(line, a, b, c);
  }

  lemma StripDigitRunPrefix(s: string, a: nat, b: nat, c: nat)
    requires a < b <= c <= |s|
    requires forall k :: 0 <= k < a ==> IsSpace(s[k])
    requires forall k :: a <= k < b ==> IsDigit(s[k])
    requires forall k :: b <= k < c ==> IsSpace(s[k])
    ensures Strip(s[..c]) == s[a..b]
  {
    DigitRunInPrefix(s, a, b, c);
    StripDigitRun(s[..c], a, b);
    SliceOfPrefix(s, a, b, c);
  }

  lemma DigitRunInPrefix(s: string, a: nat, b: nat, c: nat)
    requires a < b <= c <= |s|
    requires forall k :: 0 <= k < a ==> IsSpace(s[k])
    requires forall k :: a <= k < b ==> IsDigit(s[k])
    requires forall k :: b <= k < c ==> IsSpace(s[k])
    ensures a < b <= |s[..c]|
    ensures forall k :: 0 <= k < a ==> IsSpace(s[..c][k])
    ensures forall k :: a <= k < b ==> IsDigit(s[..c][k])
    ensures forall k :: b <= k < |s[..c]| ==> IsSpace(s[..c][k])
  {
  }

  lemma SliceOfPrefix(s: string, a: nat, b: nat, c: nat)
    requires a <= b <= c <= |s|
    ensures s[..c][a..b] == s[a..b]
  {
  }

  /** White space, a run of digits, white space: stripping leaves the digits. */
  lemma StripDigitRun(s: string, a: nat, b: nat)
    requires a < b <= |s|
    requires forall k :: 0 <= k < a ==> IsSpace(s[k])
    requires forall k :: a <= k < b ==> IsDigit(s[k])
    requires forall k :: b <= k < |s| ==> IsSpace(s[k])
    ensures Strip(s) == s[a..b]
  {
    assert TrimLeft(s, IsSpace) == s[a..] by {
      assert IsDigit(s[a]);
      TrimLeftIs(s, a);
    }
    TrimRightAfter(s, a, b);
    assert Strip(s) == TrimRight(TrimLeft(s, IsSpace), IsSpace);
  }

  lemma TrimRightAfter(s: string, a: nat, b: nat)
    requires a < b <= |s| && IsDigit(s[b - 1])
    requires forall k :: b <= k < |s| ==> IsSpace(s[k])
    ensures TrimRight(s[a..], IsSpace) == s[a..b]
  {
    var mid := s[a..];
    forall k | b - a <= k < |mid| ensures IsSpace(mid[k]) {
      assert mid[k] == s[a + k];
    }
    assert mid[b - a - 1] == s[b - 1];
    TrimRightIs(mid, b - a);
    assert mid[..b - a] == s[a..b];
  }

  lemma TrimLeftIs(s: string, k: nat)
    requires k <= |s| && forall i :: 0 <= i < k ==> IsSpace(s[i])
    requires k == |s| || !IsSpace(s[k])
    ensures TrimLeft(s, IsSpace) == s[k..]
  {
  }

  lemma TrimRightIs(s: string, k: nat)
    requires k <= |s| && forall i :: k <= i < |s| ==> IsSpace(s[i])
    requires k == 0 || !IsSpace(s[k - 1])
    ensures TrimRight(s, IsSpace) == s[..k]
  {
  }

  /** The date `datetime.now()` gives, as the serial rule reads it. */
  datatype Date = Date(year: int, month: int, day: int)

  /** A calendar date whose `%Y` has four digits. */
  predicate ValidDate(d: Date)
  {
    1000 <= d.year <= 9999 && 1 <= d.month <= 12 && 1 <= d.day <= 31
  }

  /** `int(now.strftime("%Y%m%d01"))`: the first serial of the day, YYYYMMDD01. */
  function FirstSerialOfDay(d: Date): (s: nat)
    requires ValidDate(d)
    ensures 1000000000 <= s < 10000000000 && s % 100 == 1
  {
    ((d.year * 100 + d.month) * 100 + d.day) * 100 + 1
  }

  predicate Before(d1: Date, d2: Date)
  {
    || d1.year < d2.year
    || (d1.year == d2.year && d1.month < d2.month)
    || (d1.year == d2.year && d1.month == d2.month && d1.day < d2.day)
  }

  /** A later day's first serial is above every serial of an earlier day that
      has used at most 99 numbers. */
  lemma FirstSerialOfLaterDay(d1: Date, d2: Date)
    requires ValidDate(d1) && ValidDate(d2) && Before(d1, d2)
    ensures FirstSerialOfDay(d1) + 99 <= FirstSerialOfDay(d2)
  {
  }

  /** `max(current_serial + 1, YYYYMMDD01)`. */
  function NextSerial(current: nat, today: Date): (next: nat)
    requires ValidDate(today)
    ensures next > current && next >= FirstSerialOfDay(today)
    ensures next == current + 1 || next == FirstSerialOfDay(today)
  {
    if current + 1 >= FirstSerialOfDay(today) then current + 1 else FirstSerialOfDay(today)
  }

  /** Two bumps on one day count up by one, whatever the first did. */
  lemma NextSerialSameDay(current: nat, today: Date)
    requires ValidDate(today)
    ensures NextSerial(NextSerial(current, today), today) == NextSerial(current, today) + 1
  {
  }

  /** The first bump of a new day restarts at YYYYMMDD01 when the old serial
      is one of an earlier day's first 99 (YYYYMMDD01 to YYYYMMDD99, or below). */
  lemma NextSerialNewDay(current: nat, earlier: Date, today: Date)
    requires ValidDate(earlier) && ValidDate(today) && Before(earlier, today)
    requires current <= FirstSerialOfDay(earlier) + 98
    ensures NextSerial(current, today) == FirstSerialOfDay(today)
  {
    FirstSerialOfLaterDay(earlier, today);
  }

  /** A larger serial is never bumped to a smaller one. */
  lemma NextSerialMonotonic(c1: nat, c2: nat, today: Date)
    requires ValidDate(today) && c1 <= c2
    ensures NextSerial(c1, today) <= NextSerial(c2, today)
  {
  }

  lemma NextSerialExamples()
    ensures NextSerial(2024010105, Date(2024, 1, 1)) == 2024010106
    ensures NextSerial(2024010100, Date(2024, 1, 2)) == 2024010201
  {
  }

  /** `f"{new_serial}\t; serial\n"`. */
  function SerialLine(serial: nat): string
  {
    NatToString(serial) + "\t; serial\n"
  }

  /** The line written for a serial is a serial line holding that serial. */
  lemma SerialLineRoundTrip(serial: nat)
    ensures IsSerialLine(SerialLine(serial))
    ensures SerialOf(SerialLine(serial)) == serial
    ensures IsLine(SerialLine(serial)) && EndsWithNewline(SerialLine(serial))
  {
    SerialLineParts(serial);
    NatToStringValue(serial);
    SerialLineIsLine(serial);
  }

  lemma SerialLineIsLine(serial: nat)
    ensures IsLine(SerialLine(serial)) && EndsWithNewline(SerialLine(serial))
  {
    var digits := NatToString(serial);
    var line := SerialLine(serial);
    forall k | 0 <= k < |line| - 1 ensures line[k] != '\n' {
      if k < |digits| {
        assert line[k] == digits[k];
      } else {
        assert line[k] == "\t; serial\n"[k - |digits|];
      }
    }
  }

  lemma SerialLineParts(serial: nat)
    ensures IsSerialLine(SerialLine(serial))
    ensures SerialDigits(SerialLine(serial)) == NatToString(serial)
  {
    DigitsThenSerial(NatToString(serial));
  }

  /** Digits, a tab, `; serial` and a newline make a serial line. */
  lemma DigitsThenSerial(digits: string)
    requires digits != "" && AllDigits(digits)
    ensures IsSerialLine(digits + "\t; serial\n")
    ensures SerialDigits(digits + "\t; serial\n") == digits
  {
    var line := digits + "\t; serial\n";
    var n := |digits|;
    assert forall k :: 0 <= k < n ==> line[k] == digits[k];
    assert line[n] == '\t' && line[n + 1] == ';' && line[n + 2] == ' ' && line[n + 3] == 's';
    SerialRunsAt(line, n);
  }

  /** Where the scan of a line that starts with `n` digits and continues with
      a tab, a semicolon, a space and a letter stops at each step. */
  lemma SerialRunsAt(line: string, n: nat)
    requires 0 < n && n + 4 <= |line|
    requires forall k :: 0 <= k < n ==> IsDigit(line[k])
    requires line[n] == '\t' && line[n + 1] == ';' && line[n + 2] == ' ' && line[n + 3] == 's'
    ensures DigitsStart(line) == 0 && DigitsEnd(line) == n
    ensures SemicolonAt(line) == n + 1
    ensures SkipSpaces(line, n + 2) == n + 3
  {
    assert DigitsStart(line) == 0 by {
      assert IsDigit(line[0]);
      SkipSpacesOver(line, 0, 0);
    }
    assert DigitsEnd(line) == n by {
      SkipDigitsOver(line, 0, n);
    }
    assert SemicolonAt(line) == n + 1 by {
      SkipSpacesOver(line, n, 1);
    }
    SkipSpacesOver(line, n + 2, 1);
  }

  /** The indices of serial lines. */
  function SerialAt(lines: seq<string>): nat -> bool
  {
    (k: nat) => k < |lines| && IsSerialLine(lines[k])
  }

  lemma SerialAtIs(lines: seq<string>)
    ensures forall k: nat :: SerialAt(lines)(k) == (k < |lines| && IsSerialLine(lines[k]))
  {
  }

  /** The index of the first serial line. */
  function FirstSerialIndex(lines: seq<string>): (r: Option<nat>)
    ensures r.Some? ==> r.value < |lines| && IsSerialLine(lines[r.value])
    ensures r.Some? ==> forall k :: 0 <= k < r.value ==> !IsSerialLine(lines[k])
    ensures r.None? ==> forall k :: 0 <= k < |lines| ==> !IsSerialLine(lines[k])
  {
    SerialAtIs(lines);
    var r := FirstWhere(SerialAt(lines), 0, |lines|);
    assert forall k :: 0 <= k < |lines| ==> (SerialAt(lines)(k) <==> IsSerialLine(lines[k]));
    r
  }

  lemma FirstSerialIndexIs(lines: seq<string>, i: nat)
    requires i < |lines| && IsSerialLine(lines[i])
    requires forall k :: 0 <= k < i ==> !IsSerialLine(lines[k])
    ensures FirstSerialIndex(lines) == Some(i)
  {
    SerialAtIs(lines);
    FirstWhereIs(SerialAt(lines), 0, |lines|, i);
  }

  /** The lines `update_serial` writes back: the first serial line holds the
      next serial; every other line is as it was, and without a serial line
      nothing changes. */
  function RewriteSerial(lines: seq<string>, today: Date): seq<string>
    requires ValidDate(today)
  {
    match FirstSerialIndex(lines)
    case None => lines
    case Some(i) => lines[i := SerialLine(NextSerial(SerialOf(lines[i]), today))]
  }

  /** The loop of `update_serial`: find the first serial line, rewrite it, stop.
      `change` is the (old, new) pair it reports. The serial is the value of
      its digits, which is what `int()` reads (`SerialOfIsInt`) as long as
      there are at most `MaxStrDigits` of them. */
  method BumpSerial(lines: seq<string>, today: Date) returns (result: seq<string>, change: Option<(nat, nat)>)
    requires ValidDate(today)
    ensures result == RewriteSerial(lines, today)
    ensures change.None? <==> FirstSerialIndex(lines).None?
    ensures change.Some? ==>
      && change.value.0 == SerialOf(lines[FirstSerialIndex(lines).value])
      && change.value.1 == NextSerial(change.value.0, today)
  {
    result := lines;
    change := None;
    var i := 0;
    while i < |result|
      invariant 0 <= i <= |result| && result == lines && change.None?
      invariant forall k :: 0 <= k < i ==> !IsSerialLine(lines[k])
    {
      if IsSerialLine(result[i]) {
        FirstSerialIndexIs(lines, i);
        var current := SerialOf(result[i]);
        var next := NextSerial(current, today);
        result := result[i := SerialLine(next)];
        change := Some((current, next));
        break;
      }
      i := i + 1;
    }
  }

  /** After a rewrite the serial line is where it was and holds the next
      serial: strictly more than before, and at least today's YYYYMMDD01. */
  lemma RewriteSerialBumps(lines: seq<string>, today: Date)
    requires ValidDate(today)
    ensures |RewriteSerial(lines, today)| == |lines|
    ensures FirstSerialIndex(RewriteSerial(lines, today)) == FirstSerialIndex(lines)
    ensures match FirstSerialIndex(lines)
      case None => RewriteSerial(lines, today) == lines
      case Some(i) =>
        && SerialOf(RewriteSerial(lines, today)[i]) == NextSerial(SerialOf(lines[i]), today)
        && SerialOf(lines[i]) < SerialOf(RewriteSerial(lines, today)[i])
        && (forall k :: 0 <= k < |lines| && k != i ==> RewriteSerial(lines, today)[k] == lines[k])
  {
    match FirstSerialIndex(lines)
    case None =>
    case Some(i) =>
      var next := NextSerial(SerialOf(lines[i]), today);
      SerialLineRoundTrip(next);
      ReplaceFirstSerial(lines, i, SerialLine(next));
  }

  /** Putting a serial line in place of the first one keeps it the first. */
  lemma ReplaceFirstSerial(lines: seq<string>, i: nat, line: string)
    requires FirstSerialIndex(lines) == Some(i) && IsSerialLine(line)
    ensures FirstSerialIndex(lines[i := line]) == Some(i)
  {
    var r := lines[i := line];
    assert forall k :: 0 <= k < i ==> r[k] == lines[k];
    FirstSerialIndexIs(r, i);
  }

  /** The serial a file's lines hold: the one on the first serial line. */
  function CurrentSerial(lines: seq<string>): Option<nat>
  {
    match FirstSerialIndex(lines)
    case None => None
    case Some(i) => Some(SerialOf(lines[i]))
  }

  /** A rewrite sets the file's serial to the next one. */
  lemma CurrentSerialRewrite(lines: seq<string>, today: Date)
    requires ValidDate(today)
    requires CurrentSerial(lines).Some?
    ensures CurrentSerial(RewriteSerial(lines, today)) == Some(NextSerial(CurrentSerial(lines).value, today))
  {
    var i := FirstSerialIndex(lines).value;
    var next := NextSerial(SerialOf(lines[i]), today);
    var r := RewriteSerial(lines, today);
    assert r == lines[i := SerialLine(next)];
    SerialLineRoundTrip(next);
    ReplaceFirstSerial(lines, i, SerialLine(next));
    assert SerialOf(r[i]) == next;
  }

  /** On one day, a second rewrite sets the serial one above the first rewrite. */
  lemma RewriteSerialTwice(lines: seq<string>, today: Date)
    requires ValidDate(today)
    requires CurrentSerial(lines).Some?
    ensures CurrentSerial(RewriteSerial(RewriteSerial(lines, today), today))
         == Some(NextSerial(CurrentSerial(lines).value, today) + 1)
  {
    CurrentSerialRewrite(lines, today);
    CurrentSerialRewrite(RewriteSerial(lines, today), today);
    NextSerialSameDay(CurrentSerial(lines).value, today);
  }

  /** A rewrite leaves the text in the shape `readlines()` gives. */
  lemma RewriteSerialShape(lines: seq<string>, today: Date)
    requires ValidDate(today) && IsLineSplit(lines)
    ensures IsLineSplit(RewriteSerial(lines, today))
  {
    match FirstSerialIndex(lines)
    case None =>
    case Some(i) =>
      SerialLineRoundTrip(NextSerial(SerialOf(lines[i]), today));
  }

  // ----- the file text before and after -----

  /** The zone file after `delete_record`'s filter. */
  function DeleteText(text: string, name: string): string
  {
    Join(KeepLines(SplitLines(text), name))
  }

  /** The zone file after `update_serial`. */
  function SerialText(text: string, today: Date): string
    requires ValidDate(today)
  {
    Join(RewriteSerial(SplitLines(text), today))
  }

  lemma DeleteTextLines(text: string, name: string)
    ensures SplitLines(DeleteText(text, name)) == KeepLines(SplitLines(text), name)
  {
    SplitLinesShape(text);
    KeepLinesShape(SplitLines(text), name);
    SplitLinesOfJoin(KeepLines(SplitLines(text), name));
  }

  lemma SerialTextLines(text: string, today: Date)
    requires ValidDate(today)
    ensures SplitLines(SerialText(text, today)) == RewriteSerial(SplitLines(text), today)
  {
    SplitLinesShape(text);
    RewriteSerialShape(SplitLines(text), today);
    SplitLinesOfJoin(RewriteSerial(SplitLines(text), today));
  }

  /** A file without a serial line is written back byte for byte. */
  lemma SerialTextWithoutSerial(text: string, today: Date)
    requires ValidDate(today)
    requires forall l :: l in SplitLines(text) ==> !IsSerialLine(l)
    ensures SerialText(text, today) == text
  {
    JoinOfSplitLines(text);
  }
}
