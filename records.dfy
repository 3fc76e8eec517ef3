/** What `add_record` writes for one resource record, the checks the menu
    makes on its input before calling it, and the dotted-quad shape check
    `is_valid_ip`. */
module Records {
  import opened Wrappers
  import opened Text

  /** The record types the editor accepts (VALID_RECORD_TYPES). */
  const RecordTypes: set<string> := {"A", "CNAME", "MX", "TXT", "NS", "PTR"}

  /** The TTL the menu uses when none is typed. */
  const DefaultTtl: int := 3600

  function UpperChar(c: char): char
  {
    if 'a' <= c <= 'z' then (c as int - 32) as char else c
  }

  /** `str.upper()`, on ASCII letters. */
  function Upper(s: string): (r: string)
    ensures |r| == |s| && forall k :: 0 <= k < |s| ==> r[k] == UpperChar(s[k])
  {
    seq(|s|, k requires 0 <= k < |s| => UpperChar(s[k]))
  }

  lemma UpperOfRecordType(t: string)
    requires t in RecordTypes
    ensures Upper(t) == t
  {
  }

  datatype AddError = UnsupportedType | MissingPriority

  /** `NAME\tTTL\tIN\tTYPE\tRDATA\n`, the shape of every line add_record writes. */
  function RecordLine(name: string, ttl: int, recordType: string, rdata: string): string
  {
    name + "\t" + IntToString(ttl) + "\tIN\t" + recordType + "\t" + rdata + "\n"
  }

  /** The line `add_record` appends. RDATA is `<priority> <value>` for MX, the
      value in double quotes for TXT and the value as given otherwise. The
      type is upper-cased first; an unknown type, or an MX record without a
      priority, gives no line. */
  function RenderRecord(recordType: string, name: string, value: string, ttl: int, priority: Option<int>)
    : (r: Result<string, AddError>)
    ensures r == Err(UnsupportedType) <==> Upper(recordType) !in RecordTypes
    ensures r == Err(MissingPriority) <==> Upper(recordType) == "MX" && priority.None?
    ensures r.Ok? ==> EndsWithNewline(r.value) && name + "\t" <= r.value
  {
    var t := Upper(recordType);
    if t !in RecordTypes then Err(UnsupportedType)
    else if t == "MX" then
      match priority
      case None => Err(MissingPriority)
      case Some(p) => Ok(RecordLine(name, ttl, "MX", IntToString(p) + " " + value))
    else if t == "TXT" then
      Ok(RecordLine(name, ttl, "TXT", "\"" + value + "\""))
    else
      Ok(RecordLine(name, ttl, t, value))
  }

  /** The fields of a record line as a reader of the zone file sees them. */
  datatype Record = Record(name: string, ttl: int, recordType: string, value: string, priority: Option<int>)

  /** Reads a record line back into its fields: the inverse of RenderRecord,
      against which the rendering is checked (the editor itself never parses
      a record). */
  function DecodeRecord(line: string): Option<Record>
  {
    if !EndsWithNewline(line) then None
    else DecodeFields(SplitOn(line[..|line| - 1], '\t'))
  }

  /** Five tab-separated fields: name, TTL, `IN`, a supported type, RDATA;
      the TTL and the MX priority are signed decimal integers. */
  function DecodeFields(fields: seq<string>): Option<Record>
  {
    if |fields| != 5 || fields[2] != "IN" || fields[3] !in RecordTypes then None
    else
      match ParseDecimal(fields[1])
      case None => None
      case Some(ttl) => DecodeRData(fields[0], ttl, fields[3], fields[4])
  }

  /** The type-specific part of DecodeRecord. */
  function DecodeRData(name: string, ttl: int, recordType: string, rdata: string): Option<Record>
  {
    if recordType == "MX" then
      match IndexOf(rdata, ' ')
      case None => None
      case Some(i) =>
        match ParseDecimal(rdata[..i])
        case None => None
        case Some(p) => Some(Record(name, ttl, recordType, rdata[i + 1..], Some(p)))
    else if recordType == "TXT" then
      if |rdata| >= 2 && rdata[0] == '"' && rdata[|rdata| - 1] == '"' then
        Some(Record(name, ttl, recordType, rdata[1..|rdata| - 1], None))
      else None
    else Some(Record(name, ttl, recordType, rdata, None))
  }

  /** A record line splits into its five tab-separated fields. */
  lemma RecordLineFields(name: string, ttl: int, recordType: string, rdata: string)
    requires '\t' !in name && '\t' !in recordType && '\t' !in rdata
    ensures var line := RecordLine(name, ttl, recordType, rdata);
      EndsWithNewline(line) &&
      SplitOn(line[..|line| - 1], '\t') == [name, IntToString(ttl), "IN", recordType, rdata]
  {
    var ts := IntToString(ttl);
    IntToStringExcludes(ttl, '\t');
    var body := name + ['\t'] + (ts + ['\t'] + ("IN" + ['\t'] + (recordType + ['\t'] + rdata)));
    RecordLineBody(name, ts, recordType, rdata);
    assert RecordLine(name, ttl, recordType, rdata) == body + "\n";
    assert (body + "\n")[..|body|] == body;
    SplitFiveFields(name, ts, recordType, rdata);
  }

  lemma RecordLineBody(name: string, ts: string, recordType: string, rdata: string)
    ensures name + "\t" + ts + "\tIN\t" + recordType + "\t" + rdata + "\n"
      == name + ['\t'] + (ts + ['\t'] + ("IN" + ['\t'] + (recordType + ['\t'] + rdata))) + "\n"
  {
  }

  lemma SplitFiveFields(name: string, ts: string, recordType: string, rdata: string)
    requires '\t' !in name && '\t' !in ts && '\t' !in recordType && '\t' !in rdata
    ensures SplitOn(name + ['\t'] + (ts + ['\t'] + ("IN" + ['\t'] + (recordType + ['\t'] + rdata))), '\t')
      == [name, ts, "IN", recordType, rdata]
  {
    SplitLastFourFields(ts, recordType, rdata);
    SplitOnCons(name, '\t', ts + ['\t'] + ("IN" + ['\t'] + (recordType + ['\t'] + rdata)),
      [ts, "IN", recordType, rdata]);
  }

  lemma SplitLastFourFields(ts: string, recordType: string, rdata: string)
    requires '\t' !in ts && '\t' !in recordType && '\t' !in rdata
    ensures SplitOn(ts + ['\t'] + ("IN" + ['\t'] + (recordType + ['\t'] + rdata)), '\t')
      == [ts, "IN", recordType, rdata]
  {
    SplitLastThreeFields(recordType, rdata);
    SplitOnCons(ts, '\t', "IN" + ['\t'] + (recordType + ['\t'] + rdata), ["IN", recordType, rdata]);
  }

  lemma SplitLastThreeFields(recordType: string, rdata: string)
    requires '\t' !in recordType && '\t' !in rdata
    ensures SplitOn("IN" + ['\t'] + (recordType + ['\t'] + rdata), '\t') == ["IN", recordType, rdata]
  {
    SplitOnNone(rdata, '\t');
    SplitOnCons(recordType, '\t', rdata, [rdata]);
    SplitOnCons("IN", '\t', recordType + ['\t'] + rdata, [recordType, rdata]);
  }

  lemma SplitOnCons(a: string, c: char, b: string, rest: seq<string>)
    requires c !in a && SplitOn(b, c) == rest
    ensures SplitOn(a + [c] + b, c) == [a] + rest
  {
    SplitOnField(a, c, b);
  }

  lemma DecodeRecordLine(name: string, ttl: int, recordType: string, rdata: string)
    requires '\t' !in name && '\t' !in rdata && recordType in RecordTypes
    ensures DecodeRecord(RecordLine(name, ttl, recordType, rdata)) == DecodeRData(name, ttl, recordType, rdata)
  {
    RecordLineFields(name, ttl, recordType, rdata);
    ParseDecimalOfIntToString(ttl);
    DecodeFieldsOf(name, IntToString(ttl), ttl, recordType, rdata);
  }

  lemma DecodeFieldsOf(name: string, ts: string, ttl: int, recordType: string, rdata: string)
    requires ParseDecimal(ts) == Some(ttl) && recordType in RecordTypes
    ensures DecodeFields([name, ts, "IN", recordType, rdata]) == DecodeRData(name, ttl, recordType, rdata)
  {
    var fields := [name, ts, "IN", recordType, rdata];
    assert |fields| == 5 && fields[1] == ts && fields[2] == "IN" && fields[3] == recordType;
  }

  /** Every line RenderRecord writes reads back as the record it was given,
      when the name and the value hold no tab. */
  lemma RenderDecodeRoundTrip(recordType: string, name: string, value: string, ttl: int, priority: Option<int>)
    requires '\t' !in name && '\t' !in value
    requires RenderRecord(recordType, name, value, ttl, priority).Ok?
    ensures var t := Upper(recordType);
      DecodeRecord(RenderRecord(recordType, name, value, ttl, priority).value)
        == Some(Record(name, ttl, t, value, if t == "MX" then priority else None))
  {
    var t := Upper(recordType);
    if t == "MX" {
      MxLineDecodes(name, value, ttl, priority.value);
    } else if t == "TXT" {
      TxtLineDecodes(name, value, ttl);
    } else {
      DecodeRecordLine(name, ttl, t, value);
    }
  }

  /** An MX line reads back with its priority and its value. */
  lemma MxLineDecodes(name: string, value: string, ttl: int, p: int)
    requires '\t' !in name && '\t' !in value
    ensures DecodeRecord(RecordLine(name, ttl, "MX", IntToString(p) + " " + value))
      == Some(Record(name, ttl, "MX", value, Some(p)))
  {
    var ps := IntToString(p);
    IntToStringExcludes(p, '\t');
    IntToStringExcludes(p, ' ');
    ParseDecimalOfIntToString(p);
    var rdata := ps + " " + value;
    assert rdata[..|ps|] == ps && rdata[|ps| + 1..] == value;
    IndexOfIs(rdata, ' ', |ps|);
    DecodeRecordLine(name, ttl, "MX", rdata);
  }

  /** A TXT line reads back as the value inside its quotes. */
  lemma TxtLineDecodes(name: string, value: string, ttl: int)
    requires '\t' !in name && '\t' !in value
    ensures DecodeRecord(RecordLine(name, ttl, "TXT", "\"" + value + "\""))
      == Some(Record(name, ttl, "TXT", value, None))
  {
    var rdata := "\"" + value + "\"";
    assert rdata[1..|rdata| - 1] == value;
    DecodeRecordLine(name, ttl, "TXT", rdata);
  }

  // ----- the checks the menu makes before add_record / update_record -----

  datatype InputError = InvalidType | InvalidTtl | InvalidPriority

  /** The record the menu hands to add_record (or update_record). */
  datatype AddRequest = AddRequest(recordType: string, name: string, value: string, ttl: int, priority: Option<int>)

  /** The TTL prompt: an empty answer means "3600"; the answer must read as an
      integer and be positive. */
  function ReadTtl(input: string): (r: Result<int, InputError>)
    ensures r.Ok? ==> r.value > 0
    ensures r.Err? ==> r.error == InvalidTtl
  {
    var text := if input == "" then "3600" else input;
    match ParseInt(text)
    case None => Err(InvalidTtl)
    case Some(ttl) => if ttl <= 0 then Err(InvalidTtl) else Ok(ttl)
  }

  /** A TTL is accepted exactly when it reads as a positive integer, and an
      empty answer gives the default. */
  lemma ReadTtlAccepts(input: string)
    ensures input != "" ==>
      (ReadTtl(input).Ok? <==> ParseInt(input).Some? && ParseInt(input).value > 0)
    ensures input != "" && ReadTtl(input).Ok? ==> ReadTtl(input).value == ParseInt(input).value
    ensures input == "" ==> ReadTtl(input) == Ok(DefaultTtl)
  {
    if input == "" {
      DefaultTtlText();
      ParseIntOfIntToString(DefaultTtl);
      assert Unsigned("3600") == "3600";
    }
  }

  lemma DefaultTtlText()
    ensures IntToString(DefaultTtl) == "3600"
  {
    assert NatToString(3) == "3";
    assert NatToString(36) == "36";
    assert NatToString(360) == "360";
  }

  /** Every positive TTL written in decimal is accepted as itself, unless it
      has more digits than `int()` reads. */
  lemma ReadTtlOfIntToString(ttl: int)
    requires ttl > 0
    ensures ReadTtl(IntToString(ttl)) == if |IntToString(ttl)| <= MaxStrDigits then Ok(ttl) else Err(InvalidTtl)
  {
    ParseIntOfIntToString(ttl);
    assert Unsigned(IntToString(ttl)) == IntToString(ttl);
  }

  /** Menu items 4 and 6: the type is upper-cased and must be supported, then
      the TTL is read, then, for MX only, a priority that must read as an
      integer; the first failing check decides the error. */
  function ReadAddRequest(typeInput: string, name: string, value: string, ttlInput: string, priorityInput: string)
    : (r: Result<AddRequest, InputError>)
    ensures r.Ok? ==> r.value.recordType in RecordTypes && r.value.ttl > 0
    ensures r.Ok? ==> (r.value.priority.Some? <==> r.value.recordType == "MX")
    ensures r.Ok? ==> r.value.name == name && r.value.value == value
    ensures r == Err(InvalidType) <==> Upper(typeInput) !in RecordTypes
    ensures r == Err(InvalidTtl) <==> Upper(typeInput) in RecordTypes && ReadTtl(ttlInput).Err?
    ensures r == Err(InvalidPriority) <==>
      Upper(typeInput) == "MX" && ReadTtl(ttlInput).Ok? && ParseInt(priorityInput).None?
    ensures r.Ok? ==> r.value.recordType == Upper(typeInput) && r.value.ttl == ReadTtl(ttlInput).value
    ensures r.Ok? && r.value.recordType == "MX" ==> r.value.priority == ParseInt(priorityInput)
  {
    var t := Upper(typeInput);
    if t !in RecordTypes then Err(InvalidType)
    else
      match ReadTtl(ttlInput)
      case Err(e) => Err(e)
      case Ok(ttl) =>
        if t == "MX" then
          match ParseInt(priorityInput)
          case None => Err(InvalidPriority)
          case Some(p) => Ok(AddRequest(t, name, value, ttl, Some(p)))
        else Ok(AddRequest(t, name, value, ttl, None))
  }

  /** A request the menu accepted is never refused by add_record: its type is
      supported and an MX request carries a priority. */
  lemma AcceptedRequestRenders(typeInput: string, name: string, value: string, ttlInput: string, priorityInput: string)
    requires ReadAddRequest(typeInput, name, value, ttlInput, priorityInput).Ok?
    ensures var q := ReadAddRequest(typeInput, name, value, ttlInput, priorityInput).value;
      RenderRecord(q.recordType, q.name, q.value, q.ttl, q.priority).Ok?
  {
    var q := ReadAddRequest(typeInput, name, value, ttlInput, priorityInput).value;
    UpperOfRecordType(q.recordType);
  }

  // ----- is_valid_ip -----

  /** `\d{1,3}` at the start of `s`: the length of the run of digits there,
      when it has one to three (a longer run leaves no way to go on). */
  function DigitGroup(s: string): (r: Option<nat>)
    ensures r.Some? ==> 0 < r.value <= 3 && r.value <= |s| && AllDigits(s[..r.value])
    ensures r.Some? ==> r.value == |s| || !IsDigit(s[r.value])
  {
    var j := SkipDigits(s, 0);
    if 0 < j <= 3 then Some(j) else None
  }

  /** The length of the prefix of `s` that `\d{1,3}(\.\d{1,3}){n}` matches. */
  function DottedGroups(s: string, n: nat): (r: Option<nat>)
    ensures r.Some? ==> r.value <= |s|
    decreases n
  {
    match DigitGroup(s)
    case None => None
    case Some(j) =>
      if n == 0 then Some(j)
      else if j < |s| && s[j] == '.' then
        match DottedGroups(s[j + 1..], n - 1)
        case Some(e) => Some(j + 1 + e)
        case None => None
      else None
  }

  /** `is_valid_ip`: `re.match(r"^\d{1,3}(\.\d{1,3}){3}$", ip)`, where `$` also
      matches just before a final '\n'. Nothing bounds a group by 255. */
  predicate IsValidIp(ip: string)
  {
    match DottedGroups(ip, 3)
    case Some(e) => e == |ip| || (e == |ip| - 1 && ip[e] == '\n')
    case None => false
  }

  predicate IsDigitGroup(p: string)
  {
    0 < |p| <= 3 && AllDigits(p)
  }

  /** `t` is n + 1 groups of one to three digits joined by dots. */
  predicate IsDottedGroups(t: string, n: nat)
  {
    var parts := SplitOn(t, '.');
    |parts| == n + 1 && forall k :: 0 <= k < |parts| ==> IsDigitGroup(parts[k])
  }

  lemma DottedGroupsSpec(s: string, n: nat, e: nat)
    ensures DottedGroups(s, n) == Some(e)
      <==> e <= |s| && IsDottedGroups(s[..e], n) && (e == |s| || !IsDigit(s[e]))
  {
    if DottedGroups(s, n) == Some(e) {
      DottedGroupsSound(s, n, e);
    }
    if e <= |s| && IsDottedGroups(s[..e], n) && (e == |s| || !IsDigit(s[e])) {
      DottedGroupsComplete(s, n, e);
    }
  }

  lemma {:induction false} DottedGroupsSound(s: string, n: nat, e: nat)
    requires DottedGroups(s, n) == Some(e)
    ensures e <= |s| && IsDottedGroups(s[..e], n) && (e == |s| || !IsDigit(s[e]))
    decreases n
  {
    if n == 0 {
      DottedGroupsSoundOne(s, e);
    } else {
      var j := DottedGroupsUnstep(s, n, e);
      DottedGroupsSound(s[j + 1..], n - 1, e - j - 1);
      DottedGroupsSoundStep(s, n, j, e);
    }
  }

  /** A single group matched is one digit group. */
  lemma DottedGroupsSoundOne(s: string, e: nat)
    requires DottedGroups(s, 0) == Some(e)
    ensures e <= |s| && IsDottedGroups(s[..e], 0) && (e == |s| || !IsDigit(s[e]))
  {
    DigitGroupPrefix(s);
    assert DigitGroup(s) == Some(e);
    SplitOnNone(s[..e], '.');
  }

  /** The first group, a dot, then n groups that end where no digit follows. */
  lemma DottedGroupsSoundStep(s: string, n: nat, j: nat, e: nat)
    requires n > 0 && DigitGroup(s) == Some(j) && j < e <= |s| && s[j] == '.'
    requires IsDottedGroups(s[j + 1..][..e - j - 1], n - 1)
    requires e - j - 1 == |s[j + 1..]| || !IsDigit(s[j + 1..][e - j - 1])
    ensures IsDottedGroups(s[..e], n) && (e == |s| || !IsDigit(s[e]))
  {
    DigitGroupPrefix(s);
    DottedGroupsSoundDot(s, n, j, e - j - 1);
    EndAfterDot(s, j, e - j - 1);
  }

  /** A digit group and a dot in front of n groups make n + 1 groups. */
  lemma DottedGroupsSoundDot(s: string, n: nat, j: nat, e': nat)
    requires n > 0 && j < |s| && s[j] == '.' && IsDigitGroup(s[..j]) && '.' !in s[..j]
    requires e' <= |s[j + 1..]| && IsDottedGroups(s[j + 1..][..e'], n - 1)
    ensures IsDottedGroups(s[..j + 1 + e'], n)
  {
    var t := s[j + 1..][..e'];
    assert s[..j + 1 + e'] == s[..j] + ['.'] + t;
    DottedGroupsCons(s[..j], t, n);
  }

  /** What follows the groups after the dot at `j` is what follows them in `s`. */
  lemma EndAfterDot(s: string, j: nat, e': nat)
    requires j < |s| && e' <= |s[j + 1..]|
    requires e' == |s[j + 1..]| || !IsDigit(s[j + 1..][e'])
    ensures j + 1 + e' == |s| || !IsDigit(s[j + 1 + e'])
  {
  }

  /** Where more than one group matched, the first ends at a dot. */
  lemma DottedGroupsUnstep(s: string, n: nat, e: nat) returns (j: nat)
    requires n > 0 && DottedGroups(s, n) == Some(e)
    ensures DigitGroup(s) == Some(j) && j < e <= |s| && s[j] == '.'
    ensures DottedGroups(s[j + 1..], n - 1) == Some(e - j - 1)
  {
    j := DigitGroup(s).value;
  }

  /** The group `\d{1,3}` matched is a digit group, so it holds no dot. */
  lemma DigitGroupPrefix(s: string)
    requires DigitGroup(s).Some?
    ensures IsDigitGroup(s[..DigitGroup(s).value]) && '.' !in s[..DigitGroup(s).value]
  {
    var p0 := s[..DigitGroup(s).value];
    forall k | 0 <= k < |p0| ensures p0[k] != '.' { assert IsDigit(p0[k]); }
  }

  /** One more group in front of n groups makes n + 1 groups. */
  lemma DottedGroupsCons(p0: string, t: string, n: nat)
    requires n > 0 && IsDigitGroup(p0) && '.' !in p0 && IsDottedGroups(t, n - 1)
    ensures IsDottedGroups(p0 + ['.'] + t, n)
  {
    var tail := SplitOn(t, '.');
    SplitOnField(p0, '.', t);
    var parts := SplitOn(p0 + ['.'] + t, '.');
    assert parts == [p0] + tail;
    forall k | 0 <= k < |parts| ensures IsDigitGroup(parts[k]) {
      if k > 0 { assert parts[k] == tail[k - 1]; }
    }
  }

  lemma {:induction false} DottedGroupsComplete(s: string, n: nat, e: nat)
    requires e <= |s| && IsDottedGroups(s[..e], n) && (e == |s| || !IsDigit(s[e]))
    ensures DottedGroups(s, n) == Some(e)
    decreases n, 1
  {
    match IndexOf(s[..e], '.')
    case None =>
      SplitOnNone(s[..e], '.');
      assert IsDigitGroup(SplitOn(s[..e], '.')[0]) && n == 0;
      DigitGroupIs(s, e);
    case Some(i) =>
      DottedTail(s[..e], n, i);
      assert s[..e][..i] == s[..i] && s[..e][i + 1..] == s[i + 1..][..e - i - 1];
      DottedGroupsCompleteDot(s, n, e, i);
  }

  /** The first group ends at a dot at `i`; the other n groups run to `e`. */
  lemma {:induction false} DottedGroupsCompleteDot(s: string, n: nat, e: nat, i: nat)
    requires e <= |s| && (e == |s| || !IsDigit(s[e]))
    requires n > 0 && i < e && IsDigitGroup(s[..i]) && s[i] == '.'
    requires IsDottedGroups(s[i + 1..][..e - i - 1], n - 1)
    ensures DottedGroups(s, n) == Some(e)
    decreases n, 0
  {
    DigitGroupIs(s, i);
    TailAfterDot(s, i, e);
    DottedGroupsComplete(s[i + 1..], n - 1, e - i - 1);
    DottedGroupsStep(s, n, i, e);
  }

  /** What follows the groups after the dot at `i` is what follows them in `s`. */
  lemma TailAfterDot(s: string, i: nat, e: nat)
    requires i < e <= |s| && (e == |s| || !IsDigit(s[e]))
    ensures e - i - 1 <= |s[i + 1..]|
    ensures e - i - 1 == |s[i + 1..]| || !IsDigit(s[i + 1..][e - i - 1])
  {
  }

  /** A group ending at a dot, then n groups after it. */
  lemma DottedGroupsStep(s: string, n: nat, i: nat, e: nat)
    requires n > 0 && DigitGroup(s) == Some(i) && i < e && i < |s| && s[i] == '.'
    requires DottedGroups(s[i + 1..], n - 1) == Some(e - i - 1)
    ensures DottedGroups(s, n) == Some(e)
  {
  }

  /** Groups split at their first dot: a digit group, then one group fewer. */
  lemma DottedTail(t: string, n: nat, i: nat)
    requires IsDottedGroups(t, n) && IndexOf(t, '.') == Some(i)
    ensures n > 0 && IsDigitGroup(t[..i]) && IsDottedGroups(t[i + 1..], n - 1)
  {
    var parts := SplitOn(t, '.');
    var tail := SplitOn(t[i + 1..], '.');
    assert parts == [t[..i]] + tail;
    assert IsDigitGroup(parts[0]);
    forall k | 0 <= k < |tail| ensures IsDigitGroup(tail[k]) {
      assert tail[k] == parts[k + 1];
    }
  }

  /** `\d{1,3}` takes exactly a digit group that no digit follows. */
  lemma DigitGroupIs(s: string, j: nat)
    requires j <= |s| && IsDigitGroup(s[..j]) && (j == |s| || !IsDigit(s[j]))
    ensures DigitGroup(s) == Some(j)
  {
    forall k | 0 <= k < j ensures IsDigit(s[k]) {
      assert s[k] == s[..j][k];
    }
    SkipDigitsOver(s, 0, j);
  }

  /** `is_valid_ip` accepts exactly four dot-separated groups of one to three
      digits, optionally followed by one '\n'. */
  lemma IsValidIpSpec(ip: string)
    ensures IsValidIp(ip) <==>
      IsDottedGroups(ip, 3) || (EndsWithNewline(ip) && IsDottedGroups(ip[..|ip| - 1], 3))
  {
    var r := DottedGroups(ip, 3);
    assert IsValidIp(ip) <==> r == Some(|ip|) || (EndsWithNewline(ip) && r == Some(|ip| - 1));
    assert ip[..|ip|] == ip;
    DottedGroupsSpec(ip, 3, |ip|);
    if EndsWithNewline(ip) {
      DottedGroupsSpec(ip, 3, |ip| - 1);
    }
  }
}
