/** The editor's state between menu choices: the selected zone file
    (`ZONE_FILE_PATH`), the files on disk and the backups taken, with the
    operations of menu items 2 and 4 to 7 acting on it. */
module Session {
  import opened Wrappers
  import opened Text
  import opened ZoneConfig
  import opened Records
  import opened ZoneEdit

  /** A copy of a zone file taken by `backup_zone_file` before an edit. */
  datatype Backup = Backup(path: string, text: string)

  datatype SelectOutcome = Selected(name: string) | InvalidSelection | NotANumber

  /** What add, delete and update report: no usable zone file, a refused
      record, or a write followed by the serial change (old, new), if any. */
  datatype EditOutcome = NoZoneFile | Rejected(error: AddError) | Written(serial: Option<(nat, nat)>)

  datatype ReloadOutcome = NoZone | SyntaxError | Reloaded | ReloadFailed | RndcMissing

  // ----- select_zone -----

  /** `select_zone`: the typed number, read by `int()`, picks the zone listed
      under it; numbering starts at 1. */
  function SelectionOf(zones: seq<ZoneEntry>, choiceText: string): (r: SelectOutcome)
    ensures r == NotANumber <==> ParseInt(choiceText).None?
    ensures r.Selected? <==> ParseInt(choiceText).Some? && 1 <= ParseInt(choiceText).value <= |zones|
    ensures r.Selected? ==> r.name == zones[ParseInt(choiceText).value - 1].name
  {
    Pick(zones, ParseInt(choiceText))
  }

  /** The choice once `int()` has read it: None stands for a ValueError. */
  function Pick(zones: seq<ZoneEntry>, number: Option<int>): (r: SelectOutcome)
    ensures r == NotANumber <==> number.None?
    ensures r.Selected? <==> number.Some? && 1 <= number.value <= |zones|
    ensures r.Selected? ==> r.name == zones[number.value - 1].name
  {
    match number
    case None => NotANumber
    case Some(n) =>
      var choice := n - 1;
      if 0 <= choice < |zones| then Selected(zones[choice].name) else InvalidSelection
  }

  /** Typing the number `list_zones` printed next to a zone selects that zone,
      as long as `int()` reads a number of that many digits. */
  lemma SelectListedNumber(zones: seq<ZoneEntry>, i: nat)
    requires i < |zones|
    ensures SelectionOf(zones, IntToString(i + 1))
      == if |IntToString(i + 1)| <= MaxStrDigits then Selected(zones[i].name) else NotANumber
  {
    ParseIntOfIntToString(i + 1);
    assert Unsigned(IntToString(i + 1)) == IntToString(i + 1);
  }

  // ----- check_zone_syntax / reload_bind -----

  /** Where the last '/'-free run ending at `i` starts: just after the last
      '/' before `i`, or 0 when there is none. */
  function NameStart(path: string, i: nat): (j: nat)
    requires i <= |path|
    ensures j <= i
    ensures forall k :: j <= k < i ==> path[k] != '/'
    ensures j > 0 ==> path[j - 1] == '/'
  {
    if i == 0 || path[i - 1] == '/' then i else NameStart(path, i - 1)
  }

  lemma {:induction false} NameStartIs(path: string, i: nat, j: nat)
    requires j <= i <= |path|
    requires forall k :: j <= k < i ==> path[k] != '/'
    requires j == 0 || path[j - 1] == '/'
    ensures NameStart(path, i) == j
    decreases i
  {
    if j < i {
      NameStartIs(path, i - 1, j);
    }
  }

  /** `os.path.basename(path)`: what follows the last '/'. */
  function Basename(path: string): (r: string)
    ensures '/' !in r
    ensures |r| <= |path| && r == path[|path| - |r|..]
    ensures |r| < |path| ==> path[|path| - |r| - 1] == '/'
  {
    var j := NameStart(path, |path|);
    var r := path[j..];
    assert forall k :: 0 <= k < |r| ==> r[k] == path[j + k];
    r
  }

  /** The zone name `check_zone_syntax` passes to `named-checkzone`: the file
      name up to its first '.'. */
  function CheckZoneName(path: string): (name: string)
    ensures '.' !in name && '/' !in name
    ensures name <= Basename(path)
    ensures |name| == |Basename(path)| || Basename(path)[|name|] == '.'
  {
    var base := Basename(path);
    SplitOnHead(base, '.');
    var name := SplitOn(base, '.')[0];
    PrefixExcludes(name, base, '/');
    name
  }

  lemma PrefixExcludes(p: string, s: string, c: char)
    requires p <= s && c !in s
    ensures c !in p
  {
    assert forall k :: 0 <= k < |p| ==> p[k] == s[k];
  }

  /** The first field of a split is the text before the first separator. */
  lemma SplitOnHead(s: string, c: char)
    ensures c !in SplitOn(s, c)[0] && SplitOn(s, c)[0] <= s
    ensures |SplitOn(s, c)[0]| == |s| || s[|SplitOn(s, c)[0]|] == c
  {
    match IndexOf(s, c)
    case Some(i) =>
    case None =>
  }

  /** The base name of a path under a directory is the file's own name. */
  lemma BasenameUnder(dir: string, file: string)
    requires '/' !in file
    ensures Basename(dir + "/" + file) == file
  {
    var path := dir + "/" + file;
    var j := |dir| + 1;
    assert forall k :: j <= k < |path| ==> path[k] == file[k - j];
    NameStartIs(path, |path|, j);
    assert path[j..] == file;
  }

  /** For a file `<first>.<rest>` the name checked is `<first>` alone: a zone
      file named `db.example.com` is checked as zone `db`. */
  lemma CheckZoneNameOfFile(dir: string, first: string, rest: string)
    requires '/' !in first && '/' !in rest && '.' !in first
    ensures CheckZoneName(dir + "/" + (first + "." + rest)) == first
  {
    var file := first + "." + rest;
    assert '/' !in file by {
      forall k | 0 <= k < |file| ensures file[k] != '/' {
        if k < |first| { assert file[k] == first[k]; }
        else if k > |first| { assert file[k] == rest[k - |first| - 1]; }
      }
    }
    BasenameUnder(dir, file);
    SplitOnField(first, '.', rest);
    assert first + ['.'] + rest == file;
  }

  /** `reload_bind`: nothing without a zone, nothing after a failed syntax
      check, and `rndc reload` only when `rndc` is on the path. The outcomes
      of the two commands are inputs. */
  function ReloadOf(hasZone: bool, checkPasses: bool, rndcFound: bool, rndcSucceeds: bool): (r: ReloadOutcome)
    ensures r == NoZone <==> !hasZone
    ensures r == SyntaxError <==> hasZone && !checkPasses
    ensures r == RndcMissing <==> hasZone && checkPasses && !rndcFound
    ensures r == Reloaded <==> hasZone && checkPasses && rndcFound && rndcSucceeds
    ensures r == ReloadFailed <==> hasZone && checkPasses && rndcFound && !rndcSucceeds
  {
    if !hasZone then NoZone
    else if !checkPasses then SyntaxError
    else if rndcFound then (if rndcSucceeds then Reloaded else ReloadFailed)
    else RndcMissing
  }

  // ----- the file text an edit writes -----

  /** The zone file after `add_record` appended `line` and bumped the serial. */
  function AddText(text: string, line: string, today: Date): string
    requires ValidDate(today)
  {
    SerialText(text + line, today)
  }

  /** What `add_record` reports on a zone file holding `text`: the refusal
      of the rendering, or the serial change of the file with the line
      appended. */
  function AddOutcome(text: string, recordType: string, name: string, value: string, ttl: int,
                      priority: Option<int>, today: Date): EditOutcome
    requires ValidDate(today)
  {
    match RenderRecord(recordType, name, value, ttl, priority)
    case Ok(line) => Written(SerialChange(text + line, today))
    case Err(e) => Rejected(e)
  }

  lemma AddOutcomeOf(text: string, recordType: string, name: string, value: string, ttl: int,
                     priority: Option<int>, today: Date)
    requires ValidDate(today)
    ensures var rendered := RenderRecord(recordType, name, value, ttl, priority);
      AddOutcome(text, recordType, name, value, ttl, priority, today)
        == if rendered.Ok? then Written(SerialChange(text + rendered.value, today)) else Rejected(rendered.error)
  {
  }

  /** The serial change `update_serial` reports for a file text. */
  function SerialChange(text: string, today: Date): (r: Option<(nat, nat)>)
    requires ValidDate(today)
    ensures r.None? <==> CurrentSerial(SplitLines(text)).None?
    ensures r.Some? ==> r.value.0 == CurrentSerial(SplitLines(text)).value
    ensures r.Some? ==> r.value.0 < r.value.1 && FirstSerialOfDay(today) <= r.value.1
    ensures r.Some? ==> r.value.1 == NextSerial(r.value.0, today)
  {
    match CurrentSerial(SplitLines(text))
    case None => None
    case Some(c) => Some((c, NextSerial(c, today)))
  }

  /** The zone file after `update_record`: the lines of the name dropped and
      the serial bumped, then, when the record renders, the new line appended
      and the serial bumped again. */
  function UpdateText(text: string, recordType: string, name: string, value: string, ttl: int,
                      priority: Option<int>, today: Date): string
    requires ValidDate(today)
  {
    var deleted := SerialText(DeleteText(text, name), today);
    match RenderRecord(recordType, name, value, ttl, priority)
    case Ok(line) => AddText(deleted, line, today)
    case Err(_) => deleted
  }

  /** UpdateText is the text `add_record` leaves behind after `delete_record`. */
  lemma UpdateTextSteps(text: string, recordType: string, name: string, value: string, ttl: int,
                        priority: Option<int>, today: Date)
    requires ValidDate(today)
    ensures var deleted := SerialText(DeleteText(text, name), today);
      var rendered := RenderRecord(recordType, name, value, ttl, priority);
      UpdateText(text, recordType, name, value, ttl, priority, today)
        == if rendered.Ok? then AddText(deleted, rendered.value, today) else deleted
  {
  }

  // ----- ZONE_FILE_PATH and the files -----

  class ZoneSession {
    /** `ZONE_FILE_PATH`; a selected zone without a `file` line gives None. */
    var selected: Option<string>
    /** The files on disk, by path; `os.path.exists(p)` is `p in files`. */
    var files: map<string, string>
    /** The copies `backup_zone_file` took, oldest first. */
    var backups: seq<Backup>

    /** `ZONE_FILE_PATH` is truthy. */
    predicate HasPath()
      reads this
    {
      selected.Some? && selected.value != ""
    }

    /** The check at the top of `add_record` and `delete_record`. */
    predicate HasZoneFile()
      reads this
    {
      HasPath() && selected.value in files
    }

    constructor(files: map<string, string>)
      ensures selected == None && this.files == files && backups == []
    {
      selected := None;
      this.files := files;
      backups := [];
    }

    /** Menu item 2 after `list_zones`: a valid number selects the path of
      that zone; anything else leaves the selection as it was. */
    method SelectZone(zones: seq<ZoneEntry>, choiceText: string) returns (outcome: SelectOutcome)
      modifies this
      ensures outcome == SelectionOf(zones, choiceText)
      ensures outcome.Selected? ==> selected == zones[ParseInt(choiceText).value - 1].file
      ensures !outcome.Selected? ==> selected == old(selected)
      ensures files == old(files) && backups == old(backups)
    {
      var number := ParseInt(choiceText);
      match number {
        case None =>
          outcome := NotANumber;
        case Some(n) =>
          var choice := n - 1;
          if 0 <= choice < |zones| {
            selected := zones[choice].file;
            outcome := Selected(zones[choice].name);
          } else {
            outcome := InvalidSelection;
          }
      }
    }

    /** Menu item 2: `list_zones` over the configuration file, then
      `select_zone`. Opening a missing configuration file fails. */
    method ChooseZone(choiceText: string) returns (zones: seq<ZoneEntry>, outcome: SelectOutcome)
      requires ZoneConfigPath in files
      modifies this
      ensures zones == Scan(SplitLines(old(files)[ZoneConfigPath]))
      ensures outcome == SelectionOf(zones, choiceText)
      ensures outcome.Selected? ==> selected == zones[ParseInt(choiceText).value - 1].file
      ensures !outcome.Selected? ==> selected == old(selected)
      ensures outcome.Selected? && selected.Some? ==> IsAbsolute(selected.value)
      ensures files == old(files) && backups == old(backups)
    {
      zones := ListZones(files[ZoneConfigPath]);
      ScanPathsAbsolute(SplitLines(files[ZoneConfigPath]));
      outcome := SelectZone(zones, choiceText);
    }

    /** `backup_zone_file`: a copy of the selected file, when there is one.
      Copying a missing file fails, so the file must exist. */
    method BackupZoneFile()
      requires HasPath() ==> selected.value in files
      modifies this
      ensures selected == old(selected) && files == old(files)
      ensures backups == old(backups) + (if HasPath() then [Backup(selected.value, files[selected.value])] else [])
    {
      if HasPath() {
        var path := selected.value;
        backups := backups + [Backup(path, files[path])];
      }
    }

    /** `update_serial`: the selected file is read as lines, its first serial
      line rewritten, and the lines written back. Opening a missing file
      fails, so the file must exist. */
    method UpdateSerial(today: Date) returns (change: Option<(nat, nat)>)
      requires ValidDate(today)
      requires HasPath() ==> selected.value in files
      modifies this
      ensures selected == old(selected) && backups == old(backups)
      ensures !HasPath() ==> files == old(files) && change.None?
      ensures HasPath() ==>
        && files == old(files)[selected.value := SerialText(old(files)[selected.value], today)]
        && change == SerialChange(old(files)[selected.value], today)
    {
      if !HasPath() {
        return None;
      }
      var path := selected.value;
      var lines := SplitLines(files[path]);
      var result;
      result, change := BumpSerial(lines, today);
      files := files[path := Join(result)];
    }

    /** `add_record`: refuses without a zone file or with an unsupported type;
      otherwise takes a backup, then refuses an MX record without priority,
      and otherwise appends the rendered line and bumps the serial. */
    method AddRecord(recordType: string, name: string, value: string, ttl: int, priority: Option<int>, today: Date)
      returns (outcome: EditOutcome)
      requires ValidDate(today)
      modifies this
      ensures selected == old(selected)
      ensures !old(HasZoneFile()) ==> outcome == NoZoneFile && files == old(files) && backups == old(backups)
      ensures old(HasZoneFile()) ==>
        outcome == AddOutcome(old(files)[selected.value], recordType, name, value, ttl, priority, today)
      ensures old(HasZoneFile()) ==>
        var path := selected.value;
        var text := old(files)[path];
        match RenderRecord(recordType, name, value, ttl, priority)
        case Err(UnsupportedType) => files == old(files) && backups == old(backups)
        case Err(MissingPriority) => files == old(files) && backups == old(backups) + [Backup(path, text)]
        case Ok(line) =>
          && files == old(files)[path := AddText(text, line, today)]
          && backups == old(backups) + [Backup(path, text)]
    {
      if !HasZoneFile() {
        return NoZoneFile;
      }
      AddOutcomeOf(files[selected.value], recordType, name, value, ttl, priority, today);
      if Upper(recordType) !in RecordTypes {
        return Rejected(UnsupportedType);
      }
      BackupZoneFile();
      var rendered := RenderRecord(recordType, name, value, ttl, priority);
      if rendered.Err? {
        return Rejected(rendered.error);
      }
      var path := selected.value;
      files := files[path := files[path] + rendered.value];
      var change := UpdateSerial(today);
      outcome := Written(change);
    }

    /** `delete_record`: refuses without a zone file; otherwise takes a
      backup, writes back the lines that do not carry the name and bumps the
      serial. */
    method DeleteRecord(name: string, today: Date) returns (outcome: EditOutcome)
      requires ValidDate(today)
      modifies this
      ensures selected == old(selected)
      ensures !old(HasZoneFile()) ==> outcome == NoZoneFile && files == old(files) && backups == old(backups)
      ensures old(HasZoneFile()) ==>
        var path := selected.value;
        var text := old(files)[path];
        && outcome == Written(SerialChange(DeleteText(text, name), today))
        && files == old(files)[path := SerialText(DeleteText(text, name), today)]
        && backups == old(backups) + [Backup(path, text)]
    {
      if !HasZoneFile() {
        return NoZoneFile;
      }
      var path := selected.value;
      ghost var text := files[path];
      BackupZoneFile();
      var kept := FilterRecords(SplitLines(files[path]), name);
      files := files[path := Join(kept)];
      ghost var deleted := files;
      assert deleted[path] == DeleteText(text, name);
      var change := UpdateSerial(today);
      outcome := Written(change);
      assert files == deleted[path := SerialText(DeleteText(text, name), today)];
      assert files == old(files)[path := SerialText(DeleteText(text, name), today)];
    }

    /** `update_record`: `delete_record(name)` then `add_record(...)`. An
      unsupported type still deletes, with one backup and one serial bump; a
      supported type backs up twice, and bumps the serial twice only when the
      record is written: an MX request without a priority stops after the
      second backup, so its serial moves once. */
    method UpdateRecord(recordType: string, name: string, value: string, ttl: int, priority: Option<int>, today: Date)
      returns (deleted: EditOutcome, added: EditOutcome)
      requires ValidDate(today)
      modifies this
      ensures selected == old(selected)
      ensures !old(HasZoneFile()) ==>
        deleted == NoZoneFile && added == NoZoneFile && files == old(files) && backups == old(backups)
      ensures old(HasZoneFile()) ==>
        var path := selected.value;
        var text := old(files)[path];
        var afterDelete := SerialText(DeleteText(text, name), today);
        && deleted == Written(SerialChange(DeleteText(text, name), today))
        && added == AddOutcome(afterDelete, recordType, name, value, ttl, priority, today)
        && files == old(files)[path := UpdateText(text, recordType, name, value, ttl, priority, today)]
        && backups == old(backups) + [Backup(path, text)]
             + (if Upper(recordType) in RecordTypes then [Backup(path, afterDelete)] else [])
    {
      if !HasZoneFile() {
        deleted := DeleteRecord(name, today);
        added := AddRecord(recordType, name, value, ttl, priority, today);
        return;
      }
      ghost var path := selected.value;
      ghost var text := files[path];
      deleted := DeleteRecord(name, today);
      ghost var afterDelete := files;
      assert afterDelete == old(files)[path := SerialText(DeleteText(text, name), today)];
      assert HasZoneFile();
      added := AddRecord(recordType, name, value, ttl, priority, today);
      UpdateTextSteps(text, recordType, name, value, ttl, priority, today);
      ghost var updated := UpdateText(text, recordType, name, value, ttl, priority, today);
      assert files == afterDelete[path := updated];
      assert files == old(files)[path := updated];
    }

    /** Menu item 7 with the outcomes of `named-checkzone` and `rndc` given. */
    method ReloadBind(checkPasses: bool, rndcFound: bool, rndcSucceeds: bool) returns (outcome: ReloadOutcome)
      ensures outcome == ReloadOf(HasPath(), checkPasses, rndcFound, rndcSucceeds)
      ensures outcome == Reloaded ==> HasPath() && checkPasses
    {
      if !HasPath() {
        return NoZone;
      }
      if !checkPasses {
        return SyntaxError;
      }
      if rndcFound {
        outcome := if rndcSucceeds then Reloaded else ReloadFailed;
      } else {
        outcome := RndcMissing;
      }
    }
  }

  // ----- what the edits promise together -----

  /** A rendered record starts with its name and a tab, so deleting that name
      removes it. */
  lemma RenderedLineCarriesName(recordType: string, name: string, value: string, ttl: int, priority: Option<int>)
    requires RenderRecord(recordType, name, value, ttl, priority).Ok?
    ensures StartsWithName(RenderRecord(recordType, name, value, ttl, priority).value, name)
  {
    var line := RenderRecord(recordType, name, value, ttl, priority).value;
    assert line[..|name| + 1] == name + "\t";
    assert line[|name|] == (name + "\t")[|name|];
  }

  /** With no newline in the name or the value, a rendered record is one line. */
  lemma RenderedLineIsLine(recordType: string, name: string, value: string, ttl: int, priority: Option<int>)
    requires '\n' !in name && '\n' !in value
    requires RenderRecord(recordType, name, value, ttl, priority).Ok?
    ensures IsLine(RenderRecord(recordType, name, value, ttl, priority).value)
  {
    var t := Upper(recordType);
    if t == "MX" {
      var ps := IntToString(priority.value);
      IntToStringExcludes(priority.value, '\n');
      NoNewlineJoin(ps, " ", value);
      RecordLineIsLine(name, ttl, t, ps + " " + value);
    } else if t == "TXT" {
      NoNewlineJoin("\"", value, "\"");
      RecordLineIsLine(name, ttl, t, "\"" + value + "\"");
    } else {
      RecordLineIsLine(name, ttl, t, value);
    }
  }

  lemma NoNewlineJoin(a: string, b: string, c: string)
    requires '\n' !in a && '\n' !in b && '\n' !in c
    ensures '\n' !in a + b + c
  {
  }

  lemma RecordLineIsLine(name: string, ttl: int, recordType: string, rdata: string)
    requires '\n' !in name && '\n' !in recordType && '\n' !in rdata
    ensures IsLine(RecordLine(name, ttl, recordType, rdata))
  {
    IntToStringExcludes(ttl, '\n');
    var body := name + "\t" + IntToString(ttl) + "\tIN\t" + recordType + "\t" + rdata;
    assert '\n' !in body;
    NoNewlineBefore(body);
  }

  lemma NoNewlineBefore(s: string)
    requires '\n' !in s
    ensures IsLine(s + "\n")
  {
    var l := s + "\n";
    forall k | 0 <= k < |l| - 1 ensures l[k] != '\n' {
      assert l[k] == s[k];
    }
  }

  /** Adding to a file that ends at a line boundary appends the record as a
      line of its own before the serial is bumped. */
  lemma AddTextLines(text: string, line: string, today: Date)
    requires ValidDate(today)
    requires text == "" || EndsWithNewline(text)
    requires IsLine(line)
    ensures SplitLines(AddText(text, line, today)) == RewriteSerial(SplitLines(text) + [line], today)
  {
    SplitLinesAppendLine(text, line);
    SerialTextLines(text + line, today);
  }

  /** On a file that is empty or ends with '\n', the record `add_record`
      appends (before its serial bump) is dropped again by the filter of
      `delete_record` for its own name, which then leaves exactly what it
      leaves of the original lines. */
  lemma DeleteAfterAdd(text: string, recordType: string, name: string, value: string, ttl: int,
                       priority: Option<int>)
    requires '\n' !in name && '\n' !in value
    requires text == "" || EndsWithNewline(text)
    requires RenderRecord(recordType, name, value, ttl, priority).Ok?
    ensures var line := RenderRecord(recordType, name, value, ttl, priority).value;
      KeepLines(SplitLines(text + line), name) == KeepLines(SplitLines(text), name)
  {
    var line := RenderRecord(recordType, name, value, ttl, priority).value;
    RenderedLineIsLine(recordType, name, value, ttl, priority);
    RenderedLineCarriesName(recordType, name, value, ttl, priority);
    SplitLinesAppendLine(text, line);
    KeepLinesAppend(SplitLines(text), [line], name);
    assert KeepLines([line], name) == [];
  }

  /** `add_record` appends without looking at the file's last character: when
      the last line has no '\n', the record is glued onto it. `readlines()` then
      sees one line, old last line and record together, and the filter of
      `delete_record` for the record's name keeps that line whenever the old
      last line is longer than the name and does not itself start with it. */
  lemma AppendGluesRecord(prefix: string, last: string, line: string, name: string)
    requires prefix == "" || EndsWithNewline(prefix)
    requires last != "" && '\n' !in last
    requires IsLine(line)
    ensures SplitLines(prefix + last + line) == SplitLines(prefix) + [last + line]
    ensures |name| < |last| && !StartsWithName(last, name) ==>
      KeepLines(SplitLines(prefix + last + line), name) == KeepLines(SplitLines(prefix), name) + [last + line]
  {
    var glued := last + line;
    forall k | 0 <= k < |glued| - 1 ensures glued[k] != '\n' {
      if k < |last| {
        assert glued[k] == last[k];
      } else {
        assert glued[k] == line[k - |last|];
      }
    }
    assert IsLine(glued);
    assert prefix + last + line == prefix + glued;
    SplitLinesAppendLine(prefix, glued);
    KeepLinesAppend(SplitLines(prefix), [glued], name);
    if |name| < |last| && !StartsWithName(last, name) {
      assert glued[..|name|] == last[..|name|];
      assert glued[|name|] == last[|name|];
      assert KeepLines([glued], name) == [glued];
    }
  }

  /** The line `add_record` writes for an A record of `mail` at 5.6.7.8, TTL 3600. */
  lemma MailRecordLine()
    ensures RenderRecord("A", "mail", "5.6.7.8", 3600, None) == Ok("mail\t3600\tIN\tA\t5.6.7.8\n")
  {
    assert NatToString(3) == "3";
    assert NatToString(36) == "36";
    assert NatToString(360) == "360";
    assert NatToString(3600) == "3600";
    UpperOfRecordType("A");
    assert RecordLine("mail", 3600, "A", "5.6.7.8") == "mail\t3600\tIN\tA\t5.6.7.8\n";
  }

  /** A one-line file without a final '\n' and an A record for `mail`: after the
      append the record shares the line of `www`, and deleting `mail` keeps it. */
  lemma GluedRecordSurvivesDelete()
    ensures var text := "www\t3600\tIN\tA\t1.2.3.4";
      var line := "mail\t3600\tIN\tA\t5.6.7.8\n";
      RenderRecord("A", "mail", "5.6.7.8", 3600, None) == Ok(line) &&
      SplitLines(text + line) == [text + line] &&
      KeepLines(SplitLines(text + line), "mail") == [text + line]
  {
    var text := "www\t3600\tIN\tA\t1.2.3.4";
    var line := "mail\t3600\tIN\tA\t5.6.7.8\n";
    MailRecordLine();
    WwwLineKeptForMail(text);
    MailLineIsLine(line);
    AppendGluesRecord("", text, line, "mail");
    assert "" + text + line == text + line;
    assert SplitLines("") == [];
    assert KeepLines([], "mail") == [];
  }

  lemma WwwLineKeptForMail(text: string)
    requires text == "www\t3600\tIN\tA\t1.2.3.4"
    ensures text != "" && '\n' !in text && |"mail"| < |text| && !StartsWithName(text, "mail")
  {
    assert text[0] == 'w';
    forall k | 0 <= k < |text| ensures text[k] != '\n' {
      assert text[k] in "www\t3600IN.1234A";
    }
  }

  lemma MailLineIsLine(line: string)
    requires line == "mail\t3600\tIN\tA\t5.6.7.8\n"
    ensures IsLine(line)
  {
  }

  /** Every line ends with a newline. */
  predicate Terminated(lines: seq<string>)
  {
    forall i :: 0 <= i < |lines| ==> EndsWithNewline(lines[i])
  }

  lemma {:induction false} SplitLinesTerminated(s: string)
    requires s == "" || EndsWithNewline(s)
    ensures Terminated(SplitLines(s))
    decreases |s|
  {
    if s != "" {
      var n := FirstLineLength(s);
      SplitLinesShape(s);
      if n < |s| {
        assert s[n..][|s[n..]| - 1] == s[|s| - 1];
        SplitLinesTerminated(s[n..]);
        assert SplitLines(s)[1..] == SplitLines(s[n..]);
      } else {
        assert s[n..] == "";
      }
    }
  }

  lemma {:induction false} JoinTerminated(lines: seq<string>)
    requires Terminated(lines)
    ensures Join(lines) == "" || EndsWithNewline(Join(lines))
  {
    if lines != [] {
      var rest := lines[1..];
      assert Terminated(rest) by {
        forall i | 0 <= i < |rest| ensures EndsWithNewline(rest[i]) { assert rest[i] == lines[i + 1]; }
      }
      JoinTerminated(rest);
      var j := Join(rest);
      if j == "" {
        assert Join(lines) == lines[0] + "";
      } else {
        assert Join(lines)[|Join(lines)| - 1] == j[|j| - 1];
      }
    }
  }

  lemma {:induction false} KeepLinesTerminated(lines: seq<string>, name: string)
    requires Terminated(lines)
    ensures Terminated(KeepLines(lines, name))
  {
    KeepLinesMembers(lines, name);
    var kept := KeepLines(lines, name);
    forall i | 0 <= i < |kept| ensures EndsWithNewline(kept[i]) {
      assert kept[i] in kept;
    }
  }

  lemma RewriteSerialTerminated(lines: seq<string>, today: Date)
    requires ValidDate(today) && Terminated(lines)
    ensures Terminated(RewriteSerial(lines, today))
  {
    match FirstSerialIndex(lines)
    case None =>
    case Some(i) =>
      SerialLineRoundTrip(NextSerial(SerialOf(lines[i]), today));
  }

  /** After an update of a file that ends at a line boundary, its lines are
      the old lines without the name, serial bumped, then the new record,
      serial bumped again. */
  lemma UpdateTextLines(text: string, recordType: string, name: string, value: string, ttl: int,
                        priority: Option<int>, today: Date)
    requires ValidDate(today)
    requires '\n' !in name && '\n' !in value
    requires text == "" || EndsWithNewline(text)
    requires RenderRecord(recordType, name, value, ttl, priority).Ok?
    ensures var line := RenderRecord(recordType, name, value, ttl, priority).value;
      SplitLines(UpdateText(text, recordType, name, value, ttl, priority, today))
        == RewriteSerial(RewriteSerial(KeepLines(SplitLines(text), name), today) + [line], today)
  {
    var line := RenderRecord(recordType, name, value, ttl, priority).value;
    var afterDelete := SerialText(DeleteText(text, name), today);
    DeleteThenSerialLines(text, name, today);
    DeleteThenSerialTerminated(text, name, today);
    RenderedLineIsLine(recordType, name, value, ttl, priority);
    AddTextLines(afterDelete, line, today);
  }

  lemma DeleteThenSerialLines(text: string, name: string, today: Date)
    requires ValidDate(today)
    ensures SplitLines(SerialText(DeleteText(text, name), today)) == RewriteSerial(KeepLines(SplitLines(text), name), today)
  {
    DeleteTextLines(text, name);
    SerialTextLines(DeleteText(text, name), today);
  }

  /** Deleting and bumping keep a file that ends at a line boundary so. */
  lemma DeleteThenSerialTerminated(text: string, name: string, today: Date)
    requires ValidDate(today)
    requires text == "" || EndsWithNewline(text)
    ensures var t := SerialText(DeleteText(text, name), today);
      t == "" || EndsWithNewline(t)
  {
    var kept := KeepLines(SplitLines(text), name);
    var rewritten := RewriteSerial(kept, today);
    assert Terminated(rewritten) by {
      SplitLinesTerminated(text);
      KeepLinesTerminated(SplitLines(text), name);
      RewriteSerialTerminated(kept, today);
    }
    assert SerialText(DeleteText(text, name), today) == Join(rewritten) by {
      DeleteTextLines(text, name);
    }
    JoinTerminated(rewritten);
  }
}
