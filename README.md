# BIND zone editor: a Dafny model of its text engine

`bind_dns_zones_management.py` is a menu-driven editor for BIND zones. It
reads `named.conf.local` to list the configured zones and their zone files.
It adds, deletes and replaces resource records in the selected zone file,
and bumps the zone's SOA serial after every edit. It can also check the
zone and reload BIND. This project models the text processing under the
menu and proves what that processing guarantees.

- **Text** (`text.dfy`): Python's string primitives as the program uses
  them. This covers `str.isspace()` and `\s`, `strip()`, `int()` in base 10,
  `str(n)`, `readlines()` and `writelines()`, and `split` on one character.
- **ZoneConfig** (`zone_config.dfy`): the scan of `list_zones`. The dict is
  modelled as an ordered sequence of distinct names. `ListZones` is the loop,
  proved against the fold `Scan`.
- **Records** (`records.dfy`): these parts are modelled:
  - the record line of `add_record`, with a decoder used as a reference
    inverse;
  - the checks menu items 4 and 6 make on type, TTL and MX priority;
  - the dotted-quad check `is_valid_ip`.
- **ZoneEdit** (`zone_edit.dfy`): the line filter of `delete_record` and the
  serial rule of `update_serial`. The two regular expressions are written
  out as predicates: `StartsWithName` is `^name\s` (the name taken
  literally), and `IsSerialLine` is `^\s*\d+\s*;\s*serial`.
  `FilterRecords` and `BumpSerial` are the loops; `KeepLines` and
  `RewriteSerial` specify them.
- **Session** (`session.dfy`): the class `ZoneSession`. It holds
  `ZONE_FILE_PATH`, the files on disk (a map from path to text) and the
  backups taken. Its methods are `select_zone`, `backup_zone_file`,
  `update_serial`, `add_record`, `delete_record`, `update_record` and
  `reload_bind`. The lemmas after the class relate add, delete and update to
  each other.

The clock enters as a `Date` (year, month, day). The outcomes of the
external commands `named-checkzone` and `rndc` enter as booleans.

## Model

| member | source | states |
|---|---|---|
| `Text.ParseIntOfIntToString` | bind_dns_zones_management.py:198 | `int(str(n)) == n` for every integer of at most 4300 digits, negative ones included; the decimal text of a longer one is refused |
| `Text.ParseDecimalOfIntToString` | bind_dns_zones_management.py:91-96 | reading the decimal text of an integer back with no bound on its length gives the integer |
| `Text.NatToStringValue` | bind_dns_zones_management.py:133 | the digits `str(n)` writes for a natural number denote `n` |
| `Text.NatToString` | bind_dns_zones_management.py:133 | `str(n)` for a natural number: non-empty, decimal digits only, and a leading '0' only for 0 itself. `NatToStringValue` states that it denotes `n` |
| `Text.IntToString` | bind_dns_zones_management.py:91-96 | `str(n)` for an integer: it ends with a digit and starts with '-' exactly when `n` is negative. `IntToStringExcludes` and `ParseIntOfIntToString` state what it holds and how it reads back |
| `Text.IntToStringExcludes` | bind_dns_zones_management.py:88-96 | the decimal text of an integer holds only digits and '-', so no tab, space or newline |
| `Text.TrimLeft` | bind_dns_zones_management.py:131 | the result is the longest suffix that drops only white space and does not start with it |
| `Text.TrimRight` | bind_dns_zones_management.py:131 | the result is the longest prefix that drops only white space and does not end with it |
| `Text.JoinOfSplitLines` | bind_dns_zones_management.py:110-115 | `writelines(readlines())` gives back the text unchanged |
| `Text.SplitLinesOfJoin` | bind_dns_zones_management.py:128-137 | reading back lines that have the `readlines()` shape gives those lines |
| `Text.SplitLinesShape` | bind_dns_zones_management.py:109-110 | `readlines()` gives lines that hold '\n' at most at their end, and all but the last end with it |
| `Text.SplitLinesAppendLine` | bind_dns_zones_management.py:98-99 | appending one line to a text that ends at a line boundary adds exactly that line to its lines |
| `Text.JoinAppend` | bind_dns_zones_management.py:136-137 | writing two runs of lines is writing the first and then the second |
| `Text.SplitOnField` | bind_dns_zones_management.py:131 | `split(c)` of `a + c + b`, where `a` has no `c`, is `a` followed by the split of `b` |
| `Text.ParseInt` | bind_dns_zones_management.py:198 | `int()` in base 10: the white space `IsIntSpace` admits is stripped from both ends, then one optional sign and decimal digits with single underscores between them. Anything else is None (the ValueError), and so is text of more than 4300 digits (`MaxStrDigits`), underscores and sign not counted. `ParseIntOfIntToString` and `ZoneEdit.SerialOfIsInt` state what it reads |
| `Text.IsIntSpace` | bind_dns_zones_management.py:198 | the white space `int()` skips: tab to carriage return, space, and the `str.isspace()` characters above U+007F; the separators U+001C to U+001F, white space to `str.isspace()`, are not skipped |
| `Text.Strip` | bind_dns_zones_management.py:131 | `str.strip()`: `TrimLeft` then `TrimRight`, whose contracts make the result the longest core that drops only white space at either end |
| `Text.SplitLines` | bind_dns_zones_management.py:109-110 | `readlines()`: the text cut after every '\n', with a last line that has none kept as it is. `SplitLinesShape`, `JoinOfSplitLines` and `SplitLinesAppendLine` state its properties |
| `Text.Join` | bind_dns_zones_management.py:136-137 | `writelines()`: the lines written one after another. `JoinOfSplitLines`, `SplitLinesOfJoin` and `JoinAppend` relate it to `SplitLines` |
| `Text.SplitOn` | bind_dns_zones_management.py:131 | `split(c)` on one character never gives an empty list; `SplitOnField` and `SplitOnNone` state where it cuts |
| `Text.IndexOf` | bind_dns_zones_management.py:131 | the index returned is that of the first occurrence of the character, and None means it does not occur |
| `ZoneConfig.ListZones` | bind_dns_zones_management.py:18-33 | the loop over the configuration lines builds the table `Scan` gives for the lines `readlines()` yields |
| `ZoneConfig.Scan` | bind_dns_zones_management.py:21-33 | the table never holds a zone name twice, as a dict key cannot repeat |
| `ZoneConfig.IsZoneLine` | bind_dns_zones_management.py:22 | a zone line is one that contains both `zone` and `{` |
| `ZoneConfig.FileDecl` | bind_dns_zones_management.py:27-28 | only a line that is not a zone line and contains `file` can give a path, and the path is the group `file\s+"([^"]+)"` captures. `ZoneLineAttachesNoFile` states that a zone line gives none |
| `ZoneConfig.ScanLine` | bind_dns_zones_management.py:22-33 | one configuration line: a line holding `zone` and `{` declares the zone the pattern finds in it (none found: no change); any other line with a `file "p"` match attaches the resolved `p` to the last inserted zone, if there is one. `ScanLineNames`, `ZoneLineAttachesNoFile` and `FileFollowsZone` state its effect |
| `ZoneConfig.ScanNames` | bind_dns_zones_management.py:22-26 | the table lists every declared zone once, in the order of its first declaration |
| `ZoneConfig.ScanLineNames` | bind_dns_zones_management.py:22-26 | a zone line adds its name at the end unless the name is already listed, where it keeps its place; any other line leaves the names as they were |
| `ZoneConfig.ScanWithoutZones` | bind_dns_zones_management.py:27 | `file` lines seen before any zone declaration leave the table empty |
| `ZoneConfig.ScanPathsAbsolute` | bind_dns_zones_management.py:32 | every path in the table is absolute |
| `ZoneConfig.ResolvePath` | bind_dns_zones_management.py:32 | `os.path.join("/etc/bind", p)`: an absolute `p` is kept, and a relative one is put under `/etc/bind/` |
| `ZoneConfig.ResolvePathAbsolute` | bind_dns_zones_management.py:32 | a relative path becomes `/etc/bind/` + path and an absolute one is kept; the result is absolute and resolving twice changes nothing |
| `ZoneConfig.DeclareZone` | bind_dns_zones_management.py:26 | a new zone goes last with no file; a declared one keeps its place and loses its file |
| `ZoneConfig.AttachFile` | bind_dns_zones_management.py:31-33 | the resolved path goes to the last inserted zone, and every other zone is unchanged |
| `ZoneConfig.ZoneLineAttachesNoFile` | bind_dns_zones_management.py:22-27 | a line holding both `zone` and `{` never attaches a path, because it is never a file line |
| `ZoneConfig.FileFollowsZone` | bind_dns_zones_management.py:22-33 | a `file "p"` line right after the declaration of a new zone gives that zone the resolved path of `p` |
| `ZoneConfig.SearchQuoted` | bind_dns_zones_management.py:23-25 | the captured group is non-empty and holds no double quote |
| `ZoneConfig.QuotedAtMatches` | bind_dns_zones_management.py:23 | the matcher tried at position `i` gives group `g` exactly when `KW\s+"([^"]+)"` matches there with that group: the keyword, one or more white-space characters, and a non-empty quote-free text between double quotes |
| `ZoneConfig.SearchQuotedLeftmost` | bind_dns_zones_management.py:23-30 | as `re.search` does, the result is the group of the match at the leftmost position, in both directions, and None exactly when the pattern matches nowhere |
| `ZoneConfig.Dedup` | bind_dns_zones_management.py:26 | the first occurrences hold exactly the names of the input, and none twice |
| `Records.RenderRecord` | bind_dns_zones_management.py:80-96 | unsupported type (after upper-casing) if and only if the type is not in the set; missing priority if and only if MX without a priority; a rendered line ends with a newline and starts with the name and a tab |
| `Records.RenderDecodeRoundTrip` | bind_dns_zones_management.py:87-96 | when the name and the value hold no tab, decoding a rendered line gives back name, TTL, upper-cased type, the value (TXT quotes removed) and, for MX only, the priority |
| `Records.Upper` | bind_dns_zones_management.py:80 | `.upper()` (also applied by the menu) keeps the length and upper-cases each ASCII letter from a to z, leaving every other character as it is |
| `Records.UpperOfRecordType` | bind_dns_zones_management.py:10 | upper-casing leaves every supported type as it is |
| `Records.ReadTtl` | bind_dns_zones_management.py:195-203 | an accepted TTL is positive, and every refusal is `InvalidTtl` |
| `Records.ReadTtlAccepts` | bind_dns_zones_management.py:195-203 | a non-empty answer is accepted exactly when `int()` reads it as a positive number, and an empty answer gives 3600 |
| `Records.ReadTtlOfIntToString` | bind_dns_zones_management.py:197-200 | every positive TTL typed in decimal with at most 4300 digits is accepted as itself, and a longer one is refused as an invalid TTL |
| `Records.DefaultTtlText` | bind_dns_zones_management.py:195 | the default text "3600" is the decimal text of the default TTL |
| `Records.ReadAddRequest` | bind_dns_zones_management.py:188-214 | the type is checked first, then the TTL, then the MX priority, and each error holds exactly when its check is the first to fail; an accepted request carries the upper-cased type, the TTL `ReadTtl` read, and, for MX only, the priority `int()` read |
| `Records.AcceptedRequestRenders` | bind_dns_zones_management.py:205-214 | `add_record` never refuses a request that the menu accepted |
| `Records.IsValidIp` | bind_dns_zones_management.py:16 | `is_valid_ip`: the matcher for `\d{1,3}(\.\d{1,3}){3}` must stop at the end of the text or just before a final '\n'. `IsValidIpSpec` states which texts pass |
| `Records.IsValidIpSpec` | bind_dns_zones_management.py:16 | `is_valid_ip` holds exactly for four dot-separated groups of one to three digits, optionally followed by one final newline, with no bound of 255 |
| `Records.DottedGroupsSpec` | bind_dns_zones_management.py:16 | the matcher for `\d{1,3}(\.\d{1,3}){n}` stops at `e` exactly when the text up to `e` is n+1 such groups and no digit follows |
| `Records.DigitGroup` | bind_dns_zones_management.py:16 | `\d{1,3}` matches one to three digits not followed by another digit |
| `ZoneEdit.StartsWithName` | bind_dns_zones_management.py:113 | `^name\s` with the name taken literally: the line starts with the name, followed by a white-space character |
| `ZoneEdit.KeepLines` | bind_dns_zones_management.py:111-115 | the lines `delete_record` writes back: every line, in order, except those `StartsWithName` matches. `KeepLinesMembers`, `KeepLinesAppend` and `KeepLinesIdempotent` state its properties |
| `ZoneEdit.FilterRecords` | bind_dns_zones_management.py:111-115 | the loop writes exactly the lines `KeepLines` keeps |
| `ZoneEdit.KeepLinesMembers` | bind_dns_zones_management.py:112-115 | a line survives if and only if it was there and does not start with the name followed by white space |
| `ZoneEdit.KeepLinesAppend` | bind_dns_zones_management.py:111-115 | the filter goes line by line, so kept lines stay in their order |
| `ZoneEdit.KeepLinesNoMatch` | bind_dns_zones_management.py:111-115 | a file with no line of that name is written back unchanged |
| `ZoneEdit.KeepLinesIdempotent` | bind_dns_zones_management.py:111-115 | deleting the same name twice is the same as deleting it once |
| `ZoneEdit.KeepLinesShape` | bind_dns_zones_management.py:109-115 | the filtered lines still have the shape `readlines()` gives |
| `ZoneEdit.IsSerialLine` | bind_dns_zones_management.py:130 | `^\s*\d+\s*;\s*serial`: optional white space, at least one digit, optional white space, ';', optional white space, then the word `serial` |
| `ZoneEdit.SerialOfIsInt` | bind_dns_zones_management.py:131 | `int(line.split(";")[0].strip())` reads the number the digits of a serial line denote when there are at most 4300 of them, and refuses a longer run |
| `ZoneEdit.SerialDigits` | bind_dns_zones_management.py:130 | a serial line carries a non-empty run of digits |
| `ZoneEdit.FirstSerialOfDay` | bind_dns_zones_management.py:132 | YYYYMMDD01 has ten digits and ends in 01 |
| `ZoneEdit.FirstSerialOfLaterDay` | bind_dns_zones_management.py:132 | a later day's first serial is above any earlier day's first 99 serials |
| `ZoneEdit.NextSerial` | bind_dns_zones_management.py:132 | the new serial is above the old one and at least today's YYYYMMDD01, and it is one of the two |
| `ZoneEdit.NextSerialSameDay` | bind_dns_zones_management.py:132 | a second bump on the same day adds exactly one |
| `ZoneEdit.NextSerialNewDay` | bind_dns_zones_management.py:132 | the first bump on a new day restarts at YYYYMMDD01, when the old serial is one of an earlier day's first 99 (at most that day's YYYYMMDD99) |
| `ZoneEdit.NextSerialMonotonic` | bind_dns_zones_management.py:132 | a larger old serial never gives a smaller new one |
| `ZoneEdit.NextSerialExamples` | bind_dns_zones_management.py:132 | 2024010105 on 2024-01-01 becomes 2024010106, and 2024010100 on 2024-01-02 becomes 2024010201 |
| `ZoneEdit.SerialLine` | bind_dns_zones_management.py:133 | the line `update_serial` writes: the serial's decimal digits, a tab, `; serial` and a newline. `SerialLineRoundTrip` states that it reads back as a serial line holding that serial |
| `ZoneEdit.SerialLineRoundTrip` | bind_dns_zones_management.py:133 | the line written for a serial is itself a serial line holding that serial |
| `ZoneEdit.FirstSerialIndex` | bind_dns_zones_management.py:129-130 | the index returned is the first line matching the serial pattern, and None means no line matches |
| `ZoneEdit.RewriteSerial` | bind_dns_zones_management.py:129-135 | the lines `update_serial` writes back: the first serial line is replaced by the line for `NextSerial` of its serial, and without a serial line the lines are kept. `RewriteSerialBumps` states it line by line |
| `ZoneEdit.BumpSerial` | bind_dns_zones_management.py:129-135 | the loop rewrites the first serial line, reports (old, new) and stops; the result is `RewriteSerial` |
| `ZoneEdit.RewriteSerialBumps` | bind_dns_zones_management.py:129-137 | only the first serial line changes, and its serial grows to the next; without a serial line nothing changes |
| `ZoneEdit.CurrentSerialRewrite` | bind_dns_zones_management.py:129-137 | after a rewrite the file's serial is the next serial of the old one |
| `ZoneEdit.RewriteSerialTwice` | bind_dns_zones_management.py:129-137 | two rewrites on one day leave the serial one above a single rewrite |
| `ZoneEdit.RewriteSerialShape` | bind_dns_zones_management.py:133-137 | the rewritten lines keep the shape `readlines()` gives |
| `ZoneEdit.DeleteTextLines` | bind_dns_zones_management.py:109-115 | reading the file `delete_record` wrote gives the kept lines |
| `ZoneEdit.SerialTextLines` | bind_dns_zones_management.py:127-137 | reading the file `update_serial` wrote gives the rewritten lines |
| `ZoneEdit.SerialTextWithoutSerial` | bind_dns_zones_management.py:127-137 | a file without a serial line is written back unchanged |
| `Session.SelectionOf` | bind_dns_zones_management.py:42-50 | a number that `int()` cannot read is `NotANumber`; a zone is selected exactly when the number is from 1 to the number of zones, and the one selected is the zone listed under that number |
| `Session.SelectListedNumber` | bind_dns_zones_management.py:35-47 | typing the number that `list_zones` printed next to a zone selects that zone, as long as the number has at most 4300 digits; a longer one is not a number to `int()` |
| `Session.ZoneSession.SelectZone` | bind_dns_zones_management.py:39-52 | a valid choice sets `ZONE_FILE_PATH` to that zone's path (None when it has no file); any other choice leaves it unchanged |
| `Session.ZoneSession.ChooseZone` | bind_dns_zones_management.py:182-184 | menu item 2 scans the configuration file, then selects; a selected path is absolute |
| `Session.ZoneSession.BackupZoneFile` | bind_dns_zones_management.py:53-64 | with a path, one copy of the selected file is added to the backups; without one, nothing changes |
| `Session.ZoneSession.UpdateSerial` | bind_dns_zones_management.py:123-137 | the selected file becomes its serial-rewritten text, and the reported change is (current, next) |
| `Session.ZoneSession.AddRecord` | bind_dns_zones_management.py:75-101 | without a zone file, nothing happens. An unsupported type changes nothing. An MX record without a priority leaves a backup and an unchanged file. Otherwise there is one backup, and the file gets the line appended and then the serial bumped. The outcome is `AddOutcome` of the file: the refusal, or the serial change of the file with the line appended |
| `Session.AddOutcome` | bind_dns_zones_management.py:80-101 | what `add_record` reports on a file: the error `RenderRecord` gives, or the serial change of the text with the rendered line appended. `AddOutcomeOf` states it case by case |
| `Session.AddText` | bind_dns_zones_management.py:98-101 | the file `add_record` leaves: the rendered line appended, then the serial rewritten. `AddTextLines` and `AppendGluesRecord` state its lines |
| `Session.UpdateText` | bind_dns_zones_management.py:119-121 | the file `update_record` leaves: the text after `delete_record` and its serial bump, then, when the record renders, `AddText` of that. `UpdateTextLines` states its lines |
| `Session.ZoneSession.DeleteRecord` | bind_dns_zones_management.py:103-117 | without a zone file, nothing happens. Otherwise there is one backup, and the file becomes its kept lines with the serial bumped |
| `Session.ZoneSession.UpdateRecord` | bind_dns_zones_management.py:119-121 | a delete, then an add. The delete reports the serial change of the filtered text. The add reports `AddOutcome` of the file the delete left, serial already bumped once. An unsupported type still deletes, with one backup and one serial bump. A supported type takes two backups. The serial is bumped twice only when the record is written: an MX request without a priority stops after the second backup, so its serial moves once |
| `Session.ZoneSession.ReloadBind` | bind_dns_zones_management.py:152-165 | a reload happens only with a zone path and a passing syntax check |
| `Session.ReloadOf` | bind_dns_zones_management.py:152-165 | each outcome of `reload_bind` holds exactly under its own combination of zone, check result, `rndc` presence and `rndc` result |
| `Session.CheckZoneName` | bind_dns_zones_management.py:143 | the zone name given to `named-checkzone` is the part of the file's base name before its first '.': a prefix that holds no '.' and no '/', followed by a '.' or by nothing |
| `Session.CheckZoneNameOfFile` | bind_dns_zones_management.py:143 | for a file named `<first>.<rest>`, only `<first>` is checked, so `db.example.com` is checked as zone `db` |
| `Session.Basename` | bind_dns_zones_management.py:143 | the base name holds no '/' and is the whole path or what follows its last '/' |
| `Session.BasenameUnder` | bind_dns_zones_management.py:143 | the base name of `dir/file` is `file` |
| `Session.SerialChange` | bind_dns_zones_management.py:131-134 | there is a reported change exactly when the file has a serial line; the old serial is the file's current one and the new one is `NextSerial` of it, so above the old one and at least today's YYYYMMDD01 |
| `Session.RenderedLineCarriesName` | bind_dns_zones_management.py:96-113 | every line `add_record` writes is matched by the delete pattern for its own name |
| `Session.RenderedLineIsLine` | bind_dns_zones_management.py:87-96 | with no newline in the name or the value, a rendered record is exactly one line |
| `Session.AddTextLines` | bind_dns_zones_management.py:98-101 | adding to a file that ends at a line boundary appends the record as a line of its own, and then the serial is bumped |
| `Session.DeleteAfterAdd` | bind_dns_zones_management.py:98-115 | for a file that is empty or ends with '\n', and a name and value without '\n': filtering the text with the rendered record appended (the append of lines 98-99, before the serial bump of line 101) by the record's name leaves exactly what filtering the original text leaves, so the new record is among the lines removed |
| `Session.UpdateTextLines` | bind_dns_zones_management.py:119-121 | for a file that is empty or ends with '\n', and a name and value without '\n': after an update, the file's lines are the old lines without the name (serial bumped), then the new record (serial bumped again) |
| `Session.AppendGluesRecord` | bind_dns_zones_management.py:98-113 | on a file whose last line has no '\n', the appended record is glued onto that line, so `readlines()` sees the old last line and the record as one line; the delete filter for the record's name keeps that line whenever the old last line is longer than the name and does not itself start with it |
| `Session.MailRecordLine` | bind_dns_zones_management.py:87-96 | the A record for `mail` at 5.6.7.8 with TTL 3600 is the line `mail\t3600\tIN\tA\t5.6.7.8\n` |
| `Session.GluedRecordSurvivesDelete` | bind_dns_zones_management.py:98-115 | the one-line file `www\t3600\tIN\tA\t1.2.3.4` without a final newline, plus that `mail` record, reads back as a single line, and deleting `mail` keeps it |
| `Session.DeleteThenSerialTerminated` | bind_dns_zones_management.py:109-137 | a file that ends at a line boundary still does after a delete and a serial bump |

## Left out

- **Console I/O.** This covers the menu loop, every `input` prompt and `print`
  message, and `list_records`, which only prints the file's lines stripped.
  The outcomes the messages announce are modelled as result values
  (`SelectOutcome`, `EditOutcome`, `ReloadOutcome`).
- **External commands.** `os.system("named-checkzone ...")`, `shutil.which("rndc")`
  and `os.system("rndc reload")` are outside the program. Their results are
  boolean parameters of `ReloadBind`.
- **Backup files.** `backup_zone_file` creates the backup directory and names
  the copy from the base name and a timestamp. It also copies file metadata
  with `shutil.copy2`. The model records only which file was copied and
  what text it held.
- `Session.ZoneSession.UpdateRecord`: `backups` is a log of the copies taken,
  not the backup directory. A copy is named `<basename>_<YYYYmmdd_HHMMSS>.bak`,
  so two copies made within the same second share a name and the later one
  replaces the earlier. `update_record` takes its two copies moments apart,
  so on disk the pre-delete copy is usually overwritten by the post-delete
  one. The model keeps both entries, because the clock's seconds are not
  modelled.
- **Clock.** `datetime.now()` becomes the `Date` parameter.
  - `update_serial` reads the clock each time it runs, and `update_record`
    runs it twice (once after the delete, once after the add). The model's
    `UpdateRecord` passes one `today` to both bumps, so an update that
    crosses midnight between the two is not modelled.
  - `ValidDate` admits years 1000 to 9999, so that `%Y%m%d01` has ten
    digits. It does not check that the day exists in the month, because the
    serial rule does not depend on it.
- `Session.DeleteAfterAdd`: stated only for a file that is empty or ends with
  '\n', and about the appended text before the serial bump. `add_record`
  opens the file in append mode and writes the record without looking at the
  last character. On a file whose last line has no '\n', the record is glued
  onto that line (`Session.AppendGluesRecord`), and deleting the record's name
  afterwards keeps it (`Session.GluedRecordSurvivesDelete`).
- `Session.UpdateTextLines`: stated only for a file that is empty or ends with
  '\n'. On any other file the new record is glued onto the last line, as
  `Session.AppendGluesRecord` states.
- `Session.AddTextLines`: stated only for a file that is empty or ends with
  '\n', for the same reason.
- **Missing files.**
  - Opening a missing zone or configuration file raises an exception in the
    program. The model treats this as a precondition of `UpdateSerial`,
    `BackupZoneFile` and `ChooseZone`.
  - `add_record` and `delete_record` check for the file first, so they never
    reach that case.
- **Unicode details.** `\d` and `int()` also accept non-ASCII decimal
  digits, and `str.upper()` also upper-cases non-ASCII letters. The model
  takes ASCII digits and ASCII letters only.
- `Text.ParseInt`: the 4300-digit bound is Python's default. The
  `PYTHONINTMAXSTRDIGITS` environment variable or `sys.set_int_max_str_digits`
  can change it, and the model fixes it at the default. Past the bound
  `int()` raises ValueError. At the TTL and priority prompts that is caught as
  an invalid answer, and at menu item 2 as not a number (`NotANumber`).
- **Newline translation.** Text-mode reading turns `\r\n` and `\r` into `\n`.
  File contents here are taken as already translated.
- **`is_valid_domain`.** It is never called, so it is not modelled.
- **`main`'s loop and the menu choices 1, 3 and 8.** These are I/O only.
  Items 4 and 6 are modelled by `ReadAddRequest` followed by
  `ZoneSession.AddRecord` or `ZoneSession.UpdateRecord`.
- **Serial parsing.** `ZoneEdit.SerialOf` is defined as the value of the serial line's digits.
  `SerialOfIsInt` proves that this equals what `int(line.split(";")[0].strip())`
  gives when there are at most 4300 digits.
- `ZoneEdit.BumpSerial`: a serial of more than 4300 digits is bumped as an
  unbounded number. `update_serial` instead ends the program with an uncaught
  ValueError at `int()`. So does a serial of 4300 nines, whose successor has
  4301 digits, when `str()` writes it. `add_record` and `delete_record` have
  already written the file by then. The same holds for
  `Session.ZoneSession.UpdateSerial`, `Session.ZoneSession.AddRecord`,
  `Session.ZoneSession.DeleteRecord` and `Session.ZoneSession.UpdateRecord`.
