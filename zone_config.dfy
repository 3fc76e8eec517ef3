/** The scan of `named.conf.local` that lists the configured zones
    (`list_zones`): an ordered table from zone name to zone file path. */
module ZoneConfig {
  import opened Wrappers
  import opened Text

  /** The configuration file `list_zones` reads. */
  const ZoneConfigPath: string := "/etc/bind/named.conf.local"

  /** The directory relative `file` paths are resolved against. */
  const BindDir: string := "/etc/bind"

  /** One zone of the table; `file` is None until a `file "..."` line names it. */
  datatype ZoneEntry = ZoneEntry(name: string, file: Option<string>)

  /** Python's `sub in s`. */
  predicate Contains(s: string, sub: string)
    decreases |s|
  {
    |sub| <= |s| && (s[..|sub|] == sub || Contains(s[1..], sub))
  }

  /** Position of the first '"' at or after `i`. */
  function NextQuote(s: string, i: nat): (r: Option<nat>)
    requires i <= |s|
    ensures r.Some? ==> i <= r.value < |s| && s[r.value] == '"'
    ensures r.Some? ==> forall k :: i <= k < r.value ==> s[k] != '"'
    ensures r.None? ==> forall k :: i <= k < |s| ==> s[k] != '"'
    decreases |s| - i
  {
    if i == |s| then None else if s[i] == '"' then Some(i) else NextQuote(s, i + 1)
  }

  /** The group of `KW\s+"([^"]+)"` when the pattern matches at position `i`:
      the keyword, at least one white-space character, then a non-empty text
      between double quotes. */
  function QuotedAt(s: string, kw: string, i: nat): (r: Option<string>)
    ensures r.Some? ==> r.value != "" && '"' !in r.value
  {
    if i + |kw| <= |s| && s[i..i + |kw|] == kw then
      var q := SkipSpaces(s, i + |kw|);
      if q > i + |kw| && q < |s| && s[q] == '"' then
        match NextQuote(s, q + 1)
        case Some(e) =>
          if e > q + 1 then
            var g := s[q + 1..e];
            assert forall k :: 0 <= k < |g| ==> g[k] != '"';
            Some(g)
          else None
        case None => None
      else None
    else None
  }

  /** The start positions at which QuotedAt finds a match. */
  function QuotedStarts(s: string, kw: string): (p: nat -> bool)
    ensures forall i: nat :: p(i) == QuotedAt(s, kw, i).Some?
  {
    (i: nat) => QuotedAt(s, kw, i).Some?
  }

  /** `re.search(KW + r'\s+"([^"]+)"', s).group(1)`: the group of the match at
      the leftmost start position. */
  function SearchQuoted(s: string, kw: string): (r: Option<string>)
    ensures r.Some? ==> r.value != "" && '"' !in r.value
  {
    match FirstWhere(QuotedStarts(s, kw), 0, |s| + 1)
    case Some(i) => QuotedAt(s, kw, i)
    case None => None
  }

  // ----- what the search matches -----

  /** `s[a..b]` is a non-empty run of white space: what `\s+` consumes. */
  predicate SpaceRun(s: string, a: nat, b: nat)
  {
    a < b <= |s| && forall k :: a <= k < b ==> IsSpace(s[k])
  }

  /** `"g"` starts at `q`, with `g` non-empty and free of quotes: what
      `"([^"]+)"` matches, group included. */
  predicate QuotedTextAt(s: string, q: nat, g: string)
  {
    && g != "" && '"' !in g
    && q + |g| + 2 <= |s|
    && s[q] == '"' && s[q + 1..q + 1 + |g|] == g && s[q + 1 + |g|] == '"'
  }

  /** The pattern `KW\s+"([^"]+)"` matches at position `i` with group `g`. */
  ghost predicate MatchesAt(s: string, kw: string, i: nat, g: string)
  {
    && i + |kw| <= |s| && s[i..i + |kw|] == kw
    && exists q: nat :: SpaceRun(s, i + |kw|, q) && QuotedTextAt(s, q, g)
  }

  lemma {:induction false} NextQuoteIs(s: string, i: nat, e: nat)
    requires i <= e < |s| && s[e] == '"'
    requires forall k :: i <= k < e ==> s[k] != '"'
    ensures NextQuote(s, i) == Some(e)
    decreases e - i
  {
    if i < e {
      NextQuoteIs(s, i + 1, e);
    }
  }

  /** QuotedAt finds exactly the match of the pattern at `i`. */
  lemma QuotedAtMatches(s: string, kw: string, i: nat, g: string)
    ensures QuotedAt(s, kw, i) == Some(g) <==> MatchesAt(s, kw, i, g)
  {
    if QuotedAt(s, kw, i) == Some(g) {
      QuotedAtSound(s, kw, i, g);
    }
    if MatchesAt(s, kw, i, g) {
      QuotedAtComplete(s, kw, i, g);
    }
  }

  lemma QuotedAtSound(s: string, kw: string, i: nat, g: string)
    requires QuotedAt(s, kw, i) == Some(g)
    ensures MatchesAt(s, kw, i, g)
  {
    var a := i + |kw|;
    var q := SkipSpaces(s, a);
    var e := NextQuote(s, q + 1).value;
    assert g == s[q + 1..e];
    assert SpaceRun(s, a, q);
    assert QuotedTextAt(s, q, g);
  }

  lemma QuotedAtComplete(s: string, kw: string, i: nat, g: string)
    requires MatchesAt(s, kw, i, g)
    ensures QuotedAt(s, kw, i) == Some(g)
  {
    var a := i + |kw|;
    var q: nat :| SpaceRun(s, a, q) && QuotedTextAt(s, q, g);
    var e := q + 1 + |g|;
    assert SkipSpaces(s, a) == q by {
      assert !IsSpace(s[q]);
      SkipSpacesOver(s, a, q - a);
    }
    assert NextQuote(s, q + 1) == Some(e) by {
      forall k | q + 1 <= k < e ensures s[k] != '"' {
        assert s[k] == g[k - q - 1];
      }
      NextQuoteIs(s, q + 1, e);
    }
    assert s[q + 1..e] == g;
  }

  /** The pattern matches at `i` with group `g` and at no earlier position. */
  ghost predicate LeftmostMatch(s: string, kw: string, i: nat, g: string)
  {
    MatchesAt(s, kw, i, g) && forall j: nat, h :: j < i ==> !MatchesAt(s, kw, j, h)
  }

  /** `re.search`: the group of the leftmost match, and None when the pattern
      matches nowhere. */
  lemma SearchQuotedLeftmost(s: string, kw: string, g: string)
    ensures SearchQuoted(s, kw) == Some(g) <==> exists i: nat :: LeftmostMatch(s, kw, i, g)
    ensures SearchQuoted(s, kw).None? <==> forall i: nat, h :: !MatchesAt(s, kw, i, h)
  {
    match FirstWhere(QuotedStarts(s, kw), 0, |s| + 1)
    case Some(i) =>
      FirstStartMatches(s, kw, i);
      if i' :| LeftmostMatch(s, kw, i', g) {
        LeftmostMatchFound(s, kw, i', g);
      }
    case None =>
      NoStartNoMatch(s, kw);
  }

  lemma FirstStartMatches(s: string, kw: string, i: nat)
    requires FirstWhere(QuotedStarts(s, kw), 0, |s| + 1) == Some(i)
    ensures SearchQuoted(s, kw) == QuotedAt(s, kw, i)
    ensures LeftmostMatch(s, kw, i, QuotedAt(s, kw, i).value)
  {
    var p := QuotedStarts(s, kw);
    QuotedAtMatches(s, kw, i, QuotedAt(s, kw, i).value);
    forall j: nat, h | j < i ensures !MatchesAt(s, kw, j, h) {
      assert !p(j);
      QuotedAtMatches(s, kw, j, h);
    }
  }

  lemma LeftmostMatchFound(s: string, kw: string, i: nat, g: string)
    requires LeftmostMatch(s, kw, i, g)
    ensures SearchQuoted(s, kw) == Some(g)
  {
    var p := QuotedStarts(s, kw);
    QuotedAtMatches(s, kw, i, g);
    forall j: nat | j < i ensures !p(j) {
      NoQuotedBefore(s, kw, i, g, j);
    }
    FirstWhereIs(p, 0, |s| + 1, i);
  }

  /** No quoted value starts before the leftmost match. */
  lemma NoQuotedBefore(s: string, kw: string, i: nat, g: string, j: nat)
    requires LeftmostMatch(s, kw, i, g) && j < i
    ensures QuotedAt(s, kw, j).None?
  {
    if QuotedAt(s, kw, j).Some? {
      QuotedAtMatches(s, kw, j, QuotedAt(s, kw, j).value);
    }
  }

  lemma NoStartNoMatch(s: string, kw: string)
    requires FirstWhere(QuotedStarts(s, kw), 0, |s| + 1).None?
    ensures forall i: nat, h :: !MatchesAt(s, kw, i, h)
  {
    var p := QuotedStarts(s, kw);
    forall i: nat, h ensures !MatchesAt(s, kw, i, h) {
      if i <= |s| {
        assert !p(i);
      }
      QuotedAtMatches(s, kw, i, h);
    }
  }

  /** A line that contains both `zone` and `{` opens a zone declaration. */
  predicate IsZoneLine(line: string)
  {
    Contains(line, "zone") && '{' in line
  }

  /** The zone name a line declares, if it is a zone line and has one. */
  function ZoneDecl(line: string): Option<string>
  {
    if IsZoneLine(line) then SearchQuoted(line, "zone") else None
  }

  /** The path a `file "..."` line gives; a zone line is never a file line. */
  function FileDecl(line: string): Option<string>
  {
    if !IsZoneLine(line) && Contains(line, "file") then SearchQuoted(line, "file") else None
  }

  predicate IsAbsolute(path: string)
  {
    path != "" && path[0] == '/'
  }

  /** `os.path.join("/etc/bind", p)` for a relative `p`; an absolute `p` is kept. */
  function ResolvePath(path: string): (r: string)
    ensures IsAbsolute(path) ==> r == path
    ensures !IsAbsolute(path) ==> r == BindDir + "/" + path
  {
    if IsAbsolute(path) then path else BindDir + "/" + path
  }

  function Names(zones: seq<ZoneEntry>): (names: seq<string>)
    ensures |names| == |zones|
    ensures forall i :: 0 <= i < |zones| ==> names[i] == zones[i].name
  {
    if zones == [] then [] else Names(zones[..|zones| - 1]) + [zones[|zones| - 1].name]
  }

  /** No zone name appears twice, which is what a Python dict guarantees. */
  predicate DistinctNames(zones: seq<ZoneEntry>)
  {
    forall i, j :: 0 <= i < j < |zones| ==> zones[i].name != zones[j].name
  }

  /** `zones[name] = None`: a new name goes last; a name already present keeps
      its place and loses its file. */
  function DeclareZone(zones: seq<ZoneEntry>, name: string): (r: seq<ZoneEntry>)
    requires DistinctNames(zones)
    ensures DistinctNames(r)
    ensures name in Names(zones) ==> |r| == |zones|
    ensures name !in Names(zones) ==> r == zones + [ZoneEntry(name, None)]
    ensures forall i :: 0 <= i < |r| ==> r[i] == (if r[i].name == name then ZoneEntry(name, None) else zones[i])
    ensures Names(r) == if name in Names(zones) then Names(zones) else Names(zones) + [name]
  {
    if i :| 0 <= i < |zones| && zones[i].name == name then
      var r := zones[i := ZoneEntry(name, None)];
      assert Names(r) == Names(zones) by {
        forall k | 0 <= k < |r| ensures Names(r)[k] == Names(zones)[k] {
          assert r[k].name == zones[k].name;
        }
      }
      r
    else
      assert name !in Names(zones);
      var r := zones + [ZoneEntry(name, None)];
      assert r[..|zones|] == zones;
      r
  }

  /** `zones[list(zones.keys())[-1]] = path`: the path goes to the entry
      inserted last, whichever zone the `file` line belongs to. */
  function AttachFile(zones: seq<ZoneEntry>, path: string): (r: seq<ZoneEntry>)
    requires zones != []
    ensures |r| == |zones| && Names(r) == Names(zones)
    ensures r[|r| - 1].file == Some(ResolvePath(path))
    ensures forall i :: 0 <= i < |r| - 1 ==> r[i] == zones[i]
  {
    var last := |zones| - 1;
    zones[last := zones[last].(file := Some(ResolvePath(path)))]
  }

  /** What one configuration line does to the table. */
  function ScanLine(zones: seq<ZoneEntry>, line: string): seq<ZoneEntry>
    requires DistinctNames(zones)
  {
    if IsZoneLine(line) then
      match ZoneDecl(line)
      case Some(name) => DeclareZone(zones, name)
      case None => zones
    else if zones != [] && FileDecl(line).Some? then AttachFile(zones, FileDecl(line).value)
    else zones
  }

  /** The table after reading `lines` from the top. */
  function Scan(lines: seq<string>): (zones: seq<ZoneEntry>)
    ensures DistinctNames(zones)
  {
    if lines == [] then []
    else
      var before := Scan(lines[..|lines| - 1]);
      var r := ScanLine(before, lines[|lines| - 1]);
      assert DistinctNames(r) by {
        if !IsZoneLine(lines[|lines| - 1]) && before != [] && FileDecl(lines[|lines| - 1]).Some? {
          assert Names(r) == Names(before);
          forall i, j | 0 <= i < j < |r| ensures r[i].name != r[j].name {
            assert r[i].name == Names(r)[i] && r[j].name == Names(r)[j];
          }
        }
      }
      r
  }

  /** `list_zones`: reads the configuration text line by line and builds the table. */
  method ListZones(config: string) returns (zones: seq<ZoneEntry>)
    ensures zones == Scan(SplitLines(config))
  {
    var lines := SplitLines(config);
    zones := [];
    var i := 0;
    while i < |lines|
      invariant 0 <= i <= |lines|
      invariant zones == Scan(lines[..i])
    {
      var line := lines[i];
      ScanStep(lines, i);
      ghost var next := ScanLine(zones, line);
      if IsZoneLine(line) {
        var decl := SearchQuoted(line, "zone");
        if decl.Some? {
          zones := DeclareZone(zones, decl.value);
        }
      } else if Contains(line, "file") && zones != [] {
        var decl := SearchQuoted(line, "file");
        if decl.Some? {
          var last := |zones| - 1;
          zones := zones[last := zones[last].(file := Some(ResolvePath(decl.value)))];
        }
      }
      assert zones == next;
      i := i + 1;
    }
    assert lines[..i] == lines;
  }

  lemma ScanStep(lines: seq<string>, i: nat)
    requires i < |lines|
    ensures Scan(lines[..i + 1]) == ScanLine(Scan(lines[..i]), lines[i])
  {
    assert lines[..i + 1][..i] == lines[..i];
  }

  // ----- what the scan promises -----

  /** The zone names declared by `lines`, in order, repeats included. */
  function Declared(lines: seq<string>): seq<string>
  {
    if lines == [] then []
    else
      var rest := Declared(lines[..|lines| - 1]);
      match ZoneDecl(lines[|lines| - 1])
      case Some(name) => rest + [name]
      case None => rest
  }

  /** The first occurrences of `s`, in order. */
  function Dedup(s: seq<string>): (r: seq<string>)
    ensures forall x :: x in r <==> x in s
    ensures forall i, j :: 0 <= i < j < |r| ==> r[i] != r[j]
  {
    if s == [] then []
    else
      var d := Dedup(s[..|s| - 1]);
      assert s == s[..|s| - 1] + [s[|s| - 1]];
      if s[|s| - 1] in d then d else d + [s[|s| - 1]]
  }

  /** The table lists each declared zone once, in the order of its first declaration. */
  lemma {:induction false} ScanNames(lines: seq<string>)
    ensures Names(Scan(lines)) == Dedup(Declared(lines))
  {
    if lines != [] {
      var init, line := lines[..|lines| - 1], lines[|lines| - 1];
      ScanNames(init);
      ScanLineNames(Scan(init), line);
      match ZoneDecl(line)
      case Some(name) =>
        var d := Declared(lines);
        assert d == Declared(init) + [name];
        assert d[..|d| - 1] == Declared(init);
      case None =>
    }
  }

  /** One line adds the name it declares, unless the name is already listed. */
  lemma ScanLineNames(zones: seq<ZoneEntry>, line: string)
    requires DistinctNames(zones)
    ensures Names(ScanLine(zones, line)) == match ZoneDecl(line)
      case Some(name) => if name in Names(zones) then Names(zones) else Names(zones) + [name]
      case None => Names(zones)
  {
    if !IsZoneLine(line) {
      assert ZoneDecl(line).None?;
    }
  }

  /** A zone declared nowhere in `lines` is not in the table: `file` lines seen
      while the table is empty are ignored. */
  lemma {:induction false} ScanWithoutZones(lines: seq<string>)
    requires forall i :: 0 <= i < |lines| ==> ZoneDecl(lines[i]).None?
    ensures Scan(lines) == []
  {
    if lines != [] {
      ScanWithoutZones(lines[..|lines| - 1]);
    }
  }

  /** Every path the table holds is absolute. */
  lemma {:induction false} ScanPathsAbsolute(lines: seq<string>)
    ensures forall z :: z in Scan(lines) && z.file.Some? ==> IsAbsolute(z.file.value)
  {
    if lines != [] {
      ScanPathsAbsolute(lines[..|lines| - 1]);
    }
  }

  /** Resolving is idempotent and always gives an absolute path. */
  lemma ResolvePathAbsolute(path: string)
    ensures IsAbsolute(ResolvePath(path))
    ensures ResolvePath(ResolvePath(path)) == ResolvePath(path)
  {
  }

  /** A zone line never attaches a path: at most it resets the declared zone's
      path to None. */
  lemma ZoneLineAttachesNoFile(zones: seq<ZoneEntry>, line: string)
    requires DistinctNames(zones) && IsZoneLine(line)
    ensures var r := ScanLine(zones, line);
      forall i :: 0 <= i < |r| && r[i].file.Some? ==> i < |zones| && r[i] == zones[i]
  {
  }

  /** A `file` line right after the declaration of a new zone gives that zone
      its resolved path. */
  lemma FileFollowsZone(lines: seq<string>, name: string, path: string)
    requires |lines| >= 2
    requires name !in Names(Scan(lines[..|lines| - 2]))
    requires ZoneDecl(lines[|lines| - 2]) == Some(name)
    requires FileDecl(lines[|lines| - 1]) == Some(path)
    ensures var zones := Scan(lines);
      zones != [] && zones[|zones| - 1] == ZoneEntry(name, Some(ResolvePath(path)))
  {
    var init := lines[..|lines| - 1];
    assert init[..|init| - 1] == lines[..|lines| - 2];
    var b := Scan(lines[..|lines| - 2]);
    assert IsZoneLine(lines[|lines| - 2]);
    assert Scan(init) == ScanLine(b, lines[|lines| - 2]);
    assert Scan(init) == b + [ZoneEntry(name, None)];
    var last := lines[|lines| - 1];
    assert !IsZoneLine(last) && FileDecl(last).Some?;
    assert Scan(lines) == AttachFile(Scan(init), path);
  }
}
