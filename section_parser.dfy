/** The block parser: one marked section of the site-information text
    (the lines between "RADAR SITE DATA" and "END RADAR SITE DATA", say)
    becomes a header row followed by one comma-separated row per data line.
    The text arrives already split into lines. */
module SectionParser {
  import Sequences

  /** A marked block: the prefix of the line that opens it, the prefix of the
      line that closes it, and the header row its output starts with. */
  datatype Section = Section(start: string, end: string, header: string)

  const SiteSection: Section :=
    Section("RADAR SITE DATA", "END RADAR SITE DATA",
            "id,short_name,site_lat,site_lon,site_alt,type,typetext,SitesDB_ID")

  const TypeSection: Section :=
    Section("RADAR TYPE DATA", "END RADAR TYPE DATA",
            "type,typetext,wavelength,beamwidth,Vbeamwidth")

  /** How the scan treats one line, in the order the checks are made. */
  datatype LineKind = Short | Comment | Disabled | StartMarker | EndMarker | Data

  /** The ASCII characters Python's str.isspace accepts. */
  predicate IsSpace(c: char) {
    c == ' ' || c == '\t' || c == '\n' || c == '\r' || c == '\U{B}' || c == '\U{C}'
    || ('\U{1C}' <= c <= '\U{1F}')
  }

  predicate StartsWith(s: string, prefix: string) {
    |prefix| <= |s| && s[..|prefix|] == prefix
  }

  /** str.lstrip(): `s` without its leading whitespace. */
  function LStrip(s: string): string {
    if s != [] && IsSpace(s[0]) then LStrip(s[1..]) else s
  }

  /** Left-trimming removes a leading run of whitespace and nothing else:
      the result is a suffix of `s`, everything before it is whitespace,
      and it does not itself start with whitespace. */
  lemma {:induction false} LStripRemovesLeadingWhitespace(s: string)
    ensures var r := LStrip(s);
            |r| <= |s| && r == s[|s| - |r|..]
            && (forall i :: 0 <= i < |s| - |r| ==> IsSpace(s[i]))
            && (r == [] || !IsSpace(r[0]))
  {
    if s != [] && IsSpace(s[0]) {
      LStripRemovesLeadingWhitespace(s[1..]);
      var r := LStrip(s);
      assert r == s[1..][|s| - 1 - |r|..];
      forall i | 0 <= i < |s| - |r| ensures IsSpace(s[i]) {
        if i > 0 { assert s[i] == s[1..][i - 1]; }
      }
    }
  }

  /** `s` without its leading run of spaces. */
  function DropSpaces(s: string): (r: string)
    ensures |r| <= |s| && r == s[|s| - |r|..]
    ensures r == [] || r[0] != ' '
  {
    if s != [] && s[0] == ' ' then DropSpaces(s[1..]) else s
  }

  /** re.sub(" +", ",", s): every maximal run of spaces becomes one comma. */
  function CollapseSpaces(s: string): (r: string)
    ensures ' ' !in r
    ensures |r| <= |s|
    decreases |s|
  {
    if s == [] then []
    else if s[0] == ' ' then [','] + CollapseSpaces(DropSpaces(s))
    else [s[0]] + CollapseSpaces(s[1..])
  }

  /** The same rewriting read one character at a time: a space that does not
      follow a space becomes a comma, a space that follows one is dropped,
      every other character is kept. */
  function MarkRunStarts(s: string, afterSpace: bool): string {
    if s == [] then []
    else if s[0] == ' ' then (if afterSpace then [] else [',']) + MarkRunStarts(s[1..], true)
    else [s[0]] + MarkRunStarts(s[1..], false)
  }

  /** re.sub("_+", "", s) and str.replace("_", ""): every underscore removed,
      every other character kept. */
  function RemoveUnderscores(s: string): (r: string)
    ensures '_' !in r
    ensures forall c :: c in r ==> c in s
  {
    if s == [] then []
    else (if s[0] == '_' then [] else [s[0]]) + RemoveUnderscores(s[1..])
  }

  /** Removing underscores keeps every other character as often as it
      occurs. */
  lemma {:induction false} RemoveUnderscoresKeepsOthers(s: string)
    ensures forall c :: c != '_' ==> multiset(RemoveUnderscores(s))[c] == multiset(s)[c]
  {
    if s != [] {
      RemoveUnderscoresKeepsOthers(s[1..]);
      assert s == [s[0]] + s[1..];
    }
  }

  /** The row a collected line becomes: left-trimmed, space runs collapsed
      to commas, underscores removed. */
  function Normalize(line: string): (r: string)
    ensures ' ' !in r && '_' !in r
  {
    RemoveUnderscores(CollapseSpaces(LStrip(line)))
  }

  function Kind(line: string, sec: Section): LineKind {
    if |line| <= 1 then Short
    else if StartsWith(line, "#") then Comment
    else if StartsWith(LStrip(line), "0 ") then Disabled
    else if StartsWith(line, sec.start) then StartMarker
    else if StartsWith(line, sec.end) then EndMarker
    else Data
  }

  /** The rows the scan collects from `lines`, `reading` telling whether a
      start line has already been seen. */
  function Scan(lines: seq<string>, sec: Section, reading: bool): (r: seq<string>)
    ensures |r| <= |lines|
    ensures forall k :: 0 <= k < |r| ==> ' ' !in r[k] && '_' !in r[k]
  {
    if lines == [] then []
    else
      match Kind(lines[0], sec)
      case StartMarker => Scan(lines[1..], sec, true)
      case EndMarker => []
      case Data => (if reading then [Normalize(lines[0])] else []) + Scan(lines[1..], sec, reading)
      case _ => Scan(lines[1..], sec, reading)
  }

  /** The table text of one section, row by row. */
  function ExtractSection(lines: seq<string>, sec: Section): (r: seq<string>)
    ensures 1 <= |r| <= |lines| + 1 && r[0] == sec.header
    ensures forall k :: 1 <= k < |r| ==> ' ' !in r[k] && '_' !in r[k]
  {
    [sec.header] + Scan(lines, sec, false)
  }

  /** The position of the first line of kind `k`, or |lines| when none. */
  function FirstOf(lines: seq<string>, sec: Section, k: LineKind): (r: nat)
    ensures r <= |lines|
    ensures forall j {:trigger Kind(lines[j], sec)} :: 0 <= j < r ==> Kind(lines[j], sec) != k
    ensures r < |lines| ==> Kind(lines[r], sec) == k
  {
    if lines == [] then 0
    else if Kind(lines[0], sec) == k then 0
    else 1 + FirstOf(lines[1..], sec, k)
  }

  /** The normalised form of every data line of `seg`, in order. */
  function Collected(seg: seq<string>, sec: Section): (r: seq<string>)
    ensures |r| <= |seg|
    ensures forall k :: 0 <= k < |r| ==> ' ' !in r[k] && '_' !in r[k]
  {
    if seg == [] then []
    else (if Kind(seg[0], sec) == Data then [Normalize(seg[0])] else []) + Collected(seg[1..], sec)
  }

  /** The section read as a window of the text: the data lines strictly
      between the first start line that comes before the first end line and
      that end line. Nothing is collected when no start line precedes the
      first end line. */
  function Window(lines: seq<string>, sec: Section): seq<string> {
    var e := FirstOf(lines, sec, EndMarker);
    var s := FirstOf(lines[..e], sec, StartMarker);
    if s < e then Collected(lines[s + 1..e], sec) else []
  }

  /** The loop of the source: skip short, comment and disabled lines, start
      reading after a start line, stop at the first end line, and append the
      normalised form of every other line read. */
  method ParseSection(lines: seq<string>, sec: Section) returns (rows: seq<string>)
    ensures rows == ExtractSection(lines, sec)
    ensures rows == [sec.header] + Window(lines, sec)
  {
    rows := [sec.header];
    var reading := false;
    for i := 0 to |lines|
      invariant rows + Scan(lines[i..], sec, reading) == ExtractSection(lines, sec)
    {
      var c := lines[i];
      if |c| <= 1 {
        assert rows + Scan(lines[i + 1..], sec, reading) == ExtractSection(lines, sec) by {
          assert Kind(c, sec) == Short;
          ScanAt(lines, sec, reading, i);
        }
        continue;
      }
      if StartsWith(c, "#") {
        assert rows + Scan(lines[i + 1..], sec, reading) == ExtractSection(lines, sec) by {
          assert Kind(c, sec) == Comment;
          ScanAt(lines, sec, reading, i);
        }
        continue;
      }
      if StartsWith(LStrip(c), "0 ") {
        assert rows + Scan(lines[i + 1..], sec, reading) == ExtractSection(lines, sec) by {
          assert Kind(c, sec) == Disabled;
          ScanAt(lines, sec, reading, i);
        }
        continue;
      }
      if StartsWith(c, sec.start) {
        assert rows + Scan(lines[i + 1..], sec, true) == ExtractSection(lines, sec) by {
          assert Kind(c, sec) == StartMarker;
          ScanAt(lines, sec, reading, i);
        }
        reading := true;
        continue;
      }
      if StartsWith(c, sec.end) {
        assert rows == ExtractSection(lines, sec) by {
          assert Kind(c, sec) == EndMarker;
          ScanAt(lines, sec, reading, i);
        }
        reading := false;
        break;
      }
      var line := LStrip(c);
      line := CollapseSpaces(line);
      line := RemoveUnderscores(line);
      assert Kind(c, sec) == Data && line == Normalize(c);
      if reading {
        assert (rows + [line]) + Scan(lines[i + 1..], sec, reading) == ExtractSection(lines, sec) by {
          ScanAt(lines, sec, reading, i);
          Sequences.Regroup(rows, [line], Scan(lines[i + 1..], sec, reading));
        }
        rows := rows + [line];
      } else {
        assert rows + Scan(lines[i + 1..], sec, reading) == ExtractSection(lines, sec) by {
          ScanAt(lines, sec, reading, i);
          Sequences.EmptyPrefix(Scan(lines[i + 1..], sec, reading));
        }
      }
    }
    ScanReadsWindow(lines, sec);
  }

  /** One step of the scan at line `i`, by the kind of that line. */
  lemma ScanAt(lines: seq<string>, sec: Section, reading: bool, i: nat)
    requires i < |lines|
    ensures Kind(lines[i], sec) == StartMarker ==>
              Scan(lines[i..], sec, reading) == Scan(lines[i + 1..], sec, true)
    ensures Kind(lines[i], sec) == EndMarker ==> Scan(lines[i..], sec, reading) == []
    ensures Kind(lines[i], sec) == Data ==>
              Scan(lines[i..], sec, reading)
              == (if reading then [Normalize(lines[i])] else []) + Scan(lines[i + 1..], sec, reading)
    ensures Kind(lines[i], sec) in {Short, Comment, Disabled} ==>
              Scan(lines[i..], sec, reading) == Scan(lines[i + 1..], sec, reading)
  {
    assert lines[i..][0] == lines[i] && lines[i..][1..] == lines[i + 1..];
  }

  /** Once reading, the scan collects the data lines up to the first end line. */
  lemma {:induction false} ScanWhileReading(lines: seq<string>, sec: Section)
    ensures Scan(lines, sec, true) == Collected(lines[..FirstOf(lines, sec, EndMarker)], sec)
  {
    if lines != [] && Kind(lines[0], sec) != EndMarker {
      var e := FirstOf(lines, sec, EndMarker);
      ScanWhileReading(lines[1..], sec);
      assert lines[..e][1..] == lines[1..][..e - 1];
    }
  }

  /** The scan agrees with the window reading of the section. */
  lemma {:induction false} ScanReadsWindow(lines: seq<string>, sec: Section)
    ensures Scan(lines, sec, false) == Window(lines, sec)
  {
    if lines != [] {
      match Kind(lines[0], sec)
      case EndMarker =>
      case StartMarker =>
        var e := FirstOf(lines, sec, EndMarker);
        ScanWhileReading(lines[1..], sec);
        assert lines[1..e] == lines[1..][..e - 1];
      case _ =>
        ScanReadsWindow(lines[1..], sec);
        WindowSkipsFirstLine(lines, sec);
    }
  }

  /** A line that neither opens nor closes the section shifts the window by
      one line and adds nothing before it. */
  lemma WindowSkipsFirstLine(lines: seq<string>, sec: Section)
    requires lines != [] && Kind(lines[0], sec) != StartMarker && Kind(lines[0], sec) != EndMarker
    ensures Window(lines, sec) == Window(lines[1..], sec)
  {
    var e := FirstOf(lines, sec, EndMarker);
    var e' := FirstOf(lines[1..], sec, EndMarker);
    assert e == e' + 1;
    assert lines[..e][1..] == lines[1..][..e'];
    var s' := FirstOf(lines[1..][..e'], sec, StartMarker);
    assert FirstOf(lines[..e], sec, StartMarker) == s' + 1;
    if s' < e' {
      assert lines[s' + 2..e] == lines[1..][s' + 1..e'];
    }
  }

  /** Each row of `Collected(lines[a..b], sec)` is the normalised form of a
      data line of `lines[a..b]`. */
  lemma {:induction false} CollectedFromDataLines(lines: seq<string>, a: nat, b: nat, sec: Section, k: nat)
    returns (j: nat)
    requires a <= b <= |lines| && k < |Collected(lines[a..b], sec)|
    ensures a <= j < b && Kind(lines[j], sec) == Data
    ensures Collected(lines[a..b], sec)[k] == Normalize(lines[j])
    decreases b - a
  {
    var seg := lines[a..b];
    assert seg[0] == lines[a] && seg[1..] == lines[a + 1..b];
    if Kind(lines[a], sec) == Data && k == 0 {
      j := a;
    } else {
      var k' := if Kind(lines[a], sec) == Data then k - 1 else k;
      assert Collected(seg, sec)[k] == Collected(lines[a + 1..b], sec)[k'];
      j := CollectedFromDataLines(lines, a + 1, b, sec, k');
    }
  }

  /** Every data line of `seg` is collected. */
  lemma {:induction false} DataLinesCollected(seg: seq<string>, sec: Section, j: nat)
    requires j < |seg| && Kind(seg[j], sec) == Data
    ensures Normalize(seg[j]) in Collected(seg, sec)
  {
    if j > 0 {
      DataLinesCollected(seg[1..], sec, j - 1);
      assert seg[1..][j - 1] == seg[j];
    }
  }

  /** A non-empty window starts after a start line and ends at the first
      end line. */
  lemma WindowBounds(lines: seq<string>, sec: Section) returns (s: nat, e: nat)
    requires Window(lines, sec) != []
    ensures s < e == FirstOf(lines, sec, EndMarker)
    ensures Kind(lines[s], sec) == StartMarker
    ensures Window(lines, sec) == Collected(lines[s + 1..e], sec)
  {
    e := FirstOf(lines, sec, EndMarker);
    s := FirstOf(lines[..e], sec, StartMarker);
    assert lines[..e][s] == lines[s];
  }

  /** Each collected row is the normalised form of a data line that lies
      after a start line and before the first end line, and that line is
      longer than one character, not a comment and not a disabled ("0 ")
      entry. */
  lemma RowsComeFromSectionDataLines(lines: seq<string>, sec: Section, k: nat)
    requires 1 <= k < |ExtractSection(lines, sec)|
    ensures exists i, j :: 0 <= i < j < FirstOf(lines, sec, EndMarker)
                           && Kind(lines[i], sec) == StartMarker
                           && |lines[j]| > 1 && lines[j][0] != '#' && !StartsWith(LStrip(lines[j]), "0 ")
                           && ExtractSection(lines, sec)[k] == Normalize(lines[j])
  {
    var rows := Scan(lines, sec, false);
    assert ExtractSection(lines, sec)[k] == rows[k - 1];
    var i, e := ScanBounds(lines, sec);
    var j := CollectedFromDataLines(lines, i + 1, e, sec, k - 1);
    DataLineShape(lines[j], sec);
    assert 0 <= i < j < FirstOf(lines, sec, EndMarker);
  }

  /** What the scan collects is the window's data lines. */
  lemma ScanBounds(lines: seq<string>, sec: Section) returns (s: nat, e: nat)
    requires Scan(lines, sec, false) != []
    ensures s < e == FirstOf(lines, sec, EndMarker)
    ensures Kind(lines[s], sec) == StartMarker
    ensures Scan(lines, sec, false) == Collected(lines[s + 1..e], sec)
  {
    ScanReadsWindow(lines, sec);
    s, e := WindowBounds(lines, sec);
  }

  /** A data line is longer than one character, not a comment and not a
      disabled entry. */
  lemma DataLineShape(line: string, sec: Section)
    requires Kind(line, sec) == Data
    ensures |line| > 1 && line[0] != '#' && !StartsWith(LStrip(line), "0 ")
  {
    assert StartsWith(line, "#") <==> line[0] == '#';
  }

  /** Conversely every data line strictly between a start line and the first
      end line is collected. */
  lemma DataLinesInsideSectionAreRows(lines: seq<string>, sec: Section, i: nat, j: nat)
    requires i < j < FirstOf(lines, sec, EndMarker)
    requires Kind(lines[i], sec) == StartMarker && Kind(lines[j], sec) == Data
    ensures Normalize(lines[j]) in ExtractSection(lines, sec)[1..]
  {
    ScanReadsWindow(lines, sec);
    var e := FirstOf(lines, sec, EndMarker);
    var s := FirstOf(lines[..e], sec, StartMarker);
    assert lines[..e][i] == lines[i];
    assert s <= i;
    DataLinesCollected(lines[s + 1..e], sec, j - s - 1);
    assert ExtractSection(lines, sec)[1..] == Collected(lines[s + 1..e], sec);
  }

  /** An end line met before any start line leaves the header alone. */
  lemma EndBeforeStartGivesHeaderOnly(lines: seq<string>, sec: Section, j: nat)
    requires j < |lines| && Kind(lines[j], sec) == EndMarker
    requires forall i :: 0 <= i < j ==> Kind(lines[i], sec) != StartMarker
    ensures ExtractSection(lines, sec) == [sec.header]
  {
    ScanReadsWindow(lines, sec);
    var e := FirstOf(lines, sec, EndMarker);
    assert forall i :: 0 <= i < e ==> Kind(lines[..e][i], sec) != StartMarker;
  }

  /** The first end line is found at the same place in any extension. */
  lemma {:induction false} FirstOfExtended(lines: seq<string>, more: seq<string>, sec: Section, k: LineKind)
    requires FirstOf(lines, sec, k) < |lines|
    ensures FirstOf(lines + more, sec, k) == FirstOf(lines, sec, k)
  {
    if Kind(lines[0], sec) != k {
      FirstOfExtended(lines[1..], more, sec, k);
      assert (lines + more)[1..] == lines[1..] + more;
    }
  }

  /** The scan stops at the first end line: whatever follows it is ignored. */
  lemma LinesAfterEndIgnored(lines: seq<string>, more: seq<string>, sec: Section)
    requires FirstOf(lines, sec, EndMarker) < |lines|
    ensures ExtractSection(lines + more, sec) == ExtractSection(lines, sec)
  {
    ScanReadsWindow(lines, sec);
    ScanReadsWindow(lines + more, sec);
    FirstOfExtended(lines, more, sec, EndMarker);
    var e := FirstOf(lines, sec, EndMarker);
    assert (lines + more)[..e] == lines[..e];
  }

  /** Collapsing whole runs agrees with the one-character-at-a-time
      rewriting. */
  lemma {:induction false} CollapseSpacesStreams(s: string)
    ensures CollapseSpaces(s) == MarkRunStarts(s, false)
    decreases |s|
  {
    if s != [] {
      if s[0] == ' ' {
        SpacesAfterSpaceDropped(s[1..]);
        assert DropSpaces(s) == DropSpaces(s[1..]);
        CollapseSpacesStreams(DropSpaces(s));
      } else {
        CollapseSpacesStreams(s[1..]);
      }
    }
  }

  /** After a space, a run of further spaces produces nothing. */
  lemma {:induction false} SpacesAfterSpaceDropped(s: string)
    ensures MarkRunStarts(s, true) == MarkRunStarts(DropSpaces(s), false)
  {
    if s != [] && s[0] == ' ' {
      SpacesAfterSpaceDropped(s[1..]);
    }
  }

  /** A trailing run of spaces becomes one trailing comma. */
  lemma {:induction false} TrailingSpacesBecomeComma(s: string)
    requires |s| > 0 && s[|s| - 1] == ' '
    ensures |CollapseSpaces(s)| > 0 && CollapseSpaces(s)[|CollapseSpaces(s)| - 1] == ','
    decreases |s|
  {
    if s[0] == ' ' {
      var d := DropSpaces(s);
      assert CollapseSpaces(s) == [','] + CollapseSpaces(d);
      if d != [] {
        assert d[|d| - 1] == s[|s| - 1];
        TrailingSpacesBecomeComma(d);
      }
    } else {
      var t := s[1..];
      assert CollapseSpaces(s) == [s[0]] + CollapseSpaces(t);
      assert t[|t| - 1] == ' ';
      TrailingSpacesBecomeComma(t);
    }
  }

  /** Left-trimming removes exactly a leading run of whitespace. */
  lemma {:induction false} LStripRun(run: string, s: string)
    requires forall i :: 0 <= i < |run| ==> IsSpace(run[i])
    requires s == [] || !IsSpace(s[0])
    ensures LStrip(run + s) == s
  {
    if run != [] {
      assert (run + s)[1..] == run[1..] + s;
      LStripRun(run[1..], s);
    } else {
      assert run + s == s;
    }
  }

  /** Text without spaces passes through the collapsing unchanged. */
  lemma {:induction false} CollapseKeepsWord(w: string, s: string)
    requires ' ' !in w
    ensures CollapseSpaces(w + s) == w + CollapseSpaces(s)
  {
    if w == [] {
      assert w + s == s;
    } else {
      var c, rest := w[0], w[1..];
      assert c != ' ' by { assert w[0] in w; }
      assert ' ' !in rest by { assert forall x :: x in rest ==> x in w; }
      assert w + s == [c] + (rest + s);
      CollapseKeepsWord(rest, s);
      CollapseKeepsChar(c, rest + s);
      assert [c] + (rest + CollapseSpaces(s)) == w + CollapseSpaces(s);
    }
  }

  /** A character other than a space passes through the collapsing. */
  lemma CollapseKeepsChar(c: char, t: string)
    requires c != ' '
    ensures CollapseSpaces([c] + t) == [c] + CollapseSpaces(t)
  {
    assert ([c] + t)[1..] == t;
  }

  /** A whole run of spaces becomes a single comma. */
  lemma CollapseRun(run: string, s: string)
    requires |run| > 0 && forall i :: 0 <= i < |run| ==> run[i] == ' '
    requires s == [] || s[0] != ' '
    ensures CollapseSpaces(run + s) == [','] + CollapseSpaces(s)
  {
    DropRun(run, s);
  }

  lemma {:induction false} DropRun(run: string, s: string)
    requires forall i :: 0 <= i < |run| ==> run[i] == ' '
    requires s == [] || s[0] != ' '
    ensures DropSpaces(run + s) == s
  {
    if run != [] {
      assert (run + s)[1..] == run[1..] + s;
      DropRun(run[1..], s);
    }
  }

  /** A data line that ends in spaces, and is not all whitespace, gives a
      row that ends in a comma: the trailing run becomes one comma, and
      removing underscores keeps it. */
  lemma RowEndsWithComma(line: string)
    requires |line| > 0 && line[|line| - 1] == ' ' && LStrip(line) != []
    ensures var r := Normalize(line); |r| > 0 && r[|r| - 1] == ','
  {
    var t := LStrip(line);
    assert |t| > 0 && t[|t| - 1] == ' ' by {
      LStripRemovesLeadingWhitespace(line);
    }
    var c := CollapseSpaces(t);
    assert |c| > 0 && c[|c| - 1] == ',' by {
      TrailingSpacesBecomeComma(t);
    }
    var front := c[..|c| - 1];
    assert RemoveUnderscores(c) == RemoveUnderscores(front) + [','] by {
      Sequences.SplitLast(c);
      RemoveUnderscoresAppend(front, [',']);
      assert RemoveUnderscores([',']) == [','];
    }
    Sequences.LastOfAppend(RemoveUnderscores(front), ',');
  }

  /** Removing underscores works piece by piece. */
  lemma {:induction false} RemoveUnderscoresAppend(a: string, b: string)
    ensures RemoveUnderscores(a + b) == RemoveUnderscores(a) + RemoveUnderscores(b)
  {
    if a == [] {
      assert a + b == b;
      Sequences.EmptyPrefix(RemoveUnderscores(b));
    } else {
      var c, rest := a[0], a[1..];
      assert a + b == [c] + (rest + b) && a == [c] + rest;
      RemoveUnderscoresAppend(rest, b);
      RemoveUnderscoresCons(c, rest + b);
      RemoveUnderscoresCons(c, rest);
      Sequences.Regroup(if c == '_' then [] else [c], RemoveUnderscores(rest), RemoveUnderscores(b));
    }
  }

  lemma RemoveUnderscoresCons(c: char, t: string)
    ensures RemoveUnderscores([c] + t) == (if c == '_' then [] else [c]) + RemoveUnderscores(t)
  {
    assert ([c] + t)[1..] == t;
  }

  /** A text without underscores comes through unchanged. */
  lemma {:induction false} NoUnderscoreKept(s: string)
    requires '_' !in s
    ensures RemoveUnderscores(s) == s
  {
    if s != [] {
      NoUnderscoreKept(s[1..]);
    }
  }
}
