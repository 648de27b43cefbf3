/**
 `getVersionFromGit` of Source/Hugo/versioning.js: the output of
 `git tag --sort=-version:refname` is turned into text, split into lines,
 each line loses one leading ',' and its surrounding white space, and the
 first line left non-empty becomes a `BuildVersion`; with no such line the
 version is built from "1.0.0".

 The spawned process is not modelled: its standard output and standard
 error are parameters.
 */
module Versioning {
  import opened Options
  import opened Chars
  import opened VersionRegex
  import opened BuildVersions

  // ---------------------------------------------------------------------
  // `split('\n')` and its inverse
  // ---------------------------------------------------------------------

  /** `text.split('\n')`. */
  function SplitLines(text: string): (lines: seq<string>)
    ensures 0 < |lines|
  {
    Split(text, '\n')
  }

  /** `lines.join('\n')`. */
  function JoinLines(lines: seq<string>): string
    requires 0 < |lines|
    decreases |lines|
  {
    if |lines| == 1 then lines[0] else lines[0] + "\n" + JoinLines(lines[1..])
  }

  predicate HasNoLineFeed(line: string) {
    forall k | 0 <= k < |line| :: line[k] != '\n'
  }

  predicate AllWithoutLineFeed(lines: seq<string>) {
    forall i | 0 <= i < |lines| :: HasNoLineFeed(lines[i])
  }

  /** The first piece of `text`, up to its first line feed. */
  function FirstLine(text: string): string {
    SplitLines(text)[0]
  }

  function Last<T>(s: seq<T>): T
    requires 0 < |s|
  {
    s[|s| - 1]
  }

  /** No piece that `split` produces contains a line feed. */
  lemma {:induction false} SplitLinesHasNoLineFeed(text: string)
    ensures AllWithoutLineFeed(SplitLines(text))
    decreases |text|
  {
    if text != [] {
      var rest := SplitLines(text[1..]);
      SplitLinesHasNoLineFeed(text[1..]);
      if text[0] != '\n' {
        var first := [text[0]] + rest[0];
        assert HasNoLineFeed(rest[0]);
        assert forall k | 1 <= k < |first| :: first[k] == rest[0][k - 1];
      }
    }
  }

  /** Joining what `split` produced with line feeds gives the text back. */
  lemma {:induction false} JoinSplitLines(text: string)
    ensures JoinLines(SplitLines(text)) == text
    decreases |text|
  {
    if text != [] {
      var rest := SplitLines(text[1..]);
      JoinSplitLines(text[1..]);
      if text[0] == '\n' {
        assert JoinLines([""] + rest) == "" + "\n" + JoinLines(rest);
      } else {
        var lines := [[text[0]] + rest[0]] + rest[1..];
        if |rest| == 1 {
          assert JoinLines(lines) == [text[0]] + rest[0];
        } else {
          assert lines[1..] == rest[1..];
          assert JoinLines(rest) == rest[0] + "\n" + JoinLines(rest[1..]);
        }
      }
    }
  }

  /** A line without a line feed splits into itself. */
  lemma {:induction false} SplitSingleLine(line: string)
    requires HasNoLineFeed(line)
    ensures SplitLines(line) == [line]
    decreases |line|
  {
    if line != [] {
      SplitSingleLine(line[1..]);
      assert line[0] != '\n';
      assert [line[0]] + line[1..] == line;
    }
  }

  /** One character in front of a text: a line feed starts a new first line, anything else joins the first line. */
  lemma {:induction false} SplitLinesCons(c: char, t: string)
    ensures SplitLines([c] + t)
      == if c == '\n' then [""] + SplitLines(t) else [[c] + SplitLines(t)[0]] + SplitLines(t)[1..]
  {
    assert ([c] + t)[1..] == t;
  }

  /** `rxy` is `rx` with its last line fused to the first line of `sy`. */
  ghost predicate Fused(rx: seq<string>, sy: seq<string>, rxy: seq<string>)
    requires 0 < |rx| && 0 < |sy|
  {
    rxy == rx[..|rx| - 1] + [Last(rx) + sy[0]] + sy[1..]
  }

  /** Putting a line feed in front keeps the fusion. */
  lemma {:induction false} FusedAfterLineFeed(rx: seq<string>, sy: seq<string>, rxy: seq<string>)
    requires 0 < |rx| && 0 < |sy| && Fused(rx, sy, rxy)
    ensures Fused([""] + rx, sy, [""] + rxy)
  {
    assert ([""] + rx)[..|rx|] == [""] + rx[..|rx| - 1];
  }

  /** Putting a character in front of a single line keeps the fusion. */
  lemma {:induction false} FusedAfterCharOnOneLine(c: char, rx: seq<string>, sy: seq<string>, rxy: seq<string>)
    requires |rx| == 1 && 0 < |sy| && Fused(rx, sy, rxy)
    ensures Fused([[c] + rx[0]], sy, [[c] + rxy[0]] + rxy[1..])
  {
    assert rxy[0] == rx[0] + sy[0] && rxy[1..] == sy[1..];
    assert [c] + (rx[0] + sy[0]) == [c] + rx[0] + sy[0];
  }

  /** Putting a character in front of several lines keeps the fusion. */
  lemma {:induction false} FusedAfterCharOnLines(c: char, rx: seq<string>, sy: seq<string>, rxy: seq<string>)
    requires 1 < |rx| && 0 < |sy| && Fused(rx, sy, rxy)
    ensures Fused([[c] + rx[0]] + rx[1..], sy, [[c] + rxy[0]] + rxy[1..])
  {
    var sx := [[c] + rx[0]] + rx[1..];
    assert sx[..|sx| - 1] == [[c] + rx[0]] + rx[1..|rx| - 1] && Last(sx) == Last(rx);
    assert rx[..|rx| - 1] == [rx[0]] + rx[1..|rx| - 1];
    assert rxy == [rx[0]] + (rx[1..|rx| - 1] + [Last(rx) + sy[0]] + sy[1..]);
  }

  /** Splitting a concatenation: the last piece of `x` and the first piece of `y` fuse into one line. */
  lemma {:induction false} SplitConcat(x: string, y: string)
    ensures var sx, sy := SplitLines(x), SplitLines(y);
      SplitLines(x + y) == sx[..|sx| - 1] + [Last(sx) + sy[0]] + sy[1..]
    decreases |x|
  {
    var sx, sy := SplitLines(x), SplitLines(y);
    if x == [] {
      assert sx == [""];
      hide SplitLines;
      assert x + y == y;
      assert Last(sx) + sy[0] == sy[0];
      assert [sy[0]] + sy[1..] == sy;
    } else {
      hide SplitLines;
      var c, x' := x[0], x[1..];
      assert x == [c] + x' && x + y == [c] + (x' + y);
      SplitConcat(x', y);
      SplitLinesCons(c, x');
      SplitLinesCons(c, x' + y);
      var rx, rxy := SplitLines(x'), SplitLines(x' + y);
      assert Fused(rx, sy, rxy);
      if c == '\n' {
        FusedAfterLineFeed(rx, sy, rxy);
      } else if |rx| == 1 {
        FusedAfterCharOnOneLine(c, rx, sy, rxy);
      } else {
        FusedAfterCharOnLines(c, rx, sy, rxy);
      }
    }
  }

  /** Splitting what `join` produced from lines without line feeds gives the lines back. */
  lemma {:induction false} SplitJoinLines(lines: seq<string>)
    requires 0 < |lines| && AllWithoutLineFeed(lines)
    ensures SplitLines(JoinLines(lines)) == lines
    decreases |lines|
  {
    SplitSingleLine(lines[0]);
    if 1 < |lines| {
      var tail := JoinLines(lines[1..]);
      SplitJoinLines(lines[1..]);
      assert ("\n" + tail)[1..] == tail;
      assert SplitLines("\n" + tail) == [""] + lines[1..];
      SplitConcat(lines[0], "\n" + tail);
      assert lines[0] + "\n" + tail == lines[0] + ("\n" + tail);
      assert lines[0] + "" == lines[0];
      assert [lines[0]] + lines[1..] == lines;
    }
  }

  // ---------------------------------------------------------------------
  // `trim`
  // ---------------------------------------------------------------------

  /** Every character of `s` is white space that `trim` removes. */
  predicate AllSpace(s: string) {
    forall k | 0 <= k < |s| :: IsWhiteSpace(s[k])
  }

  /** Neither end of `s` is white space. */
  predicate Trimmed(s: string) {
    s == [] || (!IsWhiteSpace(s[0]) && !IsWhiteSpace(s[|s| - 1]))
  }

  function TrimStart(s: string): string
    decreases |s|
  {
    if s != [] && IsWhiteSpace(s[0]) then TrimStart(s[1..]) else s
  }

  function TrimEnd(s: string): string
    decreases |s|
  {
    if s != [] && IsWhiteSpace(s[|s| - 1]) then TrimEnd(s[..|s| - 1]) else s
  }

  /** `String.prototype.trim`: white space and line terminators go from both ends. */
  function Trim(s: string): string {
    TrimEnd(TrimStart(s))
  }

  /** `TrimStart` drops a white-space prefix and stops at the first other character. */
  lemma {:induction false} TrimStartShape(s: string)
    ensures var r := TrimStart(s);
      |r| <= |s| && r == s[|s| - |r|..] && AllSpace(s[..|s| - |r|]) && (r == [] || !IsWhiteSpace(r[0]))
    decreases |s|
  {
    if s != [] && IsWhiteSpace(s[0]) {
      TrimStartShape(s[1..]);
      var r := TrimStart(s[1..]);
      assert s[..|s| - |r|] == [s[0]] + s[1..][..|s| - 1 - |r|];
    }
  }

  /** `TrimEnd` drops a white-space suffix and stops at the last other character. */
  lemma {:induction false} TrimEndShape(s: string)
    ensures var r := TrimEnd(s);
      |r| <= |s| && r == s[..|r|] && AllSpace(s[|r|..]) && (r == [] || !IsWhiteSpace(r[|r| - 1]))
    decreases |s|
  {
    if s != [] && IsWhiteSpace(s[|s| - 1]) {
      var init := s[..|s| - 1];
      TrimEndShape(init);
      var r := TrimEnd(init);
      assert s[|r|..] == init[|r|..] + [s[|s| - 1]];
    }
  }

  /** `trim` removes white space from both ends and leaves a text with neither end white: `s` is `p + Trim(s) + q` with `p` and `q` all white space. */
  lemma {:induction false} TrimShape(s: string)
    ensures |Trim(s)| <= |TrimStart(s)| <= |s|
    ensures var r := Trim(s); var i := |s| - |TrimStart(s)|;
      && Trimmed(r) && r == s[i..i + |r|]
      && AllSpace(s[..i]) && AllSpace(s[i + |r|..])
  {
    hide TrimStart, TrimEnd;
    var t := TrimStart(s);
    var i := |s| - |t|;
    TrimStartShape(s);
    TrimEndShape(t);
    var r := TrimEnd(t);
    assert r == s[i..i + |r|];
    assert s[i + |r|..] == t[|r|..];
  }

  /** A white-space prefix goes and the rest stays. */
  lemma {:induction false} TrimStartOfSpace(p: string, x: string)
    requires AllSpace(p) && (x == [] || !IsWhiteSpace(x[0]))
    ensures TrimStart(p + x) == x
    decreases |p|
  {
    if p == [] {
      assert p + x == x;
    } else {
      assert (p + x)[1..] == p[1..] + x;
      TrimStartOfSpace(p[1..], x);
    }
  }

  /** A white-space suffix goes and the rest stays. */
  lemma {:induction false} TrimEndOfSpace(x: string, q: string)
    requires AllSpace(q) && (x == [] || !IsWhiteSpace(x[|x| - 1]))
    ensures TrimEnd(x + q) == x
    decreases |q|
  {
    if q == [] {
      assert x + q == x;
    } else {
      var q' := q[..|q| - 1];
      assert (x + q)[..|x + q| - 1] == x + q';
      TrimEndOfSpace(x, q');
    }
  }

  /** `trim` of white space around a trimmed text is that text: what `trim` returns is determined by the decomposition. */
  lemma {:induction false} TrimUnique(p: string, r: string, q: string)
    requires AllSpace(p) && Trimmed(r) && AllSpace(q)
    ensures Trim(p + r + q) == r
  {
    if r == [] {
      assert p + r + q == p + q + "";
      assert AllSpace(p + q);
      TrimStartOfSpace(p + q, "");
      TrimEndOfSpace("", "");
    } else {
      assert p + r + q == p + (r + q);
      TrimStartOfSpace(p, r + q);
      TrimEndOfSpace(r, q);
    }
  }

  /** `trim` is idempotent. */
  lemma {:induction false} TrimIdempotent(s: string)
    ensures Trim(Trim(s)) == Trim(s)
  {
    TrimShape(s);
    var r := Trim(s);
    assert "" + r + "" == r;
    TrimUnique("", r, "");
  }

  // ---------------------------------------------------------------------
  // The line filter
  // ---------------------------------------------------------------------

  /** One line of the output: a leading ',' is dropped (`indexOf(',') == 0`), then the line is trimmed. */
  function CleanLine(line: string): string {
    Trim(if 0 < |line| && line[0] == ',' then line[1..] else line)
  }

  /** The versions the `forEach` collects: every cleaned line that is not empty, in order. */
  function Versions(lines: seq<string>): (versions: seq<string>)
    ensures |versions| <= |lines|
    decreases |lines|
  {
    if lines == [] then []
    else (if CleanLine(lines[0]) != "" then [CleanLine(lines[0])] else []) + Versions(lines[1..])
  }

  /** Appending a line appends its cleaned form when that is not empty. */
  lemma {:induction false} VersionsSnoc(lines: seq<string>, line: string)
    ensures Versions(lines + [line]) == Versions(lines) + (if CleanLine(line) != "" then [CleanLine(line)] else [])
    decreases |lines|
  {
    if lines == [] {
      assert lines + [line] == [line];
    } else {
      assert (lines + [line])[1..] == lines[1..] + [line];
      VersionsSnoc(lines[1..], line);
    }
  }

  /** The `forEach` over the lines, pushing every non-empty cleaned line. */
  method CollectVersions(lines: seq<string>) returns (versions: seq<string>)
    ensures versions == Versions(lines)
  {
    versions := [];
    for i := 0 to |lines|
      invariant versions == Versions(lines[..i])
    {
      var line := lines[i];
      if 0 < |line| && line[0] == ',' {
        line := line[1..];
      }
      line := Trim(line);
      VersionsSnoc(lines[..i], lines[i]);
      assert lines[..i + 1] == lines[..i] + [lines[i]];
      if |line| > 0 {
        versions := versions + [line];
      }
    }
    assert lines[..|lines|] == lines;
  }

  /** Every collected version is a non-empty trimmed text that one of the lines cleans to. */
  lemma {:induction false} VersionsAreCleanedLines(lines: seq<string>)
    ensures forall v | v in Versions(lines) :: v != "" && Trimmed(v)
    ensures forall v | v in Versions(lines) :: exists i | 0 <= i < |lines| :: CleanLine(lines[i]) == v
    decreases |lines|
  {
    if lines != [] {
      VersionsAreCleanedLines(lines[1..]);
      TrimShape(if 0 < |lines[0]| && lines[0][0] == ',' then lines[0][1..] else lines[0]);
      forall v | v in Versions(lines[1..])
        ensures exists i | 0 <= i < |lines| :: CleanLine(lines[i]) == v
      {
        var j :| 0 <= j < |lines[1..]| && CleanLine(lines[1..][j]) == v;
        assert CleanLine(lines[j + 1]) == v;
      }
    }
  }

  /** No version is collected exactly when every line cleans to nothing. */
  lemma {:induction false} NoVersionsIffAllBlank(lines: seq<string>)
    ensures Versions(lines) == [] <==> forall i | 0 <= i < |lines| :: CleanLine(lines[i]) == ""
    decreases |lines|
  {
    if lines != [] {
      NoVersionsIffAllBlank(lines[1..]);
      if CleanLine(lines[0]) == "" {
        assert forall i | 1 <= i < |lines| :: lines[i] == lines[1..][i - 1];
      }
    }
  }

  /** The first version collected is the cleaned form of the first line that does not clean to nothing. */
  lemma {:induction false} FirstVersionIsFirstNonBlankLine(lines: seq<string>, i: nat)
    requires i < |lines| && CleanLine(lines[i]) != ""
    requires forall j | 0 <= j < i :: CleanLine(lines[j]) == ""
    ensures Versions(lines) != [] && Versions(lines)[0] == CleanLine(lines[i])
    decreases i
  {
    if 0 < i {
      assert forall j | 0 <= j < i - 1 :: lines[1..][j] == lines[j + 1];
      FirstVersionIsFirstNonBlankLine(lines[1..], i - 1);
    }
  }

  // ---------------------------------------------------------------------
  // `getVersionFromGit` as written
  /** Only a ',' at the very start of a line is dropped, and only one: ",v" cleans to "v" and ",,v" to ",v". */
  lemma {:induction false} CleanLineDropsOneComma(r: string)
    requires Trimmed(r)
    ensures CleanLine("," + r) == r
    ensures CleanLine(",," + r) == "," + r
  {
    hide TrimStart, TrimEnd;
    var c := "," + r;
    assert c[1..] == r && (",," + r)[1..] == c;
    assert Trimmed(c) by {
      assert c[0] == ',' && c[|c| - 1] == (if r == [] then ',' else r[|r| - 1]);
    }
    assert "" + r + "" == r && "" + c + "" == c;
    TrimUnique("", r, "");
    TrimUnique("", c, "");
  }

  /** A ',' behind white space is not at index 0 and stays once the trim removes the white space. */
  lemma {:induction false} CommaBehindSpaceStays(r: string)
    requires Trimmed(r)
    ensures CleanLine(" ," + r) == "," + r
  {
    assert " ," + r == " " + ("," + r) + "";
    TrimUnique(" ", "," + r, "");
  }

  /** Lines split on '\n' only; the '\r' of a "\r\n" line end is white space the trim removes. */
  lemma {:induction false} CarriageReturnTrimmed(r: string)
    requires Trimmed(r) && (r == [] || r[0] != ',')
    ensures CleanLine(r + "\r") == r
  {
    assert r + "\r" == "" + r + "\r";
    TrimUnique("", r, "\r");
  }

  // ---------------------------------------------------------------------

  /** `result.output.toString()`: the array `[null, stdout, stderr]` joined with ',' (`null` renders as nothing). */
  function OutputText(stdout: string, stderr: string): string {
    "," + stdout + "," + stderr
  }

  /** The version text picked from the output: the first collected version, or "1.0.0" when there is none. */
  function ChosenText(stdout: string, stderr: string): string {
    var versions := Versions(SplitLines(OutputText(stdout, stderr)));
    if |versions| > 0 then versions[0] else "1.0.0"
  }

  /** `getVersionFromGit` as written: a construction from the chosen text, with the release flag absent, through the shared pattern. */
  function GetVersionFromGit(stdout: string, stderr: string, regex: RegexState): (r: Constructed)
    ensures !r.version.isRelease && IsWord(r.version.preRelease)
  {
    Construct(ChosenText(stdout, stderr), None, regex)
  }

  /** The lines of the output: the first line of `stdout` behind a ',', the rest of `stdout`, and its last piece fused with ',' and the first line of `stderr`. */
  lemma {:induction false} OutputLines(stdout: string, stderr: string)
    ensures var so, se := SplitLines(stdout), SplitLines(stderr);
      SplitLines(OutputText(stdout, stderr))
        == if |so| == 1 then ["," + so[0] + "," + se[0]] + se[1..]
           else ["," + so[0]] + so[1..|so| - 1] + [Last(so) + "," + se[0]] + se[1..]
  {
    hide SplitLines;
    var so, se := SplitLines(stdout), SplitLines(stderr);
    SplitSingleLine(",");
    SplitConcat(",", stderr);
    var c := SplitLines("," + stderr);
    assert c == ["," + se[0]] + se[1..];
    SplitConcat(stdout, "," + stderr);
    var a := SplitLines(stdout + ("," + stderr));
    assert a == so[..|so| - 1] + [Last(so) + ("," + se[0])] + se[1..];
    SplitConcat(",", stdout + ("," + stderr));
    assert OutputText(stdout, stderr) == "," + (stdout + ("," + stderr));
    assert SplitLines(OutputText(stdout, stderr)) == ["," + a[0]] + a[1..];
    if |so| == 1 {
      assert a == [so[0] + ("," + se[0])] + se[1..];
      assert "," + (so[0] + ("," + se[0])) == "," + so[0] + "," + se[0];
    } else {
      assert a[0] == so[0];
      assert a[1..] == so[1..|so| - 1] + [Last(so) + ("," + se[0])] + se[1..];
      assert Last(so) + ("," + se[0]) == Last(so) + "," + se[0];
    }
  }

  /** Only a text that is all white space trims to nothing. */
  lemma {:induction false} TrimEmptyMeansAllSpace(s: string)
    ensures Trim(s) == "" ==> AllSpace(s)
  {
    TrimShape(s);
    var i := |s| - |TrimStart(s)|;
    var r := Trim(s);
    forall k | 0 <= k < |s| && r == ""
      ensures IsWhiteSpace(s[k])
    {
      if k < i {
        assert s[..i][k] == s[k];
      } else {
        assert s[i + |r|..][k - i] == s[k];
      }
    }
  }

  /** A text holding a character other than white space does not trim to nothing. */
  lemma {:induction false} TrimKeepsNonSpace(s: string, k: nat)
    requires k < |s| && !IsWhiteSpace(s[k])
    ensures Trim(s) != ""
  {
    TrimEmptyMeansAllSpace(s);
  }

  /** When `stdout` has no line feed (no tags at all gives ""), the first line also holds ',' and so never cleans to nothing: the "1.0.0" fallback is unreachable and the text comes from `stdout` and `stderr` together. */
  lemma {:induction false} SingleLineOutputNeverFallsBack(stdout: string, stderr: string)
    requires HasNoLineFeed(stdout)
    ensures ChosenText(stdout, stderr) == Trim(stdout + "," + FirstLine(stderr))
  {
    hide SplitLines, Trim;
    SplitSingleLine(stdout);
    OutputLines(stdout, stderr);
    var lines := SplitLines(OutputText(stdout, stderr));
    var first := stdout + "," + FirstLine(stderr);
    assert lines[0] == "," + first;
    assert ("," + first)[1..] == first;
    assert CleanLine(lines[0]) == Trim(first);
    assert first[|stdout|] == ',';
    TrimKeepsNonSpace(first, |stdout|);
    FirstVersionIsFirstNonBlankLine(lines, 0);
  }

  /** With no tags and nothing on standard error the chosen text is ",". */
  lemma {:induction false} NoTagsChooseComma()
    ensures ChosenText("", "") == ","
  {
    hide Trim, SplitLines, ChosenText;
    SingleLineOutputNeverFallsBack("", "");
    EmptyFirstLine();
    var c := ",";
    assert "" + "," + "" == c;
    assert "" + c + "" == c;
    TrimUnique("", c, "");
  }

  /** With no tags and nothing on standard error the chosen text holds no version: the result is 0.0.0, rendered "0.0.0.0", and never the intended 1.0.0. */
  lemma {:induction false} NoTagsGiveZero()
    ensures GetVersionFromGit("", "", RegexState(0)).version == Zero(false)
    ensures GetVersionFromGit("", "", RegexState(0)).version.ToString() == "0.0.0.0"
  {
    hide Exec, ChosenText;
    NoTagsChooseComma();
    NoDigitNoMatch(",");
    ParseWithoutDigits();
  }

  /** An empty text is one empty line. */
  lemma {:induction false} EmptyFirstLine()
    ensures FirstLine("") == ""
  {
  }

  // ---------------------------------------------------------------------
  // The intended reading: the tag list on standard output alone
  // ---------------------------------------------------------------------

  /** The version text picked from the tag list on standard output: its first collected version, or "1.0.0". */
  function TagText(stdout: string): (t: string)
    ensures t != "" && Trimmed(t)
  {
    var versions := Versions(SplitLines(stdout));
    VersionsAreCleanedLines(SplitLines(stdout));
    if |versions| > 0 then
      assert versions[0] in versions;
      versions[0]
    else "1.0.0"
  }

  /** The intended `getVersionFromGit`: the newest tag on standard output, parsed from the start, or 1.0.0 when there is no tag. */
  function VersionFromTags(stdout: string): (v: BuildVersion)
    ensures !v.isRelease && IsWord(v.preRelease)
  {
    Parse(TagText(stdout), None)
  }

  /** An empty standard output holds no tag. */
  lemma {:induction false} EmptyOutputHasNoTag()
    ensures Versions(SplitLines("")) == []
  {
    TrimStartOfSpace("", "");
    TrimEndOfSpace("", "");
    assert CleanLine("") == "";
  }

  /** "1.0.0" with the release flag absent parses to 1.0.0. */
  lemma {:induction false} ParseOneZeroZero()
    ensures Parse("1.0.0", None) == BuildVersion(1, 0, 0, 0, "", false)
  {
    var one := BuildVersion(1, 0, 0, 0, "", true);
    assert one.ToString() == "1.0.0";
    RoundTrip(one);
    ReleaseOnlySetsFlag("1.0.0", Some(true), RegexState(0));
  }

  /** Without tags the intended reading gives 1.0.0, rendered "1.0.0.0". */
  lemma {:induction false} NoTagsGiveOne()
    ensures VersionFromTags("") == BuildVersion(1, 0, 0, 0, "", false)
    ensures VersionFromTags("").ToString() == "1.0.0.0"
  {
    hide Parse;
    EmptyOutputHasNoTag();
    ParseOneZeroZero();
  }

  /**
   Where `stdout` has a line feed and its first line names a tag (not
   starting with ','), the code as written, run with the pattern at its
   start, gives the intended version.
   */
  lemma {:induction false} GitAgreesWithTags(stdout: string, stderr: string)
    requires !HasNoLineFeed(stdout)
    requires var first := FirstLine(stdout); Trim(first) != "" && (first == [] || first[0] != ',')
    ensures GetVersionFromGit(stdout, stderr, RegexState(0)).version == VersionFromTags(stdout)
  {
    var so := SplitLines(stdout);
    OutputLines(stdout, stderr);
    JoinSplitLines(stdout);
    assert 1 < |so| by {
      if |so| == 1 {
        assert JoinLines(so) == so[0];
        SplitLinesHasNoLineFeed(stdout);
      }
    }
    var lines := SplitLines(OutputText(stdout, stderr));
    assert lines[0] == "," + so[0];
    assert ("," + so[0])[1..] == so[0];
    FirstVersionIsFirstNonBlankLine(lines, 0);
    FirstVersionIsFirstNonBlankLine(so, 0);
  }
}
