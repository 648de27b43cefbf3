/**
 The `BuildVersion` class of Source/Hugo/BuildVersion.js: construction from
 free text through the shared version pattern, the getters, `isPreRelease`
 and `toString`.
 */
module BuildVersions {
  import opened Options
  import opened Chars
  import opened VersionRegex

  /** The fields a `BuildVersion` holds once constructed. */
  datatype BuildVersion = BuildVersion(
    major: nat,
    minor: nat,
    patch: nat,
    build: nat,
    preRelease: string,
    isRelease: bool)
  {
    /** `isPreRelease`: the pre-release string is non-empty. */
    predicate IsPreRelease() {
      preRelease != ""
    }

    /** `toString`: `M.m.p` for a release, `M.m.p.b` otherwise, and `M.m.p-label.b` whenever there is a label. */
    function ToString(): (r: string)
      ensures '-' in r <==> IsPreRelease()
    {
      var core := DecimalString(major) + "." + DecimalString(minor) + "." + DecimalString(patch);
      NoHyphenInDigits(DecimalString(major));
      NoHyphenInDigits(DecimalString(minor));
      NoHyphenInDigits(DecimalString(patch));
      NoHyphenInDigits(DecimalString(build));
      assert '-' !in core;
      if !IsPreRelease() then
        if isRelease then core else core + "." + DecimalString(build)
      else
        var r := core + "-" + preRelease + "." + DecimalString(build);
        assert r[|core|] == '-';
        r
    }
  }

  lemma {:induction false} NoHyphenInDigits(ds: string)
    requires IsDigits(ds)
    ensures '-' !in ds
  {
  }

  /** A new `BuildVersion` and the state the shared pattern is left in. */
  datatype Constructed = Constructed(version: BuildVersion, regex: RegexState)

  /** The version a construction falls back to when the pattern does not match. */
  function Zero(isRelease: bool): BuildVersion {
    BuildVersion(0, 0, 0, 0, "", isRelease)
  }

  /** The fields a match gives: groups 1-3 as numbers, group 4 or "", group 5 as a number or 0. */
  function FromMatch(m: Match, isRelease: bool): (v: BuildVersion)
    requires WellFormed(m)
    ensures IsWord(v.preRelease) && v.isRelease == isRelease
  {
    var build := if m.build.Some? then DecimalValue(m.build.value) else 0;
    BuildVersion(DecimalValue(m.major), DecimalValue(m.minor), DecimalValue(m.patch), build, m.preRelease.GetOr(""), isRelease)
  }

  /**
   The constructor. `release || false` makes an absent `release` false. The
   pattern is searched from the shared `lastIndex`, so the result depends on
   the constructions before this one.
   */
  function Construct(text: string, release: Option<bool>, regex: RegexState): (r: Constructed)
    ensures r.version.isRelease <==> release == Some(true)
    ensures NoHeadFrom(text, regex.lastIndex) ==> r.version == Zero(r.version.isRelease) && r.regex == RegexState(0)
    ensures Exec(text, regex).found.Some? ==> var m := Exec(text, regex).found.value;
      r == Constructed(FromMatch(m, r.version.isRelease), RegexState(m.end))
    ensures IsWord(r.version.preRelease)
  {
    var isRelease := release == Some(true);
    var e := Exec(text, regex);
    ExecFailsIffNoMatch(text, regex);
    match e.found
    case None => Constructed(Zero(isRelease), e.next)
    case Some(m) => Constructed(FromMatch(m, isRelease), e.next)
  }

  /** Construction with the pattern searched from the start of the text every time. */
  function Parse(text: string, release: Option<bool>): (v: BuildVersion)
    ensures v.isRelease <==> release == Some(true)
    ensures NoHeadFrom(text, 0) ==> v == Zero(v.isRelease)
    ensures IsWord(v.preRelease)
  {
    Construct(text, release, RegexState(0)).version
  }

  /** A run of class `cl` spelled out as the string `X` at `p`, followed by a character outside `cl`. */
  lemma {:induction false} RunOfSlice(s: string, p: nat, X: string, cl: CharClass)
    requires p + |X| <= |s| && s[p..p + |X|] == X
    requires forall k | 0 <= k < |X| :: cl.Contains(X[k])
    requires p + |X| == |s| || !cl.Contains(s[p + |X|])
    ensures RunLength(s, p, cl) == |X|
  {
    assert forall k | p <= k < p + |X| :: s[k] == X[k - p];
    RunLengthUnique(s, p, |X|, cl);
  }

  /** `(\d+)*` on a rest `B` of digits captures `B`, or nothing when `B` is empty. */
  lemma {:induction false} BuildAtDigits(s: string, d: nat, B: string)
    requires IsDigits(B) && d + |B| == |s| && s[d..] == B
    ensures BuildAt(s, d) == Tail(None, if 0 < |B| then Some(B) else None, |s|)
  {
    assert s[d..d + |B|] == B;
    RunOfSlice(s, d, B, Digit);
  }

  /** `[+-.]*(\d+)*` on `.B` skips the '.' and captures the build `B`. */
  lemma {:induction false} SeparatorsAtBuild(s: string, x: nat, B: string)
    requires IsDigits(B) && 0 < |B| && x + 1 + |B| == |s| && s[x..] == "." + B
    ensures SeparatorsAt(s, x) == Tail(None, Some(B), |s|)
  {
    assert s[x..x + 1] == "." && s[x + 1..] == B;
    assert IsDigit(s[x + 1]);
    RunOfSlice(s, x, ".", BuildSeparator);
    BuildAtDigits(s, x + 1, B);
  }

  /** The tail after the patch is empty when the patch ends the text. */
  lemma {:induction false} TailAtEnd(s: string, q: nat)
    requires q == |s|
    ensures TailAt(s, q) == Tail(None, None, |s|)
  {
    RunOfSlice(s, q, "", Hyphen);
    RunOfSlice(s, q, "", WordChar);
    RunOfSlice(s, q, "", BuildSeparator);
    RunOfSlice(s, q, "", Digit);
  }

  /** The tail `.B` has no label and the build `B`. */
  lemma {:induction false} TailAtBuild(s: string, q: nat, B: string)
    requires IsDigits(B) && 0 < |B| && q + 1 + |B| == |s| && s[q..] == "." + B
    ensures TailAt(s, q) == Tail(None, Some(B), |s|)
  {
    assert s[q] == '.';
    RunOfSlice(s, q, "", Hyphen);
    RunOfSlice(s, q, "", WordChar);
    SeparatorsAtBuild(s, q, B);
  }

  /** A suffix of `s` that is `X + Y` splits into `X` and `Y`. */
  lemma {:induction false} SplitSuffix(s: string, q: nat, X: string, Y: string)
    requires q + |X| + |Y| == |s| && s[q..] == X + Y
    ensures s[q..q + |X|] == X && s[q + |X|..] == Y
  {
    assert s[q..q + |X|] == (X + Y)[..|X|];
    assert s[q + |X|..] == (X + Y)[|X|..];
  }

  /** The tail `-L.B` has the label `L` and the build `B`. */
  lemma {:induction false} TailAtLabel(s: string, q: nat, L: string, B: string)
    requires IsWord(L) && 0 < |L| && IsDigits(B) && 0 < |B|
    requires q + 2 + |L| + |B| == |s| && s[q..] == "-" + (L + ("." + B))
    ensures TailAt(s, q) == Tail(Some(L), Some(B), |s|)
  {
    hide SeparatorsAt, BuildAt, RunLength;
    var w, x := q + 1, q + 1 + |L|;
    SplitSuffix(s, q, "-", L + ("." + B));
    SplitSuffix(s, w, L, "." + B);
    assert IsWordChar(L[0]);
    RunOfSlice(s, q, "-", Hyphen);
    RunOfSlice(s, w, L, WordChar);
    SeparatorsAtBuild(s, x, B);
  }

  /** When the pattern can match at 0, a search from 0 finds the match at 0 with the split chosen there. */
  lemma {:induction false} ExecFromStart(s: string, a: nat, b: nat)
    requires IsChosenHead(s, 0, a, b)
    ensures Exec(s, RegexState(0)).found == Some(Complete(s, 0, a, b))
  {
    hide Search;
    ExecFindsFirstHead(s, 0, a, b);
  }

  /** A search from 0 finds the match at the first position where the pattern can match, with the split chosen there. */
  lemma {:induction false} ExecFindsFirstHead(s: string, k: nat, a: nat, b: nat)
    requires NoHeadIn(s, 0, k) && IsChosenHead(s, k, a, b)
    ensures Exec(s, RegexState(0)).found == Some(Complete(s, k, a, b))
  {
    ExecFailsIffNoMatch(s, RegexState(0));
    ExecIsLeftmostMatch(s, RegexState(0));
    var found := Exec(s, RegexState(0)).found.value;
    assert found.start == k;
    ChosenHeadUnique(s, k, a, b, |found.major|, |found.minor|);
  }

  /** On `M.m` followed by '.' and a digit, the matcher's split at 0 is `M` and `m`. */
  lemma {:induction false} ChosenOnRendered(M: string, m: string, rest: string)
    requires IsDigits(M) && 0 < |M| && IsDigits(m) && 0 < |m|
    requires 0 < |rest| && IsDigit(rest[0])
    ensures IsChosenHead(M + "." + m + "." + rest, 0, |M|, |m|)
  {
    var s := M + "." + m + "." + rest;
    var A, B := |M|, |m|;
    assert forall k | 0 <= k < A :: s[k] == M[k];
    assert s[A] == '.';
    assert forall k | 0 <= k < B :: s[A + 1 + k] == m[k];
    assert s[A + 1 + B] == '.';
    assert s[A + B + 2] == rest[0];
    assert Head(s, 0, A, B);
    assert !Digit.Contains(s[A]) && !Digit.Contains(s[A + 1 + B]);
  }

  /** The match at 0 with split `(a, b)` when the patch is exactly `P`. */
  lemma {:induction false} CompleteWithPatch(s: string, a: nat, b: nat, P: string)
    requires Head(s, 0, a, b) && IsDigits(P)
    requires a + b + 2 + |P| <= |s| && s[a + b + 2..a + b + 2 + |P|] == P
    requires a + b + 2 + |P| == |s| || !IsDigit(s[a + b + 2 + |P|])
    ensures var t := TailAt(s, a + b + 2 + |P|);
      Complete(s, 0, a, b) == Match(0, t.end, s[0..a], s[a + 1..a + 1 + b], P, t.preRelease, t.build)
  {
    hide TailAt, RunLength;
    RunOfSlice(s, a + b + 2, P, Digit);
  }

  /** Where the parts of `M.m.P` followed by `rest` sit in the rendering. */
  lemma {:induction false} RenderedParts(M: string, m: string, P: string, rest: string)
    ensures var s := M + "." + m + "." + P + rest; var p := |M| + |m| + 2;
      && s == M + "." + m + "." + (P + rest)
      && |s| == p + |P| + |rest|
      && s[0..|M|] == M && s[|M| + 1..|M| + 1 + |m|] == m && s[p..p + |P|] == P
      && (rest != [] ==> s[p + |P|] == rest[0])
  {
    var s := M + "." + m + "." + P + rest;
    var p := |M| + |m| + 2;
    assert s[p..p + |P|] == P;
  }

  /** A search from 0 on a text whose chosen split at 0 is `(a, b)` and whose patch is `P`. */
  lemma {:induction false} ExecOnParts(s: string, a: nat, b: nat, P: string)
    requires IsChosenHead(s, 0, a, b) && IsDigits(P)
    requires a + b + 2 + |P| <= |s| && s[a + b + 2..a + b + 2 + |P|] == P
    requires a + b + 2 + |P| == |s| || !IsDigit(s[a + b + 2 + |P|])
    ensures var t := TailAt(s, a + b + 2 + |P|);
      Exec(s, RegexState(0)).found == Some(Match(0, t.end, s[0..a], s[a + 1..a + 1 + b], P, t.preRelease, t.build))
  {
    hide Search;
    ExecFromStart(s, a, b);
    CompleteWithPatch(s, a, b, P);
  }

  /** `s` starts with the groups `M`, `m` and `P`, split the way the matcher splits it. */
  ghost predicate StartsWithGroups(s: string, M: string, m: string, P: string) {
    var q := |M| + |m| + 2 + |P|;
    && IsChosenHead(s, 0, |M|, |m|) && IsDigits(P)
    && q <= |s| && s[0..|M|] == M && s[|M| + 1..|M| + 1 + |m|] == m && s[q - |P|..q] == P
    && (q == |s| || !IsDigit(s[q]))
  }

  /** A search from 0 on a text that starts with the groups `M`, `m` and `P` finds them, then the tail. */
  lemma {:induction false} ExecOnGroups(s: string, M: string, m: string, P: string)
    requires StartsWithGroups(s, M, m, P)
    ensures var t := TailAt(s, |M| + |m| + 2 + |P|);
      Exec(s, RegexState(0)).found == Some(Match(0, t.end, M, m, P, t.preRelease, t.build))
  {
    hide Search;
    ExecOnParts(s, |M|, |m|, P);
  }

  /** On `M.m.P` followed by a `rest` that is empty or starts with '.' or '-', the match at 0 has groups `M`, `m` and `P`. */
  lemma {:induction false} RenderedHead(M: string, m: string, P: string, rest: string)
    requires IsDigits(M) && 0 < |M| && IsDigits(m) && 0 < |m| && IsDigits(P) && 0 < |P|
    requires rest == [] || rest[0] == '.' || rest[0] == '-'
    ensures var s := M + "." + m + "." + P + rest;
      StartsWithGroups(s, M, m, P) && s[|M| + |m| + 2 + |P|..] == rest
  {
    var s := M + "." + m + "." + P + rest;
    RenderedParts(M, m, P, rest);
    ChosenOnRendered(M, m, P + rest);
    assert s[|M| + |m| + 2 + |P|..] == rest;
  }

  /** Parsing a text whose match at 0 covers it all, with groups that spell out the fields of `v`. */
  lemma {:induction false} ParseOfGroups(s: string, v: BuildVersion, M: string, m: string, P: string, t: Tail)
    requires StartsWithGroups(s, M, m, P)
    requires TailAt(s, |M| + |m| + 2 + |P|) == t && t.end == |s|
    requires IsDigits(M) && DecimalValue(M) == v.major && IsDigits(m) && DecimalValue(m) == v.minor
    requires DecimalValue(P) == v.patch && t.preRelease.GetOr("") == v.preRelease
    requires t.build.Some? ==> IsDigits(t.build.value) && DecimalValue(t.build.value) == v.build
    requires t.build.None? ==> v.build == 0
    ensures Parse(s, Some(v.isRelease)) == v
    ensures Construct(s, Some(v.isRelease), RegexState(0)).regex == RegexState(|s|)
  {
    hide Search;
    ExecOnGroups(s, M, m, P);
    FromMatchFields(Match(0, t.end, M, m, P, t.preRelease, t.build), v);
  }

  /** The fields a match gives are those of `v` when its groups spell them out. */
  lemma {:induction false} FromMatchFields(found: Match, v: BuildVersion)
    requires WellFormed(found)
    requires DecimalValue(found.major) == v.major && DecimalValue(found.minor) == v.minor
    requires DecimalValue(found.patch) == v.patch && found.preRelease.GetOr("") == v.preRelease
    requires found.build.Some? ==> DecimalValue(found.build.value) == v.build
    requires found.build.None? ==> v.build == 0
    ensures FromMatch(found, v.isRelease) == v
  {
  }

  /** Labels and builds that `toString` renders so that a parse reads them back. */
  predicate Reparsable(v: BuildVersion) {
    && IsWord(v.preRelease)
    && (v.isRelease && !v.IsPreRelease() ==> v.build == 0)
  }

  /** The fields of `v` as `toString` renders them: major, minor and patch. */
  predicate SpellsOut(v: BuildVersion, M: string, m: string, P: string) {
    && IsDigits(M) && DecimalValue(M) == v.major
    && IsDigits(m) && DecimalValue(m) == v.minor
    && IsDigits(P) && DecimalValue(P) == v.patch
  }

  /** Parsing a text that is exactly `M.m.P`. */
  lemma {:induction false} ParsePlain(s: string, v: BuildVersion, M: string, m: string, P: string)
    requires StartsWithGroups(s, M, m, P) && |M| + |m| + 2 + |P| == |s|
    requires SpellsOut(v, M, m, P) && v.preRelease == "" && v.build == 0
    ensures Parse(s, Some(v.isRelease)) == v
    ensures Construct(s, Some(v.isRelease), RegexState(0)).regex == RegexState(|s|)
  {
    hide Parse, Construct, Exec, Search, TailAt;
    TailAtEnd(s, |s|);
    ParseOfGroups(s, v, M, m, P, Tail(None, None, |s|));
  }

  /** Parsing a text that is `M.m.P` followed by `.B`. */
  lemma {:induction false} ParseBuild(s: string, v: BuildVersion, M: string, m: string, P: string, B: string)
    requires StartsWithGroups(s, M, m, P) && s[|M| + |m| + 2 + |P|..] == "." + B
    requires SpellsOut(v, M, m, P) && v.preRelease == ""
    requires IsDigits(B) && 0 < |B| && DecimalValue(B) == v.build
    ensures Parse(s, Some(v.isRelease)) == v
    ensures Construct(s, Some(v.isRelease), RegexState(0)).regex == RegexState(|s|)
  {
    hide Parse, Construct, Exec, Search, TailAt;
    var q := |M| + |m| + 2 + |P|;
    TailAtBuild(s, q, B);
    ParseOfGroups(s, v, M, m, P, Tail(None, Some(B), |s|));
  }

  /** Parsing a text that is `M.m.P` followed by `-L.B`. */
  lemma {:induction false} ParseLabel(s: string, v: BuildVersion, M: string, m: string, P: string, L: string, B: string)
    requires StartsWithGroups(s, M, m, P) && s[|M| + |m| + 2 + |P|..] == "-" + (L + ("." + B))
    requires SpellsOut(v, M, m, P) && v.preRelease == L && IsWord(L) && 0 < |L|
    requires IsDigits(B) && 0 < |B| && DecimalValue(B) == v.build
    ensures Parse(s, Some(v.isRelease)) == v
    ensures Construct(s, Some(v.isRelease), RegexState(0)).regex == RegexState(|s|)
  {
    hide Parse, Construct, Exec, Search, TailAt;
    var q := |M| + |m| + 2 + |P|;
    TailAtLabel(s, q, L, B);
    ParseOfGroups(s, v, M, m, P, Tail(Some(L), Some(B), |s|));
  }

  /** The round trip of a release without a label: `M.m.p`. */
  lemma {:induction false} RoundTripPlain(v: BuildVersion)
    requires Reparsable(v) && !v.IsPreRelease() && v.isRelease
    ensures v.ToString() == DecimalString(v.major) + "." + DecimalString(v.minor) + "." + DecimalString(v.patch)
    ensures Parse(v.ToString(), Some(v.isRelease)) == v
    ensures Construct(v.ToString(), Some(v.isRelease), RegexState(0)).regex == RegexState(|v.ToString()|)
  {
    hide Parse, Construct, Exec, Search, TailAt;
    var M, m, P := DecimalString(v.major), DecimalString(v.minor), DecimalString(v.patch);
    var s := v.ToString();
    assert s == M + "." + m + "." + P + "";
    RenderedHead(M, m, P, "");
    ParsePlain(s, v, M, m, P);
  }

  /** The round trip of a build without a label: `M.m.p.b`. */
  lemma {:induction false} RoundTripBuild(v: BuildVersion)
    requires Reparsable(v) && !v.IsPreRelease() && !v.isRelease
    ensures v.ToString() == DecimalString(v.major) + "." + DecimalString(v.minor) + "." + DecimalString(v.patch)
                            + "." + DecimalString(v.build)
    ensures Parse(v.ToString(), Some(v.isRelease)) == v
    ensures Construct(v.ToString(), Some(v.isRelease), RegexState(0)).regex == RegexState(|v.ToString()|)
  {
    hide Parse, Construct, Exec, Search, TailAt;
    var M, m, P, B := DecimalString(v.major), DecimalString(v.minor), DecimalString(v.patch), DecimalString(v.build);
    var s := v.ToString();
    assert s == M + "." + m + "." + P + ("." + B);
    RenderedHead(M, m, P, "." + B);
    ParseBuild(s, v, M, m, P, B);
  }

  /** How `toString` renders a version without a label: `M.m.p` for a release, `M.m.p.b` otherwise. */
  lemma {:induction false} PlainRendering(v: BuildVersion)
    requires !v.IsPreRelease()
    ensures v.isRelease ==> v.ToString() == DecimalString(v.major) + "." + DecimalString(v.minor) + "." + DecimalString(v.patch)
    ensures !v.isRelease ==> v.ToString() == DecimalString(v.major) + "." + DecimalString(v.minor) + "." + DecimalString(v.patch)
                                            + "." + DecimalString(v.build)
  {
  }

  /** How `toString` renders a labelled version: `M.m.p` and then `-label.b`. */
  lemma {:induction false} LabelRendering(v: BuildVersion)
    requires v.IsPreRelease()
    ensures v.ToString() == DecimalString(v.major) + "." + DecimalString(v.minor) + "." + DecimalString(v.patch)
                            + ("-" + (v.preRelease + ("." + DecimalString(v.build))))
  {
  }

  /** The round trip of a labelled version: `M.m.p-label.b`. */
  lemma {:induction false} RoundTripLabel(v: BuildVersion)
    requires Reparsable(v) && v.IsPreRelease()
    ensures Parse(v.ToString(), Some(v.isRelease)) == v
    ensures Construct(v.ToString(), Some(v.isRelease), RegexState(0)).regex == RegexState(|v.ToString()|)
  {
    hide Parse, Construct, Exec, Search, TailAt;
    var M, m, P, B := DecimalString(v.major), DecimalString(v.minor), DecimalString(v.patch), DecimalString(v.build);
    var rest := "-" + (v.preRelease + ("." + B));
    LabelRendering(v);
    RenderedHead(M, m, P, rest);
    ParseLabel(v.ToString(), v, M, m, P, v.preRelease, B);
  }

  /**
   Parsing what `toString` renders gives the version back, and the match
   covers the whole rendering.
   */
  lemma {:induction false} RoundTrip(v: BuildVersion)
    requires Reparsable(v)
    ensures Parse(v.ToString(), Some(v.isRelease)) == v
    ensures Construct(v.ToString(), Some(v.isRelease), RegexState(0)).regex == RegexState(|v.ToString()|)
  {
    hide Search;
    if !v.IsPreRelease() && v.isRelease {
      RoundTripPlain(v);
    } else if !v.IsPreRelease() {
      RoundTripBuild(v);
    } else {
      RoundTripLabel(v);
    }
  }

  /** The shared position makes a second construction from "1.2.3" miss the version the first one found. */
  lemma {:induction false} ConstructTwiceForgetsVersion()
    ensures var first := Construct("1.2.3", None, RegexState(0));
      && first.version == BuildVersion(1, 2, 3, 0, "", false)
      && first.regex == RegexState(5)
      && Construct("1.2.3", None, first.regex) == Constructed(Zero(false), RegexState(0))
  {
    var v := BuildVersion(1, 2, 3, 0, "", true);
    assert v.ToString() == "1.2.3";
    RoundTrip(v);
    assert NoHeadIn("1.2.3", 5, 6);
  }

  /** `release || false`: the flag given to the constructor decides `isRelease` and nothing else. */
  lemma {:induction false} ReleaseOnlySetsFlag(text: string, release: Option<bool>, regex: RegexState)
    ensures var c := Construct(text, None, regex);
      Construct(text, release, regex) == Constructed(c.version.(isRelease := release == Some(true)), c.regex)
    ensures Parse(text, release) == Parse(text, None).(isRelease := release == Some(true))
  {
    hide Exec;
  }

  /** The pattern's split on "12345" is "1", "3" and "5": each unescaped dot consumes a digit. */
  lemma {:induction false} DigitsOnlySplit()
    ensures StartsWithGroups("12345", "1", "3", "5")
  {
    var s := "12345";
    assert Head(s, 0, 1, 1);
    assert s[0..1] == "1" && s[2..3] == "3" && s[4..5] == "5";
  }

  /** A bare run of digits still parses: "12345" reads as 1.3.5. */
  lemma {:induction false} ParseDigitsOnly()
    ensures Parse("12345", None) == BuildVersion(1, 3, 5, 0, "", false)
  {
    hide Parse, Construct, Exec, Search, TailAt;
    DigitsOnlySplit();
    TailAtEnd("12345", 5);
    ParseOfGroups("12345", BuildVersion(1, 3, 5, 0, "", false), "1", "3", "5", Tail(None, None, 5));
    ReleaseOnlySetsFlag("12345", Some(false), RegexState(0));
  }

  /** The pattern cannot match in a text without a digit. */
  lemma {:induction false} NoDigitNoMatch(s: string)
    requires forall k | 0 <= k < |s| :: !IsDigit(s[k])
    ensures NoHeadFrom(s, 0)
  {
    forall j: nat, a: nat, b: nat
      ensures !Head(s, j, a, b)
    {
      if j + a + b + 2 < |s| {
        assert !IsDigit(s[j + a + b + 2]);
      }
    }
  }

  /** A text without a version gives 0.0.0, which renders as "0.0.0.0" when the release flag is absent. */
  lemma {:induction false} ParseWithoutDigits()
    ensures Parse("no-version", None) == Zero(false)
    ensures Zero(false).ToString() == "0.0.0.0"
  {
    var s := "no-version";
    assert forall k | 0 <= k < |s| :: !IsDigit(s[k]);
    NoDigitNoMatch(s);
  }

  /** "1.2.3-beta.4" parses to major 1, minor 2, patch 3, label "beta" and build 4, and renders back unchanged. */
  lemma {:induction false} ParseLabelled()
    ensures Parse("1.2.3-beta.4", None) == BuildVersion(1, 2, 3, 4, "beta", false)
    ensures BuildVersion(1, 2, 3, 4, "beta", false).ToString() == "1.2.3-beta.4"
  {
    var v := BuildVersion(1, 2, 3, 4, "beta", false);
    assert v.ToString() == "1.2.3-beta.4";
    RoundTrip(v);
    ReleaseOnlySetsFlag("1.2.3-beta.4", Some(false), RegexState(0));
  }

  /** Each unescaped dot takes any character: on "1x2y3" the split is "1", "2" and "3". */
  lemma {:induction false} LettersSplit()
    ensures StartsWithGroups("1x2y3", "1", "2", "3")
  {
    var s := "1x2y3";
    assert Head(s, 0, 1, 1);
    assert s[0..1] == "1" && s[2..3] == "2" && s[4..5] == "3";
  }

  /** "1x2y3" reads as 1.2.3. */
  lemma {:induction false} ParseAnySeparator()
    ensures Parse("1x2y3", None) == BuildVersion(1, 2, 3, 0, "", false)
  {
    hide Parse, Construct, Exec, Search, TailAt;
    LettersSplit();
    TailAtEnd("1x2y3", 5);
    ParseOfGroups("1x2y3", BuildVersion(1, 2, 3, 0, "", false), "1", "2", "3", Tail(None, None, 5));
    ReleaseOnlySetsFlag("1x2y3", Some(false), RegexState(0));
  }

  /** The tail `-L` has the label `L` and no build. */
  lemma {:induction false} TailAtLabelOnly(s: string, q: nat, L: string)
    requires IsWord(L) && 0 < |L| && q + 1 + |L| == |s| && s[q..] == "-" + L
    ensures TailAt(s, q) == Tail(Some(L), None, |s|)
  {
    hide BuildAt, RunLength;
    SplitSuffix(s, q, "-", L);
    assert IsWordChar(L[0]);
    RunOfSlice(s, q, "-", Hyphen);
    RunOfSlice(s, q + 1, L, WordChar);
    RunOfSlice(s, |s|, "", BuildSeparator);
    BuildAtDigits(s, |s|, "");
    assert SeparatorsAt(s, |s|) == Tail(None, None, |s|);
    assert LabelAt(s, q + 1) == Tail(Some(L), None, |s|);
  }

  /** Word characters after the hyphens are the label even when they are digits: "1.2.3-4" has label "4" and build 0. */
  lemma {:induction false} ParseDigitLabel()
    ensures Parse("1.2.3-4", None) == BuildVersion(1, 2, 3, 0, "4", false)
  {
    hide Parse, Construct, Exec, Search, TailAt;
    var s := "1.2.3-4";
    RenderedHead("1", "2", "3", "-4");
    assert "1" + "." + "2" + "." + "3" + "-4" == s;
    TailAtLabelOnly(s, 5, "4");
    ParseOfGroups(s, BuildVersion(1, 2, 3, 0, "4", false), "1", "2", "3", Tail(Some("4"), None, 7));
    ReleaseOnlySetsFlag(s, Some(false), RegexState(0));
  }

  /** Digits after a '.' are the build: "1.2.3.4" has no label and build 4. */
  lemma {:induction false} ParseDottedBuild()
    ensures Parse("1.2.3.4", None) == BuildVersion(1, 2, 3, 4, "", false)
  {
    var v := BuildVersion(1, 2, 3, 4, "", false);
    assert v.ToString() == "1.2.3.4";
    RoundTrip(v);
    ReleaseOnlySetsFlag("1.2.3.4", Some(false), RegexState(0));
  }

  /** The search is unanchored: "v1.2.3" reads as 1.2.3, the match starting after the 'v'. */
  lemma {:induction false} ParseAfterPrefix()
    ensures Parse("v1.2.3", None) == BuildVersion(1, 2, 3, 0, "", false)
  {
    hide Search, TailAt;
    var s := "v1.2.3";
    assert NoHeadIn(s, 0, 1) by {
      forall j: nat, a: nat, b: nat | 0 <= j < 1
        ensures !Head(s, j, a, b)
      {
        assert !Digit.Contains(s[0]);
      }
    }
    assert Head(s, 1, 1, 1);
    assert !Digit.Contains(s[2]) && !Digit.Contains(s[4]);
    assert IsChosenHead(s, 1, 1, 1);
    ExecFindsFirstHead(s, 1, 1, 1);
    RunOfSlice(s, 5, "3", Digit);
    TailAtEnd(s, 6);
    var m := Match(1, 6, "1", "2", "3", None, None);
    assert s[1..2] == "1" && s[3..4] == "2" && s[5..6] == "3";
    assert Complete(s, 1, 1, 1) == m;
    FromMatchFields(m, BuildVersion(1, 2, 3, 0, "", false));
  }
}
