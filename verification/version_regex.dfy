// The version pattern (\d+).(\d+).(\d+)-*([\w]+)*[+-.]*(\d+)* with the g flag,
// of Source/Hugo/BuildVersion.js, and the way `exec` searches with it.
//
// The two dots are unescaped, so each matches any character but a line
// terminator. Everything after the patch number is optional, so once the
// patch has matched the rest always succeeds: the patch and the tail take
// their greedy (longest) runs and never backtrack. Only the major and minor
// numbers backtrack, longest first.
module VersionRegex {
  import opened Options
  import opened Chars

  /** The extent of one match and its five capture groups; an optional group that took part in no iteration is `None` (`undefined`). */
  datatype Match = Match(
    start: nat,
    end: nat,
    major: string,
    minor: string,
    patch: string,
    preRelease: Option<string>,
    build: Option<string>)

  /** The pattern's `lastIndex`. The pattern carries the `g` flag and is shared by every construction, so this position survives from one `exec` to the next. */
  datatype RegexState = RegexState(lastIndex: nat)

  /** What `exec` returns (`null` is `None`) and the `lastIndex` it leaves behind. */
  datatype ExecResult = ExecResult(found: Option<Match>, next: RegexState)

  predicate AllDigits(s: string, i: int, j: int)
    requires 0 <= i <= j <= |s|
  {
    AllIn(s, i, j, Digit)
  }

  /**
   `(\d+).(\d+).` matches at `i` with a major of `a` digits and a minor of `b`
   digits, and a patch digit follows: the whole pattern can then match at `i`.
   */
  predicate Head(s: string, i: nat, a: nat, b: nat) {
    && 1 <= a && 1 <= b && i + a + b + 2 < |s|
    && AllDigits(s, i, i + a)
    && MatchesDot(s[i + a])
    && AllDigits(s, i + a + 1, i + a + 1 + b)
    && MatchesDot(s[i + a + 1 + b])
    && IsDigit(s[i + a + b + 2])
  }

  /** Backtracking tries longer majors first and, for one major, longer minors first. */
  predicate Preferred(a: nat, b: nat, a': nat, b': nat) {
    a' < a || (a' == a && b' <= b)
  }

  /** `(a, b)` is the split the backtracking matcher commits to at `i`. */
  ghost predicate IsChosenHead(s: string, i: nat, a: nat, b: nat) {
    Head(s, i, a, b) && forall a': nat, b': nat :: Head(s, i, a', b') ==> Preferred(a, b, a', b')
  }

  /** Two splits that both are the chosen one are the same split. */
  lemma {:induction false} ChosenHeadUnique(s: string, i: nat, a: nat, b: nat, a': nat, b': nat)
    requires IsChosenHead(s, i, a, b) && IsChosenHead(s, i, a', b')
    ensures a == a' && b == b'
  {
    assert Preferred(a, b, a', b') && Preferred(a', b', a, b);
  }

  /** Tries minor lengths `b`, `b - 1`, ..., 1 after a major of `a` digits at `i`. */
  function TryMinor(s: string, i: nat, a: nat, b: nat): (r: Option<nat>)
    requires 1 <= a && i + a < |s| && AllDigits(s, i, i + a) && MatchesDot(s[i + a])
    requires i + a + 1 + b <= |s| && AllDigits(s, i + a + 1, i + a + 1 + b)
    ensures r.Some? ==> r.value <= b && Head(s, i, a, r.value)
    decreases b
  {
    if b == 0 then None
    else if i + a + b + 2 < |s| && MatchesDot(s[i + a + 1 + b]) && IsDigit(s[i + a + b + 2]) then Some(b)
    else TryMinor(s, i, a, b - 1)
  }

  /** `TryMinor` finds the longest minor up to `b` that lets the pattern go on, and fails only when there is none. */
  lemma {:induction false} TryMinorIsLongest(s: string, i: nat, a: nat, b: nat)
    requires 1 <= a && i + a < |s| && AllDigits(s, i, i + a) && MatchesDot(s[i + a])
    requires i + a + 1 + b <= |s| && AllDigits(s, i + a + 1, i + a + 1 + b)
    ensures var r := TryMinor(s, i, a, b);
      && (r.Some? ==> forall b': nat | r.value < b' <= b :: !Head(s, i, a, b'))
      && (r.None? ==> forall b': nat | b' <= b :: !Head(s, i, a, b'))
    decreases b
  {
    if b != 0 && !(i + a + b + 2 < |s| && MatchesDot(s[i + a + 1 + b]) && IsDigit(s[i + a + b + 2])) {
      TryMinorIsLongest(s, i, a, b - 1);
    }
  }

  /** Tries major lengths `a`, `a - 1`, ..., 1 at `i`, each with its longest minor first. */
  function TryMajor(s: string, i: nat, a: nat): (r: Option<(nat, nat)>)
    requires i + a <= |s| && AllDigits(s, i, i + a)
    ensures r.Some? ==> r.value.0 <= a && Head(s, i, r.value.0, r.value.1)
    decreases a
  {
    if a == 0 then None
    else if i + a < |s| && MatchesDot(s[i + a]) then
      var b := RunLength(s, i + a + 1, Digit);
      RunLengthIsMaximal(s, i + a + 1, Digit);
      match TryMinor(s, i, a, b)
      case Some(b') => Some((a, b'))
      case None => TryMajor(s, i, a - 1)
    else
      TryMajor(s, i, a - 1)
  }

  /** `TryMajor` finds the split backtracking prefers among majors up to `a`, and fails only when there is none. */
  lemma {:induction false} TryMajorIsPreferred(s: string, i: nat, a: nat)
    requires i + a <= |s| && AllDigits(s, i, i + a)
    ensures var r := TryMajor(s, i, a);
      && (r.Some? ==> forall a': nat, b': nat | a' <= a && Head(s, i, a', b') :: Preferred(r.value.0, r.value.1, a', b'))
      && (r.None? ==> forall a': nat, b': nat | a' <= a :: !Head(s, i, a', b'))
    decreases a
  {
    hide TryMinor, RunLength, Head;
    if a == 0 {
      NoEmptyMajor(s, i);
    } else if i + a < |s| && MatchesDot(s[i + a]) {
      var b := RunLength(s, i + a + 1, Digit);
      RunLengthIsMaximal(s, i + a + 1, Digit);
      MinorsAfterMajor(s, i, a, b);
      match TryMinor(s, i, a, b)
      case Some(b1) =>
        assert TryMajor(s, i, a) == Some((a, b1));
      case None =>
        assert TryMajor(s, i, a) == TryMajor(s, i, a - 1);
        TryMajorIsPreferred(s, i, a - 1);
    } else {
      assert TryMajor(s, i, a) == TryMajor(s, i, a - 1);
      NoMajorBeforeNonDot(s, i, a);
      TryMajorIsPreferred(s, i, a - 1);
    }
  }

  /** The major number has at least one digit. */
  lemma {:induction false} NoEmptyMajor(s: string, i: nat)
    ensures forall b: nat :: !Head(s, i, 0, b)
  {
  }

  /** A major of `a` digits needs a character after it for the first dot to match. */
  lemma {:induction false} NoMajorBeforeNonDot(s: string, i: nat, a: nat)
    requires !(i + a < |s| && MatchesDot(s[i + a]))
    ensures forall b: nat :: !Head(s, i, a, b)
  {
  }

  /** With a major of `a` digits at `i`, `TryMinor` from the longest digit run finds the longest minor, or shows there is none. */
  lemma {:induction false} MinorsAfterMajor(s: string, i: nat, a: nat, b: nat)
    requires 1 <= a && i + a < |s| && AllDigits(s, i, i + a) && MatchesDot(s[i + a])
    requires i + a + 1 + b <= |s| && AllDigits(s, i + a + 1, i + a + 1 + b)
    requires i + a + 1 + b == |s| || !IsDigit(s[i + a + 1 + b])
    ensures var r := TryMinor(s, i, a, b);
      && (r.Some? ==> forall b': nat | r.value < b' :: !Head(s, i, a, b'))
      && (r.None? ==> forall b': nat :: !Head(s, i, a, b'))
  {
    hide TryMinor, RunLength;
    assert forall b': nat | b < b' :: !Head(s, i, a, b');
    TryMinorIsLongest(s, i, a, b);
  }

  /** The split the matcher commits to when it starts at `i`, if the pattern matches there. */
  function HeadAt(s: string, i: nat): (r: Option<(nat, nat)>)
    requires i <= |s|
    ensures r.Some? ==> Head(s, i, r.value.0, r.value.1)
  {
    var a := RunLength(s, i, Digit);
    RunLengthIsMaximal(s, i, Digit);
    TryMajor(s, i, a)
  }

  /** `HeadAt` gives the split backtracking commits to at `i`, and fails only when the pattern cannot match there. */
  lemma {:induction false} HeadAtIsChosen(s: string, i: nat)
    requires i <= |s|
    ensures var r := HeadAt(s, i);
      && (r.Some? ==> IsChosenHead(s, i, r.value.0, r.value.1))
      && (r.None? ==> forall a: nat, b: nat :: !Head(s, i, a, b))
  {
    var a := RunLength(s, i, Digit);
    RunLengthIsMaximal(s, i, Digit);
    assert forall a': nat, b': nat | a < a' :: !Head(s, i, a', b');
    TryMajorIsPreferred(s, i, a);
  }

  /** The groups of a match have the shapes the pattern gives them. */
  predicate WellFormed(m: Match) {
    && IsDigits(m.major) && IsDigits(m.minor) && IsDigits(m.patch) && 0 < |m.patch|
    && (m.preRelease.Some? ==> 0 < |m.preRelease.value| && IsWord(m.preRelease.value))
    && (m.build.Some? ==> 0 < |m.build.value| && IsDigits(m.build.value))
  }

  /** What follows the patch: the label `([\w]+)*` captures, the build `(\d+)*` captures, and where the match ends. */
  datatype Tail = Tail(preRelease: Option<string>, build: Option<string>, end: nat)

  /** A captured label is a non-empty word and a captured build a non-empty digit string. */
  predicate TailShaped(t: Tail) {
    && (t.preRelease.Some? ==> 0 < |t.preRelease.value| && IsWord(t.preRelease.value))
    && (t.build.Some? ==> 0 < |t.build.value| && IsDigits(t.build.value))
  }

  /** `(\d+)*` at `d`: it takes every digit there is, and captures nothing when there is none. */
  function BuildAt(s: string, d: nat): (t: Tail)
    requires d <= |s|
    ensures t.preRelease == None && d <= t.end <= |s| && TailShaped(t)
  {
    var e := d + RunLength(s, d, Digit);
    RunLengthIsMaximal(s, d, Digit);
    DigitSlice(s, d, e);
    Tail(None, if d < e then Some(s[d..e]) else None, e)
  }

  /** `[+-.]*(\d+)*` at `x`: the separators are skipped, then the build. */
  function SeparatorsAt(s: string, x: nat): (t: Tail)
    requires x <= |s|
    ensures t.preRelease == None && x <= t.end <= |s| && TailShaped(t)
  {
    BuildAt(s, x + RunLength(s, x, BuildSeparator))
  }

  /** `([\w]+)*[+-.]*(\d+)*` at `w`: the label is every word character there is. */
  function LabelAt(s: string, w: nat): (t: Tail)
    requires w <= |s|
    ensures w <= t.end <= |s| && TailShaped(t)
  {
    var x := w + RunLength(s, w, WordChar);
    RunLengthIsMaximal(s, w, WordChar);
    WordSlice(s, w, x);
    var rest := SeparatorsAt(s, x);
    Tail(if w < x then Some(s[w..x]) else None, rest.build, rest.end)
  }

  /** `-*([\w]+)*[+-.]*(\d+)*` at `q`, the part after the patch; none of it backtracks. */
  function TailAt(s: string, q: nat): (t: Tail)
    requires q <= |s|
    ensures q <= t.end <= |s| && TailShaped(t)
  {
    LabelAt(s, q + RunLength(s, q, Hyphen))
  }

  /** The match that starts at `i` with the chosen split `(a, b)`; the patch is every digit after the second separator. */
  function Complete(s: string, i: nat, a: nat, b: nat): (m: Match)
    requires Head(s, i, a, b)
    ensures m.start == i && i + a + b + 3 <= m.end <= |s|
  {
    var p := i + a + b + 2;
    var q := p + RunLength(s, p, Digit);
    var t := TailAt(s, q);
    Match(i, t.end, s[i..i + a], s[i + a + 1..i + a + 1 + b], s[p..q], t.preRelease, t.build)
  }

  /** Every group of a completed match has the shape the pattern gives it. */
  lemma {:induction false} CompleteIsWellFormed(s: string, i: nat, a: nat, b: nat)
    requires Head(s, i, a, b)
    ensures WellFormed(Complete(s, i, a, b))
  {
    hide TailAt, RunLength;
    var p := i + a + b + 2;
    RunLengthIsMaximal(s, p, Digit);
    DigitSlice(s, i, i + a);
    DigitSlice(s, i + a + 1, i + a + 1 + b);
    DigitSlice(s, p, p + RunLength(s, p, Digit));
  }

  /** The pattern matches at no start position in `[from, to)`. */
  ghost predicate NoHeadIn(s: string, from: nat, to: nat) {
    forall j: nat, a: nat, b: nat | from <= j < to :: !Head(s, j, a, b)
  }

  /** `m` is the match the matcher produces when it starts at `m.start`. */
  ghost predicate IsMatchAt(s: string, m: Match) {
    && IsChosenHead(s, m.start, |m.major|, |m.minor|)
    && m == Complete(s, m.start, |m.major|, |m.minor|)
  }

  /** The first start position from `k` on where the pattern matches, with the split chosen there. */
  function FirstHead(s: string, k: nat): (r: Option<(nat, nat, nat)>)
    requires k <= |s|
    ensures r.Some? ==> k <= r.value.0 && Head(s, r.value.0, r.value.1, r.value.2)
    decreases |s| - k
  {
    match HeadAt(s, k)
    case Some((a, b)) => Some((k, a, b))
    case None => if k == |s| then None else FirstHead(s, k + 1)
  }

  /** `FirstHead` finds the leftmost start position where the pattern matches, and the split backtracking commits to there. */
  lemma {:induction false} FirstHeadIsLeftmost(s: string, k: nat)
    requires k <= |s|
    ensures var r := FirstHead(s, k);
      && (r.Some? ==> IsChosenHead(s, r.value.0, r.value.1, r.value.2) && NoHeadIn(s, k, r.value.0))
      && (r.None? ==> NoHeadIn(s, k, |s| + 1))
    decreases |s| - k
  {
    HeadAtIsChosen(s, k);
    if HeadAt(s, k).None? && k < |s| {
      FirstHeadIsLeftmost(s, k + 1);
    }
  }

  /** The first match from start position `k` on. */
  function Search(s: string, k: nat): (r: Option<Match>)
    requires k <= |s|
    ensures r.Some? ==> k <= r.value.start && WellFormed(r.value)
  {
    var h := FirstHead(s, k);
    if h.None? then None
    else
      CompleteIsWellFormed(s, h.value.0, h.value.1, h.value.2);
      Some(Complete(s, h.value.0, h.value.1, h.value.2))
  }

  /** `Search` finds the leftmost match from `k` on, with the split backtracking commits to, and fails only when there is none. */
  lemma {:induction false} SearchIsLeftmost(s: string, k: nat)
    requires k <= |s|
    ensures var r := Search(s, k);
      && (r.Some? ==> IsMatchAt(s, r.value) && NoHeadIn(s, k, r.value.start))
      && (r.None? ==> NoHeadIn(s, k, |s| + 1))
  {
    FirstHeadIsLeftmost(s, k);
    var h := FirstHead(s, k);
    if h.Some? {
      var m := Complete(s, h.value.0, h.value.1, h.value.2);
      assert |m.major| == h.value.1 && |m.minor| == h.value.2;
    }
  }

  /** The pattern matches at no start position from `from` on. */
  ghost predicate NoHeadFrom(s: string, from: nat) {
    forall j: nat, a: nat, b: nat | from <= j :: !Head(s, j, a, b)
  }

  /**
   `versionRegex.exec(s)`: a `g`-flag search from `lastIndex`. A match moves
   `lastIndex` to its end; a failure (including a `lastIndex` past the end)
   resets it to 0.
   */
  function Exec(s: string, state: RegexState): (r: ExecResult)
    ensures r.found.None? <==> r.next.lastIndex == 0
    ensures r.found.Some? ==> && WellFormed(r.found.value)
                              && state.lastIndex <= r.found.value.start < r.found.value.end == r.next.lastIndex
  {
    if state.lastIndex > |s| then
      ExecResult(None, RegexState(0))
    else
      match Search(s, state.lastIndex)
      case None => ExecResult(None, RegexState(0))
      case Some(m) => ExecResult(Some(m), RegexState(m.end))
  }

  /** `exec` finds nothing exactly when no start position from `lastIndex` on can match. */
  lemma {:induction false} ExecFailsIffNoMatch(s: string, state: RegexState)
    ensures Exec(s, state).found.None? <==> NoHeadFrom(s, state.lastIndex)
  {
    if state.lastIndex <= |s| {
      SearchIsLeftmost(s, state.lastIndex);
    }
  }

  /**
   What `exec` finds is the leftmost match from `lastIndex` on, with the split
   backtracking commits to.
   */
  lemma {:induction false} ExecIsLeftmostMatch(s: string, state: RegexState)
    ensures Exec(s, state).found.Some? ==> var m := Exec(s, state).found.value;
      IsMatchAt(s, m) && NoHeadIn(s, state.lastIndex, m.start)
  {
    if state.lastIndex <= |s| {
      SearchIsLeftmost(s, state.lastIndex);
    }
  }
}
