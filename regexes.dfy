/**
  The regular expressions of src/extension.js, each interpreted the way
  JavaScript's backtracking matcher runs it, and `String.prototype.replace`
  with and without the `g` flag.

  A pattern is a Matcher: a function that tells where a match starting at a
  given index ends, if there is one. A search finds the leftmost index where
  it matches (FirstMatch). Without `g`, `replace`
  substitutes that one match (ReplaceFirst). With `g`, it substitutes it and
  searches again from the end of the match (ReplaceAllFrom), never looking
  back into text it has already passed.
*/
module Regexes {
  import opened Common

  // ---------------------------------------------------------------------------
  // Character classes (no `u` or `i` flag on any of the source's regexes)

  /** `\w` */
  predicate IsWordChar(c: char)
  {
    'a' <= c <= 'z' || 'A' <= c <= 'Z' || '0' <= c <= '9' || c == '_'
  }

  /** `[\w-]` */
  predicate IsWordOrDash(c: char)
  {
    IsWordChar(c) || c == '-'
  }

  /** `[0-9a-fA-F-]` */
  predicate IsHexOrDash(c: char)
  {
    '0' <= c <= '9' || 'a' <= c <= 'f' || 'A' <= c <= 'F' || c == '-'
  }

  /** `\n` */
  predicate IsNewline(c: char)
  {
    c == '\n'
  }

  /** The characters `.` does not match. */
  predicate IsLineTerminator(c: char)
  {
    c == '\n' || c == '\r' || c == '\U{2028}' || c == '\U{2029}'
  }

  /** `.` */
  predicate IsNotLineTerminator(c: char)
  {
    !IsLineTerminator(c)
  }

  /** `\s`: ECMAScript white space and line terminators. */
  predicate IsJsSpace(c: char)
  {
    || c == ' ' || c == '\t' || c == '\n' || c == '\r'
    || c == '\U{000B}' || c == '\U{000C}' || c == '\U{00A0}' || c == '\U{1680}'
    || ('\U{2000}' <= c <= '\U{200A}')
    || c == '\U{2028}' || c == '\U{2029}' || c == '\U{202F}' || c == '\U{205F}'
    || c == '\U{3000}' || c == '\U{FEFF}'
  }

  // ---------------------------------------------------------------------------
  // The literal parts of the patterns

  const PATCH_START := "<!-- !! VSCODE-CUSTOM-CSS-START !! -->"
  const PATCH_END := "<!-- !! VSCODE-CUSTOM-CSS-END !! -->"
  const SESSION_OPEN := "<!-- !! VSCODE-CUSTOM-CSS-SESSION-ID "
  const SESSION_CLOSE := " !! -->"
  const META_OPEN := "<meta"
  const CSP_ATTRIBUTE := "http-equiv=\"Content-Security-Policy\""
  const TAG_CLOSE := "/>"
  const HTML_CLOSE := "</html>"
  const APP_SANDBOX_DIR := "app-sandbox/"
  const APP_DIR := "app/"

  /**
    A compiled regular expression: applied to a text and an index, it says
    where the match that starts at that index ends, if there is one.
  */
  type Matcher = (string, nat) -> Option<nat>

  /** Every match is non-empty and stays inside the text. */
  ghost predicate Advances(m: Matcher)
  {
    forall s: string, i: nat :: m(s, i).Some? ==> i < m(s, i).value <= |s|
  }

  // ---------------------------------------------------------------------------
  // Scanning helpers

  /** The first occurrence of `w` in `s` at or after index `i` (FindFromIsFirst). */
  function FindFrom(s: string, w: string, i: nat): (r: Option<nat>)
    ensures r.Some? ==> i <= r.value && r.value + |w| <= |s|
    decreases |s| - i
  {
    if i + |w| > |s| then None
    else if Occurs(s, w, i) then Some(i)
    else FindFrom(s, w, i + 1)
  }

  /** FindFrom returns an occurrence with none before it, or nothing when there is none. */
  lemma {:induction false} FindFromIsFirst(s: string, w: string, i: nat)
    ensures var r := FindFrom(s, w, i);
      && (r.Some? ==> Occurs(s, w, r.value) && forall j :: i <= j < r.value ==> !Occurs(s, w, j))
      && (r.None? ==> forall j :: i <= j ==> !Occurs(s, w, j))
    decreases |s| - i
  {
    if i + |w| <= |s| && !Occurs(s, w, i) {
      FindFromIsFirst(s, w, i + 1);
    }
  }

  /**
    Where a greedy run of characters of one class that starts at `i` stops
    (RunEndIsMaximal).
  */
  function RunEnd(s: string, i: nat, inClass: char -> bool): (r: nat)
    requires i <= |s|
    ensures i <= r <= |s|
    decreases |s| - i
  {
    if i == |s| || !inClass(s[i]) then i else RunEnd(s, i + 1, inClass)
  }

  /**
    Every character the run passes belongs to the class, and the one it
    stops at does not (or the text ends there).
  */
  lemma {:induction false} RunEndIsMaximal(s: string, i: nat, inClass: char -> bool)
    requires i <= |s|
    ensures var r := RunEnd(s, i, inClass);
      && (forall j :: i <= j < r ==> inClass(s[j]))
      && (r == |s| || !inClass(s[r]))
    decreases |s| - i
  {
    if i < |s| && inClass(s[i]) {
      RunEndIsMaximal(s, i + 1, inClass);
    }
  }

  /** A run is determined by where the class first fails. */
  lemma RunEndIs(s: string, i: nat, inClass: char -> bool, e: nat)
    requires i <= e <= |s|
    requires forall j :: i <= j < e ==> inClass(s[j])
    requires e == |s| || !inClass(s[e])
    ensures RunEnd(s, i, inClass) == e
  {
    RunEndIsMaximal(s, i, inClass);
  }

  /** `(app-sandbox|app)\/` at index `i`: where it ends, the longer alternative tried first. */
  function AppDirAt(s: string, i: nat): (r: Option<nat>)
    ensures r.Some? ==> i < r.value <= |s|
  {
    if Occurs(s, APP_SANDBOX_DIR, i) then Some(i + |APP_SANDBOX_DIR|)
    else if Occurs(s, APP_DIR, i) then Some(i + |APP_DIR|)
    else None
  }

  /** A `/` at `m` followed by `app/` or `app-sandbox/`. */
  predicate SlashAppDirAt(s: string, m: nat)
  {
    m < |s| && s[m] == '/' && AppDirAt(s, m + 1).Some?
  }

  /**
    The greedy `.*` backs off one character at a time: the largest `m` in
    [lo, hi) where `\/(app-sandbox|app)\/` follows.
  */
  function LastSlashAppDir(s: string, lo: nat, hi: nat): (r: Option<nat>)
    ensures r.Some? ==> lo <= r.value < hi && SlashAppDirAt(s, r.value)
    ensures r.Some? ==> forall m :: r.value < m < hi ==> !SlashAppDirAt(s, m)
    ensures r.None? ==> forall m :: lo <= m < hi ==> !SlashAppDirAt(s, m)
    decreases hi
  {
    if hi <= lo then None
    else if SlashAppDirAt(s, hi - 1) then Some(hi - 1)
    else LastSlashAppDir(s, lo, hi - 1)
  }


  // ---------------------------------------------------------------------------
  // The source's regular expressions

  /** `w` is a prefix of `u`. */
  predicate StartsWith(u: string, w: string)
  {
    |w| <= |u| && u[..|w|] == w
  }

  /*
    Five of the six patterns have no anchor and no look-behind, so whether
    they match at index i depends only on s[i..]. Each is given as the length
    of its match at the very start of a text, and Anchored runs it at an index.
  */

  /** A matcher that looks at nothing before index `i`. */
  function Anchored(len: string -> Option<nat>, s: string, i: nat): Option<nat>
  {
    if i > |s| then None
    else
      var n := len(s[i..]);
      if n.None? then None else Some(i + n.value)
  }

  /** `<!-- !! VSCODE-CUSTOM-CSS-START !! -->[\s\S]*?<!-- !! VSCODE-CUSTOM-CSS-END !! -->\n*` */
  function PatchBlockLength(u: string): (r: Option<nat>)
    ensures r.Some? ==> 0 < r.value <= |u|
  {
    if !StartsWith(u, PATCH_START) then None
    else
      var e := FindFrom(u, PATCH_END, |PATCH_START|);
      if e.None? then None else Some(RunEnd(u, e.value + |PATCH_END|, IsNewline))
  }

  /**
    `<!-- !! VSCODE-CUSTOM-CSS-SESSION-ID `, a non-empty run of `idChar`, then
    ` !! -->`: where the run stops. A shorter run cannot succeed, since the
    character after it is an `idChar` and not the space that must follow.
  */
  function SessionIdEnd(u: string, idChar: char -> bool): (r: Option<nat>)
    ensures r.Some? ==> |SESSION_OPEN| < r.value && Occurs(u, SESSION_CLOSE, r.value)
  {
    if !StartsWith(u, SESSION_OPEN) then None
    else
      var idEnd := RunEnd(u, |SESSION_OPEN|, idChar);
      if idEnd == |SESSION_OPEN| || !Occurs(u, SESSION_CLOSE, idEnd) then None
      else Some(idEnd)
  }

  /** `<!-- !! VSCODE-CUSTOM-CSS-SESSION-ID [\w-]+ !! -->\n*` */
  function SessionSentinelLength(u: string): (r: Option<nat>)
    ensures r.Some? ==> 0 < r.value <= |u|
  {
    var idEnd := SessionIdEnd(u, IsWordOrDash);
    if idEnd.None? then None else Some(RunEnd(u, idEnd.value + |SESSION_CLOSE|, IsNewline))
  }

  /** `<!-- !! VSCODE-CUSTOM-CSS-SESSION-ID ([0-9a-fA-F-]+) !! -->` */
  function SessionIdCaptureLength(u: string): (r: Option<nat>)
    ensures r.Some? ==> 0 < r.value <= |u|
  {
    var idEnd := SessionIdEnd(u, IsHexOrDash);
    if idEnd.None? then None else Some(idEnd.value + |SESSION_CLOSE|)
  }

  /**
    `<meta\s+http-equiv="Content-Security-Policy"[\s\S]*?\/>`. As with the
    session id, only the longest run of white space can be followed by `h`.
  */
  function CspMetaLength(u: string): (r: Option<nat>)
    ensures r.Some? ==> 0 < r.value <= |u|
  {
    if !StartsWith(u, META_OPEN) then None
    else
      var attr := RunEnd(u, |META_OPEN|, IsJsSpace);
      if attr == |META_OPEN| || !Occurs(u, CSP_ATTRIBUTE, attr) then None
      else
        var c := FindFrom(u, TAG_CLOSE, attr + |CSP_ATTRIBUTE|);
        if c.None? then None else Some(c.value + |TAG_CLOSE|)
  }

  /** `(<\/html>)` */
  function HtmlCloseLength(u: string): (r: Option<nat>)
    ensures r.Some? ==> 0 < r.value <= |u|
  {
    if StartsWith(u, HTML_CLOSE) then Some(|HTML_CLOSE|) else None
  }

  function MatchPatchBlock(s: string, i: nat): Option<nat> { Anchored(PatchBlockLength, s, i) }
  function MatchSessionSentinel(s: string, i: nat): Option<nat> { Anchored(SessionSentinelLength, s, i) }
  function MatchSessionIdCapture(s: string, i: nat): Option<nat> { Anchored(SessionIdCaptureLength, s, i) }
  function MatchCspMeta(s: string, i: nat): Option<nat> { Anchored(CspMetaLength, s, i) }
  function MatchHtmlClose(s: string, i: nat): Option<nat> { Anchored(HtmlCloseLength, s, i) }

  /**
    `(^|.*\/)(app-sandbox|app)\/` at `i`. The first alternative, `^`, holds
    only at index 0. In the second, the greedy `.*` first runs to the next
    line terminator and then gives characters back until a `/` followed by
    `app-sandbox/` or `app/` is found.
  */
  function MatchAppPrefix(s: string, i: nat): (r: Option<nat>)
    ensures r.Some? ==> i < r.value <= |s|
  {
    if i == 0 && AppDirAt(s, 0).Some? then AppDirAt(s, 0)
    else if i > |s| then None
    else
      var m := LastSlashAppDir(s, i, RunEnd(s, i, IsNotLineTerminator));
      if m.None? then None else AppDirAt(s, m.value + 1)
  }

  /** The matchers above never return an empty match or run past the text. */
  lemma PatchBlockAdvances() ensures Advances(MatchPatchBlock) { }
  lemma SessionSentinelAdvances() ensures Advances(MatchSessionSentinel) { }
  lemma SessionIdCaptureAdvances() ensures Advances(MatchSessionIdCapture) { }
  lemma CspMetaAdvances() ensures Advances(MatchCspMeta) { }
  lemma HtmlCloseAdvances() ensures Advances(MatchHtmlClose) { }
  lemma AppPrefixAdvances() ensures Advances(MatchAppPrefix) { }

  // ---------------------------------------------------------------------------
  // Search and replace

  /** The leftmost match of `m` in `s` that starts at or after `from`. */
  function FirstMatch(m: Matcher, s: string, from: nat): (r: Option<Span>)
    ensures r.Some? ==> from <= r.value.start <= |s| && m(s, r.value.start) == Some(r.value.end)
    ensures r.Some? ==> forall j :: from <= j < r.value.start ==> m(s, j).None?
    ensures r.None? ==> forall j :: from <= j <= |s| ==> m(s, j).None?
    decreases |s| + 1 - from
  {
    if from > |s| then None
    else
      var e := m(s, from);
      if e.Some? then Some(Span(from, e.value)) else FirstMatch(m, s, from + 1)
  }

  /** `s.replace(re, rep)` for a regex without the `g` flag. */
  function ReplaceFirst(m: Matcher, s: string, rep: string): (r: string)
    requires Advances(m)
    ensures FirstMatch(m, s, 0).None? ==> r == s
    ensures FirstMatch(m, s, 0).Some? ==>
      var f := FirstMatch(m, s, 0).value;
      && |r| == |s| - (f.end - f.start) + |rep|
      && r[..f.start] == s[..f.start]
      && r[f.start..f.start + |rep|] == rep
      && r[f.start + |rep|..] == s[f.end..]
  {
    var f := FirstMatch(m, s, 0);
    if f.None? then s else s[..f.value.start] + rep + s[f.value.end..]
  }

  /** `s.replace(re, rep)` for a regex with the `g` flag, once `lastIndex` has reached `from`. */
  function ReplaceAllFrom(m: Matcher, s: string, rep: string, from: nat): (r: string)
    requires Advances(m) && from <= |s|
    ensures FirstMatch(m, s, from).None? ==> r == s[from..]
    ensures FirstMatch(m, s, from).Some? ==>
      var f := FirstMatch(m, s, from).value;
      && |s[from..f.start] + rep| <= |r|
      && r[..|s[from..f.start] + rep|] == s[from..f.start] + rep
    decreases |s| - from
  {
    var f := FirstMatch(m, s, from);
    if f.None? then s[from..]
    else s[from..f.value.start] + rep + ReplaceAllFrom(m, s, rep, f.value.end)
  }

  function ReplaceAll(m: Matcher, s: string, rep: string): (r: string)
    requires Advances(m)
    ensures FirstMatch(m, s, 0).None? ==> r == s
  {
    ReplaceAllFrom(m, s, rep, 0)
  }

  // ---------------------------------------------------------------------------
  // Matching at the same place in a longer text

  function ShiftBy(o: Option<nat>, d: nat): Option<nat>
  {
    if o.None? then None else Some(d + o.value)
  }

  function ShiftSpan(o: Option<Span>, d: nat): Option<Span>
  {
    if o.None? then None else Some(Span(d + o.value.start, d + o.value.end))
  }

  /** What an anchored matcher sees from index |a| + k of a + t is what it sees from k of t. */
  lemma AnchoredAfter(len: string -> Option<nat>, a: string, t: string, k: nat)
    ensures Anchored(len, a + t, |a| + k) == ShiftBy(Anchored(len, t, k), |a|)
  {
    if k <= |t| {
      assert (a + t)[|a| + k..] == t[k..];
    }
  }

  /** On a + t, `m` matches at |a| + k exactly as it matches t at k, for every k. */
  ghost predicate LooksOnlyAhead(m: Matcher, a: string, t: string)
  {
    forall k: nat :: m(a + t, |a| + k) == ShiftBy(m(t, k), |a|)
  }

  /** Every matcher but MatchAppPrefix, whose `^` looks at where the text begins, looks only ahead. */
  lemma MatchersLookOnlyAhead(a: string, t: string)
    ensures LooksOnlyAhead(MatchPatchBlock, a, t) && LooksOnlyAhead(MatchSessionSentinel, a, t)
    ensures LooksOnlyAhead(MatchSessionIdCapture, a, t) && LooksOnlyAhead(MatchCspMeta, a, t)
    ensures LooksOnlyAhead(MatchHtmlClose, a, t)
  {
    forall k: nat ensures MatchPatchBlock(a + t, |a| + k) == ShiftBy(MatchPatchBlock(t, k), |a|) {
      AnchoredAfter(PatchBlockLength, a, t, k);
    }
    forall k: nat ensures MatchSessionSentinel(a + t, |a| + k) == ShiftBy(MatchSessionSentinel(t, k), |a|) {
      AnchoredAfter(SessionSentinelLength, a, t, k);
    }
    forall k: nat ensures MatchSessionIdCapture(a + t, |a| + k) == ShiftBy(MatchSessionIdCapture(t, k), |a|) {
      AnchoredAfter(SessionIdCaptureLength, a, t, k);
    }
    forall k: nat ensures MatchCspMeta(a + t, |a| + k) == ShiftBy(MatchCspMeta(t, k), |a|) {
      AnchoredAfter(CspMetaLength, a, t, k);
    }
    forall k: nat ensures MatchHtmlClose(a + t, |a| + k) == ShiftBy(MatchHtmlClose(t, k), |a|) {
      AnchoredAfter(HtmlCloseLength, a, t, k);
    }
  }

  // ---------------------------------------------------------------------------
  // Facts about search and replace

  /** A match that no earlier index can start is the one the search returns. */
  lemma FirstMatchIs(m: Matcher, s: string, from: nat, k: nat, e: nat)
    requires from <= k <= |s| && m(s, k) == Some(e)
    requires forall j :: from <= j < k ==> m(s, j).None?
    ensures FirstMatch(m, s, from) == Some(Span(k, e))
  {
  }

  lemma {:induction false} FirstMatchAfter(m: Matcher, a: string, t: string, j: nat)
    requires LooksOnlyAhead(m, a, t)
    ensures FirstMatch(m, a + t, |a| + j) == ShiftSpan(FirstMatch(m, t, j), |a|)
    decreases |t| + 1 - j
  {
    if j <= |t| {
      assert m(a + t, |a| + j) == ShiftBy(m(t, j), |a|);
      if m(t, j).None? {
        FirstMatchAfter(m, a, t, j + 1);
      }
    }
  }

  /**
    A global replacement that has reached index |a| + j of a + t goes on
    exactly as a global replacement of t from index j: the text already
    passed is never looked at again.
  */
  lemma {:induction false} ReplaceAllAfter(m: Matcher, a: string, t: string, rep: string, j: nat)
    requires Advances(m) && LooksOnlyAhead(m, a, t) && j <= |t|
    ensures ReplaceAllFrom(m, a + t, rep, |a| + j) == ReplaceAllFrom(m, t, rep, j)
    decreases |t| - j
  {
    FirstMatchAfter(m, a, t, j);
    var f := FirstMatch(m, t, j);
    if f.Some? {
      ReplaceAllAfter(m, a, t, rep, f.value.end);
    }
    ReplaceAllShifted(m, a, t, rep, j);
  }

  /** The step of ReplaceAllAfter at index j, given that the search and the rest of the scan already agree. */
  lemma ReplaceAllShifted(m: Matcher, a: string, t: string, rep: string, j: nat)
    requires Advances(m) && j <= |t|
    requires FirstMatch(m, a + t, |a| + j) == ShiftSpan(FirstMatch(m, t, j), |a|)
    requires FirstMatch(m, t, j).Some? ==>
      ReplaceAllFrom(m, a + t, rep, |a| + FirstMatch(m, t, j).value.end)
        == ReplaceAllFrom(m, t, rep, FirstMatch(m, t, j).value.end)
    ensures ReplaceAllFrom(m, a + t, rep, |a| + j) == ReplaceAllFrom(m, t, rep, j)
  {
    var f := FirstMatch(m, t, j);
    if f.Some? {
      var k, e := f.value.start, f.value.end;
      SliceOfAppended(a, t, j, k);
      ReplaceAllStep(m, a + t, t, rep, |a| + j, |a| + k, |a| + e, j, k, e);
    } else {
      SliceOfAppended(a, t, j, |t|);
      ReplaceAllDone(m, a + t, t, rep, |a| + j, j);
    }
  }

  /** Two global scans with no match left and the same text left over agree. */
  lemma ReplaceAllDone(m: Matcher, s: string, t: string, rep: string, i1: nat, i2: nat)
    requires Advances(m) && i1 <= |s| && i2 <= |t|
    requires FirstMatch(m, s, i1).None? && FirstMatch(m, t, i2).None?
    requires s[i1..] == t[i2..]
    ensures ReplaceAllFrom(m, s, rep, i1) == ReplaceAllFrom(m, t, rep, i2)
  {
  }

  /**
    Two global scans whose next matches leave the same text before them and
    whose scans after those matches agree, agree.
  */
  lemma ReplaceAllStep(m: Matcher, s: string, t: string, rep: string, i1: nat, k1: nat, e1: nat, i2: nat, k2: nat, e2: nat)
    requires Advances(m) && i1 <= |s| && i2 <= |t|
    requires FirstMatch(m, s, i1) == Some(Span(k1, e1)) && FirstMatch(m, t, i2) == Some(Span(k2, e2))
    requires s[i1..k1] == t[i2..k2]
    requires ReplaceAllFrom(m, s, rep, e1) == ReplaceAllFrom(m, t, rep, e2)
    ensures ReplaceAllFrom(m, s, rep, i1) == ReplaceAllFrom(m, t, rep, i2)
  {
    ReplaceAllFromAt(m, s, rep, i1, k1, e1);
    ReplaceAllFromAt(m, t, rep, i2, k2, e2);
  }

  /** A slice of a + t past a is the matching slice of t. */
  lemma SliceOfAppended(a: string, t: string, x: nat, y: nat)
    requires x <= y <= |t|
    ensures (a + t)[|a| + x..|a| + y] == t[x..y] && (a + t)[|a| + x..] == t[x..]
  {
    assert (a + t)[|a|..] == t;
    assert (a + t)[|a|..][x..y] == (a + t)[|a| + x..|a| + y];
    assert (a + t)[|a|..][x..] == (a + t)[|a| + x..];
  }

  /** With `g`, a scan from `from` whose first match is `[k, e)` keeps the text before it, then goes on from e. */
  lemma ReplaceAllFromAt(m: Matcher, s: string, rep: string, from: nat, k: nat, e: nat)
    requires Advances(m) && from <= |s| && FirstMatch(m, s, from) == Some(Span(k, e))
    ensures ReplaceAllFrom(m, s, rep, from) == s[from..k] + rep + ReplaceAllFrom(m, s, rep, e)
  {
  }

  /** Removing the leftmost match `[k, e)` joins what was before it to what was after it. */
  lemma RemoveFirstIs(m: Matcher, s: string, k: nat, e: nat)
    requires Advances(m) && FirstMatch(m, s, 0) == Some(Span(k, e))
    ensures k < e <= |s| && ReplaceFirst(m, s, "") == s[..k] + s[e..]
  {
    var r := ReplaceFirst(m, s, "");
    assert r == r[..k] + r[k..];
  }

  /** With `g`, replacing in a text is replacing its leftmost match and then replacing in what follows it. */
  lemma ReplaceAllSplitsAtFirst(m: Matcher, s: string, rep: string)
    requires Advances(m) && FirstMatch(m, s, 0).Some?
    requires var f := FirstMatch(m, s, 0).value; LooksOnlyAhead(m, s[..f.end], s[f.end..])
    ensures var f := FirstMatch(m, s, 0).value;
      ReplaceAll(m, s, rep) == s[..f.start] + rep + ReplaceAll(m, s[f.end..], rep)
  {
    var f := FirstMatch(m, s, 0).value;
    var a, t := s[..f.end], s[f.end..];
    ReplaceAllAfter(m, a, t, rep, 0);
    ReplaceAllJoin(m, s, rep, f.start, f.end);
  }

  /** The step of ReplaceAllSplitsAtFirst once the scan past the first match is known to restart cleanly. */
  lemma ReplaceAllJoin(m: Matcher, s: string, rep: string, k: nat, e: nat)
    requires Advances(m) && FirstMatch(m, s, 0) == Some(Span(k, e))
    requires ReplaceAllFrom(m, s[..e] + s[e..], rep, |s[..e]| + 0) == ReplaceAllFrom(m, s[e..], rep, 0)
    ensures ReplaceAllFrom(m, s, rep, 0) == s[..k] + rep + ReplaceAllFrom(m, s[e..], rep, 0)
  {
    assert s[..e] + s[e..] == s;
    ReplaceAllFromAt(m, s, rep, 0, k, e);
    assert s[0..k] == s[..k];
  }

  /** Deleting every match never lengthens the text, and shortens it when there is a match. */
  lemma {:induction false} RemoveAllShrinks(m: Matcher, s: string, from: nat)
    requires Advances(m) && from <= |s|
    ensures |ReplaceAllFrom(m, s, "", from)| <= |s| - from
    ensures FirstMatch(m, s, from).Some? ==> |ReplaceAllFrom(m, s, "", from)| < |s| - from
    decreases |s| - from
  {
    var f := FirstMatch(m, s, from);
    if f.Some? {
      RemoveAllShrinks(m, s, f.value.end);
    }
  }

  /** Deleting every match leaves the text as it was exactly when the pattern matches nowhere in it. */
  lemma RemoveAllUnchangedIff(m: Matcher, s: string)
    requires Advances(m)
    ensures ReplaceAll(m, s, "") == s <==> forall j :: 0 <= j <= |s| ==> m(s, j).None?
  {
    RemoveAllShrinks(m, s, 0);
  }
}
