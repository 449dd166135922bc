/**
  The text transformations the extension applies to the editor's workbench
  HTML: removing an earlier patch, dropping the Content-Security-Policy meta
  tag, inserting the style block with its session sentinel, and reading the
  session id back (src/extension.js:143-217).
*/
module Patcher {
  import opened Common
  import opened Regexes

  // ---------------------------------------------------------------------------
  // The transformations

  /** The first `START … END` block, lazily matched, with the newlines after it. */
  function RemoveFirstBlock(html: string): (r: string)
    ensures |r| <= |html|
    ensures r == html <==> FirstMatch(MatchPatchBlock, html, 0).None?
  {
    PatchBlockAdvances();
    ReplaceFirst(MatchPatchBlock, html, "")
  }

  /** Every `SESSION-ID <id> !! -->` sentinel with the newlines after it (the `g` flag). */
  function RemoveSessionSentinels(html: string): (r: string)
    ensures |r| <= |html|
    ensures FirstMatch(MatchSessionSentinel, html, 0).Some? ==> |r| < |html|
  {
    SessionSentinelAdvances();
    RemoveAllShrinks(MatchSessionSentinel, html, 0);
    ReplaceAll(MatchSessionSentinel, html, "")
  }

  /** clearExistingPatches */
  function ClearExistingPatches(html: string): (r: string)
    ensures |r| <= |html|
  {
    RemoveSessionSentinels(RemoveFirstBlock(html))
  }

  /** The first Content-Security-Policy `<meta … />` tag. */
  function RemoveCspMeta(html: string): (r: string)
    ensures |r| <= |html|
    ensures r == html <==> FirstMatch(MatchCspMeta, html, 0).None?
  {
    CspMetaAdvances();
    ReplaceFirst(MatchCspMeta, html, "")
  }

  /** The style text between its start and end markers, each on a line of its own. */
  function StyleBlock(css: string): string
  {
    "\n" + PATCH_START + "\n" + css + PATCH_END + "\n"
  }

  /** What performPatch writes just before `</html>`: the session sentinel, then the style block. */
  function InjectedBlock(uuid: string, css: string): string
  {
    SESSION_OPEN + uuid + SESSION_CLOSE + StyleBlock(css)
  }

  /** The text performPatch works on once it has cleared old patches and the CSP tag. */
  function PatchBase(html: string): string
  {
    RemoveCspMeta(ClearExistingPatches(html))
  }

  /** The text performPatch writes for a session id and the injected style text. */
  function PatchedHtml(html: string, uuid: string, css: string): (r: string)
    ensures Absent(PatchBase(html), HTML_CLOSE) ==> r == PatchBase(html)
    ensures !Absent(PatchBase(html), HTML_CLOSE) ==> |r| == |PatchBase(html)| + |InjectedBlock(uuid, css)|
  {
    HtmlCloseAdvances();
    var base := PatchBase(html);
    FindFromIsFirst(base, HTML_CLOSE, 0);
    InsertBeforeFirstHtmlClose(base, InjectedBlock(uuid, css));
    ReplaceFirst(MatchHtmlClose, base, InjectedBlock(uuid, css) + HTML_CLOSE)
  }

  /** The characters a session id read back by getBackupUuid is made of. */
  predicate IsSessionId(id: string)
  {
    |id| > 0 && forall i :: 0 <= i < |id| ==> IsHexOrDash(id[i])
  }

  /** The text part of getBackupUuid: the id of the first well-formed session sentinel. */
  function ReadSessionId(html: string): (r: Option<string>)
    ensures r.Some? ==> IsSessionId(r.value)
  {
    var f := FirstMatch(MatchSessionIdCapture, html, 0);
    if f.None? then None
    else
      var k := f.value.start;
      var u := html[k..];
      var idEnd := SessionIdEnd(u, IsHexOrDash).value;
      RunEndIsMaximal(u, |SESSION_OPEN|, IsHexOrDash);
      Some(u[|SESSION_OPEN|..idEnd])
  }

  // ---------------------------------------------------------------------------
  // Helpers

  lemma StartsWithAt(s: string, w: string, k: nat)
    requires k <= |s|
    ensures StartsWith(s[k..], w) == Occurs(s, w, k)
  {
    if k + |w| <= |s| {
      assert s[k..][..|w|] == s[k..k + |w|];
    }
  }

  /** Only the first character of a sentinel opening is `<`. */
  lemma SessionOpenLtOnlyFirst(t: nat)
    requires 1 <= t < |SESSION_OPEN|
    ensures SESSION_OPEN[t] != '<'
  {
    var tail := "!-- !! VSCODE-CUSTOM-CSS-SESSION-ID ";
    assert SESSION_OPEN == "<" + tail;
    assert '<' !in tail;
    assert SESSION_OPEN[t] == tail[t - 1];
  }

  /** A matcher whose every match begins with `w` cannot match where `w` does not occur. */
  lemma NoSessionIdWithoutOpen(s: string, j: nat)
    requires !Occurs(s, SESSION_OPEN, j)
    ensures MatchSessionIdCapture(s, j).None? && MatchSessionSentinel(s, j).None?
  {
    if j <= |s| {
      StartsWithAt(s, SESSION_OPEN, j);
    }
  }

  /** A text that starts with a sentinel opening has none starting inside a sentinel-free text before it. */
  lemma NoOpenBeforeSentinel(pre: string, tail: string, j: nat)
    requires Absent(pre, SESSION_OPEN) && StartsWith(tail, SESSION_OPEN) && j < |pre|
    ensures !Occurs(pre + tail, SESSION_OPEN, j)
  {
    var s := pre + tail;
    var k := |pre|;
    if j + |SESSION_OPEN| <= k {
      assert s[j..j + |SESSION_OPEN|] == pre[j..j + |SESSION_OPEN|];
      assert !Occurs(pre, SESSION_OPEN, j);
    } else if j + |SESSION_OPEN| <= |s| {
      assert s[k] == tail[..|SESSION_OPEN|][0] == '<';
      SessionOpenLtOnlyFirst(k - j);
      assert s[j..j + |SESSION_OPEN|][k - j] == s[k];
    }
  }

  /** From an occurrence of `w` on, the text is `w` followed by the rest. */
  lemma OccurrenceSplits(s: string, w: string, k: nat)
    requires Occurs(s, w, k)
    ensures s[k..] == w + s[k + |w|..]
  {
    assert s[k..] == s[k..k + |w|] + s[k + |w|..];
  }

  /** The search for `</html>` finds its first occurrence. */
  lemma FirstHtmlClose(s: string)
    ensures var f := FindFrom(s, HTML_CLOSE, 0);
      FirstMatch(MatchHtmlClose, s, 0)
        == if f.None? then None else Some(Span(f.value, f.value + |HTML_CLOSE|))
  {
    var f := FindFrom(s, HTML_CLOSE, 0);
    FindFromIsFirst(s, HTML_CLOSE, 0);
    forall j: nat | j <= |s| ensures MatchHtmlClose(s, j).Some? == Occurs(s, HTML_CLOSE, j) {
      StartsWithAt(s, HTML_CLOSE, j);
    }
    if f.Some? {
      FirstMatchIs(MatchHtmlClose, s, 0, f.value, f.value + |HTML_CLOSE|);
    }
  }

  // ---------------------------------------------------------------------------
  // Properties

  /** Clearing a text with no patch-block start and no session sentinel leaves it unchanged. */
  lemma ClearWithoutSentinelsIsIdentity(html: string)
    requires Absent(html, PATCH_START) && Absent(html, SESSION_OPEN)
    ensures ClearExistingPatches(html) == html
  {
    forall j: nat | j <= |html| ensures MatchPatchBlock(html, j).None? {
      StartsWithAt(html, PATCH_START, j);
    }
    assert FirstMatch(MatchPatchBlock, html, 0).None?;
    forall j: nat | j <= |html| ensures MatchSessionSentinel(html, j).None? {
      NoSessionIdWithoutOpen(html, j);
    }
    RemoveSessionSentinelsUnchangedIff(html);
  }

  /**
    Without the `g` flag only the leftmost block goes: the text after it is
    kept as it was, so every later block still matches, moved left by the
    length of what was removed.
  */
  lemma RemoveFirstBlockKeepsLaterBlocks(html: string, k1: nat, e1: nat, k2: nat, e2: nat)
    requires FirstMatch(MatchPatchBlock, html, 0) == Some(Span(k1, e1))
    requires e1 <= k2 && MatchPatchBlock(html, k2) == Some(e2)
    ensures k1 < e1 && RemoveFirstBlock(html) == html[..k1] + html[e1..]
    ensures MatchPatchBlock(RemoveFirstBlock(html), k2 - (e1 - k1)) == Some(e2 - (e1 - k1))
  {
    PatchBlockAdvances();
    CutKeepsLaterMatch(PatchBlockLength, html, k1, e1, k2, e2);
  }

  /** Cutting s[k1..e1] out moves an anchored match at or after e1 left by the cut's length. */
  lemma CutKeepsLaterMatch(len: string -> Option<nat>, s: string, k1: nat, e1: nat, k2: nat, e2: nat)
    requires k1 <= e1 <= k2 && Anchored(len, s, k2) == Some(e2)
    ensures Anchored(len, s[..k1] + s[e1..], k2 - (e1 - k1)) == Some(e2 - (e1 - k1))
  {
    var rest := s[e1..];
    assert s == s[..e1] + rest;
    AnchoredAfter(len, s[..e1], rest, k2 - e1);
    AnchoredAfter(len, s[..k1], rest, k2 - e1);
  }

  /** A text with no `<meta` has no CSP tag to drop. */
  lemma RemoveCspMetaWithoutMeta(html: string)
    requires Absent(html, META_OPEN)
    ensures RemoveCspMeta(html) == html
  {
    forall j: nat | j <= |html| ensures MatchCspMeta(html, j).None? {
      StartsWithAt(html, META_OPEN, j);
    }
    CspMetaAdvances();
    assert FirstMatch(MatchCspMeta, html, 0).None?;
  }

  /**
    The CSP tag dropped is the leftmost one: `<meta`, the longest run of white
    space after it, the `http-equiv` attribute, and everything up to and
    including the first `/>` after the attribute.
  */
  lemma RemoveCspMetaCutsFirstTag(html: string, k: nat, e: nat)
    requires FirstMatch(MatchCspMeta, html, 0) == Some(Span(k, e))
    ensures k < e <= |html| && RemoveCspMeta(html) == html[..k] + html[e..]
    ensures forall j :: 0 <= j < k ==> MatchCspMeta(html, j).None?
    ensures var u := html[k..];
      var attr := RunEnd(u, |META_OPEN|, IsJsSpace);
      var close := e - k - |TAG_CLOSE|;
      && StartsWith(u, META_OPEN) && |META_OPEN| < attr && Occurs(u, CSP_ATTRIBUTE, attr)
      && attr + |CSP_ATTRIBUTE| <= close && Occurs(u, TAG_CLOSE, close)
      && forall j :: attr + |CSP_ATTRIBUTE| <= j < close ==> !Occurs(u, TAG_CLOSE, j)
  {
    CspMetaAdvances();
    RemoveFirstIs(MatchCspMeta, html, k, e);
    MatchedCspTagShape(html, k, e);
  }

  lemma MatchedCspTagShape(html: string, k: nat, e: nat)
    requires MatchCspMeta(html, k) == Some(e)
    ensures k <= |html| && e >= k
    ensures var u := html[k..];
      var attr := RunEnd(u, |META_OPEN|, IsJsSpace);
      var close := e - k - |TAG_CLOSE|;
      && StartsWith(u, META_OPEN) && |META_OPEN| < attr && Occurs(u, CSP_ATTRIBUTE, attr)
      && attr + |CSP_ATTRIBUTE| <= close && Occurs(u, TAG_CLOSE, close)
      && forall j :: attr + |CSP_ATTRIBUTE| <= j < close ==> !Occurs(u, TAG_CLOSE, j)
  {
    CspTagShape(html[k..], e - k);
  }

  /** What a CSP match at the start of a text is made of. */
  lemma CspTagShape(u: string, n: nat)
    requires CspMetaLength(u) == Some(n)
    ensures var attr := RunEnd(u, |META_OPEN|, IsJsSpace);
      var close := n - |TAG_CLOSE|;
      && StartsWith(u, META_OPEN) && |META_OPEN| < attr && Occurs(u, CSP_ATTRIBUTE, attr)
      && attr + |CSP_ATTRIBUTE| <= close && Occurs(u, TAG_CLOSE, close)
      && forall j :: attr + |CSP_ATTRIBUTE| <= j < close ==> !Occurs(u, TAG_CLOSE, j)
  {
    var attr := RunEnd(u, |META_OPEN|, IsJsSpace);
    FindFromIsFirst(u, TAG_CLOSE, attr + |CSP_ATTRIBUTE|);
  }

  /** Without the `g` flag only the first CSP tag goes: a later one still matches, moved left. */
  lemma RemoveCspMetaKeepsLaterTags(html: string, k1: nat, e1: nat, k2: nat, e2: nat)
    requires FirstMatch(MatchCspMeta, html, 0) == Some(Span(k1, e1))
    requires e1 <= k2 && MatchCspMeta(html, k2) == Some(e2)
    ensures k1 < e1 && RemoveCspMeta(html) == html[..k1] + html[e1..]
    ensures MatchCspMeta(RemoveCspMeta(html), k2 - (e1 - k1)) == Some(e2 - (e1 - k1))
  {
    CspMetaAdvances();
    CutKeepsLaterMatch(CspMetaLength, html, k1, e1, k2, e2);
  }

  /**
    With the `g` flag the search goes on after each removed sentinel: removing
    sentinels from a text is removing the leftmost one and then removing
    sentinels from everything after it.
  */
  lemma RemoveSessionSentinelsContinues(html: string)
    requires FirstMatch(MatchSessionSentinel, html, 0).Some?
    ensures var m := FirstMatch(MatchSessionSentinel, html, 0).value;
      RemoveSessionSentinels(html) == html[..m.start] + RemoveSessionSentinels(html[m.end..])
  {
    SessionSentinelAdvances();
    var m := FirstMatch(MatchSessionSentinel, html, 0).value;
    MatchersLookOnlyAhead(html[..m.end], html[m.end..]);
    ReplaceAllSplitsAtFirst(MatchSessionSentinel, html, "");
  }

  /** Removing session sentinels changes nothing exactly when the text has none. */
  lemma RemoveSessionSentinelsUnchangedIff(html: string)
    ensures RemoveSessionSentinels(html) == html
        <==> forall j :: 0 <= j <= |html| ==> MatchSessionSentinel(html, j).None?
  {
    SessionSentinelAdvances();
    RemoveAllUnchangedIff(MatchSessionSentinel, html);
  }

  /** Replacing the first `</html>` by `block + "</html>"` inserts `block` before it. */
  lemma InsertBeforeFirstHtmlClose(s: string, block: string)
    ensures var f := FindFrom(s, HTML_CLOSE, 0);
      && (f.None? ==> ReplaceFirst(MatchHtmlClose, s, block + HTML_CLOSE) == s)
      && (f.Some? ==> ReplaceFirst(MatchHtmlClose, s, block + HTML_CLOSE) == s[..f.value] + block + s[f.value..])
  {
    HtmlCloseAdvances();
    var f := FindFrom(s, HTML_CLOSE, 0);
    FirstHtmlClose(s);
    if f.Some? {
      var k := f.value;
      FindFromIsFirst(s, HTML_CLOSE, 0);
      var tail := s[k + |HTML_CLOSE|..];
      OccurrenceSplits(s, HTML_CLOSE, k);
      assert ReplaceFirst(MatchHtmlClose, s, block + HTML_CLOSE) == s[..k] + (block + HTML_CLOSE) + tail;
      assert s[..k] + (block + HTML_CLOSE) + tail == s[..k] + block + (HTML_CLOSE + tail);
    }
  }

  /**
    The block goes in immediately before the first `</html>` of the cleared,
    CSP-stripped text; without a `</html>` nothing is inserted.
  */
  lemma PatchInsertsBeforeFirstHtmlClose(html: string, uuid: string, css: string)
    ensures var base := PatchBase(html);
      var f := FindFrom(base, HTML_CLOSE, 0);
      && (f.None? ==> Absent(base, HTML_CLOSE) && PatchedHtml(html, uuid, css) == base)
      && (f.Some? ==>
            && Occurs(base, HTML_CLOSE, f.value)
            && (forall j :: 0 <= j < f.value ==> !Occurs(base, HTML_CLOSE, j))
            && PatchedHtml(html, uuid, css) == base[..f.value] + InjectedBlock(uuid, css) + base[f.value..])
  {
    var base := PatchBase(html);
    FindFromIsFirst(base, HTML_CLOSE, 0);
    InsertBeforeFirstHtmlClose(base, InjectedBlock(uuid, css));
  }

  /** The id of a well-formed sentinel at the start of a text ends where its run of id characters does. */
  lemma SessionIdEndOfSentinel(uuid: string, rest: string)
    requires IsSessionId(uuid)
    ensures SessionIdEnd(SESSION_OPEN + uuid + SESSION_CLOSE + rest, IsHexOrDash) == Some(|SESSION_OPEN| + |uuid|)
  {
    var tail := SESSION_OPEN + uuid + SESSION_CLOSE + rest;
    var idEnd := |SESSION_OPEN| + |uuid|;
    assert tail[..|SESSION_OPEN|] == SESSION_OPEN;
    assert forall j :: |SESSION_OPEN| <= j < idEnd ==> tail[j] == uuid[j - |SESSION_OPEN|];
    assert tail[idEnd] == SESSION_CLOSE[0] == ' ';
    RunEndIs(tail, |SESSION_OPEN|, IsHexOrDash, idEnd);
    assert tail[idEnd..idEnd + |SESSION_CLOSE|] == SESSION_CLOSE;
  }

  /**
    The id read back from a text is that of the first well-formed sentinel in
    it, when the text before that sentinel has no sentinel opening.
  */
  lemma ReadSessionIdFindsFirstSentinel(pre: string, uuid: string, rest: string)
    requires IsSessionId(uuid) && Absent(pre, SESSION_OPEN)
    ensures ReadSessionId(pre + (SESSION_OPEN + uuid + SESSION_CLOSE + rest)) == Some(uuid)
  {
    var tail := SESSION_OPEN + uuid + SESSION_CLOSE + rest;
    var s := pre + tail;
    var k := |pre|;
    assert s[k..] == tail;
    var idEnd := |SESSION_OPEN| + |uuid|;
    SessionIdEndOfSentinel(uuid, rest);
    assert StartsWith(tail, SESSION_OPEN);
    forall j: nat | j < k ensures MatchSessionIdCapture(s, j).None? {
      NoOpenBeforeSentinel(pre, tail, j);
      NoSessionIdWithoutOpen(s, j);
    }
    FirstMatchIs(MatchSessionIdCapture, s, 0, k, k + idEnd + |SESSION_CLOSE|);
    assert tail[|SESSION_OPEN|..idEnd] == uuid;
  }

  /**
    After patching with a session id, the id read back is that id, provided
    the text performPatch worked on has a `</html>` and, clearing having done
    its work, no sentinel opening left.
  */
  lemma ReadBackPatchedSessionId(html: string, uuid: string, css: string)
    requires IsSessionId(uuid)
    requires !Absent(PatchBase(html), HTML_CLOSE)
    requires Absent(PatchBase(html), SESSION_OPEN)
    ensures ReadSessionId(PatchedHtml(html, uuid, css)) == Some(uuid)
  {
    var base := PatchBase(html);
    FindFromIsFirst(base, HTML_CLOSE, 0);
    InsertBeforeFirstHtmlClose(base, InjectedBlock(uuid, css));
    ReadBackInsertedSessionId(base, FindFrom(base, HTML_CLOSE, 0).value, uuid, css);
  }

  lemma ReadBackInsertedSessionId(base: string, k: nat, uuid: string, css: string)
    requires IsSessionId(uuid) && k <= |base| && Absent(base, SESSION_OPEN)
    ensures ReadSessionId(base[..k] + InjectedBlock(uuid, css) + base[k..]) == Some(uuid)
  {
    var pre := base[..k];
    PrefixKeepsAbsent(base, k, SESSION_OPEN);
    var rest := StyleBlock(css) + base[k..];
    var sentinel := SESSION_OPEN + uuid + SESSION_CLOSE;
    assert pre + (sentinel + StyleBlock(css)) + base[k..] == pre + (sentinel + rest);
    ReadSessionIdFindsFirstSentinel(pre, uuid, rest);
  }

  /** A word absent from a text is absent from each of its prefixes. */
  lemma PrefixKeepsAbsent(s: string, k: nat, w: string)
    requires k <= |s| && Absent(s, w)
    ensures Absent(s[..k], w)
  {
    forall j: nat ensures !Occurs(s[..k], w, j) {
      assert !Occurs(s, w, j);
      if j + |w| <= k {
        assert s[..k][j..j + |w|] == s[j..j + |w|];
      }
    }
  }

  /** A text with no sentinel opening has no session id to read. */
  lemma ReadSessionIdWithoutOpen(html: string)
    requires Absent(html, SESSION_OPEN)
    ensures ReadSessionId(html) == None
  {
    forall j: nat | j <= |html| ensures MatchSessionIdCapture(html, j).None? {
      NoSessionIdWithoutOpen(html, j);
    }
  }
}
