/**
  The "open with URL prefix" command of src/extension.js:15-103: the URL is
  derived from the file's workspace-relative path, then two HTTP checks
  decide whether the browser is opened. The editor's answers (which file,
  which workspace) and the server's answers are inputs.
*/
module UrlOpener {
  import opened Common
  import opened Regexes

  // ---------------------------------------------------------------------------
  // URL derivation

  /** The path's lines hold no line terminator: it is a single line. */
  predicate IsOneLine(s: string)
  {
    forall j :: 0 <= j < |s| ==> IsNotLineTerminator(s[j])
  }

  /**
    The relative path with `(^|.*\/)(app-sandbox|app)\/` replaced by nothing,
    once. A one-line path only ever loses a leading part.
  */
  function StripAppPrefix(relativePath: string): (r: string)
    ensures |r| <= |relativePath|
    ensures IsOneLine(relativePath) ==> EndsWith(relativePath, r)
  {
    AppPrefixAdvances();
    OneLineMatchesAtStart(relativePath);
    ReplaceFirst(MatchAppPrefix, relativePath, "")
  }

  /** The URL the command asks for: the prefix, then the stripped path. */
  function TargetUrl(urlPrefix: string, relativePath: string): (url: string)
    ensures StartsWith(url, urlPrefix) && |url| <= |urlPrefix| + |relativePath|
  {
    urlPrefix + StripAppPrefix(relativePath)
  }

  /** On a one-line path the leftmost match, if any, starts at the beginning. */
  lemma OneLineMatchesAtStart(s: string)
    ensures IsOneLine(s) && FirstMatch(MatchAppPrefix, s, 0).Some? ==> FirstMatch(MatchAppPrefix, s, 0).value.start == 0
  {
    if IsOneLine(s) && MatchAppPrefix(s, 0).None? {
      RunEndIs(s, 0, IsNotLineTerminator, |s|);
      assert LastSlashAppDir(s, 0, |s|).None?;
      forall i: nat | 0 < i <= |s| ensures MatchAppPrefix(s, i).None? {
        RunEndIs(s, i, IsNotLineTerminator, |s|);
      }
    }
  }

  /** A path that starts with `app/` or `app-sandbox/` loses that leading directory and nothing else. */
  lemma StripLeadingAppDir(relativePath: string)
    requires StartsWith(relativePath, APP_SANDBOX_DIR) || StartsWith(relativePath, APP_DIR)
    ensures StartsWith(relativePath, APP_SANDBOX_DIR) ==> StripAppPrefix(relativePath) == relativePath[|APP_SANDBOX_DIR|..]
    ensures !StartsWith(relativePath, APP_SANDBOX_DIR) ==> StripAppPrefix(relativePath) == relativePath[|APP_DIR|..]
  {
    AppPrefixAdvances();
    var s := relativePath;
    assert StartsWith(s, APP_SANDBOX_DIR) ==> s[..|APP_SANDBOX_DIR|] == s[0..0 + |APP_SANDBOX_DIR|];
    assert StartsWith(s, APP_DIR) ==> s[..|APP_DIR|] == s[0..0 + |APP_DIR|];
    var e := AppDirAt(s, 0).value;
    FirstMatchIs(MatchAppPrefix, s, 0, 0, e);
  }

  /**
    Otherwise, on a path of one line, everything up to and including the
    last `/app/` or `/app-sandbox/` goes.
  */
  lemma StripThroughLastAppDir(relativePath: string, m: nat)
    requires AppDirAt(relativePath, 0).None?
    requires IsOneLine(relativePath)
    requires SlashAppDirAt(relativePath, m)
    requires forall k :: m < k ==> !SlashAppDirAt(relativePath, k)
    ensures StripAppPrefix(relativePath) == relativePath[AppDirAt(relativePath, m + 1).value..]
  {
    AppPrefixAdvances();
    var s := relativePath;
    RunEndIs(s, 0, IsNotLineTerminator, |s|);
    var last := LastSlashAppDir(s, 0, |s|);
    assert last == Some(m);
    FirstMatchIs(MatchAppPrefix, s, 0, 0, AppDirAt(s, m + 1).value);
  }

  /** A `/app/` or `/app-sandbox/` anywhere gives the pattern a match starting at or before it. */
  lemma SlashAppDirMatches(s: string, m: nat)
    requires SlashAppDirAt(s, m)
    ensures MatchAppPrefix(s, m).Some?
  {
    var lineEnd := RunEnd(s, m, IsNotLineTerminator);
    assert lineEnd > m;
    var last := LastSlashAppDir(s, m, lineEnd);
    assert last.Some?;
  }

  /**
    The path comes through unchanged exactly when it neither starts with
    `app/` or `app-sandbox/` nor contains `/app/` or `/app-sandbox/`.
  */
  lemma StripUnchangedIff(relativePath: string)
    ensures StripAppPrefix(relativePath) == relativePath
        <==> AppDirAt(relativePath, 0).None? && forall m :: !SlashAppDirAt(relativePath, m)
  {
    AppPrefixAdvances();
    var s := relativePath;
    var f := FirstMatch(MatchAppPrefix, s, 0);
    if AppDirAt(s, 0).None? && forall m :: !SlashAppDirAt(s, m) {
      forall i: nat | i <= |s| ensures MatchAppPrefix(s, i).None? {
        var none := LastSlashAppDir(s, i, RunEnd(s, i, IsNotLineTerminator));
        assert none.None?;
      }
      assert f.None?;
    } else {
      if AppDirAt(s, 0).Some? {
        assert MatchAppPrefix(s, 0).Some?;
      } else {
        var m :| SlashAppDirAt(s, m);
        SlashAppDirMatches(s, m);
      }
      assert f.Some?;
      assert |StripAppPrefix(s)| < |s|;
    }
  }

  // ---------------------------------------------------------------------------
  // The command

  /** What the editor hands the command: no file, a file outside every workspace folder, or its relative path. */
  datatype Selection = NoFile | OutsideWorkspace | InWorkspace(relativePath: string)

  /** What an HTTP GET brings back: a response with its status, or no response at all. */
  datatype HttpAnswer = Response(status: int) | NetworkError

  /** The requests the command issues, in order. */
  datatype Request = Get(url: string) | OpenInBrowser(url: string)

  /** The error message shown, or the URL opened. */
  datatype Outcome = NoFileSelected | NoWorkspaceFolder | NoSandboxRunning | PageNotFound | Opened(url: string)

  /** checkIfSandboxIsRunning: the GET resolves, which it does for a 2xx status. */
  function SandboxIsRunning(answer: HttpAnswer): (running: bool)
    ensures running ==> answer.Response?
  {
    answer.Response? && 200 <= answer.status < 300
  }

  /** checkIfPageExists: the GET resolves with status 200. */
  function PageExists(answer: HttpAnswer): (found: bool)
    ensures found <==> answer == Response(200)
  {
    SandboxIsRunning(answer) && answer.status == 200
  }

  /**
    openUrl: the sandbox is checked at the prefix, then the page at the URL,
    and only then is the browser opened. `sandboxAnswer` and `pageAnswer`
    are what the two GETs bring back.
  */
  method OpenUrl(urlPrefix: string, url: string, sandboxAnswer: HttpAnswer, pageAnswer: HttpAnswer)
    returns (requests: seq<Request>, outcome: Outcome)
    ensures 1 <= |requests| <= 3 && requests[0] == Get(urlPrefix)
    ensures outcome == NoSandboxRunning <==> !SandboxIsRunning(sandboxAnswer)
    ensures outcome == NoSandboxRunning <==> requests == [Get(urlPrefix)]
    ensures outcome == PageNotFound <==> SandboxIsRunning(sandboxAnswer) && pageAnswer != Response(200)
    ensures outcome.Opened? <==> SandboxIsRunning(sandboxAnswer) && pageAnswer == Response(200)
    ensures outcome.Opened? ==> outcome.url == url && requests == [Get(urlPrefix), Get(url), OpenInBrowser(url)]
    ensures !outcome.Opened? ==> forall r :: r in requests ==> r.Get?
    ensures outcome != NoSandboxRunning ==> requests[..2] == [Get(urlPrefix), Get(url)]
    ensures outcome == PageNotFound ==> requests == [Get(urlPrefix), Get(url)]
  {
    requests := [Get(urlPrefix)];
    var isSandboxRunning := SandboxIsRunning(sandboxAnswer);
    if !isSandboxRunning {
      return requests, NoSandboxRunning;
    }
    requests := requests + [Get(url)];
    var doesPageExist := PageExists(pageAnswer);
    if !doesPageExist {
      return requests, PageNotFound;
    }
    requests := requests + [OpenInBrowser(url)];
    outcome := Opened(url);
  }

  /** The handler registered for `open-with-url-prefix.open`. */
  method OpenCommand(urlPrefix: string, selection: Selection, sandboxAnswer: HttpAnswer, pageAnswer: HttpAnswer)
    returns (requests: seq<Request>, outcome: Outcome)
    ensures selection.NoFile? <==> outcome == NoFileSelected
    ensures selection.OutsideWorkspace? <==> outcome == NoWorkspaceFolder
    ensures !selection.InWorkspace? <==> requests == []
    ensures outcome.Opened?
        <==> selection.InWorkspace? && SandboxIsRunning(sandboxAnswer) && pageAnswer == Response(200)
    ensures outcome.Opened? ==> outcome.url == TargetUrl(urlPrefix, selection.relativePath)
    ensures selection.InWorkspace? ==>
      var url := TargetUrl(urlPrefix, selection.relativePath);
      && (outcome == NoSandboxRunning <==> !SandboxIsRunning(sandboxAnswer))
      && (outcome == NoSandboxRunning ==> requests == [Get(urlPrefix)])
      && (outcome == PageNotFound <==> SandboxIsRunning(sandboxAnswer) && pageAnswer != Response(200))
      && (outcome == PageNotFound ==> requests == [Get(urlPrefix), Get(url)])
      && (!outcome.Opened? ==> forall r :: r in requests ==> r.Get?)
      && (outcome.Opened? ==> requests == [Get(urlPrefix), Get(url), OpenInBrowser(url)])
  {
    if selection.NoFile? {
      return [], NoFileSelected;
    }
    if selection.OutsideWorkspace? {
      return [], NoWorkspaceFolder;
    }
    var file := StripAppPrefix(selection.relativePath);
    var url := urlPrefix + file;
    requests, outcome := OpenUrl(urlPrefix, url, sandboxAnswer, pageAnswer);
  }
}
