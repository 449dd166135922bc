# vscode-custom-css core, modelled in Dafny

The extension in `src/extension.js` does two things.

- It patches the editor's own `workbench.html`. Before the closing
  `</html>` it injects a session sentinel
  (`<!-- !! VSCODE-CUSTOM-CSS-SESSION-ID <uuid> !! -->`) and a style block
  between `START` and `END` markers. Before patching it saves a cleared
  copy of the page as `workbench.<uuid>.bak-custom-css`. Uninstalling reads
  the session id back, restores that backup and deletes every
  `*.bak-custom-css` file.
- It has an "open with URL prefix" command. The command turns a workspace
  file into a URL on a local sandbox server, checks the server and the page
  over HTTP, and opens the browser.

The model has five modules:

- `Common` (common.dfy): `Option`, match spans, occurrence predicates.
- `Regexes` (regexes.dfy): the source's six regular expressions, run the
  way JavaScript's backtracking matcher runs them. Each pattern is a
  `Matcher`, a function from a text and an index to the end of the match
  there. It also holds `String.prototype.replace` with and without the `g`
  flag: the leftmost match, and with `g` the search going on from the end of
  each match. The lazy `[\s\S]*?END` matches up to the first `END`. The
  greedy runs `[\w-]+`, `[0-9a-fA-F-]+` and `\s+` can only succeed at their
  longest. `.*` stops at the ECMAScript line terminators. `\s` is the full
  ECMAScript white-space set.
- `Patcher` (patcher.dfy): `clearExistingPatches`, the text transform of
  `performPatch`, and the match in `getBackupUuid`, as pure functions with
  their lemmas.
- `Workbench` (workbench.dfy): the install, uninstall and reinstall
  commands over the workbench directory. The directory is a
  `map<string, string>` from entry name to content. Spec functions
  (`Install`, `Uninstall`, `Reinstall`, `WithoutBackups`) say what each
  command does to the directory, and lemmas relate them. The class
  `Workbench` holds the directory and performs the same commands step by
  step. Each of its methods is proved to produce what the spec function
  says. A failed read of the live file throws before anything is written;
  that is the aborted outcome (`None` in the spec functions, `aborted` in
  the methods).
- `UrlOpener` (opener.dfy): the URL derivation and the guard chain of the
  open command. The editor's answers (no file, outside every workspace
  folder, relative path) and the two HTTP answers are inputs. The methods
  return the outcome and the ordered list of requests they issued.

## Model

| member | source | states |
|---|---|---|
| Regexes.FindFrom | src/extension.js:214 | a found index of a literal lies inside the text, at or after the start |
| Regexes.FindFromIsFirst | src/extension.js:214 | the index found is an occurrence with none before it, and none means there is no occurrence at all (the lazy `*?` stops at the first `END`) |
| Regexes.RunEnd | src/extension.js:215 | a greedy character-class run ends within the text |
| Regexes.RunEndIsMaximal | src/extension.js:146 | every character of a greedy run is in its class and the one after is not |
| Regexes.RunEndIs | src/extension.js:215 | a run is fixed by where its class first fails |
| Regexes.AppDirAt | src/extension.js:95 | `app-sandbox/` or else `app/` matches a non-empty stretch inside the text |
| Regexes.LastSlashAppDir | src/extension.js:95 | the backtracking `.*\/` stops at the LAST `/app/` or `/app-sandbox/` before the end of the line, and finds none only if there is none |
| Regexes.PatchBlockLength | src/extension.js:214 | the START…END block pattern matches a non-empty prefix of the text |
| Regexes.SessionIdEnd | src/extension.js:215 | a sentinel's id is non-empty and is followed by the closing ` !! -->` inside the text |
| Regexes.SessionSentinelLength | src/extension.js:215 | the sentinel pattern with its trailing newlines matches a non-empty prefix |
| Regexes.SessionIdCaptureLength | src/extension.js:146 | the hex-id sentinel pattern matches a non-empty prefix |
| Regexes.CspMetaLength | src/extension.js:200 | the Content-Security-Policy meta pattern matches a non-empty prefix |
| Regexes.HtmlCloseLength | src/extension.js:202 | the `</html>` pattern matches a non-empty prefix |
| Regexes.MatchAppPrefix | src/extension.js:95 | a match of the app-prefix pattern is non-empty and inside the text |
| Regexes.PatchBlockAdvances | src/extension.js:214 | the block pattern never matches the empty string nor past the text |
| Regexes.SessionSentinelAdvances | src/extension.js:215 | the sentinel pattern never matches the empty string nor past the text |
| Regexes.SessionIdCaptureAdvances | src/extension.js:146 | the id pattern never matches the empty string nor past the text |
| Regexes.CspMetaAdvances | src/extension.js:200 | the CSP pattern never matches the empty string nor past the text |
| Regexes.HtmlCloseAdvances | src/extension.js:202 | the `</html>` pattern never matches the empty string nor past the text |
| Regexes.AppPrefixAdvances | src/extension.js:95 | the app-prefix pattern never matches the empty string nor past the text |
| Regexes.FirstMatch | src/extension.js:146 | the leftmost match: it is a match, there is none before it, and no match found means none anywhere |
| Regexes.FirstMatchIs | src/extension.js:146 | a match with no match before it is the one the search returns |
| Regexes.ReplaceFirst | src/extension.js:214 | `replace` without `g`: no match leaves the text as it is; otherwise the text before the leftmost match is kept, the replacement takes the match's place and the text after it is kept |
| Regexes.ReplaceAllFrom | src/extension.js:215 | `replace` with `g` from `lastIndex`: no match leaves the rest of the text; otherwise the result opens with the text up to the leftmost match followed by the replacement |
| Regexes.ReplaceAll | src/extension.js:215 | `replace` with `g` on a text the pattern does not match returns it unchanged |
| Regexes.ReplaceAllSplitsAtFirst | src/extension.js:215 | with `g`, the result is the text before the leftmost match, the replacement, then the replacement run over everything after the match |
| Regexes.RemoveFirstIs | src/extension.js:200 | removing the leftmost match joins the text before it to the text after it |
| Regexes.AnchoredAfter | src/extension.js:214-215 | an unanchored pattern matches at the same place in a longer text, shifted by what was put in front |
| Regexes.MatchersLookOnlyAhead | src/extension.js:214-215 | the five unanchored patterns depend only on the text from the index on |
| Regexes.FirstMatchAfter | src/extension.js:215 | searching the tail of a longer text finds the tail's own match, shifted |
| Regexes.ReplaceAllAfter | src/extension.js:215 | global replacement from inside a longer text only sees the tail |
| Regexes.ReplaceAllShifted | src/extension.js:215 | one step of that: when the next search and the rest of the scan agree in the longer text and in the tail, so does the scan |
| Regexes.ReplaceAllStep | src/extension.js:215 | two global scans whose next matches leave the same text before them, and whose scans after those matches agree, agree |
| Regexes.ReplaceAllDone | src/extension.js:215 | two global scans with no match left and the same remaining text agree |
| Regexes.ReplaceAllFromAt | src/extension.js:215 | with `g`, a scan whose next match is `[k, e)` keeps the text before it, puts the replacement, then goes on from e |
| Regexes.ReplaceAllJoin | src/extension.js:215 | the scan from 0 is the text before the leftmost match, the replacement, then the scan of what follows the match |
| Regexes.RemoveAllShrinks | src/extension.js:215 | global removal never lengthens the text and shortens it when there is a match |
| Regexes.RemoveAllUnchangedIff | src/extension.js:215 | global removal leaves the text unchanged exactly when the pattern matches nowhere |
| Patcher.ReadSessionId | src/extension.js:143-153 | an id read back is non-empty and made of hex digits and dashes |
| Patcher.RemoveFirstBlock | src/extension.js:214 | removing the first START…END block never lengthens the page, and changes it exactly when a block matches |
| Patcher.RemoveSessionSentinels | src/extension.js:215 | removing every session sentinel never lengthens the page, and shortens it when there is one |
| Patcher.ClearExistingPatches | src/extension.js:213-217 | clearing never lengthens the page |
| Patcher.RemoveCspMeta | src/extension.js:200 | dropping the CSP tag never lengthens the page, and changes it exactly when a CSP tag matches |
| Patcher.PatchedHtml | src/extension.js:196-202 | without `</html>` in the cleared, CSP-stripped page that page is written as it is; with one, the page grows by exactly the injected sentinel and style block |
| Patcher.RemoveCspMetaWithoutMeta | src/extension.js:200 | a page without `<meta` keeps its text |
| Patcher.RemoveCspMetaCutsFirstTag | src/extension.js:200 | the leftmost CSP tag is cut out and nothing else; it is `<meta`, the longest white-space run, the attribute, then text up to and including the first `/>` after the attribute |
| Patcher.MatchedCspTagShape | src/extension.js:200 | what a CSP match at an index of the page is made of |
| Patcher.CspTagShape | src/extension.js:200 | what a CSP match at the start of a text is made of |
| Patcher.RemoveCspMetaKeepsLaterTags | src/extension.js:200 | without `g` only the first CSP tag goes; a later one still matches, moved left by the cut |
| Patcher.NoSessionIdWithoutOpen | src/extension.js:146 | neither sentinel pattern matches where the sentinel opening does not occur |
| Patcher.NoOpenBeforeSentinel | src/extension.js:146 | no sentinel opening starts inside a sentinel-free text placed before one |
| Patcher.FirstHtmlClose | src/extension.js:202 | the `</html>` pattern finds the first occurrence of `</html>` |
| Patcher.ClearWithoutSentinelsIsIdentity | src/extension.js:213-217 | clearing a text with no START marker and no session sentinel opening returns it unchanged |
| Patcher.RemoveFirstBlockKeepsLaterBlocks | src/extension.js:214 | without `g` only the leftmost block goes; the text after it is kept, so a later block still matches there |
| Patcher.CutKeepsLaterMatch | src/extension.js:214 | cutting a stretch out moves a later match left by the stretch's length |
| Patcher.RemoveSessionSentinelsContinues | src/extension.js:215 | every sentinel the `g` scan meets goes: the result is the text before the first one followed by the clearing of the rest |
| Patcher.RemoveSessionSentinelsUnchangedIff | src/extension.js:215 | sentinel removal changes nothing exactly when no sentinel matches |
| Patcher.InsertBeforeFirstHtmlClose | src/extension.js:202 | replacing the first `</html>` inserts the block right before it, and changes nothing without one |
| Patcher.PatchInsertsBeforeFirstHtmlClose | src/extension.js:196-202 | the patched page is the cleared, CSP-stripped page with sentinel and style block inserted before its first `</html>`; without `</html>` it is the cleared, CSP-stripped page |
| Patcher.SessionIdEndOfSentinel | src/extension.js:146 | the id of a well-formed sentinel ends where the id written ends |
| Patcher.ReadSessionIdFindsFirstSentinel | src/extension.js:146-148 | the id read back is that of the first sentinel, when no sentinel opening comes before it |
| Patcher.ReadBackPatchedSessionId | src/extension.js:146-148 | after patching with a hex id, reading the id back gives exactly that id, given a `</html>` and no sentinel opening in the cleared, CSP-stripped page |
| Patcher.ReadBackInsertedSessionId | src/extension.js:202 | the same for a block inserted at any point of a sentinel-free text |
| Patcher.PrefixKeepsAbsent | src/extension.js:146 | a word absent from a text is absent from its prefixes |
| Patcher.ReadSessionIdWithoutOpen | src/extension.js:147 | with no sentinel opening there is no id to read |
| Workbench.BackupNamesAreBackups | src/extension.js:113 | every backup name ends in `.bak-custom-css` and the live file's name does not |
| Workbench.BackupFileName | src/extension.js:113 | a backup name ends in `.bak-custom-css`, is not the live file, and gives back the session id it was made from |
| Workbench.IsBackupFile | src/extension.js:182 | a name is swept exactly when it is a stem followed by `.bak-custom-css` |
| Workbench.WithoutBackups | src/extension.js:178-186 | exactly the entries named `*.bak-custom-css` are gone and every other entry is kept with its content |
| Workbench.Install | src/extension.js:117-121 | install fails exactly when the live file is missing; otherwise it adds the session backup holding the cleared page, rewrites only the live file (not at all for an empty id) and keeps every other entry |
| Workbench.Uninstall | src/extension.js:133-139 | uninstall fails exactly when the live file is missing, and the live file is still there afterwards |
| Workbench.Reinstall | src/extension.js:123-126 | reinstall fails exactly when the live file is missing; ReinstallLeavesOneBackup and ReinstallCarriesNewSession state what it leaves behind |
| Workbench.InstallThenUninstall | src/extension.js:155-159 | for a hex session id, when the cleared, CSP-stripped page has a `</html>` and no sentinel opening left, install then uninstall leaves every non-backup entry as it was, no backup, and the live file holding the CLEARED original |
| Workbench.SweepAfterRestore | src/extension.js:166-186 | restoring from the fresh backup and sweeping forgets both backup and patch |
| Workbench.InstallThenUninstallRestoresPristine | src/extension.js:155-186 | for a page with no START marker and no sentinel opening whose cleared, CSP-stripped text has a `</html>` and no sentinel opening, install then uninstall restores the original directory minus its backups |
| Workbench.UninstallWithoutSessionChangesNothing | src/extension.js:134-135 | uninstall with no session sentinel in the live file changes no file |
| Workbench.UninstallWithMissingBackup | src/extension.js:136-138 | uninstall with a session whose backup is missing keeps the live file but still deletes every backup |
| Workbench.WithoutBackupsIdempotent | src/extension.js:178-186 | deleting backups a second time changes nothing |
| Workbench.ReinstallLeavesOneBackup | src/extension.js:123-126 | reinstalling over a patched page leaves exactly one backup, the new session's |
| Workbench.ReinstallCarriesNewSession | src/extension.js:123-126 | after reinstalling with a hex id, the live file's session sentinel reads back that id, so the next uninstall finds the new session; given a `</html>` and no sentinel opening in the cleared, CSP-stripped page the uninstall step leaves |
| Workbench.Workbench.constructor | src/extension.js:109-113 | the directory and style text the extension starts from |
| Workbench.Workbench.GetBackupUuid | src/extension.js:143-153 | aborts exactly when the live file is missing; otherwise returns the id read from it, made of hex digits and dashes |
| Workbench.Workbench.CreateBackup | src/extension.js:155-164 | aborts without writing when the live file is missing; otherwise writes the cleared live text to the session's backup and nothing else |
| Workbench.Workbench.PerformPatch | src/extension.js:190-212 | an empty id changes nothing; otherwise only the live file changes, to the patched text |
| Workbench.Workbench.RestoreBackup | src/extension.js:166-176 | with the backup present the live file becomes its copy; without it nothing changes; unlinking a missing live file aborts |
| Workbench.Workbench.DeleteBackupFiles | src/extension.js:178-186 | the loop leaves exactly the directory without its backups |
| Workbench.Workbench.UninstallImpl | src/extension.js:133-139 | the new directory is what `Uninstall` gives; on abort nothing changed |
| Workbench.Workbench.CmdInstall | src/extension.js:117-121 | the new directory is what `Install` gives; on abort nothing changed |
| Workbench.Workbench.CmdReinstall | src/extension.js:123-126 | the new directory is what `Reinstall` gives; on abort nothing changed |
| UrlOpener.StripLeadingAppDir | src/extension.js:95 | a path starting with `app-sandbox/` or `app/` loses that leading directory only |
| UrlOpener.StripThroughLastAppDir | src/extension.js:95 | otherwise a one-line path loses everything through its last `/app/` or `/app-sandbox/` |
| UrlOpener.SlashAppDirMatches | src/extension.js:95 | the pattern matches at any `/app/` or `/app-sandbox/` |
| UrlOpener.StripUnchangedIff | src/extension.js:95 | the path is unchanged exactly when it has no leading app directory and no `/app/` or `/app-sandbox/` |
| UrlOpener.OneLineMatchesAtStart | src/extension.js:95 | on a one-line path the leftmost match of the pattern starts at the beginning |
| UrlOpener.StripAppPrefix | src/extension.js:95 | the stripped path is never longer than the path, and for a one-line path it is a suffix of it |
| UrlOpener.TargetUrl | src/extension.js:97 | the URL starts with the prefix and is no longer than prefix plus path |
| UrlOpener.SandboxIsRunning | src/extension.js:34-42 | the sandbox counts as running only when the GET got a response |
| UrlOpener.PageExists | src/extension.js:15-26 | the page exists exactly when the GET got status 200 |
| UrlOpener.OpenUrl | src/extension.js:58-74 | the sandbox GET comes first; a failed sandbox check gives that error with only that request; a page answer other than 200 gives the page error with exactly the two GETs; otherwise the requests are exactly sandbox GET, page GET, open |
| UrlOpener.OpenCommand | src/extension.js:81-100 | no file and no workspace folder give their errors with no request; otherwise the URL is the prefix plus the stripped path, each failed check gives its own error with exactly the requests issued up to it, no browser is opened on failure, and on success the requests are sandbox GET, page GET, open |

## Left out

- The editor APIs are inputs or left out: command registration, `getWorkspaceFolder`, `asRelativePath`, notifications and window reload. `cmdUninstall` is `uninstallImpl` followed by a notification, so it is not modelled separately.
- `axios.get` and `openurl.open` are left out. Their answers are parameters. A response resolves the sandbox check only for a 2xx status, which is axios's default status check, and a network error counts as failure.
- `uuid.v4` is left out. The session id is a parameter. Ids it draws are hex digits and dashes, which is what `IsSessionId` requires.
- The style literal returned by `patchHtmlForItem` is the class's `css` constant, set by the constructor. The failure path of `patchHtml`, which returns an empty string, is not modelled.
- The paths are left out. `path.join`, `require.main` and the `./messages` module are not part of this model. The directory is the workbench directory, holding `workbench.html`, and `urlPrefix` is a parameter.
- `$` patterns in a replacement string are not interpreted. The ids and the style text written contain no `$`.
- Workbench.Workbench.PerformPatch: a failed write of the live file is not modelled. In the source that failure shows a message, and the "enabled" notice still follows.
- Workbench.Workbench.RestoreBackup: this takes only names ending in `.bak-custom-css`, which is every name the source passes it. It leaves out the case where the backup path is the live file itself.
- Failed writes of the backup, failed copies, and entries listed by `readdir` that cannot be unlinked are not modelled. Only a missing live file makes a command abort.
- Async interleaving of two commands running at once is not modelled. Each command runs to completion on its own.
- Patcher.ReadBackPatchedSessionId: this is stated only for a page with no sentinel opening in the cleared, CSP-stripped page. Neither clearing nor the CSP cut re-scans text that a removal splices together. A page built to reassemble a sentinel out of two halves keeps one, whether the halves are split by another sentinel or by a CSP tag.
- Workbench.InstallThenUninstall: this carries the same hypothesis on the cleared, CSP-stripped page, for the same reason. It also needs a `</html>` in the cleared, CSP-stripped page. Without one no sentinel is written, uninstall finds no id, and the new backup stays.
- Workbench.ReinstallCarriesNewSession: this carries the same hypothesis on the cleared, CSP-stripped text that performPatch works on after the uninstall step, for the same reason.
- Workbench.InstallThenUninstallRestoresPristine: this is stated only for pages whose cleared, CSP-stripped text has a `</html>` and no sentinel opening. A page like `<body/>` keeps its new `workbench.<uuid>.bak-custom-css` after install then uninstall.
- UrlOpener.StripThroughLastAppDir: this is stated for paths of one line. On a path with line terminators, `.*` restarts on each line, and the leftmost line with a match decides.
- The test fixtures and the lint configuration are not part of this model.
