/**
  The install, uninstall and reinstall commands of src/extension.js:117-186
  over the editor's workbench directory, modelled as a map from entry name
  to file content. A read of the live `workbench.html` that fails (the file
  is missing) makes the command throw before it writes anything; that is
  the `None` outcome below.
*/
module Workbench {
  import opened Common
  import opened Regexes
  import opened Patcher

  /** The workbench directory: entry name to file content. */
  type Directory = map<string, string>

  const HTML_FILE: string := "workbench.html"
  const BACKUP_SUFFIX: string := ".bak-custom-css"

  /** BackupFilePath: the backup written for a session, from whose name the session id can be read off. */
  function BackupFileName(uuid: string): (name: string)
    ensures IsBackupFile(name) && name != HTML_FILE
    ensures |"workbench."| + |BACKUP_SUFFIX| <= |name|
    ensures name[|"workbench."|..|name| - |BACKUP_SUFFIX|] == uuid
  {
    EndsWithAppended("workbench." + uuid, BACKUP_SUFFIX);
    "workbench." + uuid + BACKUP_SUFFIX
  }

  /** The entries deleteBackupFiles unlinks: a stem followed by `.bak-custom-css`. */
  function IsBackupFile(name: string): (b: bool)
    ensures b <==> |BACKUP_SUFFIX| <= |name| && name == name[..|name| - |BACKUP_SUFFIX|] + BACKUP_SUFFIX
  {
    EndsWith(name, BACKUP_SUFFIX)
  }

  lemma EndsWithAppended(a: string, w: string)
    ensures EndsWith(a + w, w)
  {
    assert (a + w)[|a + w| - |w|..] == w;
  }

  /** Every backup name is swept by deleteBackupFiles, and the live file never is. */
  lemma BackupNamesAreBackups(uuid: string)
    ensures IsBackupFile(BackupFileName(uuid)) && !IsBackupFile(HTML_FILE)
    ensures BackupFileName(uuid) != HTML_FILE
  {
    EndsWithAppended("workbench." + uuid, BACKUP_SUFFIX);
  }

  // ---------------------------------------------------------------------------
  // What each command does to the directory

  /** The directory after deleteBackupFiles: every `*.bak-custom-css` entry gone, every other entry kept. */
  function WithoutBackups(dir: Directory): (r: Directory)
    ensures forall name :: name in r <==> name in dir && !IsBackupFile(name)
    ensures forall name :: name in r ==> r[name] == dir[name]
  {
    map name | name in dir && !IsBackupFile(name) :: dir[name]
  }

  /**
    cmdInstall: createBackup writes the cleared live text to the session's
    backup, then performPatch (which does nothing for an empty id) rewrites
    the live file with the patched text.
  */
  function Install(dir: Directory, uuid: string, css: string): (r: Option<Directory>)
    ensures r.Some? <==> HTML_FILE in dir
    ensures r.Some? ==> r.value.Keys == dir.Keys + {BackupFileName(uuid)}
    ensures r.Some? ==> r.value[BackupFileName(uuid)] == ClearExistingPatches(dir[HTML_FILE])
    ensures r.Some? ==> r.value[HTML_FILE]
                        == if uuid == "" then dir[HTML_FILE] else PatchedHtml(dir[HTML_FILE], uuid, css)
    ensures r.Some? ==> forall name :: name in dir && name != HTML_FILE && name != BackupFileName(uuid)
                                       ==> r.value[name] == dir[name]
  {
    if HTML_FILE !in dir then None
    else
      BackupNamesAreBackups(uuid);
      var backedUp := dir[BackupFileName(uuid) := ClearExistingPatches(dir[HTML_FILE])];
      if uuid == "" then Some(backedUp)
      else Some(backedUp[HTML_FILE := PatchedHtml(backedUp[HTML_FILE], uuid, css)])
  }

  /**
    uninstallImpl: without a session id in the live file nothing happens;
    otherwise the session's backup, when it exists, replaces the live file,
    and then every backup is deleted.
  */
  function Uninstall(dir: Directory): (r: Option<Directory>)
    ensures r.Some? <==> HTML_FILE in dir
    ensures r.Some? ==> HTML_FILE in r.value
  {
    if HTML_FILE !in dir then None
    else
      var id := ReadSessionId(dir[HTML_FILE]);
      if id.None? then Some(dir)
      else
        var backup := BackupFileName(id.value);
        var restored := if backup in dir then dir[HTML_FILE := dir[backup]] else dir;
        BackupNamesAreBackups(id.value);
        Some(WithoutBackups(restored))
  }

  /** cmdReinstall: uninstall, then, if that did not throw, install. */
  function Reinstall(dir: Directory, uuid: string, css: string): (r: Option<Directory>)
    ensures r.Some? <==> HTML_FILE in dir
  {
    var u := Uninstall(dir);
    if u.None? then None else Install(u.value, uuid, css)
  }

  // ---------------------------------------------------------------------------
  // Properties of the commands

  /**
    Installing and then uninstalling gives back the directory with every
    backup gone and the live file holding the CLEARED original, which is
    what the backup stored. It needs a session id of the kind getBackupUuid
    reads, a `</html>` to patch in front of, and no sentinel opening left in
    the text performPatch worked on.
  */
  lemma InstallThenUninstall(dir: Directory, uuid: string, css: string)
    requires HTML_FILE in dir && IsSessionId(uuid)
    requires !Absent(PatchBase(dir[HTML_FILE]), HTML_CLOSE)
    requires Absent(PatchBase(dir[HTML_FILE]), SESSION_OPEN)
    ensures Install(dir, uuid, css).Some?
    ensures Uninstall(Install(dir, uuid, css).value)
         == Some(WithoutBackups(dir)[HTML_FILE := ClearExistingPatches(dir[HTML_FILE])])
  {
    BackupNamesAreBackups(uuid);
    var html := dir[HTML_FILE];
    var backup := BackupFileName(uuid);
    var installed := Install(dir, uuid, css).value;
    ReadBackPatchedSessionId(html, uuid, css);
    assert installed == dir[backup := ClearExistingPatches(html)][HTML_FILE := PatchedHtml(html, uuid, css)];
    SweepAfterRestore(dir, backup, ClearExistingPatches(html), PatchedHtml(html, uuid, css));
  }

  /** Restoring the live file from a fresh backup and sweeping forgets both the backup and the patch. */
  lemma SweepAfterRestore(dir: Directory, backup: string, saved: string, patched: string)
    requires IsBackupFile(backup) && !IsBackupFile(HTML_FILE)
    ensures WithoutBackups(dir[backup := saved][HTML_FILE := patched][HTML_FILE := saved])
         == WithoutBackups(dir)[HTML_FILE := saved]
  {
    var restored := dir[backup := saved][HTML_FILE := patched][HTML_FILE := saved];
    assert WithoutBackups(restored).Keys == (WithoutBackups(dir)[HTML_FILE := saved]).Keys;
  }

  /**
    For a live file with no earlier patch in it, install followed by
    uninstall restores the original text and leaves no backup behind.
  */
  lemma InstallThenUninstallRestoresPristine(dir: Directory, uuid: string, css: string)
    requires HTML_FILE in dir && IsSessionId(uuid)
    requires Absent(dir[HTML_FILE], PATCH_START) && Absent(dir[HTML_FILE], SESSION_OPEN)
    requires !Absent(PatchBase(dir[HTML_FILE]), HTML_CLOSE)
    requires Absent(PatchBase(dir[HTML_FILE]), SESSION_OPEN)
    ensures Install(dir, uuid, css).Some?
    ensures Uninstall(Install(dir, uuid, css).value) == Some(WithoutBackups(dir))
    ensures forall name :: name in WithoutBackups(dir) ==> !IsBackupFile(name)
  {
    InstallThenUninstall(dir, uuid, css);
    ClearWithoutSentinelsIsIdentity(dir[HTML_FILE]);
    BackupNamesAreBackups(uuid);
    var swept := WithoutBackups(dir);
    assert swept[HTML_FILE := dir[HTML_FILE]] == swept;
  }

  /** Uninstalling when the live file has no session sentinel changes no file. */
  lemma UninstallWithoutSessionChangesNothing(dir: Directory)
    requires HTML_FILE in dir && Absent(dir[HTML_FILE], SESSION_OPEN)
    ensures Uninstall(dir) == Some(dir)
  {
    ReadSessionIdWithoutOpen(dir[HTML_FILE]);
  }

  /**
    When the live file names a session whose backup is missing, the live
    file is kept as it is, but the backups are still deleted.
  */
  lemma UninstallWithMissingBackup(dir: Directory, id: string)
    requires HTML_FILE in dir && ReadSessionId(dir[HTML_FILE]) == Some(id)
    requires BackupFileName(id) !in dir
    ensures Uninstall(dir) == Some(WithoutBackups(dir))
    ensures Uninstall(dir).value[HTML_FILE] == dir[HTML_FILE]
  {
    BackupNamesAreBackups(id);
  }

  /** Sweeping backups twice is sweeping them once. */
  lemma WithoutBackupsIdempotent(dir: Directory)
    ensures WithoutBackups(WithoutBackups(dir)) == WithoutBackups(dir)
  {
    var once := WithoutBackups(dir);
    assert WithoutBackups(once).Keys == once.Keys;
  }

  /**
    Reinstalling over a patched live file leaves exactly one backup: the one
    for the new session.
  */
  lemma ReinstallLeavesOneBackup(dir: Directory, uuid: string, css: string)
    requires HTML_FILE in dir && ReadSessionId(dir[HTML_FILE]).Some?
    ensures Reinstall(dir, uuid, css).Some?
    ensures var r := Reinstall(dir, uuid, css).value;
      && BackupFileName(uuid) in r
      && forall name :: name in r && IsBackupFile(name) ==> name == BackupFileName(uuid)
  {
    var id := ReadSessionId(dir[HTML_FILE]).value;
    BackupNamesAreBackups(id);
    var swept := Uninstall(dir).value;
    assert forall name :: name in swept ==> !IsBackupFile(name);
  }

  /**
    Reinstalling leaves the live file carrying the new session, so the next
    uninstall finds it. It needs the text performPatch works on after the
    uninstall step to have a `</html>` and no sentinel opening.
  */
  lemma ReinstallCarriesNewSession(dir: Directory, uuid: string, css: string)
    requires HTML_FILE in dir && IsSessionId(uuid)
    requires var live := Uninstall(dir).value[HTML_FILE];
      !Absent(PatchBase(live), HTML_CLOSE) && Absent(PatchBase(live), SESSION_OPEN)
    ensures Reinstall(dir, uuid, css).Some?
    ensures ReadSessionId(Reinstall(dir, uuid, css).value[HTML_FILE]) == Some(uuid)
  {
    var live := Uninstall(dir).value[HTML_FILE];
    assert Reinstall(dir, uuid, css).value[HTML_FILE] == PatchedHtml(live, uuid, css);
    ReadBackPatchedSessionId(live, uuid, css);
  }

  // ---------------------------------------------------------------------------
  // The commands, step by step

  /** The extension's view of the workbench directory, and the style text it injects. */
  class Workbench {
    var files: Directory
    const css: string

    constructor(dir: Directory, style: string)
      ensures files == dir && css == style
    {
      files := dir;
      css := style;
    }

    /** getBackupUuid: `aborted` when the live file cannot be read. */
    method GetBackupUuid() returns (aborted: bool, id: Option<string>)
      ensures aborted <==> HTML_FILE !in files
      ensures !aborted ==> id == ReadSessionId(files[HTML_FILE])
      ensures id.Some? ==> !aborted && IsSessionId(id.value)
    {
      if HTML_FILE !in files {
        return true, None;
      }
      var html := files[HTML_FILE];
      id := ReadSessionId(html);
      aborted := false;
    }

    /** createBackup: the cleared live text goes to the session's backup. */
    method CreateBackup(uuid: string) returns (aborted: bool)
      modifies this
      ensures aborted <==> HTML_FILE !in old(files)
      ensures aborted ==> files == old(files)
      ensures !aborted ==> files == old(files)[BackupFileName(uuid) := ClearExistingPatches(old(files)[HTML_FILE])]
    {
      if HTML_FILE !in files {
        return true;
      }
      var html := files[HTML_FILE];
      html := ClearExistingPatches(html);
      files := files[BackupFileName(uuid) := html];
      aborted := false;
    }

    /** performPatch: rewrites the live file; an empty session id leaves everything as it was. */
    method PerformPatch(uuid: string) returns (aborted: bool)
      modifies this
      ensures aborted <==> uuid != "" && HTML_FILE !in old(files)
      ensures aborted || uuid == "" ==> files == old(files)
      ensures !aborted && uuid != "" ==> files == old(files)[HTML_FILE := PatchedHtml(old(files)[HTML_FILE], uuid, css)]
    {
      if uuid == "" {
        return false;
      }
      if HTML_FILE !in files {
        return true;
      }
      var html := files[HTML_FILE];
      html := ClearExistingPatches(html);
      html := RemoveCspMeta(html);
      HtmlCloseAdvances();
      html := ReplaceFirst(MatchHtmlClose, html, InjectedBlock(uuid, css) + HTML_CLOSE);
      files := files[HTML_FILE := html];
      aborted := false;
    }

    /**
      restoreBackup: when the backup exists, the live file is unlinked and the
      backup copied in its place; unlinking a missing live file throws.
    */
    method RestoreBackup(backup: string) returns (aborted: bool)
      requires IsBackupFile(backup)
      modifies this
      ensures aborted <==> backup in old(files) && HTML_FILE !in old(files)
      ensures aborted || backup !in old(files) ==> files == old(files)
      ensures !aborted && backup in old(files) ==> files == old(files)[HTML_FILE := old(files)[backup]]
    {
      if backup !in files {
        return false;
      }
      if HTML_FILE !in files {
        return true;
      }
      assert !IsBackupFile(HTML_FILE);
      files := files - {HTML_FILE};
      files := files[HTML_FILE := files[backup]];
      aborted := false;
    }

    /** deleteBackupFiles: unlinks, one entry at a time, every entry whose name ends in `.bak-custom-css`. */
    method DeleteBackupFiles()
      modifies this
      ensures files == WithoutBackups(old(files))
    {
      var items := files.Keys;
      while items != {}
        invariant items <= old(files).Keys
        invariant forall name :: name in files <==> name in old(files) && (name in items || !IsBackupFile(name))
        invariant forall name :: name in files ==> files[name] == old(files)[name]
        decreases items
      {
        var item :| item in items;
        if IsBackupFile(item) {
          files := files - {item};
        }
        items := items - {item};
      }
      assert files.Keys == WithoutBackups(old(files)).Keys;
    }

    /** uninstallImpl */
    method UninstallImpl() returns (aborted: bool)
      modifies this
      ensures aborted ==> files == old(files)
      ensures Uninstall(old(files)) == if aborted then None else Some(files)
    {
      var id;
      aborted, id := GetBackupUuid();
      if aborted || id.None? {
        return;
      }
      BackupNamesAreBackups(id.value);
      aborted := RestoreBackup(BackupFileName(id.value));
      if aborted {
        return;
      }
      DeleteBackupFiles();
    }

    /** cmdInstall, with the session id uuid.v4 would draw given as `uuid`. */
    method CmdInstall(uuid: string) returns (aborted: bool)
      modifies this
      ensures aborted ==> files == old(files)
      ensures Install(old(files), uuid, css) == if aborted then None else Some(files)
    {
      aborted := CreateBackup(uuid);
      if aborted {
        return;
      }
      BackupNamesAreBackups(uuid);
      aborted := PerformPatch(uuid);
    }

    /** cmdReinstall */
    method CmdReinstall(uuid: string) returns (aborted: bool)
      modifies this
      ensures aborted ==> files == old(files)
      ensures Reinstall(old(files), uuid, css) == if aborted then None else Some(files)
    {
      aborted := UninstallImpl();
      if aborted {
        return;
      }
      aborted := CmdInstall(uuid);
    }
  }
}
