/** Single-file artifacts: the tool that writes one, and the installer that unpacks it, keeps
    a backup if asked to, and later commits the update or rolls it back. */
module SingleFile {
  import opened PayloadText
  import opened Wrappers

  const DEST_DIR := "dest_dir"
  const FILENAME := "filename"
  const PERMISSIONS := "permissions"
  const ROLLBACK_SUPPORT := "rollback_support"

  const RESERVED := [DEST_DIR, FILENAME, PERMISSIONS, ROLLBACK_SUPPORT]

  datatype Payload = Payload(name: string, content: string)

  /** What the artifact is made from; the mode is None if it cannot be determined. */
  datatype Source = Source(destDir: string, name: string, mode: Option<nat>, rollback: bool, content: string)

  function ModeText(mode: Option<nat>): string {
    if mode.Some? then PrintOctal(mode.value) else "0644"
  }

  function RollbackText(rollback: bool): string { if rollback then "true" else "false" }

  /** The payloads of an artifact, in order. */
  function Payloads(s: Source): seq<Payload> {
    [Payload(DEST_DIR, s.destDir + "\n"), Payload(FILENAME, s.name + "\n"), Payload(PERMISSIONS, ModeText(s.mode) + "\n"),
     Payload(ROLLBACK_SUPPORT, RollbackText(s.rollback) + "\n"), Payload(s.name, s.content)]
  }

  lemma ReservedDiffer()
    ensures DEST_DIR != FILENAME && DEST_DIR != PERMISSIONS && DEST_DIR != ROLLBACK_SUPPORT
    ensures FILENAME != PERMISSIONS && FILENAME != ROLLBACK_SUPPORT && PERMISSIONS != ROLLBACK_SUPPORT
  {
    assert DEST_DIR[0] == 'd' && FILENAME[0] == 'f' && PERMISSIONS[0] == 'p' && ROLLBACK_SUPPORT[0] == 'r';
  }

  /** Lists the payloads, unless the file's own name is one of the reserved ones. */
  method WriteSingleFile(s: Source) returns (r: Option<seq<Payload>>)
    ensures r == if s.name in RESERVED then None else Some(Payloads(s))
    ensures r.None? <==> s.name in {"dest_dir", "filename", "permissions", "rollback_support"}
    ensures r.Some? ==>
              && |r.value| == 5 && r.value[0] == Payload("dest_dir", s.destDir + "\n")
              && r.value[1] == Payload("filename", s.name + "\n") && r.value[2].name == "permissions"
              && r.value[3] == Payload("rollback_support", (if s.rollback then "true" else "false") + "\n")
              && r.value[4] == Payload(s.name, s.content)
  {
    ReservedDiffer();
    var texts := map[DEST_DIR := s.destDir, FILENAME := s.name, PERMISSIONS := ModeText(s.mode), ROLLBACK_SUPPORT := RollbackText(s.rollback)];
    assert forall k :: k in RESERVED <==> k == RESERVED[0] || k == RESERVED[1] || k == RESERVED[2] || k == RESERVED[3];
    if s.name in texts {
      return None;
    }
    var files: seq<Payload> := [];
    for i := 0 to |RESERVED|
      invariant files == Payloads(s)[..i]
    {
      files := files + [Payload(RESERVED[i], texts[RESERVED[i]] + "\n")];
    }
    assert Payloads(s) == Payloads(s)[..4] + [Payload(s.name, s.content)];
    r := Some(files + [Payload(s.name, s.content)]);
  }

  // The device

  datatype Path = Path(dir: string, name: string)

  datatype File = File(content: string, mode: int)

  type Files = map<Path, File>

  /** The mode a payload gives: a 32-bit unsigned number. */
  function ReadMode(text: string): int { ParseOctal(Trim(text)) % 0x1_0000_0000 }

  function BackupOf(p: Path): Path { Path(p.dir, p.name + ".tmp") }

  /** Opening a file for writing truncates it; the mode only applies to a file that is created. */
  function Written(fs: Files, p: Path, content: string, mode: int): Files {
    fs[p := File(content, if p in fs then fs[p].mode else mode)]
  }

  function ContentAt(fs: Files, p: Path): string { if p in fs then fs[p].content else "" }

  datatype Settings = Settings(destDir: string, filename: string, permissions: int, backup: Option<Path>, rollback: bool)

  const NO_SETTINGS := Settings("", "", 0, None, false)

  class FileSystem {
    var files: Files

    constructor (files: Files)
      ensures this.files == files
    {
      this.files := files;
    }

    method Write(p: Path, content: string, mode: int)
      modifies this
      ensures files == Written(old(files), p, content, mode)
    {
      files := files[p := File(content, if p in files then files[p].mode else mode)];
    }

    method Remove(p: Option<Path>)
      modifies this
      ensures files == if p.Some? then old(files) - {p.value} else old(files)
    {
      if p.Some? {
        files := files - {p.value};
      }
    }
  }

  /** The client's key-value store, for the one key in use here. */
  class Store {
    var saved: Option<Settings>

    constructor ()
      ensures saved == None
    {
      saved := None;
    }
  }

  class SingleFileUpdater {
    const fs: FileSystem
    var settings: Settings

    constructor (fs: FileSystem)
      ensures this.fs == fs && settings == NO_SETTINGS
    {
      this.fs, settings := fs, NO_SETTINGS;
    }

    function Target(): Path reads this { Path(settings.destDir, settings.filename) }

    /** Takes in one payload.  An error while updating the file is dropped. */
    method StoreUpdate(p: Payload)
      modifies this, fs
      ensures (settings, fs.files) == Stored(old(settings), old(fs.files), p)
    {
      if p.name == DEST_DIR {
        settings := settings.(destDir := Trim(p.content));
      } else if p.name == FILENAME {
        settings := settings.(filename := Trim(p.content));
      } else if p.name == PERMISSIONS {
        settings := settings.(permissions := ReadMode(p.content));
      } else if p.name == ROLLBACK_SUPPORT {
        settings := settings.(rollback := Trim(p.content) == "true");
      } else if p.name == settings.filename {
        var ok := UpdateFile(p.content);
      }
    }

    /** Backs the old content up if rollback is supported, and overwrites the file. */
    method UpdateFile(content: string) returns (ok: bool)
      modifies this, fs
      ensures ok <==> old(settings).destDir != ""
      ensures !ok ==> settings == old(settings) && fs.files == old(fs.files)
      ensures ok ==> settings == old(settings).(backup := if settings.rollback then Some(BackupOf(Target())) else old(settings).backup)
      ensures ok ==> fs.files == Installed(old(fs.files), Target(), content, settings)
    {
      if settings.destDir == "" {
        return false;
      }
      if settings.rollback {
        settings := settings.(backup := Some(BackupOf(Target())));
        fs.Write(BackupOf(Target()), "", settings.permissions);
        if Target() in fs.files {
          fs.Write(BackupOf(Target()), fs.files[Target()].content, settings.permissions);
        }
      }
      fs.Write(Target(), content, settings.permissions);
      ok := true;
    }

    method CommitUpdate()
      modifies fs
      ensures fs.files == if settings.backup.Some? then old(fs.files) - {settings.backup.value} else old(fs.files)
    {
      fs.Remove(settings.backup);
    }

    /** Overwrites the file with the backup and removes that.  Without a backup the file is
        truncated all the same, and an error reported. */
    method Rollback() returns (ok: bool)
      modifies fs
      ensures ok <==> settings.backup.Some? && settings.backup.value in old(fs.files)
      ensures fs.files == RolledBack(old(fs.files), Target(), settings)
    {
      var backup := settings.backup;
      if backup.None? || backup.value !in fs.files {
        fs.Write(Target(), "", settings.permissions);
        return false;
      }
      fs.Write(Target(), fs.files[backup.value].content, settings.permissions);
      fs.Remove(backup);
      ok := true;
    }

    method SaveState(store: Store)
      modifies store
      ensures store.saved == Some(settings)
    {
      store.saved := Some(settings);
    }

    method RestoreState(store: Store) returns (ok: bool)
      modifies this, store
      ensures ok <==> old(store.saved).Some?
      ensures ok ==> settings == old(store.saved).value && store.saved == None
      ensures !ok ==> settings == old(settings)
    {
      if store.saved.None? {
        return false;
      }
      settings := store.saved.value;
      store.saved := None;
      ok := true;
    }
  }

  /** The files after an update of the target. */
  function Installed(fs: Files, target: Path, content: string, s: Settings): Files {
    var backedUp := if s.rollback then Written(fs, BackupOf(target), ContentAt(fs, target), s.permissions) else fs;
    Written(backedUp, target, content, s.permissions)
  }

  function RolledBack(fs: Files, target: Path, s: Settings): Files {
    if s.backup.Some? && s.backup.value in fs then Written(fs, target, fs[s.backup.value].content, s.permissions) - {s.backup.value}
    else Written(fs, target, "", s.permissions)
  }

  /** The settings and the files after one payload. */
  function Stored(s: Settings, fs: Files, p: Payload): (Settings, Files) {
    if p.name == DEST_DIR then (s.(destDir := Trim(p.content)), fs)
    else if p.name == FILENAME then (s.(filename := Trim(p.content)), fs)
    else if p.name == PERMISSIONS then (s.(permissions := ReadMode(p.content)), fs)
    else if p.name == ROLLBACK_SUPPORT then (s.(rollback := Trim(p.content) == "true"), fs)
    else if p.name == s.filename && s.destDir != "" then
      var target := Path(s.destDir, s.filename);
      (s.(backup := if s.rollback then Some(BackupOf(target)) else s.backup), Installed(fs, target, p.content, s))
    else (s, fs)
  }

  lemma BackupDiffers(p: Path)
    ensures BackupOf(p) != p
  {
    assert |BackupOf(p).name| == |p.name| + 4;
  }

  // The round trip

  /** The settings and the files after all payloads, in order. */
  function StoredAll(s: Settings, fs: Files, ps: seq<Payload>): (Settings, Files)
    decreases |ps|
  {
    if ps == [] then (s, fs) else
      var (t, gs) := Stored(s, fs, ps[0]);
      StoredAll(t, gs, ps[1..])
  }

  method StoreAll(updater: SingleFileUpdater, ps: seq<Payload>)
    modifies updater, updater.fs
    ensures (updater.settings, updater.fs.files) == StoredAll(old(updater.settings), old(updater.fs.files), ps)
    decreases |ps|
  {
    if ps != [] {
      updater.StoreUpdate(ps[0]);
      StoreAll(updater, ps[1..]);
    }
  }

  function ModeOf(mode: Option<nat>): int {
    if mode.None? then 0x1A4 else if mode.value < LIMIT then mode.value else LIMIT - 1
  }

  lemma PlainModeRead(s: string, mode: nat)
    requires s != [] && '!' <= s[0] <= '~' && '!' <= s[|s| - 1] <= '~'
    requires ParseOctal(s) == mode < LIMIT
    ensures ReadMode(s + "\n") == mode
  {
    PlainLine(s);
  }

  lemma PrintedModeRead(n: nat)
    ensures ReadMode(PrintOctal(n) + "\n") == ModeOf(Some(n))
  {
    OctalPrints(n);
    OctalRoundTrip(n);
    PlainModeRead(PrintOctal(n), ModeOf(Some(n)));
  }

  lemma ModeSurvives(mode: Option<nat>)
    ensures ReadMode(ModeText(mode) + "\n") == ModeOf(mode)
    ensures mode.None? ==> ModeOf(mode) == 420
    ensures mode.Some? ==> ModeOf(mode) == if mode.value < 0x8000_0000 then mode.value else 0x7fff_ffff
  {
    if mode.Some? {
      PrintedModeRead(mode.value);
    } else {
      DefaultMode();
      PlainModeRead("0644", 0x1A4);
    }
  }

  lemma DefaultMode()
    ensures ParseOctal("0644") == 0x1A4
  {
    assert "0644"[..3] == "064" && "064"[..2] == "06" && "06"[..1] == "0" && "0"[..0] == "";
    assert OctalValue("0") == 0 && OctalValue("06") == 6 && OctalValue("064") == 52 && OctalValue("0644") == 420;
  }

  lemma FlagSurvives(rollback: bool)
    ensures Trim(RollbackText(rollback) + "\n") == "true" <==> rollback
  {
    var s := RollbackText(rollback);
    assert s[0] == (if rollback then 't' else 'f') && s[|s| - 1] == 'e';
    PlainLine(s);
  }

  /** The settings that the four leading payloads leave behind. */
  function SettingsOf(s: Source): Settings {
    Settings(Trim(s.destDir), Trim(s.name), ModeOf(s.mode), None, s.rollback)
  }

  lemma TextsRead(s: Source, fs: Files, t: Settings)
    ensures Stored(t, fs, Payload(DEST_DIR, s.destDir + "\n")) == (t.(destDir := Trim(s.destDir)), fs)
    ensures Stored(t, fs, Payload(FILENAME, s.name + "\n")) == (t.(filename := Trim(s.name)), fs)
  {
    ReservedDiffer();
    TrimLine(s.destDir, '\n');
    TrimLine(s.name, '\n');
  }

  lemma ModeAndFlagRead(s: Source, fs: Files, t: Settings)
    ensures Stored(t, fs, Payload(PERMISSIONS, ModeText(s.mode) + "\n")) == (t.(permissions := ModeOf(s.mode)), fs)
    ensures Stored(t, fs, Payload(ROLLBACK_SUPPORT, RollbackText(s.rollback) + "\n")) == (t.(rollback := s.rollback), fs)
  {
    ReservedDiffer();
    ModeSurvives(s.mode);
    FlagSurvives(s.rollback);
  }

  lemma HeaderRead(s: Source, fs: Files)
    ensures StoredAll(NO_SETTINGS, fs, Payloads(s)[..4]) == (SettingsOf(s), fs)
  {
    var t := NO_SETTINGS.(destDir := Trim(s.destDir));
    var u := t.(filename := Trim(s.name));
    TextsRead(s, fs, NO_SETTINGS);
    TextsRead(s, fs, t);
    ModeAndFlagRead(s, fs, u);
    ModeAndFlagRead(s, fs, u.(permissions := ModeOf(s.mode)));
    FourPayloads(NO_SETTINGS, fs, Payloads(s)[0], Payloads(s)[1], Payloads(s)[2], Payloads(s)[3]);
    assert Payloads(s)[..4] == [Payloads(s)[0], Payloads(s)[1], Payloads(s)[2], Payloads(s)[3]];
  }

  lemma FourPayloads(s: Settings, fs: Files, a: Payload, b: Payload, c: Payload, d: Payload)
    ensures var (s1, f1) := Stored(s, fs, a);
            var (s2, f2) := Stored(s1, f1, b);
            var (s3, f3) := Stored(s2, f2, c);
            StoredAll(s, fs, [a, b, c, d]) == Stored(s3, f3, d)
  {
    StoredAllConcat(s, fs, [], a);
    StoredAllConcat(s, fs, [a], b);
    StoredAllConcat(s, fs, [a, b], c);
    StoredAllConcat(s, fs, [a, b, c], d);
    assert [] + [a] == [a] && [a] + [b] == [a, b] && [a, b] + [c] == [a, b, c] && [a, b, c] + [d] == [a, b, c, d];
  }

  lemma {:induction false} StoredAllConcat(s: Settings, fs: Files, ps: seq<Payload>, p: Payload)
    ensures var (t, gs) := StoredAll(s, fs, ps); StoredAll(s, fs, ps + [p]) == Stored(t, gs, p)
    decreases |ps|
  {
    if ps == [] {
      assert [] + [p] == [p] && [p][1..] == [];
    } else {
      var (t, gs) := Stored(s, fs, ps[0]);
      StoredAllConcat(t, gs, ps[1..], p);
      assert (ps + [p])[1..] == ps[1..] + [p];
    }
  }

  /** Reading back what the tool wrote restores directory, name, mode and rollback flag, up to
      surrounding white space and for modes below 2^31.  The content is installed exactly when
      the name has no surrounding white space and the directory is not blank; otherwise the
      file is silently left as it was. */
  lemma RoundTrip(s: Source, fs: Files)
    requires s.name !in RESERVED
    ensures var (t, gs) := StoredAll(NO_SETTINGS, fs, Payloads(s));
            && t.destDir == Trim(s.destDir) && t.filename == Trim(s.name) && t.permissions == ModeOf(s.mode) && t.rollback == s.rollback
            && var target := Path(t.destDir, t.filename);
            if Tight(s.name) && Trim(s.destDir) != "" then
              && gs == Installed(fs, target, s.content, t) && target in gs && gs[target].content == s.content
              && (t.backup == if s.rollback then Some(BackupOf(target)) else None)
            else gs == fs && t.backup == None
  {
    var header := Payloads(s)[..4];
    assert Payloads(s) == header + [Payloads(s)[4]];
    HeaderRead(s, fs);
    StoredAllConcat(NO_SETTINGS, fs, header, Payloads(s)[4]);
    assert RESERVED[0] in RESERVED && RESERVED[1] in RESERVED && RESERVED[2] in RESERVED && RESERVED[3] in RESERVED;
    TrimFixes(s.name);
  }

  // Backup, rollback and commit

  /** After a rollback the file has its old content, and the backup is gone. */
  lemma RollbackUndoes(fs: Files, target: Path, content: string, s: Settings)
    requires s.rollback && s.backup == Some(BackupOf(target))
    ensures var back := RolledBack(Installed(fs, target, content, s), target, s);
            && BackupOf(target) !in back && target in back
            && back[target].content == ContentAt(fs, target)
            && back - {target} == fs - {target, BackupOf(target)}
            && (target in fs ==> back[target] == fs[target])
  {
    BackupDiffers(target);
  }

  /** A rollback restores the files as they were exactly when the file existed before and
      no file had the name of the backup. */
  lemma RollbackRestoresIff(fs: Files, target: Path, content: string, s: Settings)
    requires s.rollback && s.backup == Some(BackupOf(target))
    ensures RolledBack(Installed(fs, target, content, s), target, s) == fs <==> target in fs && BackupOf(target) !in fs
  {
    RollbackUndoes(fs, target, content, s);
    var back := RolledBack(Installed(fs, target, content, s), target, s);
    if target in fs && BackupOf(target) !in fs {
      assert back.Keys == fs.Keys by {
        assert forall k :: k in fs && k != target ==> k in fs - {target, BackupOf(target)} && k in back - {target};
        assert forall k :: k in back && k != target ==> k in back - {target};
      }
      forall k | k in fs ensures back[k] == fs[k] {
        if k != target {
          assert k in back - {target} && (back - {target})[k] == (fs - {target, BackupOf(target)})[k];
        }
      }
    }
  }

  /** What the client does to go back: nothing if the artifact does not support it. */
  method RollBackIfSupported(updater: SingleFileUpdater)
    modifies updater.fs
    ensures updater.fs.files == if updater.settings.rollback then RolledBack(old(updater.fs.files), updater.Target(), updater.settings)
                                else old(updater.fs.files)
  {
    if updater.settings.rollback {
      var ok := updater.Rollback();
    }
  }

  /** The content of the source is installed, and not dropped. */
  predicate Installs(source: Source) { Tight(source.name) && Trim(source.destDir) != "" }

  /** An update in one run of the client, which leaves its settings in the store. */
  method UpdateAndSave(fs: FileSystem, source: Source, store: Store)
    requires source.name !in RESERVED
    modifies fs, store
    ensures store.saved.Some?
    ensures var s, target := store.saved.value, Path(Trim(source.destDir), Trim(source.name));
            && Path(s.destDir, s.filename) == target && s.permissions == ModeOf(source.mode) && s.rollback == source.rollback
            && if Installs(source) then
                 && fs.files == Installed(old(fs.files), target, source.content, s)
                 && (s.backup == if s.rollback then Some(BackupOf(target)) else None)
               else fs.files == old(fs.files) && s.backup == None
  {
    RoundTrip(source, fs.files);
    var payloads := WriteSingleFile(source);
    var updater := new SingleFileUpdater(fs);
    StoreAll(updater, payloads.value);
    updater.SaveState(store);
  }

  /** An update whose state is saved, restored in a later run of the client, and then either
      rolled back or committed.  With an artifact that supports it, rolling back gives the old
      content back, committing keeps the new one, and neither leaves the backup; one that does
      not support it is kept either way.  To roll an update back that was dropped empties the file. */
  method UpdateThenDecide(fs: FileSystem, source: Source, store: Store, commit: bool)
    requires source.name !in RESERVED
    modifies fs, store
    ensures var target := Path(Trim(source.destDir), Trim(source.name));
            var backup := Path(target.dir, target.name + ".tmp");
            if Tight(source.name) && Trim(source.destDir) != "" then
              && target in fs.files
              && fs.files[target].content == (if commit || !source.rollback then source.content
                                              else if target in old(fs.files) then old(fs.files)[target].content else "")
              && fs.files[target].mode == (if target in old(fs.files) then old(fs.files)[target].mode else ModeOf(source.mode))
              && (source.rollback ==> backup !in fs.files)
              && fs.files - {target} == old(fs.files) - (if source.rollback then {target, backup} else {target})
            else
              fs.files == if commit || !source.rollback then old(fs.files) else Written(old(fs.files), target, "", ModeOf(source.mode))
  {
    ghost var before := fs.files;
    UpdateAndSave(fs, source, store);
    var second := new SingleFileUpdater(fs);
    var restored := second.RestoreState(store);
    ghost var target := Path(Trim(source.destDir), Trim(source.name));
    BackupDiffers(target);
    if source.rollback && Installs(source) {
      RollbackUndoes(before, target, source.content, second.settings);
    }
    TrimFixes(source.name);
    if commit {
      second.CommitUpdate();
    } else {
      RollBackIfSupported(second);
    }
  }
}
