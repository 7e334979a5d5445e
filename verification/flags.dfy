/** `initFlag`: validation of the three command-line values and
    normalisation of the backup directory. The values arrive as parameters;
    parsing the command line and printing the usage text are not modelled. */
module Flags {
  import opened Wrappers

  const ModeDebugName: string := "debug"
  const ModeDeleteName: string := "delete"
  const ModeBackupName: string := "backup"

  /** The three disposition modes: report only, remove, move to backup. */
  datatype Mode = Debug | Delete | Backup

  function ModeName(m: Mode): string {
    match m
    case Debug => ModeDebugName
    case Delete => ModeDeleteName
    case Backup => ModeBackupName
  }

  function ParseMode(s: string): Option<Mode> {
    if s == ModeDebugName then Some(Debug)
    else if s == ModeDeleteName then Some(Delete)
    else if s == ModeBackupName then Some(Backup)
    else None
  }

  /** Mode names and modes correspond one to one. */
  lemma ModeNameRoundTrip(m: Mode, s: string)
    ensures ParseMode(ModeName(m)) == Some(m)
    ensures ParseMode(s).Some? ==> ModeName(ParseMode(s).value) == s
  {
  }

  /** An accepted configuration: what the rest of the program reads from
      the flag globals. */
  datatype Config = Config(mode: Mode, path: string, backupPath: string)

  /** The four rejections, in the order `initFlag` checks them. */
  datatype FlagError = ModeMissing | PathMissing | ModeInvalid | BackupPathRequired

  predicate EndsWithSlash(s: string) {
    |s| > 0 && s[|s| - 1] == '/'
  }

  /** `strings.HasSuffix(p, "/")`, else `p + "/"`. */
  function WithTrailingSlash(p: string): (r: string)
    ensures EndsWithSlash(r)
    ensures p <= r && |r| <= |p| + 1
  {
    if EndsWithSlash(p) then p else p + "/"
  }

  /** Normalising twice is normalising once, and a path already ending in
      '/' is left alone. */
  lemma WithTrailingSlashIdempotent(p: string)
    ensures WithTrailingSlash(WithTrailingSlash(p)) == WithTrailingSlash(p)
    ensures EndsWithSlash(p) <==> WithTrailingSlash(p) == p
  {
  }

  /** The accepted inputs: a known non-empty mode, a non-empty scan path,
      and a backup directory whenever the mode is backup. */
  predicate Acceptable(mode: string, path: string, backupPath: string) {
    && mode != "" && path != ""
    && ParseMode(mode).Some?
    && (mode == ModeBackupName ==> backupPath != "")
  }

  function InitFlag(mode: string, path: string, backupPath: string): (r: Result<Config, FlagError>)
    ensures r.Success? <==> Acceptable(mode, path, backupPath)
    ensures r.Success? ==>
              && ModeName(r.value.mode) == mode
              && r.value.path == path
              && EndsWithSlash(r.value.backupPath)
              && backupPath <= r.value.backupPath && |r.value.backupPath| <= |backupPath| + 1
              && (EndsWithSlash(backupPath) ==> r.value.backupPath == backupPath)
    ensures mode == "" ==> r == Failure(ModeMissing)
    ensures mode != "" && path == "" ==> r == Failure(PathMissing)
    ensures mode != "" && path != "" && ParseMode(mode).None? ==> r == Failure(ModeInvalid)
    ensures mode == ModeBackupName && path != "" && backupPath == "" ==> r == Failure(BackupPathRequired)
  {
    if mode == "" then Failure(ModeMissing)
    else if path == "" then Failure(PathMissing)
    else if mode != ModeDebugName && mode != ModeDeleteName && mode != ModeBackupName then Failure(ModeInvalid)
    else if mode == ModeBackupName && backupPath == "" then Failure(BackupPathRequired)
    else Success(Config(ParseMode(mode).value, path, WithTrailingSlash(backupPath)))
  }

  /** Feeding an accepted configuration back through `initFlag` accepts it
      unchanged: the normalisation is a fixed point. */
  lemma InitFlagStable(mode: string, path: string, backupPath: string)
    requires InitFlag(mode, path, backupPath).Success?
    ensures var c := InitFlag(mode, path, backupPath).value;
            InitFlag(ModeName(c.mode), c.path, c.backupPath) == Success(c)
  {
    var c := InitFlag(mode, path, backupPath).value;
    ModeNameRoundTrip(c.mode, mode);
    WithTrailingSlashIdempotent(backupPath);
  }

  /** Outside backup mode the backup directory may be empty; it is still
      normalised, to "/". */
  lemma EmptyBackupPathOutsideBackup(mode: string, path: string)
    requires Acceptable(mode, path, "") && mode != ModeBackupName
    ensures InitFlag(mode, path, "") == Success(Config(ParseMode(mode).value, path, "/"))
  {
    assert "" + "/" == "/";
  }
}
