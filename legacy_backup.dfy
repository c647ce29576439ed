/**
 * The first version of the backup command: the `backup` function of the
 * command-line program. It runs mariabackup directly, keeps the position in
 * `mariabackup.pos` inside the target directory, and saves the position as
 * soon as the output stream has been copied, without waiting for the tool's
 * exit status.
 */
module LegacyBackup {
  import opened Wrappers
  import opened Text
  import opened Decimal
  import opened Files
  import opened Processes
  import opened Compression
  import Backup

  /** The flags of the `backup` command that `backup` reads. */
  datatype Flags = Flags(
    host: string,
    port: int,
    username: string,
    password: string,
    backupType: string,
    targetDir: Path,
    dataDir: string)

  datatype LegacyError =
    | RemoveTarget(cause: IoError)
    | MakeDirs(cause: IoError)
    | ReadPosition(cause: IoError)
    | CreateArtifact(cause: IoError)
    | StartError
    | CopyFailed
    | CloseFailed
    | SavePositionFailed(cause: IoError)

  function PositionFile(f: Flags): Path {
    f.targetDir + ["mariabackup.pos"]
  }

  /** The arguments both modes share, up to and including `--target_dir`. */
  function Common(f: Flags, path: Path): seq<Arg> {
    [ Word("--host=" + f.host),
      Word("--port=" + Itoa(f.port)),
      Word("--user=" + f.username),
      Word("--password=" + f.password),
      Word("--backup"),
      Word("--version-check"),
      Word("--datadir=" + f.dataDir),
      PathArg("--target_dir=", path) ]
  }

  function FullCommand(f: Flags, path: Path): Invocation {
    Invocation("mariabackup", Common(f, path) + [PathArg("--extra-lsndir=", path), Word("--stream=xbstream")])
  }

  function IncrementalCommand(f: Flags, path: Path, base: Path): Invocation {
    Invocation("mariabackup", Common(f, path) +
      [PathArg("--incremental-basedir=", base), PathArg("--extra-lsndir=", path), Word("--stream=xbstream")])
  }

  /**
   * The directory the artifact goes to, the position to save, and the
   * command; an unknown type leaves the empty path and a command with no
   * program.
   */
  datatype Plan = Plan(path: Path, position: int, command: Option<Invocation>)

  datatype Effect = Effect(disk: Disk, log: seq<Invocation>, err: Option<LegacyError>)

  function PlanBackup(f: Flags, d: Disk): (Disk, Result<Plan, LegacyError>) {
    if f.backupType == "full" then
      var (d1, e1) := d.RemoveAll(f.targetDir);
      if e1.Some? then (d1, Failure(RemoveTarget(e1.value)))
      else
        var path := f.targetDir + ["full"];
        var (d2, e2) := d1.MkdirAll(path);
        if e2.Some? then (d2, Failure(MakeDirs(e2.value)))
        else (d2, Success(Plan(path, 0, Some(FullCommand(f, path)))))
    else if f.backupType == "incr" then
      match d.ReadFile(PositionFile(f))
      case Failure(e) => (d, Failure(ReadPosition(e)))
      case Success(data) =>
        var loaded := Atoi(Chars(data)).value;
        var base := f.targetDir + Backup.Link(loaded);
        var position := AddOne(loaded);
        var path := f.targetDir + ["incr", Itoa(position)];
        var (d1, e1) := d.MkdirAll(path);
        if e1.Some? then (d1, Failure(MakeDirs(e1.value)))
        else (d1, Success(Plan(path, position, Some(IncrementalCommand(f, path, base)))))
    else
      (d, Success(Plan([], 0, None)))
  }

  /** `saveBackupPos` */
  function SavePosition(f: Flags, d: Disk, position: int): (r: (Disk, Option<LegacyError>))
    ensures r.1.None? ==> r.0.IsFile(PositionFile(f)) && r.0.Content(PositionFile(f)) == Bytes(Itoa(position))
  {
    match d.Create(PositionFile(f))
    case Failure(e) => (d, Some(SavePositionFailed(e)))
    case Success(d1) =>
      var text := Bytes(Itoa(position));
      var written := d1.WriteAt(PositionFile(f), 0, text);
      WriteAtFresh(d1, PositionFile(f), text);
      assert text[..|text|] == text;
      (written.0, if written.1 < |text| then Some(SavePositionFailed(NoSpace)) else None)
  }

  /** The stream step's effect, and the gzip writer it leaves open once `backup.gz` was created. */
  datatype Streamed = Streamed(effect: Effect, gzw: Option<Gzw>)

  /** Both files are in different directories or have different names. */
  lemma ArtifactNotPosition(f: Flags, plan: Plan)
    ensures plan.path + ["backup.gz"] != PositionFile(f)
  {
    var a := plan.path + ["backup.gz"];
    assert a[|a| - 1] != PositionFile(f)[|PositionFile(f)| - 1];
  }

  /**
   * The stream step of `backup`: `backup.gz` is created in the backup
   * directory, the tool started and its output copied through the
   * compressor; the tool is never waited for, and the compressor is left
   * open.
   */
  function StreamStep(plan: Plan, d: Disk, run: Invocation -> Process, gz: Compressor): (r: Streamed)
    ensures r.gzw.Some? ==>
      var w := r.gzw.value;
      && w.artifact == plan.path + ["backup.gz"]
      && r.effect.disk.IsFile(w.artifact)
      && (w.healthy ==> r.effect.disk.Content(w.artifact) == gz.body(w.copied))
  {
    var artifact := plan.path + ["backup.gz"];
    match d.Create(artifact)
    case Failure(e) => Streamed(Effect(d, [], Some(CreateArtifact(e))), None)
    case Success(d1) =>
      match plan.command
      case None =>
        // a command with no program cannot start, and nothing is copied
        var (d2, w) := CopyInto(d1, artifact, gz, []);
        Streamed(Effect(d2, [], Some(StartError)), Some(w))
      case Some(inv) =>
        var p := run(inv);
        var (d2, w) := CopyInto(d1, artifact, gz, if p.status.StartFailed? then [] else p.output);
        var err :=
          if p.status.StartFailed? then Some(StartError)
          else if !p.streamOk || !w.healthy then Some(CopyFailed)
          else None;
        Streamed(Effect(d2, [inv], err), Some(w))
  }

  /**
   * `backup`. The deferred `gzw.Close()` runs on the way out, after
   * `saveBackupPos` on the path that reaches it, and its error is dropped;
   * `checkClose` instead closes the compressor, reporting its error, before
   * the position is saved, which the code does not do.
   */
  function BackupSpec(f: Flags, d: Disk, run: Invocation -> Process, gz: Compressor, checkClose: bool): Effect {
    var (d1, planned) := PlanBackup(f, d);
    match planned
    case Failure(e) => Effect(d1, [], Some(e))
    case Success(plan) => Finish(f, plan, d1, run, gz, checkClose)
  }

  /** `backup` from the creation of `backup.gz` on, with the compressor closed last. */
  function Finish(f: Flags, plan: Plan, d: Disk, run: Invocation -> Process, gz: Compressor, checkClose: bool): Effect {
    var s := StreamStep(plan, d, run, gz);
    match s.gzw
    case None => s.effect
    case Some(w) =>
      if s.effect.err.Some? then
        Effect(CloseGzw(s.effect.disk, w, gz).0, s.effect.log, s.effect.err)
      else if checkClose then
        var (d2, closed) := CloseGzw(s.effect.disk, w, gz);
        if !closed then Effect(d2, s.effect.log, Some(CloseFailed))
        else
          var saved := SavePosition(f, d2, plan.position);
          Effect(saved.0, s.effect.log, saved.1)
      else
        var saved := SavePosition(f, s.effect.disk, plan.position);
        ArtifactNotPosition(f, plan);
        SavePositionFrame(f, s.effect.disk, plan.position, w.artifact);
        Effect(CloseGzw(saved.0, w, gz).0, s.effect.log, saved.1)
  }

  /** `saveBackupPos` changes no entry of the disk but the position file. */
  lemma SavePositionFrame(f: Flags, d: Disk, position: int, q: Path)
    requires q != PositionFile(f)
    ensures var r := SavePosition(f, d, position).0;
      (q in r.nodes <==> q in d.nodes) && (q in d.nodes ==> r.nodes[q] == d.nodes[q])
  {
  }

  /** `backup`, with the variables the branches assign and the steps that follow them. */
  method RunBackup(f: Flags, fs: FileSystem, tool: ToolRunner, gz: Compressor)
    returns (err: Option<LegacyError>)
    modifies fs, tool
    ensures var e := BackupSpec(f, old(fs.disk), tool.run, gz, false);
      fs.disk == e.disk && tool.log == old(tool.log) + e.log && err == e.err
  {
    var backupPath: Path := [];
    var command: Option<Invocation> := None;
    var position := 0;
    if f.backupType == "full" {
      var e := fs.RemoveAll(f.targetDir);
      if e.Some? {
        return Some(RemoveTarget(e.value));
      }
      backupPath := f.targetDir + ["full"];
      e := fs.MkdirAll(backupPath);
      if e.Some? {
        return Some(MakeDirs(e.value));
      }
      command := Some(FullCommand(f, backupPath));
      position := 0;
    } else if f.backupType == "incr" {
      var data := fs.ReadFile(PositionFile(f));
      if data.Failure? {
        return Some(ReadPosition(data.error));
      }
      var loaded := Atoi(Chars(data.value)).value;
      var base := f.targetDir + Backup.Link(loaded);
      position := AddOne(loaded);
      backupPath := f.targetDir + ["incr", Itoa(position)];
      var e := fs.MkdirAll(backupPath);
      if e.Some? {
        return Some(MakeDirs(e.value));
      }
      command := Some(IncrementalCommand(f, backupPath, base));
    }
    var plan := Plan(backupPath, position, command);
    assert PlanBackup(f, old(fs.disk)) == (fs.disk, Success(plan));
    err := SaveAndClose(f, plan, fs, tool, gz);
  }

  /** From the creation of `backup.gz` to the return of `backup`, with the deferred close last. */
  method SaveAndClose(f: Flags, plan: Plan, fs: FileSystem, tool: ToolRunner, gz: Compressor)
    returns (err: Option<LegacyError>)
    modifies fs, tool
    ensures var e := Finish(f, plan, old(fs.disk), tool.run, gz, false);
      fs.disk == e.disk && tool.log == old(tool.log) + e.log && err == e.err
  {
    var file: Writer?, copied, healthy;
    err, file, copied, healthy := Stream(plan, fs, tool, gz);
    if file == null {
      return;
    }
    if err.None? {
      ghost var streamed := fs.disk;
      err := SavePositionFile(f, fs, plan.position);
      ArtifactNotPosition(f, plan);
      SavePositionFrame(f, streamed, plan.position, file.path);
    }
    // the deferred `gzw.Close()`, whose error is dropped
    var closed := CloseCompressor(file, gz, copied, healthy);
  }

  /** The stream step of `backup`, from the creation of `backup.gz` to the end of the copy. */
  method Stream(plan: Plan, fs: FileSystem, tool: ToolRunner, gz: Compressor)
    returns (err: Option<LegacyError>, file: Writer?, copied: seq<byte>, healthy: bool)
    modifies fs, tool
    ensures var s := StreamStep(plan, old(fs.disk), tool.run, gz);
      && fs.disk == s.effect.disk && tool.log == old(tool.log) + s.effect.log && err == s.effect.err
      && (file == null <==> s.gzw.None?)
      && (file != null ==>
        && fresh(file) && file.Valid() && file.fs == fs && file.path == plan.path + ["backup.gz"]
        && s.gzw.value == Gzw(file.path, copied, healthy)
        && (healthy ==> file.offset == |gz.body(copied)|))
  {
    copied, healthy := [], false;
    var createErr;
    file, createErr := fs.Create(plan.path + ["backup.gz"]);
    if createErr.Some? {
      return Some(CreateArtifact(createErr.value)), file, copied, healthy;
    }
    ghost var created := fs.disk;
    if plan.command.None? {
      var n, writeErr := file.Write(gz.body(copied));
      healthy := writeErr.None?;
      assert CopyInto(created, file.path, gz, copied) == (fs.disk, Gzw(file.path, copied, healthy));
      return Some(StartError), file, copied, healthy;
    }
    var p := tool.Start(plan.command.value);
    copied := if p.status.StartFailed? then [] else p.output;
    var n, writeErr := file.Write(gz.body(copied));
    healthy := writeErr.None?;
    assert CopyInto(created, file.path, gz, copied) == (fs.disk, Gzw(file.path, copied, healthy));
    if p.status.StartFailed? {
      err := Some(StartError);
    } else if !p.streamOk || writeErr.Some? {
      err := Some(CopyFailed);
    } else {
      err := None;
    }
  }

  /** `saveBackupPos` */
  method SavePositionFile(f: Flags, fs: FileSystem, position: int) returns (err: Option<LegacyError>)
    modifies fs
    ensures (fs.disk, err) == SavePosition(f, old(fs.disk), position)
  {
    var posFile, posErr := fs.Create(PositionFile(f));
    if posErr.Some? {
      return Some(SavePositionFailed(posErr.value));
    }
    var m, e := posFile.Write(Bytes(Itoa(position)));
    if e.Some? {
      return Some(SavePositionFailed(NoSpace));
    }
    return None;
  }

  // Properties

  /**
   * A successful `backup` ran exactly the planned command and left the
   * planned position in the position file.
   */
  lemma Succeeded(f: Flags, d: Disk, run: Invocation -> Process, gz: Compressor, checkClose: bool)
    requires BackupSpec(f, d, run, gz, checkClose).err.None?
    ensures PlanBackup(f, d).1.Success? && PlanBackup(f, d).1.value.command.Some?
    ensures BackupSpec(f, d, run, gz, checkClose).log == [PlanBackup(f, d).1.value.command.value]
    ensures BackupSpec(f, d, run, gz, checkClose).disk.IsFile(PositionFile(f))
    ensures BackupSpec(f, d, run, gz, checkClose).disk.Content(PositionFile(f)) == Bytes(Itoa(PlanBackup(f, d).1.value.position))
  {
    var (d1, planned) := PlanBackup(f, d);
    var s := StreamStep(planned.value, d1, run, gz);
    assert s.effect.log == [planned.value.command.value];
    ArtifactNotPosition(f, planned.value);
  }

  /** Type "full" plans `target/full`, position 0 and the full command. */
  lemma FullPlan(f: Flags, d: Disk)
    requires f.backupType == "full" && PlanBackup(f, d).1.Success?
    ensures PlanBackup(f, d).1.value == Plan(f.targetDir + ["full"], 0, Some(FullCommand(f, f.targetDir + ["full"])))
  {
  }

  /** Type "incr" with position p stored plans link p + 1, based on link p. */
  lemma IncrementalPlan(f: Flags, d: Disk, p: int)
    requires f.backupType == "incr" && 0 <= p < MaxInt64
    requires d.ReadFile(PositionFile(f)) == Success(Bytes(Itoa(p)))
    requires PlanBackup(f, d).1.Success?
    ensures PlanBackup(f, d).1.value
      == Plan(f.targetDir + Backup.Link(p + 1), p + 1, Some(IncrementalCommand(f, f.targetDir + Backup.Link(p + 1), f.targetDir + Backup.Link(p))))
  {
    ParseWrittenPosition(p);
  }

  /** The full command: no base, and the version check on. */
  lemma FullCommandShape(f: Flags, path: Path)
    ensures !HasPathArg(FullCommand(f, path), "--incremental-basedir=")
    ensures Word("--version-check") in FullCommand(f, path).args
  {
    var inv := FullCommand(f, path);
    assert inv.args[5] == Word("--version-check");
    forall a | a in inv.args && a.PathArg?
      ensures a.prefix != "--incremental-basedir="
    {
      assert a == PathArg("--target_dir=", path) || a == PathArg("--extra-lsndir=", path);
    }
  }

  /** Type "full": the tool writes to `target/full` with no base, and position 0 is saved. */
  lemma FullBackup(f: Flags, d: Disk, run: Invocation -> Process, gz: Compressor, checkClose: bool)
    requires f.backupType == "full"
    ensures var e := BackupSpec(f, d, run, gz, checkClose);
      e.err.None? ==>
        && e.log == [FullCommand(f, f.targetDir + ["full"])]
        && !HasPathArg(e.log[0], "--incremental-basedir=")
        && Word("--version-check") in e.log[0].args
        && e.disk.IsFile(PositionFile(f)) && e.disk.Content(PositionFile(f)) == Bytes("0")
  {
    if BackupSpec(f, d, run, gz, checkClose).err.None? {
      Succeeded(f, d, run, gz, checkClose);
      FullPlan(f, d);
      FullCommandShape(f, f.targetDir + ["full"]);
      assert Itoa(0) == "0";
    }
  }

  /**
   * Type "incr" with position p stored: based on link p, written to link
   * p + 1, with `--incremental-basedir` just before `--extra-lsndir`, and
   * position p + 1 saved.
   */
  lemma NextLink(f: Flags, d: Disk, run: Invocation -> Process, gz: Compressor, checkClose: bool, p: int)
    requires f.backupType == "incr" && 0 <= p < MaxInt64
    requires d.ReadFile(PositionFile(f)) == Success(Bytes(Itoa(p)))
    ensures var e := BackupSpec(f, d, run, gz, checkClose);
      var path := f.targetDir + Backup.Link(p + 1);
      e.err.None? ==>
        && e.log == [IncrementalCommand(f, path, f.targetDir + Backup.Link(p))]
        && e.log[0].args[8] == PathArg("--incremental-basedir=", f.targetDir + Backup.Link(p))
        && e.log[0].args[9] == PathArg("--extra-lsndir=", path)
        && Word("--version-check") in e.log[0].args
        && e.disk.IsFile(PositionFile(f))
        && Atoi(Chars(e.disk.Content(PositionFile(f)))) == Conversion(p + 1, Parsed)
  {
    var e := BackupSpec(f, d, run, gz, checkClose);
    if e.err.None? {
      Succeeded(f, d, run, gz, checkClose);
      IncrementalPlan(f, d, p);
      IncrementalCommandShape(f, f.targetDir + Backup.Link(p + 1), f.targetDir + Backup.Link(p));
      ParseWrittenPosition(p + 1);
    }
  }

  /** The incremental command: the base just before `--extra-lsndir`, and the version check on. */
  lemma IncrementalCommandShape(f: Flags, path: Path, base: Path)
    ensures IncrementalCommand(f, path, base).args[8] == PathArg("--incremental-basedir=", base)
    ensures IncrementalCommand(f, path, base).args[9] == PathArg("--extra-lsndir=", path)
    ensures Word("--version-check") in IncrementalCommand(f, path, base).args
  {
    assert IncrementalCommand(f, path, base).args[5] == Word("--version-check");
  }

  /**
   * The position is saved whatever the tool's exit status: the stream step
   * succeeds exactly when `backup.gz` could be created, the tool started and
   * streamed its output, and the part of it written during the copy fit on
   * the disk.
   */
  lemma ExitStatusIgnored(plan: Plan, d: Disk, run: Invocation -> Process, gz: Compressor)
    requires plan.command.Some?
    ensures var p := run(plan.command.value);
      StreamStep(plan, d, run, gz).effect.err.None? <==>
        && d.Create(plan.path + ["backup.gz"]).Success?
        && !p.status.StartFailed? && p.streamOk
        && |gz.body(p.output)| <= d.quota
  {
  }

  /**
   * Any other type takes neither branch: `backup.gz` is created in the
   * working directory, no tool runs, the run fails and no position is saved.
   */
  lemma UnknownType(f: Flags, d: Disk, run: Invocation -> Process, gz: Compressor, checkClose: bool, q: Path)
    requires f.backupType != "full" && f.backupType != "incr"
    requires q != ["backup.gz"]
    ensures var e := BackupSpec(f, d, run, gz, checkClose);
      && e.log == []
      && e.err.Some? && (e.err.value.StartError? || e.err.value.CreateArtifact?)
      && (q in e.disk.nodes <==> q in d.nodes) && (q in d.nodes ==> e.disk.nodes[q] == d.nodes[q])
  {
  }

  /**
   * As written, `backup` returns nil with the position saved while
   * `backup.gz` lacks part of its last block and trailer: the disk had room
   * for the copy and the position text but not for what the deferred close
   * writes after them.
   */
  lemma PositionBeforeTail(f: Flags, plan: Plan, d: Disk, run: Invocation -> Process, gz: Compressor)
    requires plan.command.Some?
    requires var p := run(plan.command.value);
      && d.Create(plan.path + ["backup.gz"]).Success? && d.CreateCheck(PositionFile(f)).None?
      && !p.status.StartFailed? && p.streamOk
      && |gz.body(p.output)| + |Itoa(plan.position)| <= d.quota < |gz.Whole(p.output)| + |Itoa(plan.position)|
    ensures var e := Finish(f, plan, d, run, gz, false);
      var artifact := plan.path + ["backup.gz"];
      && e.err.None?
      && e.disk.IsFile(PositionFile(f)) && e.disk.Content(PositionFile(f)) == Bytes(Itoa(plan.position))
      && e.disk.IsFile(artifact) && |e.disk.Content(artifact)| < |gz.Whole(run(plan.command.value).output)|
  {
    var artifact := plan.path + ["backup.gz"];
    ExitStatusIgnored(plan, d, run, gz);
    ArtifactNotPosition(f, plan);
    assert artifact != f.targetDir by {
      assert d.IsDir(Parent(PositionFile(f))) && !d.IsDir(artifact);
      assert Parent(PositionFile(f)) == f.targetDir;
    }
    var s := StreamStep(plan, d, run, gz);
    assert s.effect.disk.CreateCheck(PositionFile(f)).None?;
    SavePositionFrame(f, s.effect.disk, plan.position, artifact);
  }

  /**
   * With the compressor closed, and its error checked, before the position
   * is saved, a `backup` that returns nil leaves the whole compressed output
   * in `backup.gz` and the position in the position file.
   */
  lemma ClosedBeforePosition(f: Flags, plan: Plan, d: Disk, run: Invocation -> Process, gz: Compressor)
    requires plan.command.Some?
    ensures var e := Finish(f, plan, d, run, gz, true);
      var artifact := plan.path + ["backup.gz"];
      e.err.None? ==>
        && e.disk.IsFile(artifact) && e.disk.Content(artifact) == gz.Whole(run(plan.command.value).output)
        && e.disk.IsFile(PositionFile(f)) && e.disk.Content(PositionFile(f)) == Bytes(Itoa(plan.position))
  {
    var artifact := plan.path + ["backup.gz"];
    if Finish(f, plan, d, run, gz, true).err.None? {
      ExitStatusIgnored(plan, d, run, gz);
      var output := run(plan.command.value).output;
      var d1 := d.Create(artifact).value;
      CopyThenClose(d1, artifact, gz, output);
      WriteAtFresh(d1, artifact, gz.Whole(output));
      assert gz.Whole(output)[..|gz.Whole(output)|] == gz.Whole(output);
      ArtifactNotPosition(f, plan);
      var (d2, w) := CopyInto(d1, artifact, gz, output);
      SavePositionFrame(f, CloseGzw(d2, w, gz).0, plan.position, artifact);
    }
  }
}
