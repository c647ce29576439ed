/**
 * The backup orchestrator: a full backup into `target/full`, or an
 * incremental one into `target/incr/<p+1>` on top of the link at the stored
 * chain position p, followed by saving the new position as decimal text.
 */
module Backup {
  import opened Wrappers
  import opened Text
  import opened Decimal
  import opened Files
  import opened Processes
  import opened Compression

  const FullMode := "full"
  const IncrementalMode := "incremental"

  datatype BackupManager = BackupManager(
    targetDirectory: Path,
    host: string,
    port: int,
    username: string,
    password: string,
    mode: string,
    dataDirectory: string,
    binary: string,
    positionFile: Path,
    blockSize: int,
    threads: int,
    parallel: int)
  {
    predicate Supported() {
      mode == FullMode || mode == IncrementalMode
    }
  }

  datatype BackupError =
    | InvalidMode(mode: string)
    | RemoveTarget(cause: IoError)
    | MakeDirs(cause: IoError)
    | ReadPosition(cause: IoError)
    | CreateArtifact(cause: IoError)
    | CompressorSettings
    | StartError
    | CopyFailed
    | WaitError(fault: WaitFault)
    | CloseFailed
    | SavePositionFailed(cause: IoError)

  /** `CreateBackupManager`: only the two known modes give a manager. */
  function CreateBackupManager(
    targetDirectory: Path, host: string, port: int, username: string, password: string,
    mode: string, dataDirectory: string, binary: string, positionFile: Path,
    blockSize: int, threads: int, parallel: int): (r: Result<BackupManager, BackupError>)
    ensures r.Success? <==> mode == FullMode || mode == IncrementalMode
    ensures r.Success? ==> r.value.Supported() && r.value.mode == mode
    ensures r.Success? ==> r.value == BackupManager(targetDirectory, host, port, username, password, mode,
      dataDirectory, binary, positionFile, blockSize, threads, parallel)
    ensures r.Failure? ==> r.error == InvalidMode(mode)
  {
    if mode != FullMode && mode != IncrementalMode then
      Failure(InvalidMode(mode))
    else
      Success(BackupManager(targetDirectory, host, port, username, password, mode,
        dataDirectory, binary, positionFile, blockSize, threads, parallel))
  }

  /** The directory of chain link i below the backup directory: `full` for 0, `incr/<i>` otherwise. */
  function Link(i: int): (p: Path)
    ensures |p| > 0
  {
    if i == 0 then ["full"] else ["incr", Itoa(i)]
  }

  /** Where this backup goes, the position it will save, and the link it is based on. */
  datatype Plan = Plan(path: Path, position: int, base: Option<Path>)

  /** The mode branches of `Backup`: the directory made ready and the plan, or why not. */
  function PlanBackup(b: BackupManager, d: Disk): (Disk, Result<Plan, BackupError>) {
    if b.mode == FullMode then
      var (d1, e1) := d.RemoveAll(b.targetDirectory);
      if e1.Some? then (d1, Failure(RemoveTarget(e1.value)))
      else
        var path := b.targetDirectory + ["full"];
        var (d2, e2) := d1.MkdirAll(path);
        if e2.Some? then (d2, Failure(MakeDirs(e2.value)))
        else (d2, Success(Plan(path, 0, None)))
    else if b.mode == IncrementalMode then
      match d.ReadFile(b.positionFile)
      case Failure(e) => (d, Failure(ReadPosition(e)))
      case Success(data) =>
        // the conversion error is dropped: only the value is used
        var loaded := Atoi(Chars(data)).value;
        var position := AddOne(loaded);
        var path := b.targetDirectory + ["incr", Itoa(position)];
        var (d1, e1) := d.MkdirAll(path);
        if e1.Some? then (d1, Failure(MakeDirs(e1.value)))
        else (d1, Success(Plan(path, position, Some(b.targetDirectory + Link(loaded)))))
    else
      (d, Success(Plan([], 0, None)))
  }

  /** The mariabackup command line, run through `stdbuf` so that its output is block-buffered. */
  function Command(b: BackupManager, plan: Plan): Invocation {
    Invocation("stdbuf", [
      Word("--output=4M"),
      Word(b.binary),
      Word("--host=" + b.host),
      Word("--port=" + Itoa(b.port)),
      Word("--user=" + b.username),
      Word("--password=" + b.password),
      Word("--backup"),
      Word("--datadir=" + b.dataDirectory),
      PathArg("--target_dir=", plan.path),
      PathArg("--extra-lsndir=", plan.path),
      Word("--parallel=" + Itoa(b.parallel)),
      Word("--stream=xbstream")
    ] + (if plan.base.Some? then [PathArg("--incremental-basedir=", plan.base.value)] else []))
  }

  /** What a step did: the disk after it, the programs it started, and its error. */
  datatype Effect = Effect(disk: Disk, log: seq<Invocation>, err: Option<BackupError>)

  function Artifact(plan: Plan): Path {
    plan.path + ["backup.gz"]
  }

  /**
   * `executeCommandAndSaveOutput`: the tool's output goes through the
   * compressor into `backup.gz` in the backup directory, and the deferred
   * `gzw.Close()` writes the tail on every return after it was deferred,
   * its error dropped. `checkClose` reports that error when nothing failed
   * before, which the code does not do.
   */
  function ArtifactStep(b: BackupManager, plan: Plan, d: Disk, run: Invocation -> Process,
    gz: Compressor, accepts: (int, int) -> bool, checkClose: bool): Effect
  {
    var artifact := Artifact(plan);
    match d.Create(artifact)
    case Failure(e) => Effect(d, [], Some(CreateArtifact(e)))
    case Success(d1) =>
      if !accepts(b.blockSize, b.threads) then Effect(d1, [], Some(CompressorSettings))
      else
        var inv := Command(b, plan);
        var p := run(inv);
        // a tool that did not start gives nothing to copy, and `Close` writes the empty stream
        var (d2, w) := CopyInto(d1, artifact, gz, if p.status.StartFailed? then [] else p.output);
        var (d3, closed) := CloseGzw(d2, w, gz);
        var err :=
          if p.status.StartFailed? then Some(StartError)
          else if !p.streamOk || !w.healthy then Some(CopyFailed)
          else if Waited(p.status).Some? then Some(WaitError(Waited(p.status).value))
          else if checkClose && !closed then Some(CloseFailed)
          else None;
        Effect(d3, [inv], err)
  }

  /** `saveBackupPosition`: the file is truncated and the decimal text of the position written. */
  function SavePosition(d: Disk, file: Path, position: int): (r: (Disk, Option<BackupError>))
    ensures r.1.None? ==> r.0.IsFile(file) && r.0.Content(file) == Bytes(Itoa(position))
  {
    match d.Create(file)
    case Failure(e) => (d, Some(SavePositionFailed(e)))
    case Success(d1) =>
      var text := Bytes(Itoa(position));
      var written := d1.WriteAt(file, 0, text);
      WriteAtFresh(d1, file, text);
      assert text[..|text|] == text;
      (written.0, if written.1 < |text| then Some(SavePositionFailed(NoSpace)) else None)
  }

  /** `Backup` */
  function BackupSpec(b: BackupManager, d: Disk, run: Invocation -> Process,
    gz: Compressor, accepts: (int, int) -> bool, checkClose: bool): Effect
  {
    var (d1, planned) := PlanBackup(b, d);
    match planned
    case Failure(e) => Effect(d1, [], Some(e))
    case Success(plan) =>
      var a := ArtifactStep(b, plan, d1, run, gz, accepts, checkClose);
      if a.err.Some? then a
      else
        var saved := SavePosition(a.disk, b.positionFile, plan.position);
        Effect(saved.0, a.log, saved.1)
  }

  method ExecuteCommandAndSaveOutput(b: BackupManager, plan: Plan, fs: FileSystem, tool: ToolRunner,
    gz: Compressor, accepts: (int, int) -> bool) returns (err: Option<BackupError>)
    modifies fs, tool
    ensures var e := ArtifactStep(b, plan, old(fs.disk), tool.run, gz, accepts, false);
      fs.disk == e.disk && tool.log == old(tool.log) + e.log && err == e.err
  {
    var file, createErr := fs.Create(Artifact(plan));
    if createErr.Some? {
      return Some(CreateArtifact(createErr.value));
    }
    if !accepts(b.blockSize, b.threads) {
      return Some(CompressorSettings);
    }
    var p := tool.Start(Command(b, plan));
    var copied := if p.status.StartFailed? then [] else p.output;
    ghost var created := fs.disk;
    var n, writeErr := file.Write(gz.body(copied));
    assert CopyInto(created, Artifact(plan), gz, copied) == (fs.disk, Gzw(Artifact(plan), copied, writeErr.None?));
    if p.status.StartFailed? {
      err := Some(StartError);
    } else if !p.streamOk || writeErr.Some? {
      err := Some(CopyFailed);
    } else {
      var waitErr := Waited(p.status);
      if waitErr.Some? {
        err := Some(WaitError(waitErr.value));
      } else {
        if p.status.code != 0 {
          assert false;
        }
        err := None;
      }
    }
    // the deferred `gzw.Close()`, whose error is dropped
    var closed := CloseCompressor(file, gz, copied, writeErr.None?);
  }

  method SaveBackupPosition(fs: FileSystem, file: Path, position: int) returns (err: Option<BackupError>)
    modifies fs
    ensures (fs.disk, err) == SavePosition(old(fs.disk), file, position)
  {
    var f, createErr := fs.Create(file);
    if createErr.Some? {
      return Some(SavePositionFailed(createErr.value));
    }
    var n, writeErr := f.Write(Bytes(Itoa(position)));
    if writeErr.Some? {
      return Some(SavePositionFailed(NoSpace));
    }
    return None;
  }

  /** `Backup`: the mode branch, the tool run, then the position saved. */
  method RunBackup(b: BackupManager, fs: FileSystem, tool: ToolRunner,
    gz: Compressor, accepts: (int, int) -> bool) returns (err: Option<BackupError>)
    modifies fs, tool
    ensures var e := BackupSpec(b, old(fs.disk), tool.run, gz, accepts, false);
      fs.disk == e.disk && tool.log == old(tool.log) + e.log && err == e.err
  {
    var path: Path := [];
    var position := 0;
    var base: Option<Path> := None;
    if b.mode == FullMode {
      var e := fs.RemoveAll(b.targetDirectory);
      if e.Some? {
        return Some(RemoveTarget(e.value));
      }
      path := b.targetDirectory + ["full"];
      e := fs.MkdirAll(path);
      if e.Some? {
        return Some(MakeDirs(e.value));
      }
    } else if b.mode == IncrementalMode {
      var data := fs.ReadFile(b.positionFile);
      if data.Failure? {
        return Some(ReadPosition(data.error));
      }
      var loaded := Atoi(Chars(data.value)).value;
      base := Some(b.targetDirectory + Link(loaded));
      position := AddOne(loaded);
      path := b.targetDirectory + ["incr", Itoa(position)];
      var e := fs.MkdirAll(path);
      if e.Some? {
        return Some(MakeDirs(e.value));
      }
    }
    var plan := Plan(path, position, base);
    assert PlanBackup(b, old(fs.disk)) == (fs.disk, Success(plan));
    err := ExecuteCommandAndSaveOutput(b, plan, fs, tool, gz, accepts);
    if err.Some? {
      return;
    }
    err := SaveBackupPosition(fs, b.positionFile, position);
  }

  // Properties of the orchestrator

  /**
   * A successful `Backup` ran exactly the planned command and left the
   * planned position in the position file.
   */
  lemma Succeeded(b: BackupManager, d: Disk, run: Invocation -> Process,
    gz: Compressor, accepts: (int, int) -> bool, checkClose: bool)
    requires BackupSpec(b, d, run, gz, accepts, checkClose).err.None?
    ensures PlanBackup(b, d).1.Success?
    ensures BackupSpec(b, d, run, gz, accepts, checkClose).log == [Command(b, PlanBackup(b, d).1.value)]
    ensures BackupSpec(b, d, run, gz, accepts, checkClose).disk.IsFile(b.positionFile)
    ensures BackupSpec(b, d, run, gz, accepts, checkClose).disk.Content(b.positionFile)
      == Bytes(Itoa(PlanBackup(b, d).1.value.position))
  {
    var (d1, planned) := PlanBackup(b, d);
    var a := ArtifactStep(b, planned.value, d1, run, gz, accepts, checkClose);
    assert a.log == [Command(b, planned.value)];
  }

  /** The full branch plans `target/full`, position 0 and no base. */
  lemma FullPlan(b: BackupManager, d: Disk)
    requires b.mode == FullMode && PlanBackup(b, d).1.Success?
    ensures PlanBackup(b, d).1.value == Plan(b.targetDirectory + ["full"], 0, None)
  {
  }

  /** The incremental branch plans the link after the one the stored text denotes, based on that one. */
  lemma IncrementalPlan(b: BackupManager, d: Disk, data: seq<byte>)
    requires b.mode == IncrementalMode && d.ReadFile(b.positionFile) == Success(data)
    requires PlanBackup(b, d).1.Success?
    ensures PlanBackup(b, d).1.value == Plan(b.targetDirectory + ["incr", Itoa(AddOne(Atoi(Chars(data)).value))],
      AddOne(Atoi(Chars(data)).value), Some(b.targetDirectory + Link(Atoi(Chars(data)).value)))
  {
  }

  /** A full backup runs the tool into `target/full` with no base, and then position 0 is on disk. */
  lemma FullBackup(b: BackupManager, d: Disk, run: Invocation -> Process,
    gz: Compressor, accepts: (int, int) -> bool, checkClose: bool)
    requires b.mode == FullMode
    ensures var e := BackupSpec(b, d, run, gz, accepts, checkClose);
      e.err.None? ==>
        && e.log == [Command(b, Plan(b.targetDirectory + ["full"], 0, None))]
        && !HasPathArg(e.log[0], "--incremental-basedir=")
        && e.disk.IsFile(b.positionFile) && e.disk.Content(b.positionFile) == Bytes("0")
  {
    if BackupSpec(b, d, run, gz, accepts, checkClose).err.None? {
      Succeeded(b, d, run, gz, accepts, checkClose);
      FullPlan(b, d);
      NoBaseWithoutBase(b, b.targetDirectory + ["full"], 0);
      assert Itoa(0) == "0";
    }
  }

  /** A plan with no base gives a command line without `--incremental-basedir`. */
  lemma NoBaseWithoutBase(b: BackupManager, path: Path, position: int)
    ensures !HasPathArg(Command(b, Plan(path, position, None)), "--incremental-basedir=")
  {
    var inv := Command(b, Plan(path, position, None));
    forall a | a in inv.args && a.PathArg?
      ensures a.prefix != "--incremental-basedir="
    {
      assert a == PathArg("--target_dir=", path) || a == PathArg("--extra-lsndir=", path);
    }
  }

  /**
   * An incremental backup from stored position text: based on the link the
   * text denotes, written to `incr/<loaded+1>`, and that position saved.
   */
  lemma IncrementalBackup(b: BackupManager, d: Disk, run: Invocation -> Process,
    gz: Compressor, accepts: (int, int) -> bool, checkClose: bool, data: seq<byte>)
    requires b.mode == IncrementalMode
    requires d.ReadFile(b.positionFile) == Success(data)
    ensures var loaded := Atoi(Chars(data)).value;
      var position := AddOne(loaded);
      var e := BackupSpec(b, d, run, gz, accepts, checkClose);
      e.err.None? ==>
        && e.log == [Command(b, Plan(b.targetDirectory + ["incr", Itoa(position)], position, Some(b.targetDirectory + Link(loaded))))]
        && Last(e.log[0].args) == PathArg("--incremental-basedir=", b.targetDirectory + Link(loaded))
        && e.disk.IsFile(b.positionFile) && e.disk.Content(b.positionFile) == Bytes(Itoa(position))
  {
    if BackupSpec(b, d, run, gz, accepts, checkClose).err.None? {
      Succeeded(b, d, run, gz, accepts, checkClose);
      IncrementalPlan(b, d, data);
    }
  }

  function Last<T>(s: seq<T>): T
    requires |s| > 0
  {
    s[|s| - 1]
  }

  /**
   * The chain step: with position p stored, the next incremental backup is
   * based on link p, goes to link p + 1, and leaves position p + 1 stored,
   * as text that parses back to p + 1.
   */
  lemma NextLink(b: BackupManager, d: Disk, run: Invocation -> Process,
    gz: Compressor, accepts: (int, int) -> bool, checkClose: bool, p: int)
    requires b.mode == IncrementalMode && 0 <= p < MaxInt64
    requires d.ReadFile(b.positionFile) == Success(Bytes(Itoa(p)))
    ensures var e := BackupSpec(b, d, run, gz, accepts, checkClose);
      e.err.None? ==>
        && e.log == [Command(b, Plan(b.targetDirectory + Link(p + 1), p + 1, Some(b.targetDirectory + Link(p))))]
        && e.disk.IsFile(b.positionFile)
        && Atoi(Chars(e.disk.Content(b.positionFile))) == Conversion(p + 1, Parsed)
  {
    ParseWrittenPosition(p);
    if BackupSpec(b, d, run, gz, accepts, checkClose).err.None? {
      Succeeded(b, d, run, gz, accepts, checkClose);
      IncrementalPlan(b, d, Bytes(Itoa(p)));
      ParseWrittenPosition(p + 1);
    }
  }

  /** An unreadable position file ends an incremental backup before any directory is made or tool run. */
  lemma ReadFailureAborts(b: BackupManager, d: Disk, run: Invocation -> Process,
    gz: Compressor, accepts: (int, int) -> bool, checkClose: bool)
    requires b.mode == IncrementalMode && d.ReadFile(b.positionFile).Failure?
    ensures BackupSpec(b, d, run, gz, accepts, checkClose) == Effect(d, [], Some(ReadPosition(d.ReadFile(b.positionFile).error)))
  {
  }

  /** Text that does not parse (an empty file, say) counts as position 0: base `full`, new position 1. */
  lemma UnparseablePosition(b: BackupManager, d: Disk, data: seq<byte>)
    requires b.mode == IncrementalMode && d.ReadFile(b.positionFile) == Success(data)
    requires Atoi(Chars(data)).status == SyntaxError
    ensures PlanBackup(b, d).1.Success? ==>
      PlanBackup(b, d).1.value == Plan(b.targetDirectory + ["incr", "1"], 1, Some(b.targetDirectory + ["full"]))
  {
    assert Itoa(1) == "1";
  }

  /**
   * `executeCommandAndSaveOutput` succeeds exactly when the artifact could be
   * created, the compressor took its settings, the tool streamed all its
   * output, the part written during the copy fit on the disk, and the tool
   * exited with code 0; the tail counts only where the close is checked.
   */
  lemma ArtifactStepSucceeds(b: BackupManager, plan: Plan, d: Disk, run: Invocation -> Process,
    gz: Compressor, accepts: (int, int) -> bool, checkClose: bool)
    ensures var p := run(Command(b, plan));
      ArtifactStep(b, plan, d, run, gz, accepts, checkClose).err.None? <==>
        && d.Create(Artifact(plan)).Success?
        && accepts(b.blockSize, b.threads)
        && p.status == Exited(0) && p.streamOk
        && |gz.body(p.output)| <= d.quota
        && (checkClose ==> |gz.Whole(p.output)| <= d.quota)
  {
    if d.Create(Artifact(plan)).Success? && accepts(b.blockSize, b.threads) {
      var p := run(Command(b, plan));
      CopyThenClose(d.Create(Artifact(plan)).value, Artifact(plan), gz, if p.status.StartFailed? then [] else p.output);
    }
  }

  /**
   * Once the tool was run, the artifact holds its compressed output, cut
   * where the disk filled, whatever `executeCommandAndSaveOutput` returns.
   */
  lemma ArtifactStepContent(b: BackupManager, plan: Plan, d: Disk, run: Invocation -> Process,
    gz: Compressor, accepts: (int, int) -> bool, checkClose: bool)
    requires d.Create(Artifact(plan)).Success? && accepts(b.blockSize, b.threads)
    ensures var p := run(Command(b, plan));
      var whole := gz.Whole(if p.status.StartFailed? then [] else p.output);
      var e := ArtifactStep(b, plan, d, run, gz, accepts, checkClose);
      e.disk.IsFile(Artifact(plan)) && e.disk.Content(Artifact(plan)) == whole[..Min(d.quota, |whole|)]
  {
    var p := run(Command(b, plan));
    ClosedArtifact(d.Create(Artifact(plan)).value, Artifact(plan), gz, if p.status.StartFailed? then [] else p.output);
  }

  /**
   * As written, `executeCommandAndSaveOutput` returns nil for an artifact
   * missing its last block and trailer: the close that writes them is
   * deferred and its error dropped.
   */
  lemma TruncatedArtifactAccepted(b: BackupManager, plan: Plan, d: Disk, run: Invocation -> Process,
    gz: Compressor, accepts: (int, int) -> bool)
    requires d.Create(Artifact(plan)).Success? && accepts(b.blockSize, b.threads)
    requires run(Command(b, plan)).status == Exited(0) && run(Command(b, plan)).streamOk
    requires |gz.body(run(Command(b, plan)).output)| <= d.quota < |gz.Whole(run(Command(b, plan)).output)|
    ensures var e := ArtifactStep(b, plan, d, run, gz, accepts, false);
      && e.err.None?
      && e.disk.IsFile(Artifact(plan))
      && |e.disk.Content(Artifact(plan))| < |gz.Whole(run(Command(b, plan)).output)|
  {
    ArtifactStepSucceeds(b, plan, d, run, gz, accepts, false);
    ArtifactStepContent(b, plan, d, run, gz, accepts, false);
  }

  /** With the close checked, a step that returns nil leaves the whole compressed output in the artifact. */
  lemma CheckedCloseComplete(b: BackupManager, plan: Plan, d: Disk, run: Invocation -> Process,
    gz: Compressor, accepts: (int, int) -> bool)
    ensures var e := ArtifactStep(b, plan, d, run, gz, accepts, true);
      e.err.None? ==> e.disk.IsFile(Artifact(plan)) && e.disk.Content(Artifact(plan)) == gz.Whole(run(Command(b, plan)).output)
  {
    if ArtifactStep(b, plan, d, run, gz, accepts, true).err.None? {
      ArtifactStepSucceeds(b, plan, d, run, gz, accepts, true);
      ArtifactStepContent(b, plan, d, run, gz, accepts, true);
      var whole := gz.Whole(run(Command(b, plan)).output);
      assert whole[..|whole|] == whole;
    }
  }

  /**
   * With the close checked, a `Backup` that returns nil has saved the
   * position of a complete artifact, for a position file outside the backup
   * directory.
   */
  lemma CheckedBackupComplete(b: BackupManager, d: Disk, run: Invocation -> Process,
    gz: Compressor, accepts: (int, int) -> bool)
    requires b.Supported() && !(b.targetDirectory <= b.positionFile)
    ensures var e := BackupSpec(b, d, run, gz, accepts, true);
      e.err.None? ==>
        && PlanBackup(b, d).1.Success?
        && var plan := PlanBackup(b, d).1.value;
        && e.disk.IsFile(Artifact(plan))
        && e.disk.Content(Artifact(plan)) == gz.Whole(run(Command(b, plan)).output)
        && e.disk.Content(b.positionFile) == Bytes(Itoa(plan.position))
  {
    var e := BackupSpec(b, d, run, gz, accepts, true);
    var (d1, planned) := PlanBackup(b, d);
    if e.err.None? {
      var plan := planned.value;
      var a := ArtifactStep(b, plan, d1, run, gz, accepts, true);
      assert a.err.None? && e.disk == SavePosition(a.disk, b.positionFile, plan.position).0;
      PlanUnderTarget(b, d);
      CheckedCloseComplete(b, plan, d1, run, gz, accepts);
      SavePositionFrame(a.disk, b.positionFile, plan.position, Artifact(plan));
    }
  }

  /** The artifact of a supported mode is in the backup directory. */
  lemma PlanUnderTarget(b: BackupManager, d: Disk)
    requires b.Supported() && PlanBackup(b, d).1.Success?
    ensures b.targetDirectory <= Artifact(PlanBackup(b, d).1.value)
  {
  }

  /** `saveBackupPosition` changes no entry of the disk but the position file. */
  lemma SavePositionFrame(d: Disk, file: Path, position: int, q: Path)
    requires q != file
    ensures var r := SavePosition(d, file, position).0;
      (q in r.nodes <==> q in d.nodes) && (q in d.nodes ==> r.nodes[q] == d.nodes[q])
  {
  }

  /** The artifact step changes no entry of the disk but the artifact. */
  lemma ArtifactStepFrame(b: BackupManager, plan: Plan, d: Disk, run: Invocation -> Process,
    gz: Compressor, accepts: (int, int) -> bool, checkClose: bool, q: Path)
    requires q != Artifact(plan)
    ensures var e := ArtifactStep(b, plan, d, run, gz, accepts, checkClose);
      (q in e.disk.nodes <==> q in d.nodes) && (q in d.nodes ==> e.disk.nodes[q] == d.nodes[q])
  {
  }

  /** The position text written back by `saveBackupPosition` parses to the position saved. */
  lemma SavedPositionParses(d: Disk, file: Path, position: int)
    requires IsInt64(position)
    ensures var saved := SavePosition(d, file, position);
      saved.1.None? ==> saved.0.IsFile(file) && Atoi(Chars(saved.0.Content(file))) == Conversion(position, Parsed)
  {
    ParseWrittenPosition(position);
  }

  /**
   * The position file is rewritten only after the artifact step succeeded:
   * an error from any earlier step leaves it as it was, as long as it does
   * not lie under the backup directory, which a full backup clears.
   */
  lemma PositionKeptOnFailure(b: BackupManager, d: Disk, run: Invocation -> Process,
    gz: Compressor, accepts: (int, int) -> bool, checkClose: bool)
    requires b.Supported()
    requires !(b.targetDirectory <= b.positionFile) && !(b.positionFile <= b.targetDirectory)
    ensures var e := BackupSpec(b, d, run, gz, accepts, checkClose);
      e.err.Some? && !e.err.value.SavePositionFailed? ==>
        && (b.positionFile in e.disk.nodes <==> b.positionFile in d.nodes)
        && (b.positionFile in d.nodes ==> e.disk.nodes[b.positionFile] == d.nodes[b.positionFile])
  {
    var e := BackupSpec(b, d, run, gz, accepts, checkClose);
    var (d1, planned) := PlanBackup(b, d);
    PlanKeepsOutside(b, d, b.positionFile);
    if planned.Success? {
      var a := ArtifactStep(b, planned.value, d1, run, gz, accepts, checkClose);
      ArtifactStepFrame(b, planned.value, d1, run, gz, accepts, checkClose, b.positionFile);
      if a.err.Some? {
        assert e == a;
      }
    }
  }

  /**
   * The mode branches change no entry neither below nor above the backup
   * directory, and the artifact they plan is not such an entry.
   */
  lemma PlanKeepsOutside(b: BackupManager, d: Disk, f: Path)
    requires b.Supported()
    requires !(b.targetDirectory <= f) && !(f <= b.targetDirectory)
    ensures (f in PlanBackup(b, d).0.nodes <==> f in d.nodes)
    ensures f in d.nodes ==> PlanBackup(b, d).0.nodes[f] == d.nodes[f]
    ensures PlanBackup(b, d).1.Success? ==> Artifact(PlanBackup(b, d).1.value) != f
  {
    if b.mode == FullMode {
      NotBelow(f, b.targetDirectory, ["full"]);
      var (r, _) := d.RemoveAll(b.targetDirectory);
      assert (f in r.nodes <==> f in d.nodes) && (f in d.nodes ==> r.nodes[f] == d.nodes[f]);
    } else if d.ReadFile(f).Success? {
      NotBelow(f, b.targetDirectory, ["incr", Itoa(AddOne(Atoi(Chars(d.ReadFile(f).value)).value))]);
    }
    if PlanBackup(b, d).1.Success? {
      assert b.targetDirectory <= Artifact(PlanBackup(b, d).1.value);
    }
  }

  /** A path neither below nor above t is not above anything below t. */
  lemma NotBelow(f: Path, t: Path, suffix: Path)
    requires !(t <= f) && !(f <= t)
    ensures !(f <= t + suffix)
  {
    if |f| <= |t| {
      assert (t + suffix)[..|f|] == t[..|f|];
    } else if |f| <= |t + suffix| {
      assert (t + suffix)[..|t|] == t;
    }
  }

  /**
   * Where the position file sits in the backup directory (the default
   * layout), a full backup that fails after clearing the directory leaves
   * no position file, so a following incremental backup cannot start.
   */
  lemma FullFailureDropsPosition(b: BackupManager, d: Disk, run: Invocation -> Process,
    gz: Compressor, accepts: (int, int) -> bool, checkClose: bool)
    requires b.mode == FullMode && b.targetDirectory != []
    requires b.positionFile == b.targetDirectory + ["mariabackup.pos"]
    requires forall q :: q in d.nodes && b.targetDirectory <= q ==> q !in d.locked
    ensures var e := BackupSpec(b, d, run, gz, accepts, checkClose);
      e.err.Some? && !e.err.value.SavePositionFailed? ==>
        && b.positionFile !in e.disk.nodes
        && e.disk.ReadFile(b.positionFile).Failure?
  {
    var e := BackupSpec(b, d, run, gz, accepts, checkClose);
    var f := b.positionFile;
    var (r, re) := d.RemoveAll(b.targetDirectory);
    assert f !in r.nodes by {
      if f in d.nodes {
        assert !d.Pinned(f);
      }
    }
    var (d1, planned) := PlanBackup(b, d);
    assert f !in d1.nodes by {
      var path := b.targetDirectory + ["full"];
      assert !(f <= path) by {
        assert f[|b.targetDirectory|] == "mariabackup.pos" != path[|b.targetDirectory|];
      }
    }
    if planned.Success? {
      assert Artifact(planned.value) != f by {
        assert |Artifact(planned.value)| != |f|;
      }
      ArtifactStepFrame(b, planned.value, d1, run, gz, accepts, checkClose, f);
    }
  }
}
