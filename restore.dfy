/**
 * The restore orchestrator: into an empty target, every link of the chain
 * from `full` up to the stored position is decompressed into
 * `source/restore/<link>` and prepared onto `restore/full`, and the result
 * is moved back by mariabackup.
 */
module Restore {
  import opened Wrappers
  import opened Text
  import opened Decimal
  import opened Files
  import opened Processes
  import Backup

  datatype RestoreManager = RestoreManager(sourceDirectory: Path, targetDirectory: Path)

  datatype RestoreError =
    | OpenTarget(cause: IoError)
    | TargetNotEmpty
    | RemoveRestore(cause: IoError)
    | MakeDirs(cause: IoError)
    | OpenArtifact(cause: IoError)
    | BadHeader
    | ExtractStart
    | ExtractCopy
    | PrepareStart
    | PrepareWait(fault: WaitFault)
    | MoveStart
    | MoveWait(fault: WaitFault)
    | UserLookup

  /** How far the compressed artifact decodes: not even its header, only part of it, or all of it. */
  datatype Gzip = HeaderInvalid | Corrupt | Intact

  /** `CreateRestoreManager` never fails. */
  function CreateRestoreManager(source: Path, target: Path): (r: Result<RestoreManager, RestoreError>)
    ensures r.Success? && r.value.sourceDirectory == source && r.value.targetDirectory == target
  {
    Success(RestoreManager(source, target))
  }

  function RestoreDir(m: RestoreManager): Path {
    m.sourceDirectory + ["restore"]
  }

  /** Where link i is extracted. */
  function WorkDirectory(m: RestoreManager, i: int): Path {
    RestoreDir(m) + Backup.Link(i)
  }

  function ArtifactOf(m: RestoreManager, i: int): Path {
    m.sourceDirectory + Backup.Link(i) + ["backup.gz"]
  }

  function ExtractCommand(m: RestoreManager, i: int): Invocation {
    Invocation("mbstream", [Word("-x"), Word("-C"), PathArg("", WorkDirectory(m, i))])
  }

  /** `prepareBackup`: always onto `restore/full`, with the link as incremental base unless it is `full`. */
  function PrepareCommand(m: RestoreManager, i: int): Invocation {
    Invocation("mariabackup", [Word("--prepare"), PathArg("--target-dir=", RestoreDir(m) + ["full"])]
      + (if Backup.Link(i) != ["full"] then [PathArg("--incremental-basedir=", WorkDirectory(m, i))] else []))
  }

  function MoveBackCommand(m: RestoreManager): Invocation {
    Invocation("mariabackup", [Word("--move-back"), PathArg("--target-dir=", RestoreDir(m) + ["full"])])
  }

  datatype Effect = Effect(disk: Disk, log: seq<Invocation>, err: Option<RestoreError>)

  function PositionFile(m: RestoreManager): Path {
    m.sourceDirectory + ["mariabackup.pos"]
  }

  /**
   * `getBackupPosition`, as `Restore` uses it: the stored position, or 0
   * when the file cannot be read or its text is not a number in range.
   */
  function GetBackupPosition(m: RestoreManager, d: Disk): (position: int)
    ensures IsInt64(position)
    ensures d.ReadFile(PositionFile(m)).Failure? ==> position == 0
  {
    match d.ReadFile(PositionFile(m))
    case Failure(_) => 0
    case Success(data) =>
      var c := Atoi(Chars(data));
      if c.status != Parsed then 0 else c.value
  }

  /**
   * `decompressBackup`: the work directory is made, the artifact opened and
   * its gzip header checked, and its decompressed bytes piped to mbstream.
   * mbstream is never waited for, so its exit status plays no part.
   */
  function Decompress(m: RestoreManager, i: int, d: Disk, run: Invocation -> Process, gunzip: seq<byte> -> Gzip): Effect {
    var (d1, e1) := d.MkdirAll(WorkDirectory(m, i));
    if e1.Some? then Effect(d1, [], Some(MakeDirs(e1.value)))
    else
      match d1.Open(ArtifactOf(m, i))
      case Failure(e) => Effect(d1, [], Some(OpenArtifact(e)))
      case Success(data) =>
        var readable := data[..d1.Limit(ArtifactOf(m, i))];
        var g := gunzip(readable);
        // `gzip.NewReader` fails on the header's read error too, at once on a directory
        if !d1.IsFile(ArtifactOf(m, i)) || g == HeaderInvalid then Effect(d1, [], Some(BadHeader))
        else
          var inv := ExtractCommand(m, i);
          var p := run(inv);
          if p.status.StartFailed? then Effect(d1, [inv], Some(ExtractStart))
          else if g != Intact || |readable| < |data| || !p.streamOk then Effect(d1, [inv], Some(ExtractCopy))
          else Effect(d1, [inv], None)
  }

  /**
   * `prepareBackup`: a start failure, or the error of `Wait`, which a
   * non-zero exit status already is; the exit-code check after it never fires.
   */
  function Prepare(m: RestoreManager, i: int, run: Invocation -> Process): Option<RestoreError> {
    var s := run(PrepareCommand(m, i)).status;
    if s.StartFailed? then Some(PrepareStart)
    else if Waited(s).Some? then Some(PrepareWait(Waited(s).value))
    else None
  }

  /** One pass of the loop: decompress link i, then prepare it. */
  function LinkStep(m: RestoreManager, i: int, d: Disk, run: Invocation -> Process, gunzip: seq<byte> -> Gzip): Effect {
    var x := Decompress(m, i, d, run, gunzip);
    if x.err.Some? then x
    else Effect(x.disk, x.log + [PrepareCommand(m, i)], Prepare(m, i, run))
  }

  /** A loop over passes 0, 1, ...: the first n passes of `step`, stopping at the first error. */
  function Steps(step: (int, Disk) -> Effect, n: nat, d: Disk): Effect {
    if n == 0 then Effect(d, [], None)
    else
      var w := Steps(step, n - 1, d);
      if w.err.Some? then w
      else
        var s := step(n - 1, w.disk);
        Effect(s.disk, w.log + s.log, s.err)
  }

  /** The pass of the loop of `Restore` for each link. */
  function PassOf(m: RestoreManager, run: Invocation -> Process, gunzip: seq<byte> -> Gzip): (int, Disk) -> Effect {
    (i: int, e: Disk) => LinkStep(m, i, e, run, gunzip)
  }

  /** The loop of `Restore` after its first n passes. */
  function Walk(m: RestoreManager, n: nat, d: Disk, run: Invocation -> Process, gunzip: seq<byte> -> Gzip): Effect {
    Steps(PassOf(m, run, gunzip), n, d)
  }

  /** The number of passes `for i := 0; i <= position; i++` makes. */
  function Passes(position: int): nat {
    if position < 0 then 0 else position + 1
  }

  /**
   * `moveBackupToTargetDirectory`: move-back, failing on a start failure or
   * on the error of `Wait` (the exit-code check after it never fires), then
   * the `mysql` user lookup.
   */
  function MoveBack(m: RestoreManager, run: Invocation -> Process, mysqlExists: bool): Option<RestoreError> {
    var s := run(MoveBackCommand(m)).status;
    if s.StartFailed? then Some(MoveStart)
    else if Waited(s).Some? then Some(MoveWait(Waited(s).value))
    else if !mysqlExists then Some(UserLookup)
    else None
  }

  /** `Restore` */
  function RestoreSpec(m: RestoreManager, d: Disk, run: Invocation -> Process, gunzip: seq<byte> -> Gzip, mysqlExists: bool): Effect {
    var t := m.targetDirectory;
    if t == [] || t !in d.nodes then Effect(d, [], Some(OpenTarget(NotExist)))
    else if t in d.locked then Effect(d, [], Some(OpenTarget(Permission)))
    else if !d.IsEmptyDir(t) then Effect(d, [], Some(TargetNotEmpty))
    else
      var (d1, e1) := d.RemoveAll(RestoreDir(m));
      if e1.Some? then Effect(d1, [], Some(RemoveRestore(e1.value)))
      else Chain(m, d1, run, gunzip, mysqlExists)
  }

  /** What `Restore` does once the old restore directory is gone: the chain loop, then move-back. */
  function Chain(m: RestoreManager, d: Disk, run: Invocation -> Process, gunzip: seq<byte> -> Gzip, mysqlExists: bool): Effect {
    var w := Walk(m, Passes(GetBackupPosition(m, d)), d, run, gunzip);
    if w.err.Some? then w
    else Effect(w.disk, w.log + [MoveBackCommand(m)], MoveBack(m, run, mysqlExists))
  }

  method DecompressBackup(m: RestoreManager, i: int, fs: FileSystem, tool: ToolRunner, gunzip: seq<byte> -> Gzip)
    returns (err: Option<RestoreError>)
    modifies fs, tool
    ensures fs.disk == Decompress(m, i, old(fs.disk), tool.run, gunzip).disk
    ensures tool.log == old(tool.log) + Decompress(m, i, old(fs.disk), tool.run, gunzip).log
    ensures err == Decompress(m, i, old(fs.disk), tool.run, gunzip).err
  {
    var e := fs.MkdirAll(WorkDirectory(m, i));
    if e.Some? {
      return Some(MakeDirs(e.value));
    }
    var f, openErr := fs.Open(ArtifactOf(m, i));
    if openErr.Some? {
      return Some(OpenArtifact(openErr.value));
    }
    var readable := f.data[..f.limit];
    var g := gunzip(readable);
    if f.dir || g == HeaderInvalid {
      return Some(BadHeader);
    }
    var p := tool.Start(ExtractCommand(m, i));
    if p.status.StartFailed? {
      return Some(ExtractStart);
    }
    if g != Intact || |readable| < |f.data| || !p.streamOk {
      return Some(ExtractCopy);
    }
    return None;
  }

  method PrepareBackup(m: RestoreManager, i: int, tool: ToolRunner) returns (err: Option<RestoreError>)
    modifies tool
    ensures tool.log == old(tool.log) + [PrepareCommand(m, i)] && err == Prepare(m, i, tool.run)
  {
    var p := tool.Start(PrepareCommand(m, i));
    if p.status.StartFailed? {
      return Some(PrepareStart);
    }
    var waitErr := Waited(p.status);
    if waitErr.Some? {
      return Some(PrepareWait(waitErr.value));
    }
    if p.status.code != 0 {
      assert false;
    }
    return None;
  }

  method MoveBackupToTargetDirectory(m: RestoreManager, tool: ToolRunner, mysqlExists: bool) returns (err: Option<RestoreError>)
    modifies tool
    ensures tool.log == old(tool.log) + [MoveBackCommand(m)] && err == MoveBack(m, tool.run, mysqlExists)
  {
    var p := tool.Start(MoveBackCommand(m));
    if p.status.StartFailed? {
      return Some(MoveStart);
    }
    var waitErr := Waited(p.status);
    if waitErr.Some? {
      return Some(MoveWait(waitErr.value));
    }
    if p.status.code != 0 {
      assert false;
    }
    if !mysqlExists {
      return Some(UserLookup);
    }
    // the ownership walk that follows reports nothing
    return None;
  }

  /** One pass of the loop of `Restore`. */
  method LinkPass(m: RestoreManager, i: int, fs: FileSystem, tool: ToolRunner, gunzip: seq<byte> -> Gzip)
    returns (err: Option<RestoreError>)
    modifies fs, tool
    ensures fs.disk == LinkStep(m, i, old(fs.disk), tool.run, gunzip).disk
    ensures tool.log == old(tool.log) + LinkStep(m, i, old(fs.disk), tool.run, gunzip).log
    ensures err == LinkStep(m, i, old(fs.disk), tool.run, gunzip).err
  {
    err := DecompressBackup(m, i, fs, tool, gunzip);
    if err.Some? {
      return;
    }
    err := PrepareBackup(m, i, tool);
  }

  /**
   * The loop of `Restore`: links 0 to position, stopping at the first
   * error. `step` is the pass as a function, `LinkStep` at every link and disk.
   */
  method WalkChain(m: RestoreManager, position: int, fs: FileSystem, tool: ToolRunner, gunzip: seq<byte> -> Gzip,
    ghost step: (int, Disk) -> Effect)
    returns (err: Option<RestoreError>)
    requires forall i: int, e: Disk {:trigger LinkStep(m, i, e, tool.run, gunzip)} :: step(i, e) == LinkStep(m, i, e, tool.run, gunzip)
    modifies fs, tool
    ensures fs.disk == Steps(step, Passes(position), old(fs.disk)).disk
    ensures tool.log == old(tool.log) + Steps(step, Passes(position), old(fs.disk)).log
    ensures err == Steps(step, Passes(position), old(fs.disk)).err
  {
    ghost var d0 := fs.disk;
    ghost var log0 := tool.log;
    ghost var done: seq<Invocation> := [];
    var i := 0;
    err := None;
    while i <= position && err.None?
      invariant 0 <= i <= Passes(position)
      invariant Steps(step, i, d0) == Effect(fs.disk, done, err)
      invariant tool.log == log0 + done
      decreases position - i
    {
      ghost var s := LinkStep(m, i, fs.disk, tool.run, gunzip);
      StepsNext(step, i, d0);
      err := LinkPass(m, i, fs, tool, gunzip);
      assert tool.log == log0 + (done + s.log);
      done := done + s.log;
      i := i + 1;
    }
    if err.Some? {
      StepsStop(step, i, Passes(position), d0);
    }
  }

  /** A pass after n passes without error. */
  lemma StepsNext(step: (int, Disk) -> Effect, n: nat, d: Disk)
    requires Steps(step, n, d).err.None?
    ensures Steps(step, n + 1, d) == Effect(
      step(n, Steps(step, n, d).disk).disk,
      Steps(step, n, d).log + step(n, Steps(step, n, d).disk).log,
      step(n, Steps(step, n, d).disk).err)
  {
  }

  /** Once the loop has failed, later passes change nothing. */
  lemma {:induction false} StepsStop(step: (int, Disk) -> Effect, k: nat, n: nat, d: Disk)
    requires k <= n && Steps(step, k, d).err.Some?
    ensures Steps(step, n, d) == Steps(step, k, d)
    decreases n - k
  {
    if k < n {
      StepsStop(step, k, n - 1, d);
    }
  }

  /** `Restore`: the target check, the removal of the old restore directory, the chain loop and move-back. */
  method RunRestore(m: RestoreManager, fs: FileSystem, tool: ToolRunner, gunzip: seq<byte> -> Gzip, mysqlExists: bool)
    returns (err: Option<RestoreError>)
    modifies fs, tool
    ensures fs.disk == RestoreSpec(m, old(fs.disk), tool.run, gunzip, mysqlExists).disk
    ensures tool.log == old(tool.log) + RestoreSpec(m, old(fs.disk), tool.run, gunzip, mysqlExists).log
    ensures err == RestoreSpec(m, old(fs.disk), tool.run, gunzip, mysqlExists).err
  {
    var t := m.targetDirectory;
    if t == [] || t !in fs.disk.nodes {
      return Some(OpenTarget(NotExist));
    }
    if t in fs.disk.locked {
      return Some(OpenTarget(Permission));
    }
    if !fs.disk.IsEmptyDir(t) {
      return Some(TargetNotEmpty);
    }
    var e := fs.RemoveAll(RestoreDir(m));
    if e.Some? {
      return Some(RemoveRestore(e.value));
    }
    var position := GetBackupPosition(m, fs.disk);
    err := WalkChain(m, position, fs, tool, gunzip, PassOf(m, tool.run, gunzip));
    if err.Some? {
      return;
    }
    err := MoveBackupToTargetDirectory(m, tool, mysqlExists);
  }

  // Properties

  /** The invocations of a chain walk that got through n links: extract, then prepare, for each link in turn. */
  function Expected(m: RestoreManager, n: nat): (log: seq<Invocation>) {
    if n == 0 then [] else Expected(m, n - 1) + [ExtractCommand(m, n - 1), PrepareCommand(m, n - 1)]
  }

  /** A target that cannot be opened or is not an empty directory stops `Restore` before it removes or runs anything. */
  lemma UnusableTargetRefused(m: RestoreManager, d: Disk, run: Invocation -> Process, gunzip: seq<byte> -> Gzip, mysqlExists: bool)
    requires !(m.targetDirectory != [] && m.targetDirectory in d.nodes && m.targetDirectory !in d.locked && d.IsEmptyDir(m.targetDirectory))
    ensures var e := RestoreSpec(m, d, run, gunzip, mysqlExists);
      e.disk == d && e.log == [] && e.err.Some? && (e.err.value.OpenTarget? || e.err.value == TargetNotEmpty)
  {
  }

  /** Link k is extracted at position 2k of the walk and prepared right after. */
  lemma {:induction false} ExpectedShape(m: RestoreManager, n: nat, k: nat)
    requires k < n
    ensures |Expected(m, n)| == 2 * n
    ensures Expected(m, n)[2 * k] == ExtractCommand(m, k) && Expected(m, n)[2 * k + 1] == PrepareCommand(m, k)
  {
    ExpectedLength(m, n - 1);
    if k < n - 1 {
      ExpectedShape(m, n - 1, k);
    }
  }

  lemma {:induction false} ExpectedLength(m: RestoreManager, n: nat)
    ensures |Expected(m, n)| == 2 * n
  {
    if n > 0 {
      ExpectedLength(m, n - 1);
    }
  }

  /** A walk that got through n links without error ran exactly extract and prepare for links 0 to n - 1. */
  lemma WalkLog(m: RestoreManager, n: nat, d: Disk, run: Invocation -> Process, gunzip: seq<byte> -> Gzip)
    ensures Walk(m, n, d, run, gunzip).err.None? ==> Walk(m, n, d, run, gunzip).log == Expected(m, n)
  {
    forall i: int, e: Disk | LinkStep(m, i, e, run, gunzip).err.None?
      ensures LinkStep(m, i, e, run, gunzip).log == [ExtractCommand(m, i), PrepareCommand(m, i)]
    {
    }
    StepsLog(PassOf(m, run, gunzip), m, n, d);
  }

  /** A loop whose passes without error each run extract then prepare of their link runs them in link order. */
  lemma {:induction false} StepsLog(step: (int, Disk) -> Effect, m: RestoreManager, n: nat, d: Disk)
    requires forall i: int, e: Disk :: step(i, e).err.None? ==> step(i, e).log == [ExtractCommand(m, i), PrepareCommand(m, i)]
    ensures Steps(step, n, d).err.None? ==> Steps(step, n, d).log == Expected(m, n)
  {
    if n > 0 {
      StepsLog(step, m, n - 1, d);
    }
  }

  /** The programs a pass of the loop may start. */
  predicate LinkProgram(inv: Invocation) {
    inv.program == "mbstream" || (|inv.args| > 0 && inv.args[0] == Word("--prepare"))
  }

  /** The errors a pass of the loop may end with. */
  predicate LinkError(e: RestoreError) {
    e.MakeDirs? || e.OpenArtifact? || e == BadHeader || e == ExtractStart || e == ExtractCopy
      || e == PrepareStart || e.PrepareWait?
  }

  lemma LinkStepKinds(m: RestoreManager, i: int, d: Disk, run: Invocation -> Process, gunzip: seq<byte> -> Gzip)
    ensures forall inv :: inv in LinkStep(m, i, d, run, gunzip).log ==> LinkProgram(inv)
    ensures LinkStep(m, i, d, run, gunzip).err.Some? ==> LinkError(LinkStep(m, i, d, run, gunzip).err.value)
  {
    DecompressKinds(m, i, d, run, gunzip);
    PrepareKinds(m, i, run);
    assert LinkProgram(ExtractCommand(m, i)) && LinkProgram(PrepareCommand(m, i));
  }

  /** Decompression starts at most mbstream, and fails only with errors of a pass. */
  lemma DecompressKinds(m: RestoreManager, i: int, d: Disk, run: Invocation -> Process, gunzip: seq<byte> -> Gzip)
    ensures Decompress(m, i, d, run, gunzip).log == [] || Decompress(m, i, d, run, gunzip).log == [ExtractCommand(m, i)]
    ensures Decompress(m, i, d, run, gunzip).err.Some? ==> LinkError(Decompress(m, i, d, run, gunzip).err.value)
  {
  }

  lemma PrepareKinds(m: RestoreManager, i: int, run: Invocation -> Process)
    ensures Prepare(m, i, run).Some? ==> LinkError(Prepare(m, i, run).value)
  {
  }

  /** Every program a walk starts is mbstream or a `--prepare` run of mariabackup, and its errors are those of a pass. */
  lemma WalkPrograms(m: RestoreManager, n: nat, d: Disk, run: Invocation -> Process, gunzip: seq<byte> -> Gzip)
    ensures forall inv :: inv in Walk(m, n, d, run, gunzip).log ==> LinkProgram(inv)
    ensures Walk(m, n, d, run, gunzip).err.Some? ==> LinkError(Walk(m, n, d, run, gunzip).err.value)
  {
    forall i: int, e: Disk
      ensures PassKinds(PassOf(m, run, gunzip)(i, e))
    {
      LinkStepKinds(m, i, e, run, gunzip);
    }
    StepsPrograms(PassOf(m, run, gunzip), n, d);
  }

  /** The programs an effect started and the error it ended with are those of a pass. */
  predicate PassKinds(x: Effect) {
    (forall inv :: inv in x.log ==> LinkProgram(inv)) && (x.err.Some? ==> LinkError(x.err.value))
  }

  /** A loop whose every pass keeps to the programs and errors of a pass keeps to them as a whole. */
  lemma {:induction false} StepsPrograms(step: (int, Disk) -> Effect, n: nat, d: Disk)
    requires forall i: int, e: Disk :: PassKinds(step(i, e))
    ensures PassKinds(Steps(step, n, d))
  {
    if n > 0 {
      StepsPrograms(step, n - 1, d);
      var w := Steps(step, n - 1, d);
      if w.err.None? {
        assert PassKinds(step(n - 1, w.disk));
      }
    }
  }

  /** The position file is outside the restore directory that `Restore` clears. */
  lemma PositionSurvivesCleanup(m: RestoreManager, d: Disk)
    ensures d.RemoveAll(RestoreDir(m)).1.None? ==>
      GetBackupPosition(m, d.RemoveAll(RestoreDir(m)).0) == GetBackupPosition(m, d)
  {
    var f := PositionFile(m);
    var r := RestoreDir(m);
    assert !(r <= f) by {
      assert f[|m.sourceDirectory|] == "mariabackup.pos" != r[|m.sourceDirectory|];
    }
    var d1 := d.RemoveAll(r).0;
    assert (f in d1.nodes <==> f in d.nodes) && (f in d.nodes ==> d1.nodes[f] == d.nodes[f]);
    assert d1.ReadFile(f) == d.ReadFile(f);
  }

  /**
   * A restore that succeeds ran, for every link from 0 to the stored
   * position, extract then prepare, in order, and then move-back once.
   */
  lemma SuccessfulRestore(m: RestoreManager, d: Disk, run: Invocation -> Process, gunzip: seq<byte> -> Gzip, mysqlExists: bool)
    ensures var e := RestoreSpec(m, d, run, gunzip, mysqlExists);
      e.err.None? ==> e.log == Expected(m, Passes(GetBackupPosition(m, d))) + [MoveBackCommand(m)]
  {
    var e := RestoreSpec(m, d, run, gunzip, mysqlExists);
    if e.err.None? {
      PositionSurvivesCleanup(m, d);
      var d1 := d.RemoveAll(RestoreDir(m)).0;
      WalkLog(m, Passes(GetBackupPosition(m, d1)), d1, run, gunzip);
    }
  }

  /** Prepare always targets `restore/full`, and has an incremental base exactly for the links after `full`. */
  lemma PrepareArguments(m: RestoreManager, i: int)
    ensures PrepareCommand(m, i).args[1] == PathArg("--target-dir=", m.sourceDirectory + ["restore", "full"])
    ensures HasPathArg(PrepareCommand(m, i), "--incremental-basedir=") <==> i != 0
    ensures i != 0 ==> PrepareCommand(m, i).args[2] == PathArg("--incremental-basedir=", m.sourceDirectory + ["restore", "incr", Itoa(i)])
  {
    var inv := PrepareCommand(m, i);
    if i == 0 {
      forall a | a in inv.args && a.PathArg?
        ensures a.prefix != "--incremental-basedir="
      {
        assert a == inv.args[1];
      }
    } else {
      assert inv.args[2].prefix == "--incremental-basedir=";
    }
  }

  /** Move-back is reached only when every link was extracted and prepared. */
  lemma FailureSkipsMoveBack(m: RestoreManager, d: Disk, run: Invocation -> Process, gunzip: seq<byte> -> Gzip, mysqlExists: bool)
    ensures var e := RestoreSpec(m, d, run, gunzip, mysqlExists);
      e.err.Some? && LinkError(e.err.value) ==> MoveBackCommand(m) !in e.log
    ensures var e := RestoreSpec(m, d, run, gunzip, mysqlExists);
      e.err.None? ==> |e.log| > 0 && e.log[|e.log| - 1] == MoveBackCommand(m)
  {
    var t := m.targetDirectory;
    if t != [] && t in d.nodes && t !in d.locked && d.IsEmptyDir(t) {
      var (d1, e1) := d.RemoveAll(RestoreDir(m));
      if e1.None? {
        ChainMoveBack(m, d1, run, gunzip, mysqlExists);
      }
    }
  }

  /** The chain loop and move-back: move-back runs last, and only once every link went through. */
  lemma ChainMoveBack(m: RestoreManager, d: Disk, run: Invocation -> Process, gunzip: seq<byte> -> Gzip, mysqlExists: bool)
    ensures var c := Chain(m, d, run, gunzip, mysqlExists);
      c.err.Some? && LinkError(c.err.value) ==> MoveBackCommand(m) !in c.log
    ensures var c := Chain(m, d, run, gunzip, mysqlExists);
      c.err.None? ==> |c.log| > 0 && c.log[|c.log| - 1] == MoveBackCommand(m)
  {
    var n := Passes(GetBackupPosition(m, d));
    WalkPrograms(m, n, d, run, gunzip);
    assert !LinkProgram(MoveBackCommand(m));
    MoveBackErrors(m, run, mysqlExists);
  }

  /** Move-back fails with errors of its own, none of which a pass of the loop ends with. */
  lemma MoveBackErrors(m: RestoreManager, run: Invocation -> Process, mysqlExists: bool)
    ensures MoveBack(m, run, mysqlExists).Some? ==> !LinkError(MoveBack(m, run, mysqlExists).value)
  {
  }

  /**
   * After the old restore directory is removed, everything below it is a
   * directory made for a link: nothing from an earlier restore is left.
   */
  lemma StaleRestoreRemoved(m: RestoreManager, d: Disk, run: Invocation -> Process, gunzip: seq<byte> -> Gzip, mysqlExists: bool)
    ensures var e := RestoreSpec(m, d, run, gunzip, mysqlExists);
      e.err.None? ==> forall q :: q in e.disk.nodes && RestoreDir(m) <= q ==> e.disk.nodes[q] == Dir
  {
    var e := RestoreSpec(m, d, run, gunzip, mysqlExists);
    if e.err.None? {
      var d1 := d.RemoveAll(RestoreDir(m)).0;
      WalkKeepsDirs(m, Passes(GetBackupPosition(m, d1)), d1, run, gunzip);
    }
  }

  predicate OnlyDirsBelow(d: Disk, r: Path) {
    forall q :: q in d.nodes && r <= q ==> d.nodes[q] == Dir
  }

  lemma WalkKeepsDirs(m: RestoreManager, n: nat, d: Disk, run: Invocation -> Process, gunzip: seq<byte> -> Gzip)
    requires OnlyDirsBelow(d, RestoreDir(m))
    ensures OnlyDirsBelow(Walk(m, n, d, run, gunzip).disk, RestoreDir(m))
  {
    forall i: int, e: Disk | OnlyDirsBelow(e, RestoreDir(m))
      ensures OnlyDirsBelow(PassOf(m, run, gunzip)(i, e).disk, RestoreDir(m))
    {
      var d2 := e.MkdirAll(WorkDirectory(m, i)).0;
      assert OnlyDirsBelow(d2, RestoreDir(m));
      assert LinkStep(m, i, e, run, gunzip).disk == d2;
    }
    StepsKeepDirs(PassOf(m, run, gunzip), n, d, RestoreDir(m));
  }

  /** A loop whose every pass only ever leaves directories below r leaves only directories below r. */
  lemma {:induction false} StepsKeepDirs(step: (int, Disk) -> Effect, n: nat, d: Disk, r: Path)
    requires forall i: int, e: Disk :: OnlyDirsBelow(e, r) ==> OnlyDirsBelow(step(i, e).disk, r)
    requires OnlyDirsBelow(d, r)
    ensures OnlyDirsBelow(Steps(step, n, d).disk, r)
  {
    if n > 0 {
      StepsKeepDirs(step, n - 1, d, r);
    }
  }

  /** With no readable position (or text that is not a number), only the `full` link is restored. */
  lemma MissingPositionRestoresFull(m: RestoreManager, d: Disk, run: Invocation -> Process, gunzip: seq<byte> -> Gzip, mysqlExists: bool)
    requires d.ReadFile(PositionFile(m)).Failure? || Atoi(Chars(d.ReadFile(PositionFile(m)).value)).status != Parsed
    ensures var e := RestoreSpec(m, d, run, gunzip, mysqlExists);
      e.err.None? ==>
        && e.log == [ExtractCommand(m, 0), PrepareCommand(m, 0), MoveBackCommand(m)]
        && !HasPathArg(e.log[1], "--incremental-basedir=")
  {
    SuccessfulRestore(m, d, run, gunzip, mysqlExists);
    PrepareArguments(m, 0);
  }

  /** A negative position makes the loop run no pass: move-back is the only program run. */
  lemma NegativePositionSkipsChain(m: RestoreManager, d: Disk, run: Invocation -> Process, gunzip: seq<byte> -> Gzip, mysqlExists: bool)
    requires GetBackupPosition(m, d) < 0
    ensures var e := RestoreSpec(m, d, run, gunzip, mysqlExists);
      e.err.None? ==> e.log == [MoveBackCommand(m)]
  {
    SuccessfulRestore(m, d, run, gunzip, mysqlExists);
  }

  /** A chain stored at position 2: full, incr/1 and incr/2, each extracted then prepared, then move-back. */
  lemma ThreeLinkChain(m: RestoreManager, d: Disk, run: Invocation -> Process, gunzip: seq<byte> -> Gzip, mysqlExists: bool)
    requires d.ReadFile(PositionFile(m)) == Success(Bytes("2"))
    ensures var e := RestoreSpec(m, d, run, gunzip, mysqlExists);
      e.err.None? ==> e.log == [
        ExtractCommand(m, 0), PrepareCommand(m, 0),
        ExtractCommand(m, 1), PrepareCommand(m, 1),
        ExtractCommand(m, 2), PrepareCommand(m, 2),
        MoveBackCommand(m)]
  {
    PositionTwo(m, d);
    SuccessfulRestore(m, d, run, gunzip, mysqlExists);
    ExpectedThree(m);
  }

  lemma PositionTwo(m: RestoreManager, d: Disk)
    requires d.ReadFile(PositionFile(m)) == Success(Bytes("2"))
    ensures GetBackupPosition(m, d) == 2
  {
    assert Itoa(2) == "2";
    ParseWrittenPosition(2);
  }

  lemma ExpectedThree(m: RestoreManager)
    ensures Expected(m, 3) == [
      ExtractCommand(m, 0), PrepareCommand(m, 0),
      ExtractCommand(m, 1), PrepareCommand(m, 1),
      ExtractCommand(m, 2), PrepareCommand(m, 2)]
  {
    assert Expected(m, 1) == [ExtractCommand(m, 0), PrepareCommand(m, 0)];
    assert Expected(m, 2) == Expected(m, 1) + [ExtractCommand(m, 1), PrepareCommand(m, 1)];
    assert Expected(m, 3) == Expected(m, 2) + [ExtractCommand(m, 2), PrepareCommand(m, 2)];
  }

  /**
   * Prepare fails on any exit code but 0, and when it cannot be started or
   * waited for; a non-zero code comes back as the `ExitError` of `Wait`.
   */
  lemma PrepareSucceeds(m: RestoreManager, i: int, run: Invocation -> Process)
    ensures Prepare(m, i, run).None? <==> run(PrepareCommand(m, i)).status == Exited(0)
    ensures var s := run(PrepareCommand(m, i)).status;
      s.Exited? && s.code != 0 ==> Prepare(m, i, run) == Some(PrepareWait(ExitStatus(s.code)))
  {
  }

  /**
   * Move-back fails on any exit code but 0, as the `ExitError` of `Wait`;
   * after it only the `mysql` user lookup can fail.
   */
  lemma MoveBackSucceeds(m: RestoreManager, run: Invocation -> Process, mysqlExists: bool)
    ensures MoveBack(m, run, mysqlExists).None? <==> run(MoveBackCommand(m)).status == Exited(0) && mysqlExists
    ensures var s := run(MoveBackCommand(m)).status;
      s.Exited? && s.code != 0 ==> MoveBack(m, run, mysqlExists) == Some(MoveWait(ExitStatus(s.code)))
  {
  }

  /**
   * Extraction succeeds whatever mbstream's exit status: it needs the work
   * directory, an artifact that is all readable and decodes whole, and an
   * mbstream that starts and takes the whole stream.
   */
  lemma ExtractExitIgnored(m: RestoreManager, i: int, d: Disk, run: Invocation -> Process, gunzip: seq<byte> -> Gzip)
    ensures var (d1, e1) := d.MkdirAll(WorkDirectory(m, i));
      var a := ArtifactOf(m, i);
      var p := run(ExtractCommand(m, i));
      Decompress(m, i, d, run, gunzip).err.None? <==>
        && e1.None? && d1.ReadFile(a).Success?
        && gunzip(d1.Content(a)) == Intact
        && !p.status.StartFailed? && p.streamOk
  {
    var (d1, e1) := d.MkdirAll(WorkDirectory(m, i));
    var a := ArtifactOf(m, i);
    if e1.None? && d1.ReadFile(a).Success? {
      assert d1.Content(a)[..d1.Readable(a)] == d1.Content(a);
    }
  }

  /** The position a backup saves in `<source>/mariabackup.pos` is the one `Restore` reads back. */
  lemma SavedPositionRestored(d: Disk, m: RestoreManager, position: int)
    requires IsInt64(position) && PositionFile(m) !in d.faults
    ensures var saved := Backup.SavePosition(d, PositionFile(m), position);
      saved.1.None? ==> GetBackupPosition(m, saved.0) == position
  {
    Backup.SavedPositionParses(d, PositionFile(m), position);
    var saved := Backup.SavePosition(d, PositionFile(m), position);
    if saved.1.None? {
      assert saved.0.ReadFile(PositionFile(m)) == Success(saved.0.Content(PositionFile(m)));
    }
  }
}
