/**
 * `Manager/Repository.go`: the S3 keys of a backup's artifacts, the
 * existence test on a listing, and the upload and download of the fixed
 * list of artifacts, file by file. The host name and the date are
 * parameters, and the bucket is a map from keys to objects.
 */
module Repository {
  import opened Wrappers
  import opened Text
  import opened Files
  import opened Framing
  import opened Progress

  /** The artifacts of a backup, in the order they are transferred. */
  const Artifacts: seq<string> := ["backup.gz.enc", "xtrabackup_info", "xtrabackup_checkpoints", "checksum"]

  /** `S3Manager`: the session is left out, and none of the fields is changed after creation. */
  datatype S3Manager = S3Manager(region: string, accessKey: string, secret: string, bucket: string)

  /** `filepath.Join` as far as keys need it: empty elements are dropped. */
  function Join(parts: seq<string>): (r: Key)
    ensures forall c :: c in r ==> c != ""
    ensures (forall c :: c in parts ==> c != "") ==> r == parts
    decreases |parts|
  {
    if parts == [] then []
    else
      assert forall c :: c in parts[1..] ==> c in parts;
      assert parts == [parts[0]] + parts[1..] && parts[0] in parts;
      (if parts[0] == "" then [] else [parts[0]]) + Join(parts[1..])
  }

  /** `GenerateUploadS3Path`: host, today's date and the file. */
  function UploadKey(host: string, today: string, file: string): Key {
    Join([host, today, file])
  }

  /** `GenerateDownloadS3Path`: host, the date asked for and the file. */
  function DownloadKey(host: string, restoreDate: string, file: string): Key {
    Join([host, restoreDate, file])
  }

  /** A key is the host, when there is one, then the date, when there is one, then the file. */
  lemma KeyShape(host: string, date: string, file: string)
    requires date != "" && file != ""
    ensures UploadKey(host, date, file) == (if host == "" then [] else [host]) + [date, file]
  {
    assert [host, date, file][1..] == [date, file];
    assert [date, file][1..] == [file];
  }

  /** Downloading the date of an upload asks for the key the upload wrote. */
  lemma DownloadFindsUpload(host: string, date: string, file: string)
    ensures DownloadKey(host, date, file) == UploadKey(host, date, file)
  {
  }

  /** The keys of one host and day are different for different files, and for different days. */
  lemma KeysDistinct(host: string, date1: string, date2: string, file1: string, file2: string)
    requires date1 != "" && date2 != "" && file1 != "" && file2 != ""
    ensures UploadKey(host, date1, file1) == UploadKey(host, date2, file2) <==> date1 == date2 && file1 == file2
  {
    KeyShape(host, date1, file1);
    KeyShape(host, date2, file2);
    if UploadKey(host, date1, file1) == UploadKey(host, date2, file2) {
      var k := UploadKey(host, date1, file1);
      assert k[|k| - 1] == file1 && k[|k| - 1] == file2;
      assert k[|k| - 2] == date1 && k[|k| - 2] == date2;
    }
  }

  /** `IsPushed`: a lookup that fails counts as absent, and so does an empty listing. */
  function IsPushed(listing: Result<seq<Key>, TransferError>): (r: bool)
    ensures r <==> listing.Success? && |listing.value| > 0
    ensures r ==> exists k :: k in listing.value
  {
    match listing
    case Failure(_) => false
    case Success(results) =>
      assert results != [] ==> results[0] in results;
      |results| > 0
  }

  /**
   * One artifact of `Upload`, keyed with `date`, the date `time.Now` gives
   * when `GenerateUploadS3Path` runs for it. A file that cannot be opened is
   * printed and the loop goes on with a nil file, whose `Stat` yields a nil
   * `FileInfo`: `stat.Size()` then panics. `skipMissing` models the
   * evidently intended `continue` instead. A read error fails the upload,
   * which stores nothing; a directory opens, and fails at its first read.
   */
  function UploadFile(d: Disk, objects: map<Key, seq<byte>>, backup: Path, host: string, date: string, file: string,
    skipMissing: bool): (map<Key, seq<byte>>, bool)
  {
    var p := backup + [file];
    if d.Open(p).Failure? then (objects, !skipMissing)
    else if !d.IsFile(p) || d.Readable(p) < |d.Content(p)| then (objects, false)
    else (objects[UploadKey(host, date, file) := d.Content(p)], false)
  }

  /**
   * The bucket after uploading `files` in order, file i under `dates[i]`,
   * and whether the process ended on the way.
   */
  function UploadAll(d: Disk, objects: map<Key, seq<byte>>, backup: Path, host: string, dates: seq<string>, files: seq<string>,
    skipMissing: bool): (map<Key, seq<byte>>, bool)
    requires |dates| == |files|
    decreases |files|
  {
    if files == [] then (objects, false)
    else
      var r := UploadAll(d, objects, backup, host, dates[..|dates| - 1], files[..|files| - 1], skipMissing);
      if r.1 then r else UploadFile(d, r.0, backup, host, dates[|dates| - 1], files[|files| - 1], skipMissing)
  }

  /**
   * The dates the passes of `Upload` key their artifacts with, from the
   * clock's reading at each pass: as written every pass reads the clock;
   * with `once`, the date is read once, before the loop.
   */
  function KeyDates(clock: seq<string>, once: bool): (r: seq<string>)
    requires |clock| > 0
    ensures |r| == |clock| && r[0] == clock[0]
    ensures once ==> forall i :: 0 <= i < |r| ==> r[i] == clock[0]
  {
    if once then seq(|clock|, _ => clock[0]) else clock
  }

  /** One pass of the loop of `Upload`: the file opened, stat'ed and handed to a fresh uploader. */
  method UploadArtifact(fs: FileSystem, store: Bucket, backup: Path, host: string, date: string, file: string)
    returns (aborted: bool)
    modifies store
    ensures (store.objects, aborted) == UploadFile(fs.disk, old(store.objects), backup, host, date, file, false)
  {
    var ulp := new UploadProgress();
    var fh, err := fs.Open(backup + [file]);
    if err.Some? {
      return true;
    }
    var size := |fh.data|;
    var updates, uploadErr := ulp.Upload(store, UploadKey(host, date, file), fh, size);
    aborted := false;
  }

  /**
   * `Upload`: the artifacts of directory `backup`, each under the date
   * `clock[i]` that the clock gives when its key is made.
   */
  method Upload(m: S3Manager, fs: FileSystem, store: Bucket, backup: Path, host: string, clock: seq<string>)
    returns (aborted: bool)
    requires |clock| == |Artifacts|
    modifies store
    ensures (store.objects, aborted) == UploadAll(fs.disk, old(store.objects), backup, host, KeyDates(clock, false), Artifacts, false)
  {
    ghost var o0 := store.objects;
    aborted := false;
    var i := 0;
    while i < |Artifacts| && !aborted
      invariant i <= |Artifacts|
      invariant UploadAll(fs.disk, o0, backup, host, clock[..i], Artifacts[..i], false) == (store.objects, aborted)
      invariant aborted ==> UploadAll(fs.disk, o0, backup, host, clock, Artifacts, false) == (store.objects, aborted)
    {
      assert Artifacts[..i + 1][..i] == Artifacts[..i];
      assert clock[..i + 1][..i] == clock[..i];
      aborted := UploadArtifact(fs, store, backup, host, clock[i], Artifacts[i]);
      if aborted {
        MissingArtifactStops(fs.disk, o0, backup, host, clock, Artifacts, i);
      }
      i := i + 1;
    }
    assert Artifacts[..|Artifacts|] == Artifacts;
    assert clock[..|clock|] == clock;
  }

  /**
   * Once a file is missing, the process ends there: the bucket keeps what
   * was uploaded before it, and the files after it are never uploaded.
   */
  lemma {:induction false} MissingArtifactStops(d: Disk, objects: map<Key, seq<byte>>, backup: Path, host: string,
    dates: seq<string>, files: seq<string>, k: nat)
    requires |dates| == |files| && k < |files| && d.Open(backup + [files[k]]).Failure?
    ensures UploadAll(d, objects, backup, host, dates, files, false).1
    ensures UploadAll(d, objects, backup, host, dates, files, false).0
      == UploadAll(d, objects, backup, host, dates[..k], files[..k], false).0
    decreases |files|
  {
    var prefix := files[..|files| - 1];
    var early := dates[..|dates| - 1];
    if k == |files| - 1 {
      assert prefix == files[..k] && early == dates[..k];
    } else {
      MissingArtifactStops(d, objects, backup, host, early, prefix, k);
      assert prefix[..k] == files[..k] && early[..k] == dates[..k];
    }
  }

  /** Without the first artifact, nothing at all is uploaded, however many of the others are there. */
  lemma MissingBackupUploadsNothing(d: Disk, objects: map<Key, seq<byte>>, backup: Path, host: string, dates: seq<string>)
    requires |dates| == |Artifacts| && d.Open(backup + ["backup.gz.enc"]).Failure?
    ensures UploadAll(d, objects, backup, host, dates, Artifacts, false) == (objects, true)
  {
    MissingArtifactStops(d, objects, backup, host, dates, Artifacts, 0);
  }

  /** When every file opens, skipping missing files changes nothing. */
  lemma {:induction false} SkipAgrees(d: Disk, objects: map<Key, seq<byte>>, backup: Path, host: string,
    dates: seq<string>, files: seq<string>)
    requires |dates| == |files| && forall f :: f in files ==> d.Open(backup + [f]).Success?
    ensures UploadAll(d, objects, backup, host, dates, files, false) == UploadAll(d, objects, backup, host, dates, files, true)
    decreases |files|
  {
    if files != [] {
      var prefix := files[..|files| - 1];
      assert forall f :: f in prefix ==> f in files;
      SkipAgrees(d, objects, backup, host, dates[..|dates| - 1], prefix);
      assert files[|files| - 1] in files;
    }
  }

  /** The files that can be read whole, which are the files an upload stores. */
  predicate Intact(d: Disk, p: Path)
    ensures Intact(d, p) ==> d.IsFile(p)
  {
    d.ReadFile(p).Success?
  }

  /**
   * Skipping missing files, the upload never ends the process, stores every
   * file that can be read whole under the key of its own date, and leaves
   * every other key as it was.
   */
  lemma {:induction false} SkippingUploadsIntact(d: Disk, objects: map<Key, seq<byte>>, backup: Path, host: string,
    dates: seq<string>, files: seq<string>)
    requires |dates| == |files|
    requires forall i :: 0 <= i < |files| ==> dates[i] != "" && files[i] != ""
    ensures !UploadAll(d, objects, backup, host, dates, files, true).1
    ensures forall i :: 0 <= i < |files| && Intact(d, backup + [files[i]]) ==>
      UploadKey(host, dates[i], files[i]) in UploadAll(d, objects, backup, host, dates, files, true).0
      && UploadAll(d, objects, backup, host, dates, files, true).0[UploadKey(host, dates[i], files[i])] == d.Content(backup + [files[i]])
    ensures forall k :: (forall i :: 0 <= i < |files| ==> k != UploadKey(host, dates[i], files[i])) ==>
      (k in UploadAll(d, objects, backup, host, dates, files, true).0 <==> k in objects)
      && (k in objects ==> UploadAll(d, objects, backup, host, dates, files, true).0[k] == objects[k])
    decreases |files|
  {
    if files != [] {
      var n := |files| - 1;
      var prefix := files[..n];
      var early := dates[..n];
      SkippingUploadsIntact(d, objects, backup, host, early, prefix);
      var r := UploadAll(d, objects, backup, host, early, prefix, true).0;
      var r2 := UploadAll(d, objects, backup, host, dates, files, true).0;
      assert UploadAll(d, objects, backup, host, dates, files, true) == UploadFile(d, r, backup, host, dates[n], files[n], true);
      forall i | 0 <= i < |files| && Intact(d, backup + [files[i]])
        ensures UploadKey(host, dates[i], files[i]) in r2 && r2[UploadKey(host, dates[i], files[i])] == d.Content(backup + [files[i]])
      {
        if i != n {
          assert prefix[i] == files[i] && early[i] == dates[i];
          KeysDistinct(host, dates[i], dates[n], files[i], files[n]);
        }
      }
      forall k | forall i :: 0 <= i < |files| ==> k != UploadKey(host, dates[i], files[i])
        ensures (k in r2 <==> k in objects) && (k in objects ==> r2[k] == objects[k])
      {
        assert k != UploadKey(host, dates[n], files[n]);
        forall i | 0 <= i < |prefix|
          ensures k != UploadKey(host, early[i], prefix[i])
        {
          assert prefix[i] == files[i] && early[i] == dates[i];
        }
      }
    }
  }

  /**
   * With all four artifacts readable, `Upload` stores each of them under
   * the key of the date its pass read, and nothing else changes.
   */
  lemma UploadStoresArtifacts(d: Disk, objects: map<Key, seq<byte>>, backup: Path, host: string, dates: seq<string>)
    requires |dates| == |Artifacts| && forall i :: 0 <= i < |Artifacts| ==> dates[i] != "" && Intact(d, backup + [Artifacts[i]])
    ensures !UploadAll(d, objects, backup, host, dates, Artifacts, false).1
    ensures forall i :: 0 <= i < |Artifacts| ==>
      d.IsFile(backup + [Artifacts[i]])
      && UploadKey(host, dates[i], Artifacts[i]) in UploadAll(d, objects, backup, host, dates, Artifacts, false).0
      && UploadAll(d, objects, backup, host, dates, Artifacts, false).0[UploadKey(host, dates[i], Artifacts[i])]
        == d.Content(backup + [Artifacts[i]])
    ensures forall k :: (forall i :: 0 <= i < |Artifacts| ==> k != UploadKey(host, dates[i], Artifacts[i])) ==>
      (k in UploadAll(d, objects, backup, host, dates, Artifacts, false).0 <==> k in objects)
  {
    forall f | f in Artifacts
      ensures d.Open(backup + [f]).Success?
    {
      var i :| 0 <= i < |Artifacts| && Artifacts[i] == f;
      assert Intact(d, backup + [Artifacts[i]]);
    }
    SkipAgrees(d, objects, backup, host, dates, Artifacts);
    SkippingUploadsIntact(d, objects, backup, host, dates, Artifacts);
  }

  /**
   * As written, every pass reads the clock: an upload whose first artifact
   * is keyed before midnight and the next one after it stores
   * `xtrabackup_info` under another date than `backup.gz.enc`. A download
   * of the date of `backup.gz.enc` then asks for a key the upload did not
   * write.
   */
  lemma MidnightSplitsBackup(d: Disk, objects: map<Key, seq<byte>>, backup: Path, host: string, clock: seq<string>)
    requires |clock| == |Artifacts| && forall i :: 0 <= i < |Artifacts| ==> clock[i] != "" && Intact(d, backup + [Artifacts[i]])
    requires clock[0] != clock[1] && DownloadKey(host, clock[0], "xtrabackup_info") !in objects
    ensures UploadKey(host, clock[0], "backup.gz.enc") in UploadAll(d, objects, backup, host, KeyDates(clock, false), Artifacts, false).0
    ensures DownloadKey(host, clock[0], "xtrabackup_info") !in UploadAll(d, objects, backup, host, KeyDates(clock, false), Artifacts, false).0
  {
    assert KeyDates(clock, false) == clock;
    FirstStored(d, objects, backup, host, clock);
    var k := DownloadKey(host, clock[0], "xtrabackup_info");
    forall i | 0 <= i < |Artifacts|
      ensures k != UploadKey(host, clock[i], Artifacts[i])
    {
      KeysDistinct(host, clock[0], clock[i], "xtrabackup_info", Artifacts[i]);
    }
    KeyNotWritten(d, objects, backup, host, clock, Artifacts, k);
  }

  /** When all four artifacts are readable, `backup.gz.enc` is stored under the date of the first pass. */
  lemma FirstStored(d: Disk, objects: map<Key, seq<byte>>, backup: Path, host: string, dates: seq<string>)
    requires |dates| == |Artifacts| && forall i :: 0 <= i < |Artifacts| ==> dates[i] != "" && Intact(d, backup + [Artifacts[i]])
    ensures UploadKey(host, dates[0], "backup.gz.enc") in UploadAll(d, objects, backup, host, dates, Artifacts, false).0
  {
    UploadStoresArtifacts(d, objects, backup, host, dates);
  }

  /** A key that none of the passes writes is in the bucket after the upload only if it was before. */
  lemma {:induction false} KeyNotWritten(d: Disk, objects: map<Key, seq<byte>>, backup: Path, host: string,
    dates: seq<string>, files: seq<string>, k: Key)
    requires |dates| == |files| && k !in objects
    requires forall i :: 0 <= i < |files| ==> k != UploadKey(host, dates[i], files[i])
    ensures k !in UploadAll(d, objects, backup, host, dates, files, false).0
    decreases |files|
  {
    if files != [] {
      var n := |files| - 1;
      forall i | 0 <= i < n
        ensures k != UploadKey(host, dates[..n][i], files[..n][i])
      {
        assert dates[..n][i] == dates[i] && files[..n][i] == files[i];
      }
      KeyNotWritten(d, objects, backup, host, dates[..n], files[..n], k);
    }
  }

  /**
   * One artifact of `Download`: the file is opened with O_CREATE|O_WRONLY
   * (O_TRUNC as well when `truncate`), then the object is written at its
   * start. The file is made even when the object does not exist, and a
   * file that failed to open takes no bytes.
   */
  function DownloadFile(d: Disk, objects: map<Key, seq<byte>>, backup: Path, host: string, date: string, file: string,
    truncate: bool): Disk
  {
    var p := backup + [file];
    match OpenOutput(d, p, truncate)
    case Failure(_) => d
    case Success(d1) =>
      if DownloadKey(host, date, file) in objects then d1.WriteAt(p, 0, objects[DownloadKey(host, date, file)]).0 else d1
  }

  /** The disk after downloading `files` in order. */
  function DownloadAll(d: Disk, objects: map<Key, seq<byte>>, backup: Path, host: string, date: string, files: seq<string>,
    truncate: bool): Disk
    decreases |files|
  {
    if files == [] then d
    else DownloadFile(DownloadAll(d, objects, backup, host, date, files[..|files| - 1], truncate), objects, backup, host, date,
      files[|files| - 1], truncate)
  }

  /** `Download`: the directory is made when it does not exist (a failure is only logged), then the artifacts. */
  function DownloadSpec(d: Disk, objects: map<Key, seq<byte>>, backup: Path, host: string, date: string, truncate: bool): Disk {
    var d0 := if d.Stat(backup) == Some(NotExist) then Commit(d, d.Mkdir(backup)).0 else d;
    DownloadAll(d0, objects, backup, host, date, Artifacts, truncate)
  }

  /**
   * `Download`: whether the backup is in the bucket is asked first, and
   * the answer is not used.
   */
  method Download(m: S3Manager, fs: FileSystem, store: Bucket, backup: Path, restoreDate: string, host: string,
    listing: Result<seq<Key>, TransferError>)
    modifies fs
    ensures fs.disk == DownloadSpec(old(fs.disk), store.objects, backup, host, restoreDate, false)
  {
    var pushed := IsPushed(listing);
    if fs.disk.Stat(backup) == Some(NotExist) {
      var err := fs.Mkdir(backup);
    }
    ghost var d0 := fs.disk;
    for i := 0 to |Artifacts|
      invariant fs.disk == DownloadAll(d0, store.objects, backup, host, restoreDate, Artifacts[..i], false)
    {
      assert Artifacts[..i + 1][..i] == Artifacts[..i];
      DownloadArtifact(fs, store, backup, restoreDate, host, Artifacts[i]);
    }
    assert Artifacts[..|Artifacts|] == Artifacts;
  }

  /** One pass of the loop of `Download`: the file opened, then handed to a fresh downloader. */
  method DownloadArtifact(fs: FileSystem, store: Bucket, backup: Path, restoreDate: string, host: string, file: string)
    modifies fs
    ensures fs.disk == DownloadFile(old(fs.disk), store.objects, backup, host, restoreDate, file, false)
  {
    var fh, err := fs.OpenWrite(backup + [file]);
    var dlp := new DownloadProgress();
    var updates, downloadErr := dlp.Download(store, DownloadKey(host, restoreDate, file), fh);
  }

  /** The bytes the objects of `files` take. */
  function Total(objects: map<Key, seq<byte>>, host: string, date: string, files: seq<string>): nat
    decreases |files|
  {
    if files == [] then 0
    else
      var key := DownloadKey(host, date, files[|files| - 1]);
      Total(objects, host, date, files[..|files| - 1]) + (if key in objects then |objects[key]| else 0)
  }

  /** A file the download can open and fill: inside the directory, not locked and not a directory. */
  predicate Fillable(d: Disk, p: Path) {
    p !in d.locked && !d.IsDir(p)
  }

  /** With O_TRUNC, one artifact whose object fits leaves its file holding exactly that object. */
  lemma FillOne(d: Disk, objects: map<Key, seq<byte>>, backup: Path, host: string, date: string, file: string)
    requires d.IsDir(backup) && Fillable(d, backup + [file])
    requires DownloadKey(host, date, file) in objects && |objects[DownloadKey(host, date, file)]| <= d.quota
    ensures DownloadFile(d, objects, backup, host, date, file, true)
      == d.(nodes := d.nodes[backup + [file] := File(objects[DownloadKey(host, date, file)])],
            quota := d.quota - |objects[DownloadKey(host, date, file)]|)
  {
    var p := backup + [file];
    assert Parent(p) == backup;
    var obj := objects[DownloadKey(host, date, file)];
    var d1 := d.(nodes := d.nodes[p := File([])]);
    assert OpenOutput(d, p, true) == Success(d1);
    assert d1.WriteAt(p, 0, obj).0 == d1.(nodes := d1.nodes[p := File(Overlay([], 0, obj[..|obj|]))], quota := d.quota - |obj|);
    assert obj[..|obj|] == obj;
    assert Overlay([], 0, obj) == obj by {
      OverlayCovers([], 0, obj);
    }
    UpdateTwice(d.nodes, p, File([]), File(obj));
  }

  /**
   * With O_TRUNC and room for every object, a download of `files` into a
   * directory leaves each file holding exactly its object, changes no
   * directory, and uses the objects' bytes of the quota.
   */
  lemma {:induction false} TruncatingDownload(d: Disk, objects: map<Key, seq<byte>>, backup: Path, host: string, date: string,
    files: seq<string>)
    requires d.IsDir(backup)
    requires forall f :: f in files ==> Fillable(d, backup + [f]) && DownloadKey(host, date, f) in objects
    requires Total(objects, host, date, files) <= d.quota
    ensures forall q :: DownloadAll(d, objects, backup, host, date, files, true).IsDir(q) <==> d.IsDir(q)
    ensures DownloadAll(d, objects, backup, host, date, files, true).locked == d.locked
    ensures DownloadAll(d, objects, backup, host, date, files, true).quota == d.quota - Total(objects, host, date, files)
    ensures forall f :: f in files ==>
      DownloadAll(d, objects, backup, host, date, files, true).IsFile(backup + [f])
      && DownloadAll(d, objects, backup, host, date, files, true).Content(backup + [f]) == objects[DownloadKey(host, date, f)]
    decreases |files|
  {
    if files != [] {
      var prefix := files[..|files| - 1];
      var last := files[|files| - 1];
      forall f | f in prefix
        ensures Fillable(d, backup + [f]) && DownloadKey(host, date, f) in objects
      {
        assert f in files;
      }
      assert last in files;
      TruncatingDownload(d, objects, backup, host, date, prefix);
      var r := DownloadAll(d, objects, backup, host, date, prefix, true);
      var p := backup + [last];
      var obj := objects[DownloadKey(host, date, last)];
      FillOne(r, objects, backup, host, date, last);
      var e := r.(nodes := r.nodes[p := File(obj)], quota := r.quota - |obj|);
      assert DownloadAll(d, objects, backup, host, date, files, true) == e;
      forall f | f in files
        ensures e.IsFile(backup + [f]) && e.Content(backup + [f]) == objects[DownloadKey(host, date, f)]
      {
        if f != last {
          assert f in prefix;
          assert backup + [f] != p;
        }
      }
    }
  }

  /**
   * The intended round trip: the artifacts uploaded with every key dated
   * `day`, downloaded on another disk for `day` with O_TRUNC, are the files
   * that were uploaded.
   */
  lemma UploadThenDownload(src: Disk, dst: Disk, objects: map<Key, seq<byte>>, from: Path, to: Path, host: string,
    dates: seq<string>, day: string)
    requires |dates| == |Artifacts| && day != "" && forall i :: 0 <= i < |Artifacts| ==> dates[i] == day
    requires forall i :: 0 <= i < |Artifacts| ==> Intact(src, from + [Artifacts[i]])
    requires dst.IsDir(to) && forall i :: 0 <= i < |Artifacts| ==> Fillable(dst, to + [Artifacts[i]])
    requires Total(UploadAll(src, objects, from, host, dates, Artifacts, false).0, host, day, Artifacts) <= dst.quota
    ensures forall i :: 0 <= i < |Artifacts| ==>
      src.IsFile(from + [Artifacts[i]])
      && DownloadSpec(dst, UploadAll(src, objects, from, host, dates, Artifacts, false).0, to, host, day, true).IsFile(to + [Artifacts[i]])
      && DownloadSpec(dst, UploadAll(src, objects, from, host, dates, Artifacts, false).0, to, host, day, true).Content(to + [Artifacts[i]])
        == src.Content(from + [Artifacts[i]])
  {
    var bucket := UploadAll(src, objects, from, host, dates, Artifacts, false).0;
    StoredUnderDay(src, objects, from, host, dates, day);
    TruncatingDownload(dst, bucket, to, host, day, Artifacts);
    assert DownloadSpec(dst, bucket, to, host, day, true) == DownloadAll(dst, bucket, to, host, day, Artifacts, true);
  }

  /** An upload whose keys all carry `day` stores every readable artifact under the download key of `day`. */
  lemma StoredUnderDay(src: Disk, objects: map<Key, seq<byte>>, from: Path, host: string, dates: seq<string>, day: string)
    requires |dates| == |Artifacts| && day != "" && forall i :: 0 <= i < |Artifacts| ==> dates[i] == day
    requires forall i :: 0 <= i < |Artifacts| ==> Intact(src, from + [Artifacts[i]])
    ensures forall i :: 0 <= i < |Artifacts| ==>
      src.IsFile(from + [Artifacts[i]])
      && DownloadKey(host, day, Artifacts[i]) in UploadAll(src, objects, from, host, dates, Artifacts, false).0
      && UploadAll(src, objects, from, host, dates, Artifacts, false).0[DownloadKey(host, day, Artifacts[i])]
        == src.Content(from + [Artifacts[i]])
  {
    UploadStoresArtifacts(src, objects, from, host, dates);
  }

  /**
   * With the date read once, before the loop, the round trip holds for
   * every reading of the clock: the download of the first artifact's date
   * gives back all four files.
   */
  lemma ClockReadOnce(src: Disk, dst: Disk, objects: map<Key, seq<byte>>, from: Path, to: Path, host: string, clock: seq<string>)
    requires |clock| == |Artifacts| && clock[0] != ""
    requires forall i :: 0 <= i < |Artifacts| ==> Intact(src, from + [Artifacts[i]])
    requires dst.IsDir(to) && forall i :: 0 <= i < |Artifacts| ==> Fillable(dst, to + [Artifacts[i]])
    requires Total(UploadAll(src, objects, from, host, KeyDates(clock, true), Artifacts, false).0, host, clock[0], Artifacts) <= dst.quota
    ensures forall i :: 0 <= i < |Artifacts| ==>
      src.IsFile(from + [Artifacts[i]])
      && DownloadSpec(dst, UploadAll(src, objects, from, host, KeyDates(clock, true), Artifacts, false).0, to, host, clock[0], true)
        .IsFile(to + [Artifacts[i]])
      && DownloadSpec(dst, UploadAll(src, objects, from, host, KeyDates(clock, true), Artifacts, false).0, to, host, clock[0], true)
        .Content(to + [Artifacts[i]]) == src.Content(from + [Artifacts[i]])
  {
    UploadThenDownload(src, dst, objects, from, to, host, KeyDates(clock, true), clock[0]);
  }

  /**
   * As the code opens the file, without O_TRUNC: an object downloaded over
   * a longer file leaves that file's tail after the object.
   */
  lemma StaleDownloadKeepsTail(d: Disk, objects: map<Key, seq<byte>>, backup: Path, host: string, date: string, file: string)
    requires d.IsFile(backup + [file]) && d.CreateCheck(backup + [file]).None?
    requires DownloadKey(host, date, file) in objects && |objects[DownloadKey(host, date, file)]| <= d.quota
    requires |objects[DownloadKey(host, date, file)]| < |d.Content(backup + [file])|
    ensures DownloadFile(d, objects, backup, host, date, file, false).IsFile(backup + [file])
    ensures DownloadFile(d, objects, backup, host, date, file, false).Content(backup + [file])
      == objects[DownloadKey(host, date, file)] + d.Content(backup + [file])[|objects[DownloadKey(host, date, file)]|..]
    ensures DownloadFile(d, objects, backup, host, date, file, false).Content(backup + [file]) != objects[DownloadKey(host, date, file)]
  {
    var obj := objects[DownloadKey(host, date, file)];
    var base := d.Content(backup + [file]);
    OverlayKeepsTail(base, 0, obj);
    assert obj[..|obj|] == obj && base[..0] + obj == obj;
  }
}
