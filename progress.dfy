/**
 * `Manager/UploadProgress.go` and `Manager/DownloadProgress.go`: wrappers
 * around the reader an upload consumes and the writer a download fills, each
 * counting the bytes that pass through it in one 64-bit counter. The S3
 * bucket is a map from keys to objects; the SDK's transfer managers are
 * modelled sequentially, as one read loop and as one write of the object.
 */
module Progress {
  import opened Wrappers
  import opened Text
  import opened Files
  import opened Decimal

  /** An S3 object key, as the list of the non-empty parts `filepath.Join` puts between slashes. */
  type Key = seq<string>

  /** Why a transfer fails: no such object, a nil file, or a local I/O error. */
  datatype TransferError = NotFound | Invalid | Io(error: IoError)

  /** `ProgressUpdate` of `Manager/Repository.go`. */
  datatype ProgressUpdate = ProgressUpdate(bytes: int, total: int, finished: bool, error: Option<TransferError>)

  /** The size of the parts the uploader reads, `s3manager.DefaultUploadPartSize`. */
  const PartSize: nat := 5 * 1024 * 1024

  const Modulus: int := 0x1_0000_0000_0000_0000

  /** The int64 value of x, which wraps around modulo 2^64. */
  function Wrap64(x: int): (r: int)
    ensures IsInt64(r)
    ensures (r - x) % Modulus == 0
    ensures IsInt64(x) ==> r == x
  {
    (x - MinInt64) % Modulus + MinInt64
  }

  /** Adding to a wrapped counter is wrapping the sum. */
  lemma WrapAdd(a: int, n: int)
    ensures Wrap64(Wrap64(a) + n) == Wrap64(a + n)
  {
    var x := a - MinInt64;
    var q := x / Modulus;
    assert x == q * Modulus + x % Modulus;
    assert Wrap64(a) + n - MinInt64 == (x + n) - q * Modulus;
    ShiftMod(x + n, q);
  }

  lemma ShiftMod(y: int, q: int)
    ensures (y - q * Modulus) % Modulus == y % Modulus
  {
    var r := y % Modulus;
    assert y == (y / Modulus) * Modulus + r;
    assert y - q * Modulus == (y / Modulus - q) * Modulus + r;
  }

  /** The bucket the transfers go to. */
  class Bucket {
    var objects: map<Key, seq<byte>>

    constructor (objects: map<Key, seq<byte>>)
      ensures this.objects == objects
    {
      this.objects := objects;
    }
  }

  /** `UploadProgress`: the body of an upload, counting the bytes read from it. */
  class UploadProgress {
    var reader: Reader?
    var bytes: int

    constructor ()
      ensures reader == null && bytes == 0
    {
      reader := null;
      bytes := 0;
    }

    /** `BytesSent` */
    method BytesSent() returns (n: int)
      ensures n == bytes
    {
      n := bytes;
    }

    /** `Read`: the wrapped reader's read, whose count is added to the counter. */
    method Read(buf: array<byte>) returns (n: nat, st: ReadStatus)
      requires reader != null && reader.Valid()
      modifies this`bytes, reader, buf
      ensures reader.Valid() && reader.pos == old(reader.pos) + n && n <= buf.Length
      ensures buf[..n] == reader.data[old(reader.pos)..reader.pos]
      ensures buf.Length > 0 ==> (st == ReadOk <==> n > 0)
      ensures buf.Length > 0 ==> (st == ReadEof <==> old(reader.pos) == |reader.data| && !reader.dir)
      ensures buf.Length > 0 ==> (st == ReadError <==> old(reader.pos) == reader.limit && (reader.limit < |reader.data| || reader.dir))
      ensures bytes == Wrap64(old(bytes) + n)
    {
      n, st := reader.Read(buf);
      bytes := Wrap64(bytes + n);
    }

    /**
     * `Upload`: the counter is reset and the uploader reads the body
     * through `Read` until the end of the file or a read error, which the
     * first read of a directory is; only a complete body is stored. A failure
     * queues one update with the size, the bytes counted and no error; the
     * call itself never fails.
     */
    method Upload(store: Bucket, key: Key, input: Reader, size: int) returns (updates: seq<ProgressUpdate>, err: Option<TransferError>)
      requires input.Valid() && input.pos == 0
      modifies this, input, store
      ensures reader == input && input.Valid() && input.pos == input.limit
      ensures bytes == Wrap64(input.limit)
      ensures store.objects == if input.limit == |input.data| && !input.dir then old(store.objects)[key := input.data] else old(store.objects)
      ensures updates == if input.limit == |input.data| && !input.dir then [] else [ProgressUpdate(size, bytes, false, None)]
      ensures err.None?
    {
      bytes := 0;
      reader := input;
      var buf := new byte[PartSize];
      var body: seq<byte> := [];
      var st := ReadOk;
      while st == ReadOk
        invariant reader == input && input.Valid() && body == input.data[..input.pos]
        invariant bytes == Wrap64(input.pos) && store.objects == old(store.objects)
        invariant st != ReadOk ==> input.pos == input.limit && (st == ReadEof <==> input.limit == |input.data| && !input.dir)
        decreases input.limit - input.pos, if st == ReadOk then 1 else 0
      {
        var n;
        ghost var p0 := input.pos;
        n, st := Read(buf);
        WrapAdd(p0, n);
        body := body + buf[..n];
      }
      updates := [];
      if st == ReadEof {
        assert body == input.data;
        store.objects := store.objects[key := body];
      } else {
        var sent := BytesSent();
        updates := [ProgressUpdate(size, sent, false, None)];
      }
      err := None;
    }
  }

  /** `DownloadProgress`: the file a download is written to, counting the bytes handed to it. */
  class DownloadProgress {
    var writer: Writer?
    var bytes: int

    constructor ()
      ensures writer == null && bytes == 0
    {
      writer := null;
      bytes := 0;
    }

    /** `BytesWritten` */
    method BytesWritten() returns (n: int)
      ensures n == bytes
    {
      n := bytes;
    }

    /**
     * `WriteAt`: the length of p is added to the counter before the write,
     * whatever the write then does; the write's result is returned as it
     * is, and a nil file writes nothing and fails.
     */
    method WriteAt(p: seq<byte>, off: nat) returns (n: nat, err: Option<TransferError>)
      requires writer != null ==> writer.fs.disk.IsFile(writer.path) && off <= |writer.fs.disk.Content(writer.path)|
      modifies this`bytes, if writer != null then {writer.fs} else {}
      ensures bytes == Wrap64(old(bytes) + |p|)
      ensures writer == null ==> n == 0 && err == Some(Invalid)
      ensures writer != null ==> writer.fs.disk == old(writer.fs.disk).WriteAt(writer.path, off, p).0
      ensures writer != null ==> n == Min(old(writer.fs.disk.quota), |p|) && err == if n < |p| then Some(Io(NoSpace)) else None
    {
      bytes := Wrap64(bytes + |p|);
      if writer == null {
        return 0, Some(Invalid);
      }
      var e;
      n, e := writer.WriteAt(p, off);
      err := if e.Some? then Some(Io(e.value)) else None;
    }

    /**
     * `Download`: the counter is reset; when the object does not exist
     * (`HeadObject` fails) there is no channel and the error is returned.
     * Otherwise the downloader hands the object to `WriteAt` part by part,
     * in order, and stops at the first failed write; a failure queues one
     * update with the object's size, the bytes counted and the error.
     */
    method Download(store: Bucket, key: Key, w: Writer?) returns (updates: Option<seq<ProgressUpdate>>, err: Option<TransferError>)
      requires w != null ==> w.Valid()
      modifies this, if w != null then {w.fs} else {}
      ensures writer == w
      ensures key !in store.objects ==> bytes == 0 && updates.None? && err == Some(NotFound)
      ensures key !in store.objects && w != null ==> w.fs.disk == old(w.fs.disk)
      ensures key in store.objects ==> err.None?
      ensures key in store.objects && w == null ==> bytes == Wrap64(Min(|store.objects[key]|, PartSize))
      ensures key in store.objects && w == null ==>
        updates == Some(if store.objects[key] == [] then [] else [ProgressUpdate(|store.objects[key]|, bytes, false, Some(Invalid))])
      ensures key in store.objects && w != null ==> w.fs.disk == old(w.fs.disk).WriteAt(w.path, 0, store.objects[key]).0
      ensures key in store.objects && w != null ==> bytes == Wrap64(Handed(|store.objects[key]|, old(w.fs.disk.quota)))
      ensures key in store.objects && w != null ==>
        updates == Some(if old(w.fs.disk.quota) < |store.objects[key]|
                        then [ProgressUpdate(|store.objects[key]|, bytes, false, Some(Io(NoSpace)))] else [])
    {
      bytes := 0;
      writer := w;
      if key !in store.objects {
        return None, Some(NotFound);
      }
      var obj := store.objects[key];
      var writeErr: Option<TransferError> := None;
      if w == null {
        if obj != [] {
          var n;
          n, writeErr := WriteAt(obj[..Min(PartSize, |obj|)], 0);
        }
      } else {
        writeErr := WriteParts(obj);
      }
      if writeErr.Some? {
        var total := BytesWritten();
        updates := Some([ProgressUpdate(|obj|, total, false, writeErr)]);
      } else {
        updates := Some([]);
      }
      err := None;
    }

    /**
     * The downloader's loop over the parts of `obj`, written in order
     * through `WriteAt` until one falls short: the file ends up as one
     * write of the whole object would leave it.
     */
    method WriteParts(obj: seq<byte>) returns (writeErr: Option<TransferError>)
      requires writer != null && writer.Valid() && bytes == 0
      modifies this`bytes, writer.fs
      ensures writer.fs.disk == old(writer.fs.disk).WriteAt(writer.path, 0, obj).0
      ensures writeErr == if old(writer.fs.disk.quota) < |obj| then Some(Io(NoSpace)) else None
      ensures bytes == Wrap64(Handed(|obj|, old(writer.fs.disk.quota)))
    {
      ghost var d0 := writer.fs.disk;
      ghost var fs := writer.fs;
      ghost var path := writer.path;
      var off := 0;
      ghost var parts: nat := 0;
      writeErr := None;
      while off < |obj| && writeErr.None?
        invariant writer != null && writer.fs == fs && writer.path == path
        invariant off <= |obj| && fs.disk.IsFile(path)
        invariant off < |obj| ==> off == parts * PartSize
        invariant writeErr.None? ==> bytes == Wrap64(off) && off <= d0.quota && fs.disk == d0.WriteAt(path, 0, obj[..off]).0
        invariant writeErr.Some? ==> writeErr == Some(Io(NoSpace)) && d0.quota < |obj|
        invariant writeErr.Some? ==> fs.disk == d0.WriteAt(path, 0, obj).0 && bytes == Wrap64(Handed(|obj|, d0.quota))
        decreases |obj| - off, if writeErr.None? then 1 else 0
      {
        off, writeErr := WritePart(obj, off, d0, parts);
        parts := parts + 1;
      }
      if writeErr.None? {
        assert obj[..off] == obj;
      }
    }

    /** One part of `WriteParts`: the part at `off`, after all those before it were written whole. */
    method WritePart(obj: seq<byte>, off: nat, ghost d0: Disk, ghost parts: nat) returns (end: nat, writeErr: Option<TransferError>)
      requires writer != null && off < |obj| && off == parts * PartSize && off <= d0.quota
      requires d0.IsFile(writer.path) && bytes == Wrap64(off) && writer.fs.disk == d0.WriteAt(writer.path, 0, obj[..off]).0
      modifies this`bytes, writer.fs
      ensures off < end <= |obj| && (end < |obj| ==> end == (parts + 1) * PartSize) && writer.fs.disk.IsFile(writer.path)
      ensures writeErr.None? ==> bytes == Wrap64(end) && end <= d0.quota && writer.fs.disk == d0.WriteAt(writer.path, 0, obj[..end]).0
      ensures writeErr.Some? ==> writeErr == Some(Io(NoSpace)) && d0.quota < |obj|
      ensures writeErr.Some? ==> writer.fs.disk == d0.WriteAt(writer.path, 0, obj).0 && bytes == Wrap64(Handed(|obj|, d0.quota))
    {
      end := Min(off + PartSize, |obj|);
      PartStep(d0, writer.path, obj, off, end);
      var n;
      n, writeErr := WriteAt(obj[off..end], off);
      WrapAdd(off, end - off);
      if writeErr.Some? {
        assert d0.quota < end;
        PartOf(parts, d0.quota, |obj|);
      }
    }
  }

  /**
   * One part after the parts before it: together they are one write of the
   * object up to the part's end, and once the disk fills inside the part,
   * that is one write of the whole object.
   */
  lemma PartStep(d: Disk, p: Path, obj: seq<byte>, off: nat, end: nat)
    requires d.IsFile(p) && off <= end <= |obj| && off <= d.quota
    ensures d.WriteAt(p, 0, obj[..off]).0.IsFile(p) && off <= |d.WriteAt(p, 0, obj[..off]).0.Content(p)|
    ensures d.WriteAt(p, 0, obj[..off]).0.quota == d.quota - off
    ensures d.WriteAt(p, 0, obj[..off]).0.WriteAt(p, off, obj[off..end]).0 == d.WriteAt(p, 0, obj[..end]).0
    ensures d.quota < end ==> d.WriteAt(p, 0, obj[..end]).0 == d.WriteAt(p, 0, obj).0
  {
    WriteAtThen(d, p, 0, obj[..off], obj[off..end]);
    assert obj[..off] + obj[off..end] == obj[..end];
    if d.quota < end {
      WriteAtPrefix(d, p, 0, obj[..end], obj);
    }
  }

  /**
   * How many bytes the downloader hands to `WriteAt` for an object of
   * `size` bytes when the disk takes `quota` more: every part up to and
   * including the one in which the disk fills.
   */
  function Handed(size: nat, quota: nat): (r: nat)
    ensures quota >= size ==> r == size
    ensures r <= size
  {
    Min(size, (quota / PartSize + 1) * PartSize)
  }

  /** Part k, which holds byte q, ends where `Handed` says. */
  lemma PartOf(k: nat, q: nat, size: nat)
    requires k * PartSize <= q < Min(k * PartSize + PartSize, size)
    ensures Handed(size, q) == Min(k * PartSize + PartSize, size)
  {
    assert q == k * PartSize + (q - k * PartSize) && 0 <= q - k * PartSize < PartSize;
    assert q / PartSize == k;
  }

  /** While the total stays within int64, the counter is the number of bytes itself. */
  lemma CounterExact(total: nat)
    requires total <= MaxInt64
    ensures Wrap64(total) == total
  {
  }

  /** Past the int64 range the counter wraps and reads negative. */
  lemma CounterWraps()
    ensures Wrap64(MaxInt64 + 1) == MinInt64
  {
  }
}
