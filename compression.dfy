/**
 * The gzip writer both versions of the backup command put between the
 * tool's output and `backup.gz`, and its close.
 */
module Compression {
  import opened Text
  import opened Files

  /**
   * A gzip writer (pgzip here, compress/gzip in the older version), as the
   * two parts of the compressed form of a stream, both left uninterpreted:
   * what the writer passes on to the file while the stream is copied into
   * it, and what `Close` writes after that, the last block and the trailer.
   */
  datatype Compressor = Compressor(body: seq<byte> -> seq<byte>, tail: seq<byte> -> seq<byte>)
  {
    /** The complete compressed form of s. */
    function Whole(s: seq<byte>): seq<byte> {
      body(s) + tail(s)
    }
  }

  /** A gzip writer over `artifact` that was given `copied`; `healthy` when none of its writes to the file fell short. */
  datatype Gzw = Gzw(artifact: Path, copied: seq<byte>, healthy: bool)

  /**
   * The copy into a gzip writer over the new, empty `artifact`: the body of
   * the compressed stream is written from offset 0, as far as the disk allows.
   */
  function CopyInto(d: Disk, artifact: Path, gz: Compressor, copied: seq<byte>): (r: (Disk, Gzw))
    requires d.IsFile(artifact) && d.Content(artifact) == []
    ensures r.0.IsFile(artifact) && r.1 == Gzw(artifact, copied, |gz.body(copied)| <= d.quota)
    ensures r.1.healthy ==> r.0.Content(artifact) == gz.body(copied)
    ensures r.0.nodes.Keys == d.nodes.Keys && r.0.locked == d.locked && r.0.faults == d.faults
  {
    var body := gz.body(copied);
    WriteAtFresh(d, artifact, body);
    assert body[..|body|] == body;
    (d.WriteAt(artifact, 0, body).0, Gzw(artifact, copied, |body| <= d.quota))
  }

  /**
   * `gzw.Close()`: a writer one of whose writes failed keeps that error and
   * writes nothing more; otherwise the tail goes after the body. The boolean
   * says whether all of the tail was written, which is `Close`'s error.
   */
  function CloseGzw(d: Disk, w: Gzw, gz: Compressor): (r: (Disk, bool))
    requires d.IsFile(w.artifact) && (w.healthy ==> d.Content(w.artifact) == gz.body(w.copied))
    ensures r.1 ==> w.healthy
    ensures r.0.IsFile(w.artifact) && r.0.nodes.Keys == d.nodes.Keys && r.0.locked == d.locked && r.0.faults == d.faults
  {
    if !w.healthy then (d, false)
    else
      var (d1, n) := d.WriteAt(w.artifact, |gz.body(w.copied)|, gz.tail(w.copied));
      (d1, n == |gz.tail(w.copied)|)
  }

  /**
   * The copy and the close together write the whole compressed stream into
   * the new file, cut where the disk filled, and the close succeeds exactly
   * when all of it fit.
   */
  lemma CopyThenClose(d: Disk, artifact: Path, gz: Compressor, copied: seq<byte>)
    requires d.IsFile(artifact) && d.Content(artifact) == []
    ensures var (d2, w) := CopyInto(d, artifact, gz, copied);
      && CloseGzw(d2, w, gz).0 == d.WriteAt(artifact, 0, gz.Whole(copied)).0
      && (CloseGzw(d2, w, gz).1 <==> |gz.Whole(copied)| <= d.quota)
  {
    var body, tail := gz.body(copied), gz.tail(copied);
    WriteAtThen(d, artifact, 0, body, tail);
    if d.quota < |body| {
      WriteAtPrefix(d, artifact, 0, body, body + tail);
    }
  }

  /** What the artifact holds after the copy and the close: the compressed stream, up to where the disk filled. */
  lemma ClosedArtifact(d: Disk, artifact: Path, gz: Compressor, copied: seq<byte>)
    requires d.IsFile(artifact) && d.Content(artifact) == []
    ensures var (d2, w) := CopyInto(d, artifact, gz, copied);
      && CloseGzw(d2, w, gz).0.Content(artifact) == gz.Whole(copied)[..Min(d.quota, |gz.Whole(copied)|)]
      && CloseGzw(d2, w, gz).0.quota == d.quota - Min(d.quota, |gz.Whole(copied)|)
  {
    CopyThenClose(d, artifact, gz, copied);
    WriteAtFresh(d, artifact, gz.Whole(copied));
  }

  /** `gzw.Close()` on the file the copy wrote the body into; both versions drop what it returns. */
  method CloseCompressor(file: Writer, gz: Compressor, copied: seq<byte>, healthy: bool) returns (closed: bool)
    requires file.Valid()
    requires healthy ==> file.fs.disk.Content(file.path) == gz.body(copied) && file.offset == |gz.body(copied)|
    modifies file.fs, file
    ensures (file.fs.disk, closed) == CloseGzw(old(file.fs.disk), Gzw(file.path, copied, healthy), gz)
  {
    closed := false;
    if healthy {
      var n, closeErr := file.Write(gz.tail(copied));
      closed := closeErr.None?;
    }
  }
}
