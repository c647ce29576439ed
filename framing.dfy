/**
 * The file framing that both versions of `Encrypt` and `Decrypt` share:
 * the ciphertext is written at the start of the output and the IV right
 * after it; decryption reads the IV from the last block of the input and
 * writes the decryption of everything before it.
 */
module Framing {
  import opened Wrappers
  import opened Text
  import opened Files
  import opened Cipher

  /**
   * How a call ends: it returns its error (or nil); the process exits
   * (`log.Fatal`, `log.Panic` or a runtime panic); or it never returns.
   */
  datatype Outcome = Returned(err: Option<IoError>) | Aborted | Hangs

  /**
   * The output opened for writing: `os.O_RDWR|os.O_CREATE`, as the code
   * has it, and with `os.O_TRUNC` as well when `truncate` holds.
   */
  function OpenOutput(d: Disk, p: Path, truncate: bool): (r: Result<Disk, IoError>)
    ensures r.Success? <==> d.CreateCheck(p).None?
    ensures r.Success? ==> r.value.IsFile(p) && r.value.locked == d.locked && r.value.faults == d.faults && r.value.quota == d.quota
    ensures r.Success? ==> r.value.nodes == d.nodes[p := r.value.nodes[p]]
    ensures r.Success? && (truncate || !d.IsFile(p)) ==> r.value.Content(p) == []
    ensures r.Success? && !truncate && d.IsFile(p) ==> r.value == d
  {
    if truncate then d.Create(p) else d.OpenWrite(p)
  }

  /**
   * The output after the encrypting loop and the IV: the ciphertext at
   * offset 0 and the IV after it. A short write is a full disk, and the
   * first one returns.
   */
  function Frame(d: Disk, out: Path, cipher: seq<byte>, iv: seq<byte>): (r: (Disk, Option<IoError>))
    requires d.IsFile(out)
  {
    var w := d.WriteAt(out, 0, cipher);
    if w.1 < |cipher| then (w.0, Some(NoSpace))
    else
      var t := w.0.WriteAt(out, |cipher|, iv);
      (t.0, if t.1 < |iv| then Some(NoSpace) else None)
  }

  /**
   * The frame is complete exactly when the disk has room for it, and then
   * it leaves the output as one write of the ciphertext and the IV would.
   */
  lemma FrameWrites(d: Disk, out: Path, cipher: seq<byte>, iv: seq<byte>)
    requires d.IsFile(out)
    ensures Frame(d, out, cipher, iv).1.None? <==> |cipher| + |iv| <= d.quota
    ensures Frame(d, out, cipher, iv).1.None? ==> Frame(d, out, cipher, iv).0 == d.WriteAt(out, 0, cipher + iv).0
  {
    WriteAtThen(d, out, 0, cipher, iv);
  }

  /** The frame changes the output file and no other. */
  lemma FrameKeeps(d: Disk, out: Path, cipher: seq<byte>, iv: seq<byte>, q: Path)
    requires d.IsFile(out) && q != out
    ensures q in Frame(d, out, cipher, iv).0.nodes <==> q in d.nodes
    ensures q in d.nodes ==> Frame(d, out, cipher, iv).0.nodes[q] == d.nodes[q]
  {
  }

  /**
   * The end of `Decrypt`: the decryption of all but the last block, with
   * the last block as IV, written at the start of the output (write errors
   * are not looked at), then the input removed.
   */
  function Restored(d: Disk, data: seq<byte>, key: seq<byte>, inFile: Path, outFile: Path, ks: Keystream): (Disk, Outcome)
    requires BlockSize <= |data| && d.IsFile(outFile)
  {
    var msgLen := |data| - BlockSize;
    var d2 := d.WriteAt(outFile, 0, Xor(ks, key, data[msgLen..], 0, data[..msgLen])).0;
    var r := Commit(d2, d2.Remove(inFile));
    (r.0, Returned(r.1))
  }

  /**
   * `Decrypt` once the input is open and the key read: the IV is read at
   * `size - BlockSize`, which fails when the file is shorter than a block
   * or the read meets a fault (`log.Fatal`); then the output is opened and
   * the buffer made, as in `Encrypt`.
   */
  function DecryptOpened(d: Disk, data: seq<byte>, limit: nat, key: seq<byte>, inFile: Path, outFile: Path,
    bufferSize: int, ks: Keystream, truncate: bool): (Disk, Outcome)
    requires limit <= |data|
  {
    var msgLen := |data| - BlockSize;
    if msgLen < 0 || msgLen + BlockSize > limit then (d, Aborted)
    else match OpenOutput(d, outFile, truncate)
      case Failure(_) => (d, Aborted)
      case Success(d1) =>
        if bufferSize < 0 then (d1, Aborted)
        else if bufferSize == 0 then (d1, Hangs)
        else Restored(d1, data, key, inFile, outFile, ks)
  }

  /** Decrypting a frame gives back the plaintext it was made from. */
  lemma UnframeFrame(ks: Keystream, key: seq<byte>, iv: seq<byte>, plain: seq<byte>, data: seq<byte>)
    requires |iv| == BlockSize && data == Xor(ks, key, iv, 0, plain) + iv
    ensures data[|data| - BlockSize..] == iv && data[..|data| - BlockSize] == Xor(ks, key, iv, 0, plain)
    ensures Xor(ks, key, data[|data| - BlockSize..], 0, data[..|data| - BlockSize]) == plain
  {
    XorTwice(ks, key, iv, 0, plain);
  }

  /**
   * A complete decryption into an output no longer than the plaintext:
   * the output holds the decryption of all but the last block, and the
   * input is gone.
   */
  lemma RestoredContent(d: Disk, data: seq<byte>, key: seq<byte>, inFile: Path, outFile: Path, ks: Keystream)
    requires BlockSize <= |data| && d.IsFile(outFile) && |d.Content(outFile)| <= |data| - BlockSize
    requires |data| - BlockSize <= d.quota
    requires d.IsFile(inFile) && inFile !in d.locked && inFile != outFile
    ensures Restored(d, data, key, inFile, outFile, ks).1 == Returned(None)
    ensures Restored(d, data, key, inFile, outFile, ks).0.IsFile(outFile)
    ensures Restored(d, data, key, inFile, outFile, ks).0.Content(outFile)
      == Xor(ks, key, data[|data| - BlockSize..], 0, data[..|data| - BlockSize])
  {
    var plain := Xor(ks, key, data[|data| - BlockSize..], 0, data[..|data| - BlockSize]);
    OverlayCovers(d.Content(outFile), 0, plain);
    assert plain[..|plain|] == plain;
  }

  /**
   * The encrypting loop and the IV after it (both versions of `Encrypt`):
   * the output gets the frame of the readable bytes of the input.
   */
  method WriteFrame(f: Reader, out: Writer, buf: array<byte>, stream: Stream) returns (err: Option<IoError>)
    requires f.Valid() && out.Valid() && buf.Length > 0 && f.pos == 0 && out.offset == 0 && stream.offset == 0
    modifies f, out, out.fs, buf, stream
    ensures out.fs.disk == Frame(old(out.fs.disk), out.path, Xor(stream.ks, stream.key, stream.iv, 0, f.data[..f.limit]), stream.iv).0
    ensures err == Frame(old(out.fs.disk), out.path, Xor(stream.ks, stream.key, stream.iv, 0, f.data[..f.limit]), stream.iv).1
  {
    assert f.data[0..f.limit] == f.data[..f.limit];
    var failed := EncryptLoop(f, out, buf, stream);
    if failed {
      return Some(NoSpace);
    }
    var n;
    n, err := out.Write(stream.iv);
  }

  /**
   * `Decrypt` (both versions) from the reading of the IV on, with the
   * output opened as the code opens it, without O_TRUNC.
   */
  method DecryptWithKey(fs: FileSystem, f: Reader, inFile: Path, outFile: Path, key: seq<byte>, bufferSize: int, ks: Keystream)
    returns (outcome: Outcome)
    requires f.Valid() && f.pos == 0
    modifies fs, f
    ensures fs.disk == DecryptOpened(old(fs.disk), f.data, f.limit, key, inFile, outFile, bufferSize, ks, false).0
    ensures outcome == DecryptOpened(old(fs.disk), f.data, f.limit, key, inFile, outFile, bufferSize, ks, false).1
  {
    var msgLen := |f.data| - BlockSize;
    var iv, ok := f.ReadAt(BlockSize, msgLen);
    if !ok {
      return Aborted;
    }
    assert iv == f.data[msgLen..] && f.data[0..msgLen] == f.data[..msgLen];
    var out, err := fs.OpenWrite(outFile);
    if err.Some? {
      return Aborted;
    }
    if bufferSize < 0 {
      return Aborted;
    }
    if bufferSize == 0 {
      return Hangs;
    }
    var buf := new byte[bufferSize];
    var stream := new Stream(ks, key, iv);
    var emitted, rest := DecryptLoop(f, out, buf, stream, msgLen);
    var removeErr := fs.Remove(inFile);
    outcome := Returned(removeErr);
  }
}
