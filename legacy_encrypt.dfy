/**
 * `Manager/Encrypt.go`, the older `Encrypt`: the same framing as in
 * `Manager/Encryption.go` — the ciphertext, then the IV — without a
 * checksum ledger.
 */
module LegacyEncrypt {
  import opened Wrappers
  import opened Text
  import opened Files
  import opened Cipher
  import opened Framing

  /**
   * `Encrypt`: the process ends when the input, the key or the random
   * source cannot be read, when the key has the wrong length, or when the
   * output cannot be opened; a negative buffer size panics and an empty
   * buffer reads nothing, forever. After the frame the input is removed.
   */
  function EncryptSpec(d: Disk, inFile: Path, outFile: Path, keyFile: Path, bufferSize: int,
    ks: Keystream, random: seq<byte>, truncate: bool): (Disk, Outcome)
  {
    if d.Open(inFile).Failure? || d.ReadFile(keyFile).Failure? then (d, Aborted)
    else if !ValidKey(d.ReadFile(keyFile).value) || |random| < BlockSize then (d, Aborted)
    else match OpenOutput(d, outFile, truncate)
      case Failure(_) => (d, Aborted)
      case Success(d1) =>
        if bufferSize < 0 then (d1, Aborted)
        else if bufferSize == 0 then (d1, Hangs)
        else
          var iv := random[..BlockSize];
          var plain := d.Data(inFile)[..d.Limit(inFile)];
          var (t, err) := Frame(d1, outFile, Xor(ks, d.ReadFile(keyFile).value, iv, 0, plain), iv);
          if err.Some? then (t, Returned(err))
          else
            var removed := Commit(t, t.Remove(inFile));
            (removed.0, Returned(removed.1))
  }

  /** `Encrypt` as the code has it: the output is opened without O_TRUNC. */
  method Encrypt(fs: FileSystem, inFile: Path, outFile: Path, keyFile: Path, bufferSize: int, ks: Keystream, random: seq<byte>)
    returns (outcome: Outcome)
    modifies fs
    ensures fs.disk == EncryptSpec(old(fs.disk), inFile, outFile, keyFile, bufferSize, ks, random, false).0
    ensures outcome == EncryptSpec(old(fs.disk), inFile, outFile, keyFile, bufferSize, ks, random, false).1
  {
    var f, err := fs.Open(inFile);
    if err.Some? {
      return Aborted;
    }
    var key := fs.ReadFile(keyFile);
    if key.Failure? || !ValidKey(key.value) || |random| < BlockSize {
      return Aborted;
    }
    var iv := random[..BlockSize];
    var out, openErr := fs.OpenWrite(outFile);
    if openErr.Some? {
      return Aborted;
    }
    if bufferSize < 0 {
      return Aborted;
    }
    if bufferSize == 0 {
      return Hangs;
    }
    var buf := new byte[bufferSize];
    var stream := new Stream(ks, key.value, iv);
    var frameErr := WriteFrame(f, out, buf, stream);
    if frameErr.Some? {
      return Returned(frameErr);
    }
    var removeErr := fs.Remove(inFile);
    outcome := Returned(removeErr);
  }

  /**
   * A complete `Encrypt`: the output holds the frame written over what the
   * opened output held, the input is gone, and nothing else changes.
   */
  lemma EncryptedDisk(d: Disk, inFile: Path, outFile: Path, keyFile: Path, bufferSize: int, ks: Keystream, random: seq<byte>,
    truncate: bool, key: seq<byte>, iv: seq<byte>, cipher: seq<byte>, y: seq<byte>)
    requires d.IsFile(inFile) && inFile !in d.locked && d.ReadFile(keyFile) == Success(key) && ValidKey(key)
    requires |random| >= BlockSize && iv == random[..BlockSize] && bufferSize > 0
    requires cipher == Xor(ks, key, iv, 0, d.Data(inFile)[..d.Limit(inFile)])
    requires OpenOutput(d, outFile, truncate).Success? && inFile != outFile
    requires y == Overlay(OpenOutput(d, outFile, truncate).value.Content(outFile), 0, cipher + iv)
    requires |cipher + iv| <= d.quota
    ensures EncryptSpec(d, inFile, outFile, keyFile, bufferSize, ks, random, truncate).1 == Returned(None)
    ensures EncryptSpec(d, inFile, outFile, keyFile, bufferSize, ks, random, truncate).0
      == d.(nodes := d.nodes[outFile := File(y)] - {inFile}, quota := d.quota - |cipher + iv|)
  {
    var d1 := OpenOutput(d, outFile, truncate).value;
    FrameWrites(d1, outFile, cipher, iv);
    assert (cipher + iv)[..|cipher + iv|] == cipher + iv;
    UpdateTwice(d.nodes, outFile, d1.nodes[outFile], File(y));
  }

  /**
   * A disk too full for the frame: `Encrypt` returns the short write's
   * error, and the input is still there, unchanged.
   */
  lemma ShortWriteKeepsInput(d: Disk, inFile: Path, outFile: Path, keyFile: Path, bufferSize: int, ks: Keystream, random: seq<byte>,
    truncate: bool)
    requires d.Open(inFile).Success? && d.ReadFile(keyFile).Success? && ValidKey(d.ReadFile(keyFile).value)
    requires |random| >= BlockSize && bufferSize > 0
    requires OpenOutput(d, outFile, truncate).Success? && inFile != outFile
    requires d.quota < d.Limit(inFile) + BlockSize
    ensures EncryptSpec(d, inFile, outFile, keyFile, bufferSize, ks, random, truncate).1 == Returned(Some(NoSpace))
    ensures EncryptSpec(d, inFile, outFile, keyFile, bufferSize, ks, random, truncate).0.Exists(inFile) && EncryptSpec(d, inFile, outFile, keyFile, bufferSize, ks, random, truncate).0.IsFile(inFile) == d.IsFile(inFile)
    ensures EncryptSpec(d, inFile, outFile, keyFile, bufferSize, ks, random, truncate).0.Data(inFile) == d.Data(inFile)
  {
    var d1 := OpenOutput(d, outFile, truncate).value;
    var iv := random[..BlockSize];
    var cipher := Xor(ks, d.ReadFile(keyFile).value, iv, 0, d.Data(inFile)[..d.Limit(inFile)]);
    FrameWrites(d1, outFile, cipher, iv);
    FrameKeeps(d1, outFile, cipher, iv, inFile);
  }
}
