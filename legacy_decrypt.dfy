/**
 * `Manager/Decrypt.go`, the older `Decrypt`: no ledger check, and a
 * buffer of 1024 bytes whatever size is asked for.
 */
module LegacyDecrypt {
  import opened Wrappers
  import opened Text
  import opened Files
  import opened Cipher
  import opened Framing
  import LegacyEncrypt

  /** The size of the read buffer; the `bufferSize` argument is not used. */
  const BufferSize := 1024

  /**
   * `Decrypt`: the process ends when the input or the key cannot be read
   * or the key has the wrong length; the rest is shared with the newer
   * version.
   */
  function DecryptSpec(d: Disk, inFile: Path, outFile: Path, keyFile: Path, bufferSize: int, ks: Keystream, truncate: bool)
    : (Disk, Outcome)
  {
    if d.Open(inFile).Failure? || d.ReadFile(keyFile).Failure? || !ValidKey(d.ReadFile(keyFile).value) then (d, Aborted)
    else DecryptOpened(d, d.Data(inFile), d.Limit(inFile), d.ReadFile(keyFile).value, inFile, outFile, BufferSize, ks, truncate)
  }

  /** `Decrypt` as the code has it: the output is opened without O_TRUNC. */
  method Decrypt(fs: FileSystem, inFile: Path, outFile: Path, keyFile: Path, bufferSize: int, ks: Keystream)
    returns (outcome: Outcome)
    modifies fs
    ensures fs.disk == DecryptSpec(old(fs.disk), inFile, outFile, keyFile, bufferSize, ks, false).0
    ensures outcome == DecryptSpec(old(fs.disk), inFile, outFile, keyFile, bufferSize, ks, false).1
  {
    var f, err := fs.Open(inFile);
    if err.Some? {
      return Aborted;
    }
    var key := fs.ReadFile(keyFile);
    if key.Failure? || !ValidKey(key.value) {
      return Aborted;
    }
    outcome := DecryptWithKey(fs, f, inFile, outFile, key.value, BufferSize, ks);
  }

  /** The buffer size asked for makes no difference. */
  lemma BufferSizeIgnored(d: Disk, inFile: Path, outFile: Path, keyFile: Path, a: int, b: int, ks: Keystream, truncate: bool)
    ensures DecryptSpec(d, inFile, outFile, keyFile, a, ks, truncate) == DecryptSpec(d, inFile, outFile, keyFile, b, ks, truncate)
  {
  }

  /**
   * The disk after a complete older `Encrypt` is ready for `Decrypt` of
   * the frame y: the frame is readable, the key is still there, and the
   * second output can be opened as on the first disk.
   */
  lemma ReadyToDecrypt(d: Disk, e: Disk, P: Path, C: Path, B: Path, K: Path, truncate: bool, key: seq<byte>, y: seq<byte>)
    requires d.IsFile(P) && d.ReadFile(K) == Success(key) && d.CreateCheck(C).None? && d.CreateCheck(B).None?
    requires P != C && P != B && C != B && K != P && K != C
    requires e.nodes == d.nodes[C := File(y)] - {P} && e.locked == d.locked && e.faults == d.faults
    ensures e.Open(C) == Success(y)
    ensures e.ReadFile(K) == Success(key)
    ensures OpenOutput(e, B, truncate).Success?
    ensures |OpenOutput(e, B, truncate).value.Content(B)| == |OpenOutput(d, B, truncate).value.Content(B)|
  {
    assert e.IsDir(Parent(B)) by {
      if Parent(B) != [] {
        assert Parent(B) != C && Parent(B) != P;
        assert e.nodes[Parent(B)] == d.nodes[Parent(B)];
      }
    }
    assert e.IsDir(B) == d.IsDir(B) && e.IsFile(B) == d.IsFile(B);
    assert e.IsFile(K) && e.Content(K) == d.Content(K);
  }

  /**
   * A complete `Decrypt` of a file y into an output no longer than the
   * result: the output holds the decryption of all but the last block
   * under the last block as IV.
   */
  lemma DecryptedDisk(e: Disk, inFile: Path, outFile: Path, keyFile: Path, bufferSize: int, ks: Keystream, truncate: bool,
    key: seq<byte>, y: seq<byte>)
    requires e.Open(inFile) == Success(y) && inFile !in e.faults && BlockSize <= |y|
    requires e.ReadFile(keyFile) == Success(key) && ValidKey(key)
    requires OpenOutput(e, outFile, truncate).Success?
    requires |OpenOutput(e, outFile, truncate).value.Content(outFile)| <= |y| - BlockSize
    requires |y| - BlockSize <= e.quota && inFile != outFile
    ensures DecryptSpec(e, inFile, outFile, keyFile, bufferSize, ks, truncate).1 == Returned(None)
    ensures DecryptSpec(e, inFile, outFile, keyFile, bufferSize, ks, truncate).0.IsFile(outFile)
    ensures DecryptSpec(e, inFile, outFile, keyFile, bufferSize, ks, truncate).0.Content(outFile)
      == Xor(ks, key, y[|y| - BlockSize..], 0, y[..|y| - BlockSize])
  {
    RestoredContent(OpenOutput(e, outFile, truncate).value, y, key, inFile, outFile, ks);
  }

  /**
   * The older `Encrypt` then `Decrypt` of its output under the same key
   * give the readable bytes of the input back, when each output is either
   * truncated on opening or no longer than what is written into it.
   */
  lemma RoundTrip(d: Disk, P: Path, C: Path, B: Path, K: Path, bs1: int, bs2: int, ks: Keystream, random: seq<byte>,
    truncate: bool, key: seq<byte>, plain: seq<byte>)
    requires d.IsFile(P) && P !in d.locked && plain == d.Data(P)[..d.Limit(P)]
    requires d.ReadFile(K) == Success(key) && ValidKey(key)
    requires |random| >= BlockSize && bs1 > 0
    requires d.CreateCheck(C).None? && C !in d.faults && (truncate || !d.IsFile(C) || |d.Content(C)| <= |plain| + BlockSize)
    requires d.CreateCheck(B).None? && (truncate || !d.IsFile(B) || |d.Content(B)| <= |plain|)
    requires P != C && P != B && C != B && K != P && K != C
    requires 2 * |plain| + BlockSize <= d.quota
    ensures LegacyEncrypt.EncryptSpec(d, P, C, K, bs1, ks, random, truncate).1 == Returned(None)
    ensures DecryptSpec(LegacyEncrypt.EncryptSpec(d, P, C, K, bs1, ks, random, truncate).0, C, B, K, bs2, ks, truncate).1
      == Returned(None)
    ensures DecryptSpec(LegacyEncrypt.EncryptSpec(d, P, C, K, bs1, ks, random, truncate).0, C, B, K, bs2, ks, truncate).0.IsFile(B)
    ensures DecryptSpec(LegacyEncrypt.EncryptSpec(d, P, C, K, bs1, ks, random, truncate).0, C, B, K, bs2, ks, truncate).0.Content(B)
      == plain
  {
    var iv := random[..BlockSize];
    var cipher := Xor(ks, key, iv, 0, plain);
    var y := cipher + iv;
    assert |y| == |plain| + BlockSize;
    var base := OpenOutput(d, C, truncate).value.Content(C);
    OverlayCovers(base, 0, y);
    assert base[..0] + y == y;
    LegacyEncrypt.EncryptedDisk(d, P, C, K, bs1, ks, random, truncate, key, iv, cipher, y);
    var e := LegacyEncrypt.EncryptSpec(d, P, C, K, bs1, ks, random, truncate).0;
    ReadyToDecrypt(d, e, P, C, B, K, truncate, key, y);
    DecryptedDisk(e, C, B, K, bs2, ks, truncate, key, y);
    UnframeFrame(ks, key, iv, plain, y);
  }
}
