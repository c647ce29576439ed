/**
 * What `Encrypt` followed by `Decrypt` of `Manager/Encryption.go` gives
 * back: the plaintext, when each output is opened on a file no longer than
 * what is written into it; with O_TRUNC on both opens, always. Without
 * O_TRUNC, a stale output longer than the frame keeps its tail, and the
 * decryption comes out longer than the plaintext.
 */
module EncryptionRoundTrip {
  import opened Wrappers
  import opened Text
  import opened Files
  import opened Cipher
  import opened Framing
  import opened Encryption

  /** The bytes `Encrypt` lays down: the ciphertext of `plain`, then the IV. */
  function FrameOf(env: Env, key: seq<byte>, plain: seq<byte>): (r: seq<byte>)
    requires |env.random| >= BlockSize
    ensures |r| == |plain| + BlockSize
    ensures r[|r| - BlockSize..] == env.random[..BlockSize]
  {
    Xor(env.ks, key, env.random[..BlockSize], 0, plain) + env.random[..BlockSize]
  }

  /** The paths the two calls touch are different files. */
  predicate Apart(plainFile: Path, cipherFile: Path, backFile: Path, keyFile: Path, ledger: Path) {
    plainFile != cipherFile && plainFile != backFile && cipherFile != backFile
    && keyFile != plainFile && keyFile != cipherFile && keyFile != ledger
    && ledger != plainFile && ledger != cipherFile && ledger != backFile
  }

  /**
   * The disk after a complete `Encrypt` is ready for `Decrypt` of the
   * frame y: the frame is readable, the ledger holds its checksum, the key
   * is still there, and the second output can be opened as on the first disk.
   */
  lemma ReadyToDecrypt(d: Disk, e: Disk, P: Path, C: Path, B: Path, K: Path, dir: Path, env: Env,
    truncate: bool, key: seq<byte>, y: seq<byte>)
    requires d.IsFile(P) && d.ReadFile(K) == Success(key) && d.CreateCheck(C).None? && d.CreateCheck(B).None?
    requires LedgerUsable(d, dir, env.today) && Apart(P, C, B, K, LedgerFile(dir, env.today))
    requires e.nodes == d.nodes[C := File(y)][LedgerFile(dir, env.today) := File(Bytes(Hex(env.md5(y))))] - {P}
    requires e.locked == d.locked && e.faults == d.faults
    ensures e.Open(C) == Success(y)
    ensures Validate(e, Hex(env.md5(y)), dir, LedgerFile(dir, env.today)) == Some(true)
    ensures e.ReadFile(K) == Success(key)
    ensures OpenOutput(e, B, truncate).Success?
    ensures |OpenOutput(e, B, truncate).value.Content(B)| == |OpenOutput(d, B, truncate).value.Content(B)|
  {
    var ledger := LedgerFile(dir, env.today);
    var sum := Hex(env.md5(y));
    assert Parent(ledger) == dir;
    assert e.IsDir(dir) by {
      if dir != [] {
        assert dir != C && dir != ledger && dir != P;
        assert e.nodes[dir] == d.nodes[dir];
      }
    }
    assert e.ReadFileBytes(ledger) == Bytes(sum) by {
      assert Bytes(sum)[..|sum|] == Bytes(sum);
    }
    HexNarrow(env.md5(y));
    CharsOfBytes(sum);
    ContainsSameLength(sum, sum);
    assert e.IsDir(Parent(B)) by {
      if Parent(B) != [] {
        assert Parent(B) != C && Parent(B) != ledger && Parent(B) != P;
        assert e.nodes[Parent(B)] == d.nodes[Parent(B)];
      }
    }
    assert e.IsDir(B) == d.IsDir(B) && e.IsFile(B) == d.IsFile(B);
    assert e.IsFile(K) && e.Content(K) == d.Content(K);
  }

  /**
   * `Encrypt` then `Decrypt` of its output under the same key and ledger
   * day gives the readable bytes of the input back, when each output is
   * either truncated on opening or no longer than what is written into it.
   */
  lemma RoundTrip(d: Disk, P: Path, C: Path, B: Path, K: Path, bs1: int, bs2: int, dir: Path, env: Env,
    truncate: bool, key: seq<byte>, plain: seq<byte>)
    requires d.IsFile(P) && P !in d.locked && plain == d.Data(P)[..d.Limit(P)]
    requires d.ReadFile(K) == Success(key) && ValidKey(key)
    requires |env.random| >= BlockSize && bs1 > 0 && bs2 > 0
    requires d.CreateCheck(C).None? && C !in d.faults && (truncate || !d.IsFile(C) || |d.Content(C)| <= |plain| + BlockSize)
    requires d.CreateCheck(B).None? && (truncate || !d.IsFile(B) || |d.Content(B)| <= |plain|)
    requires LedgerUsable(d, dir, env.today) && Apart(P, C, B, K, LedgerFile(dir, env.today))
    requires |FrameOf(env, key, plain)| + 2 * |env.md5(FrameOf(env, key, plain))| + |plain| <= d.quota
    ensures EncryptSpec(d, P, C, K, bs1, dir, env, truncate).1 == Returned(None)
    ensures DecryptSpec(EncryptSpec(d, P, C, K, bs1, dir, env, truncate).0, C, B, K, bs2, dir, env.today, env, truncate).1
      == Returned(None)
    ensures DecryptSpec(EncryptSpec(d, P, C, K, bs1, dir, env, truncate).0, C, B, K, bs2, dir, env.today, env, truncate).0.IsFile(B)
    ensures DecryptSpec(EncryptSpec(d, P, C, K, bs1, dir, env, truncate).0, C, B, K, bs2, dir, env.today, env, truncate).0.Content(B)
      == plain
  {
    var iv := env.random[..BlockSize];
    var cipher := Xor(env.ks, key, iv, 0, plain);
    var y := FrameOf(env, key, plain);
    assert cipher + iv == y;
    var base := OpenOutput(d, C, truncate).value.Content(C);
    OverlayCovers(base, 0, y);
    assert base[..0] + y == y;
    EncryptedDisk(d, P, C, K, bs1, dir, env, truncate, key, iv, cipher, y);
    var e := EncryptSpec(d, P, C, K, bs1, dir, env, truncate).0;
    ReadyToDecrypt(d, e, P, C, B, K, dir, env, truncate, key, y);
    DecryptedDisk(e, C, B, K, bs2, dir, env.today, env, truncate, key, y);
    UnframeFrame(env.ks, key, iv, plain, y);
  }

  /**
   * Both opens with O_TRUNC: the round trip holds whatever the two outputs
   * held before.
   */
  lemma TruncatingRoundTrip(d: Disk, P: Path, C: Path, B: Path, K: Path, bs1: int, bs2: int, dir: Path, env: Env,
    key: seq<byte>, plain: seq<byte>)
    requires d.IsFile(P) && P !in d.locked && plain == d.Data(P)[..d.Limit(P)]
    requires d.ReadFile(K) == Success(key) && ValidKey(key)
    requires |env.random| >= BlockSize && bs1 > 0 && bs2 > 0
    requires d.CreateCheck(C).None? && C !in d.faults && d.CreateCheck(B).None?
    requires LedgerUsable(d, dir, env.today) && Apart(P, C, B, K, LedgerFile(dir, env.today))
    requires |FrameOf(env, key, plain)| + 2 * |env.md5(FrameOf(env, key, plain))| + |plain| <= d.quota
    ensures EncryptSpec(d, P, C, K, bs1, dir, env, true).1 == Returned(None)
    ensures DecryptSpec(EncryptSpec(d, P, C, K, bs1, dir, env, true).0, C, B, K, bs2, dir, env.today, env, true).1
      == Returned(None)
    ensures DecryptSpec(EncryptSpec(d, P, C, K, bs1, dir, env, true).0, C, B, K, bs2, dir, env.today, env, true).0.IsFile(B)
    ensures DecryptSpec(EncryptSpec(d, P, C, K, bs1, dir, env, true).0, C, B, K, bs2, dir, env.today, env, true).0.Content(B)
      == plain
  {
    RoundTrip(d, P, C, B, K, bs1, bs2, dir, env, true, key, plain);
  }

  /**
   * As the code opens its outputs, without O_TRUNC: when the encrypted
   * output already held a file longer than the frame, its tail stays after
   * the IV, `Decrypt` then takes the last block of that tail as the IV, and
   * what it writes is longer than the plaintext, so it is not the plaintext.
   */
  lemma StaleTailBreaksRoundTrip(d: Disk, P: Path, C: Path, B: Path, K: Path, bs1: int, bs2: int, dir: Path, env: Env,
    key: seq<byte>, plain: seq<byte>, y: seq<byte>)
    requires d.IsFile(P) && P !in d.locked && plain == d.Data(P)[..d.Limit(P)]
    requires d.ReadFile(K) == Success(key) && ValidKey(key)
    requires |env.random| >= BlockSize && bs1 > 0 && bs2 > 0
    requires d.CreateCheck(C).None? && C !in d.faults && d.IsFile(C) && |d.Content(C)| > |plain| + BlockSize
    requires y == FrameOf(env, key, plain) + d.Content(C)[|plain| + BlockSize..]
    requires d.CreateCheck(B).None? && (!d.IsFile(B) || |d.Content(B)| <= |y| - BlockSize)
    requires LedgerUsable(d, dir, env.today) && Apart(P, C, B, K, LedgerFile(dir, env.today))
    requires |FrameOf(env, key, plain)| + 2 * |env.md5(y)| + |y| <= d.quota
    ensures EncryptSpec(d, P, C, K, bs1, dir, env, false).1 == Returned(None)
    ensures EncryptSpec(d, P, C, K, bs1, dir, env, false).0.IsFile(C)
    ensures EncryptSpec(d, P, C, K, bs1, dir, env, false).0.Content(C) == y
    ensures DecryptSpec(EncryptSpec(d, P, C, K, bs1, dir, env, false).0, C, B, K, bs2, dir, env.today, env, false).1
      == Returned(None)
    ensures DecryptSpec(EncryptSpec(d, P, C, K, bs1, dir, env, false).0, C, B, K, bs2, dir, env.today, env, false).0.IsFile(B)
    ensures |DecryptSpec(EncryptSpec(d, P, C, K, bs1, dir, env, false).0, C, B, K, bs2, dir, env.today, env, false).0.Content(B)|
      == |d.Content(C)| - BlockSize > |plain|
  {
    var iv := env.random[..BlockSize];
    var cipher := Xor(env.ks, key, iv, 0, plain);
    var frame := FrameOf(env, key, plain);
    assert cipher + iv == frame;
    var base := d.Content(C);
    OverlayKeepsTail(base, 0, frame);
    assert base[..0] + frame == frame;
    EncryptedDisk(d, P, C, K, bs1, dir, env, false, key, iv, cipher, y);
    var e := EncryptSpec(d, P, C, K, bs1, dir, env, false).0;
    ReadyToDecrypt(d, e, P, C, B, K, dir, env, false, key, y);
    DecryptedDisk(e, C, B, K, bs2, dir, env.today, env, false, key, y);
  }
}
