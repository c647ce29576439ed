/**
 * `Manager/Encryption.go`: a backup artifact is encrypted with AES in
 * counter mode into a file that ends with the IV, and the MD5 digest of
 * that file, in lower-case hex, is recorded in a ledger file named after
 * the day; decryption first checks the digest against the ledger of a
 * given day, then finds the IV at the end and decrypts everything before it.
 *
 * The outside world is a parameter: the keystream, the bytes of the random
 * source, the digest function and today's date.
 */
module Encryption {
  import opened Wrappers
  import opened Text
  import opened Files
  import opened Cipher
  import opened Framing

  /** MD5 (RFC 1321), left uninterpreted. */
  type Digest = seq<byte> -> seq<byte>

  /** What the code takes from the machine: the keystream of the cipher, the random bytes, MD5 and the date. */
  datatype Env = Env(ks: Keystream, random: seq<byte>, md5: Digest, today: string)

  /** The lower-case hex digit of v. */
  function HexDigit(v: int): char
    requires 0 <= v < 16
  {
    if v < 10 then ('0' as int + v) as char else ('a' as int + v - 10) as char
  }

  /** The value of a hex digit; 0 for any other character. */
  function DigitValue(c: char): (v: int)
    ensures 0 <= v < 16
  {
    if '0' <= c <= '9' then c as int - '0' as int
    else if 'a' <= c <= 'f' then c as int - 'a' as int + 10
    else 0
  }

  /** `hex.EncodeToString`: two lower-case digits per byte, high nibble first. */
  function Hex(bs: seq<byte>): (r: string)
    ensures |r| == 2 * |bs|
  {
    if bs == [] then "" else [HexDigit(bs[0] as int / 16), HexDigit(bs[0] as int % 16)] + Hex(bs[1..])
  }

  /** Decoding of lower-case hex, two digits at a time. */
  function Unhex(s: string): (r: seq<byte>)
    decreases |s|
  {
    if |s| < 2 then [] else [(DigitValue(s[0]) * 16 + DigitValue(s[1])) as byte] + Unhex(s[2..])
  }

  /** The two digits of a byte give the byte back. */
  lemma DigitsDecode(b: byte)
    ensures DigitValue(HexDigit(b as int / 16)) * 16 + DigitValue(HexDigit(b as int % 16)) == b as int
  {
  }

  /** Decoding undoes `Hex`. */
  lemma {:induction false} HexRoundTrip(bs: seq<byte>)
    ensures Unhex(Hex(bs)) == bs
    decreases |bs|
  {
    if bs != [] {
      var h := Hex(bs);
      var pair := [HexDigit(bs[0] as int / 16), HexDigit(bs[0] as int % 16)];
      assert h == pair + Hex(bs[1..]);
      assert h[2..] == Hex(bs[1..]);
      DigitsDecode(bs[0]);
      assert Unhex(h) == [bs[0]] + Unhex(Hex(bs[1..]));
      HexRoundTrip(bs[1..]);
    }
  }

  /** Different digests have different hex forms. */
  lemma HexInjective(a: seq<byte>, b: seq<byte>)
    ensures Hex(a) == Hex(b) <==> a == b
  {
    if Hex(a) == Hex(b) {
      HexRoundTrip(a);
      HexRoundTrip(b);
    }
  }

  /** Hex digits are single bytes, so a hex string survives being written and read back. */
  lemma {:induction false} HexNarrow(bs: seq<byte>)
    ensures Narrow(Hex(bs))
    decreases |bs|
  {
    if bs != [] {
      HexNarrow(bs[1..]);
      var h := Hex(bs);
      forall i | 0 <= i < |h|
        ensures (h[i] as int) < 256
      {
        if i >= 2 {
          assert h[i] == Hex(bs[1..])[i - 2];
        }
      }
    }
  }

  /**
   * `CalculateChecksum`: the hex MD5 of the file's bytes. None when the
   * file cannot be opened (`log.Fatal`); "" when a read fails, part-way
   * through a file or at once on a directory.
   */
  function Checksum(d: Disk, file: Path, md5: Digest): (r: Option<string>)
    ensures r.None? <==> d.Open(file).Failure?
  {
    match d.Open(file)
    case Failure(_) => None
    case Success(data) => if !d.IsFile(file) || d.Readable(file) < |data| then Some("") else Some(Hex(md5(data)))
  }

  /** The ledger of one day: a file named after the date in the checksum directory. */
  function LedgerFile(dir: Path, date: string): Path {
    dir + [date]
  }

  /**
   * `WriteChecksumToFile`: the directory is made when it does not exist,
   * the ledger file is made when it does not exist, then it is opened with
   * O_TRUNC and the checksum written; every error is only logged, and a
   * write to the file that failed to open writes nothing.
   */
  function WriteChecksum(d: Disk, dir: Path, today: string, checksum: string): Disk {
    var d1 := if d.Stat(dir) == Some(NotExist) then Commit(d, d.Mkdir(dir)).0 else d;
    var file := LedgerFile(dir, today);
    var d2 := if d1.Stat(file) == Some(NotExist) then Commit(d1, d1.Create(file)).0 else d1;
    match d2.OpenTruncate(file)
    case Failure(_) => d2
    case Success(d3) => d3.WriteAt(file, 0, Bytes(checksum)).0
  }

  /**
   * `ValidateChecksum`: None when the directory or the ledger file does
   * not exist (`log.Fatal`); otherwise whether the bytes read from the
   * ledger, all of them or those before a read error, contain the checksum.
   */
  function Validate(d: Disk, checksum: string, dir: Path, file: Path): Option<bool> {
    if d.Stat(dir) == Some(NotExist) || d.Stat(file) == Some(NotExist) then None
    else Some(Contains(Chars(d.ReadFileBytes(file)), checksum))
  }

  /**
   * Conditions under which the ledger of `today` can be rewritten and read
   * back: its directory exists, and the file can be opened and read.
   */
  predicate LedgerUsable(d: Disk, dir: Path, today: string) {
    d.IsDir(dir) && LedgerFile(dir, today) !in d.locked && !d.IsDir(LedgerFile(dir, today))
    && LedgerFile(dir, today) !in d.faults
  }

  /**
   * Because of O_TRUNC, after a complete write the ledger holds exactly
   * the one new checksum, whatever it held before, and nothing else changes.
   */
  lemma LedgerHoldsChecksum(d: Disk, dir: Path, today: string, checksum: string)
    requires LedgerUsable(d, dir, today) && |checksum| <= d.quota
    ensures WriteChecksum(d, dir, today, checksum).nodes == d.nodes[LedgerFile(dir, today) := File(Bytes(checksum))]
    ensures WriteChecksum(d, dir, today, checksum).quota == d.quota - |checksum|
    ensures WriteChecksum(d, dir, today, checksum).locked == d.locked
    ensures WriteChecksum(d, dir, today, checksum).faults == d.faults
  {
    var file := LedgerFile(dir, today);
    assert Parent(file) == dir;
    var d2 := if d.Stat(file) == Some(NotExist) then Commit(d, d.Create(file)).0 else d;
    if d.Stat(file) == Some(NotExist) {
      assert d.CreateCheck(file).None?;
    } else {
      assert file in d.nodes;
    }
    assert d2.IsFile(file) && d2.nodes[file := File([])] == d.nodes[file := File([])];
    var d3 := d2.(nodes := d2.nodes[file := File([])]);
    WriteAtFresh(d3, file, Bytes(checksum));
    assert Bytes(checksum)[..|checksum|] == Bytes(checksum);
  }

  /**
   * A ledger only changes the ledger file and, when it is missing, the
   * directory: every other file keeps its bytes.
   */
  lemma LedgerKeepsFiles(d: Disk, dir: Path, today: string, checksum: string, q: Path)
    requires d.IsFile(q) && q != LedgerFile(dir, today)
    ensures WriteChecksum(d, dir, today, checksum).IsFile(q)
    ensures WriteChecksum(d, dir, today, checksum).Content(q) == d.Content(q)
    ensures WriteChecksum(d, dir, today, checksum).locked == d.locked
    ensures WriteChecksum(d, dir, today, checksum).faults == d.faults
  {
  }

  /** Validating against the ledger just written: true exactly when the ledger's checksum contains the one checked. */
  lemma RecordThenValidate(d: Disk, dir: Path, today: string, recorded: string, checked: string)
    requires LedgerUsable(d, dir, today) && |recorded| <= d.quota && Narrow(recorded)
    ensures Validate(WriteChecksum(d, dir, today, recorded), checked, dir, LedgerFile(dir, today)) == Some(Contains(recorded, checked))
  {
    var file := LedgerFile(dir, today);
    var r := WriteChecksum(d, dir, today, recorded);
    LedgerHoldsChecksum(d, dir, today, recorded);
    assert r.IsFile(file) && r.Content(file) == Bytes(recorded);
    assert r.ReadFileBytes(file) == Bytes(recorded) by {
      assert Bytes(recorded)[..|recorded|] == Bytes(recorded);
    }
    CharsOfBytes(recorded);
  }

  /**
   * The ledger detects tampering: a file whose digest differs from the
   * recorded one (digests have one length) fails validation, and the
   * recorded file passes.
   */
  lemma TamperDetected(d: Disk, dir: Path, today: string, md5: Digest, original: seq<byte>, found: seq<byte>)
    requires LedgerUsable(d, dir, today) && 2 * |md5(original)| <= d.quota
    requires |md5(found)| == |md5(original)|
    ensures Validate(WriteChecksum(d, dir, today, Hex(md5(original))), Hex(md5(found)), dir, LedgerFile(dir, today))
      == Some(md5(found) == md5(original))
  {
    HexNarrow(md5(original));
    RecordThenValidate(d, dir, today, Hex(md5(original)), Hex(md5(found)));
    ContainsSameLength(Hex(md5(original)), Hex(md5(found)));
    HexInjective(md5(original), md5(found));
  }

  /**
   * With O_TRUNC a day's ledger keeps only its last checksum: after a
   * second backup on the same day, the first one's checksum no longer
   * validates.
   */
  lemma LedgerKeepsOnlyLast(d: Disk, dir: Path, today: string, first: string, second: string)
    requires LedgerUsable(d, dir, today) && |first| + |second| <= d.quota
    requires Narrow(second) && |first| == |second| && first != second
    ensures Validate(WriteChecksum(WriteChecksum(d, dir, today, first), dir, today, second), first, dir, LedgerFile(dir, today)) == Some(false)
  {
    LedgerHoldsChecksum(d, dir, today, first);
    RecordThenValidate(WriteChecksum(d, dir, today, first), dir, today, second, first);
    ContainsSameLength(second, first);
  }

  /**
   * When the digest read fails, the checksum is "", which every ledger
   * contains: validation then passes as long as the ledger exists.
   */
  lemma FailedHashPasses(d: Disk, file: Path, md5: Digest, dir: Path, ledger: Path)
    requires d.Open(file).Success? && (!d.IsFile(file) || d.Readable(file) < |d.Content(file)|)
    requires d.Stat(dir) != Some(NotExist) && d.Stat(ledger) != Some(NotExist)
    ensures Checksum(d, file, md5) == Some("")
    ensures Validate(d, "", dir, ledger) == Some(true)
  {
    ContainsEmpty(Chars(d.ReadFileBytes(ledger)));
  }

  /**
   * `WriteChecksumToFile`, with the date of `time.Now` as a parameter.
   * Every error is logged and dropped.
   */
  method WriteChecksumToFile(fs: FileSystem, dir: Path, today: string, checksum: string)
    modifies fs
    ensures fs.disk == WriteChecksum(old(fs.disk), dir, today, checksum)
  {
    if fs.disk.Stat(dir) == Some(NotExist) {
      var err := fs.Mkdir(dir);
    }
    var file := LedgerFile(dir, today);
    if fs.disk.Stat(file) == Some(NotExist) {
      var created, err := fs.Create(file);
    }
    var f, err := fs.OpenTruncate(file);
    if f != null {
      var n, writeErr := f.Write(Bytes(checksum));
    }
  }

  /**
   * `Encrypt`. A failure to open the input, to read the key or to open the
   * output ends the process, as do a key of the wrong length (`log.Panic`)
   * and a short read of the random source; a negative buffer size panics in
   * `make`, and an empty buffer reads nothing, forever. `truncate` says
   * whether the output is opened with O_TRUNC, which the code does not do.
   */
  function EncryptSpec(d: Disk, inFile: Path, outFile: Path, keyFile: Path, bufferSize: int, checksumDir: Path,
    env: Env, truncate: bool): (Disk, Outcome)
  {
    if d.Open(inFile).Failure? || d.ReadFile(keyFile).Failure? then (d, Aborted)
    else if !ValidKey(d.ReadFile(keyFile).value) || |env.random| < BlockSize then (d, Aborted)
    else match OpenOutput(d, outFile, truncate)
      case Failure(_) => (d, Aborted)
      case Success(d1) =>
        if bufferSize < 0 then (d1, Aborted)
        else if bufferSize == 0 then (d1, Hangs)
        else
          var iv := env.random[..BlockSize];
          var plain := d.Data(inFile)[..d.Limit(inFile)];
          Sealed(d1, Xor(env.ks, d.ReadFile(keyFile).value, iv, 0, plain), iv, inFile, outFile, checksumDir, env)
  }

  /**
   * `Encrypt` after the loop: the IV after the ciphertext, the output's
   * checksum recorded in today's ledger, and the input removed.
   */
  function Sealed(d: Disk, cipher: seq<byte>, iv: seq<byte>, inFile: Path, outFile: Path, checksumDir: Path, env: Env): (Disk, Outcome)
    requires d.IsFile(outFile)
  {
    var (t, err) := Frame(d, outFile, cipher, iv);
    if err.Some? then (t, Returned(err))
    else match Checksum(t, outFile, env.md5)
      case None => (t, Aborted)
      case Some(sum) =>
        var r := WriteChecksum(t, checksumDir, env.today, sum);
        var removed := Commit(r, r.Remove(inFile));
        (removed.0, Returned(removed.1))
  }

  /** `Encrypt` as the code has it: the output is opened without O_TRUNC. */
  method Encrypt(fs: FileSystem, inFile: Path, outFile: Path, keyFile: Path, bufferSize: int, checksumDir: Path, env: Env)
    returns (outcome: Outcome)
    modifies fs
    ensures fs.disk == EncryptSpec(old(fs.disk), inFile, outFile, keyFile, bufferSize, checksumDir, env, false).0
    ensures outcome == EncryptSpec(old(fs.disk), inFile, outFile, keyFile, bufferSize, checksumDir, env, false).1
  {
    var f, err := fs.Open(inFile);
    if err.Some? {
      return Aborted;
    }
    var key := fs.ReadFile(keyFile);
    if key.Failure? || !ValidKey(key.value) || |env.random| < BlockSize {
      return Aborted;
    }
    var iv := env.random[..BlockSize];
    var out, openErr := fs.OpenWrite(outFile);
    if openErr.Some? {
      return Aborted;
    }
    if bufferSize < 0 {
      return Aborted;
    }
    if bufferSize == 0 {
      return Hangs;
    }
    var buf := new byte[bufferSize];
    var stream := new Stream(env.ks, key.value, iv);
    var frameErr := WriteFrame(f, out, buf, stream);
    if frameErr.Some? {
      return Returned(frameErr);
    }
    var sum := Checksum(fs.disk, outFile, env.md5);
    if sum.None? {
      return Aborted;
    }
    WriteChecksumToFile(fs, checksumDir, env.today, sum.value);
    var removeErr := fs.Remove(inFile);
    outcome := Returned(removeErr);
  }

  /**
   * `Decrypt`: the input's checksum must be in the ledger of `date`, or
   * the process ends before anything is opened; then the key is read and
   * the rest is as in the older version, with the buffer size given.
   */
  function DecryptSpec(d: Disk, inFile: Path, outFile: Path, keyFile: Path, bufferSize: int, checksumDir: Path,
    date: string, env: Env, truncate: bool): (Disk, Outcome)
  {
    match Checksum(d, inFile, env.md5)
    case None => (d, Aborted)
    case Some(sum) =>
      if Validate(d, sum, checksumDir, LedgerFile(checksumDir, date)) != Some(true) then (d, Aborted)
      else if d.ReadFile(keyFile).Failure? || !ValidKey(d.ReadFile(keyFile).value) then (d, Aborted)
      else DecryptOpened(d, d.Data(inFile), d.Limit(inFile), d.ReadFile(keyFile).value, inFile, outFile, bufferSize, env.ks, truncate)
  }

  /** `Decrypt` as the code has it: the output is opened without O_TRUNC. */
  method Decrypt(fs: FileSystem, inFile: Path, outFile: Path, keyFile: Path, bufferSize: int, checksumDir: Path, date: string, env: Env)
    returns (outcome: Outcome)
    modifies fs
    ensures fs.disk == DecryptSpec(old(fs.disk), inFile, outFile, keyFile, bufferSize, checksumDir, date, env, false).0
    ensures outcome == DecryptSpec(old(fs.disk), inFile, outFile, keyFile, bufferSize, checksumDir, date, env, false).1
  {
    var sum := Checksum(fs.disk, inFile, env.md5);
    if sum.None? {
      return Aborted;
    }
    if Validate(fs.disk, sum.value, checksumDir, LedgerFile(checksumDir, date)) != Some(true) {
      return Aborted;
    }
    var f, err := fs.Open(inFile);
    var key := fs.ReadFile(keyFile);
    if key.Failure? || !ValidKey(key.value) {
      return Aborted;
    }
    outcome := DecryptWithKey(fs, f, inFile, outFile, key.value, bufferSize, env.ks);
  }

  /** A checksum that is not in the ledger ends `Decrypt` before it writes anything. */
  lemma ValidationGate(d: Disk, inFile: Path, outFile: Path, keyFile: Path, bufferSize: int, checksumDir: Path,
    date: string, env: Env, truncate: bool)
    requires Checksum(d, inFile, env.md5).Some?
    requires Validate(d, Checksum(d, inFile, env.md5).value, checksumDir, LedgerFile(checksumDir, date)) != Some(true)
    ensures DecryptSpec(d, inFile, outFile, keyFile, bufferSize, checksumDir, date, env, truncate) == (d, Aborted)
  {
  }

  /** Opening an output does not change whether the ledger can be used. */
  lemma OpenedLedger(d: Disk, outFile: Path, truncate: bool, dir: Path, today: string)
    requires OpenOutput(d, outFile, truncate).Success? && LedgerUsable(d, dir, today)
    ensures LedgerUsable(OpenOutput(d, outFile, truncate).value, dir, today)
  {
    var d1 := OpenOutput(d, outFile, truncate).value;
    assert dir != outFile by {
      assert !d.IsDir(outFile);
    }
    assert d1.IsDir(dir) by {
      if dir != [] {
        assert d1.nodes[dir] == d.nodes[dir];
      }
    }
  }

  /**
   * A complete end of `Encrypt` on an opened output: the output holds the
   * frame written over its bytes, today's ledger holds the output's
   * checksum, the input is gone, and nothing else changes.
   */
  lemma SealedDisk(d: Disk, cipher: seq<byte>, iv: seq<byte>, inFile: Path, outFile: Path, checksumDir: Path, env: Env, y: seq<byte>)
    requires d.IsFile(outFile) && outFile !in d.locked && outFile !in d.faults && d.IsFile(inFile) && inFile !in d.locked
    requires y == Overlay(d.Content(outFile), 0, cipher + iv)
    requires LedgerUsable(d, checksumDir, env.today) && |cipher + iv| + 2 * |env.md5(y)| <= d.quota
    ensures Sealed(d, cipher, iv, inFile, outFile, checksumDir, env).1 == Returned(None)
    ensures Sealed(d, cipher, iv, inFile, outFile, checksumDir, env).0
      == d.(nodes := d.nodes[outFile := File(y)][LedgerFile(checksumDir, env.today) := File(Bytes(Hex(env.md5(y))))] - {inFile},
            quota := d.quota - |cipher + iv| - 2 * |env.md5(y)|)
  {
    FrameWrites(d, outFile, cipher, iv);
    var t := d.WriteAt(outFile, 0, cipher + iv).0;
    assert t == d.(nodes := d.nodes[outFile := File(y)], quota := d.quota - |cipher + iv|) by {
      assert (cipher + iv)[..|cipher + iv|] == cipher + iv;
    }
    var sum := Hex(env.md5(y));
    assert Checksum(t, outFile, env.md5) == Some(sum);
    LedgerHoldsChecksum(t, checksumDir, env.today, sum);
  }

  /** With the input, the key, the IV, the output and the buffer all in order, `Encrypt` goes on to seal the output. */
  lemma EncryptSeals(d: Disk, inFile: Path, outFile: Path, keyFile: Path, bufferSize: int, checksumDir: Path,
    env: Env, truncate: bool, key: seq<byte>, iv: seq<byte>, cipher: seq<byte>)
    requires d.Open(inFile).Success? && d.ReadFile(keyFile) == Success(key) && ValidKey(key)
    requires |env.random| >= BlockSize && iv == env.random[..BlockSize] && bufferSize > 0
    requires cipher == Xor(env.ks, key, iv, 0, d.Data(inFile)[..d.Limit(inFile)])
    requires OpenOutput(d, outFile, truncate).Success?
    ensures EncryptSpec(d, inFile, outFile, keyFile, bufferSize, checksumDir, env, truncate)
      == Sealed(OpenOutput(d, outFile, truncate).value, cipher, iv, inFile, outFile, checksumDir, env)
  {
  }

  /**
   * A directory opens for reading and fails at its first read, which ends
   * the loop: `Encrypt` seals an empty ciphertext, so the frame is the IV
   * alone, and goes on to record its checksum and remove the directory.
   */
  lemma DirectoryEncryptsToIv(d: Disk, inFile: Path, outFile: Path, keyFile: Path, bufferSize: int, checksumDir: Path,
    env: Env, truncate: bool)
    requires d.IsDir(inFile) && inFile !in d.locked
    requires d.ReadFile(keyFile).Success? && ValidKey(d.ReadFile(keyFile).value)
    requires |env.random| >= BlockSize && bufferSize > 0 && OpenOutput(d, outFile, truncate).Success?
    ensures EncryptSpec(d, inFile, outFile, keyFile, bufferSize, checksumDir, env, truncate)
      == Sealed(OpenOutput(d, outFile, truncate).value, [], env.random[..BlockSize], inFile, outFile, checksumDir, env)
  {
    var iv := env.random[..BlockSize];
    assert d.Data(inFile)[..d.Limit(inFile)] == [];
    EncryptSeals(d, inFile, outFile, keyFile, bufferSize, checksumDir, env, truncate, d.ReadFile(keyFile).value, iv,
      Xor(env.ks, d.ReadFile(keyFile).value, iv, 0, []));
  }

  /**
   * A disk too full for the frame: `Encrypt` returns the short write's
   * error before it records a checksum, and the input is still there, unchanged.
   */
  lemma ShortWriteKeepsInput(d: Disk, inFile: Path, outFile: Path, keyFile: Path, bufferSize: int, checksumDir: Path,
    env: Env, truncate: bool)
    requires d.Open(inFile).Success? && d.ReadFile(keyFile).Success? && ValidKey(d.ReadFile(keyFile).value)
    requires |env.random| >= BlockSize && bufferSize > 0
    requires OpenOutput(d, outFile, truncate).Success? && inFile != outFile
    requires d.quota < d.Limit(inFile) + BlockSize
    ensures EncryptSpec(d, inFile, outFile, keyFile, bufferSize, checksumDir, env, truncate).1 == Returned(Some(NoSpace))
    ensures EncryptSpec(d, inFile, outFile, keyFile, bufferSize, checksumDir, env, truncate).0.Exists(inFile) && EncryptSpec(d, inFile, outFile, keyFile, bufferSize, checksumDir, env, truncate).0.IsFile(inFile) == d.IsFile(inFile)
    ensures EncryptSpec(d, inFile, outFile, keyFile, bufferSize, checksumDir, env, truncate).0.Data(inFile) == d.Data(inFile)
  {
    var d1 := OpenOutput(d, outFile, truncate).value;
    var iv := env.random[..BlockSize];
    var cipher := Xor(env.ks, d.ReadFile(keyFile).value, iv, 0, d.Data(inFile)[..d.Limit(inFile)]);
    FrameWrites(d1, outFile, cipher, iv);
    FrameKeeps(d1, outFile, cipher, iv, inFile);
  }

  /**
   * A complete `Encrypt`: the output holds the frame written over what the
   * opened output held, today's ledger holds the frame's checksum, the
   * input is gone, and nothing else changes.
   */
  lemma EncryptedDisk(d: Disk, inFile: Path, outFile: Path, keyFile: Path, bufferSize: int, checksumDir: Path,
    env: Env, truncate: bool, key: seq<byte>, iv: seq<byte>, cipher: seq<byte>, y: seq<byte>)
    requires d.IsFile(inFile) && inFile !in d.locked && d.ReadFile(keyFile) == Success(key) && ValidKey(key)
    requires |env.random| >= BlockSize && iv == env.random[..BlockSize] && bufferSize > 0
    requires cipher == Xor(env.ks, key, iv, 0, d.Data(inFile)[..d.Limit(inFile)])
    requires OpenOutput(d, outFile, truncate).Success? && outFile !in d.faults
    requires y == Overlay(OpenOutput(d, outFile, truncate).value.Content(outFile), 0, cipher + iv)
    requires LedgerUsable(d, checksumDir, env.today) && |cipher + iv| + 2 * |env.md5(y)| <= d.quota
    ensures EncryptSpec(d, inFile, outFile, keyFile, bufferSize, checksumDir, env, truncate).1 == Returned(None)
    ensures EncryptSpec(d, inFile, outFile, keyFile, bufferSize, checksumDir, env, truncate).0
      == d.(nodes := d.nodes[outFile := File(y)][LedgerFile(checksumDir, env.today) := File(Bytes(Hex(env.md5(y))))] - {inFile},
            quota := d.quota - |cipher + iv| - 2 * |env.md5(y)|)
  {
    var d1 := OpenOutput(d, outFile, truncate).value;
    assert outFile !in d1.locked && d1.faults == d.faults && d1.quota == d.quota && d1.IsFile(inFile) && inFile !in d1.locked;
    OpenedLedger(d, outFile, truncate, checksumDir, env.today);
    EncryptSeals(d, inFile, outFile, keyFile, bufferSize, checksumDir, env, truncate, key, iv, cipher);
    SealedDisk(d1, cipher, iv, inFile, outFile, checksumDir, env, y);
    UpdateTwice(d.nodes, outFile, d1.nodes[outFile], File(y));
  }

  /**
   * A complete `Decrypt` of a file y whose checksum the ledger holds, into
   * an output no longer than the result: the output holds the decryption
   * of all but the last block under the last block as IV.
   */
  lemma DecryptedDisk(e: Disk, inFile: Path, outFile: Path, keyFile: Path, bufferSize: int, checksumDir: Path,
    date: string, env: Env, truncate: bool, key: seq<byte>, y: seq<byte>)
    requires e.Open(inFile) == Success(y) && inFile !in e.faults && BlockSize <= |y|
    requires Validate(e, Hex(env.md5(y)), checksumDir, LedgerFile(checksumDir, date)) == Some(true)
    requires e.ReadFile(keyFile) == Success(key) && ValidKey(key) && bufferSize > 0
    requires OpenOutput(e, outFile, truncate).Success?
    requires |OpenOutput(e, outFile, truncate).value.Content(outFile)| <= |y| - BlockSize
    requires |y| - BlockSize <= e.quota && inFile != outFile
    ensures DecryptSpec(e, inFile, outFile, keyFile, bufferSize, checksumDir, date, env, truncate).1 == Returned(None)
    ensures DecryptSpec(e, inFile, outFile, keyFile, bufferSize, checksumDir, date, env, truncate).0.IsFile(outFile)
    ensures DecryptSpec(e, inFile, outFile, keyFile, bufferSize, checksumDir, date, env, truncate).0.Content(outFile)
      == Xor(env.ks, key, y[|y| - BlockSize..], 0, y[..|y| - BlockSize])
  {
    RestoredContent(OpenOutput(e, outFile, truncate).value, y, key, inFile, outFile, env.ks);
  }
}
