/**
 * AES in counter mode (section 6.5 of NIST SP 800-38A) as the tools use it:
 * the ciphertext is the plaintext XORed with a keystream, and the keystream
 * byte at each offset is a fixed function of key, IV and offset. The block
 * function and the counter increment are left uninterpreted: `ks(key, iv, i)`
 * is the keystream byte at offset i.
 *
 * Also here: the read/XOR/write loops that the encrypt and decrypt routines
 * of both versions share, line for line.
 */
module Cipher {
  import opened Wrappers
  import opened Text
  import opened Files

  type Keystream = (seq<byte>, seq<byte>, nat) -> byte

  /** `BlockSize()` of an AES cipher, and so the length of the IV. */
  const BlockSize: nat := 16

  /** `aes.NewCipher` accepts keys of 16, 24 or 32 bytes only. */
  predicate ValidKey(key: seq<byte>) {
    |key| == 16 || |key| == 24 || |key| == 32
  }

  /** The bytes of s XORed with the keystream from offset `offset` on: byte i with keystream byte offset + i. */
  function Xor(ks: Keystream, key: seq<byte>, iv: seq<byte>, offset: nat, s: seq<byte>): (r: seq<byte>)
    ensures |r| == |s|
  {
    seq(|s|, i requires 0 <= i < |s| => s[i] ^ ks(key, iv, offset + i))
  }

  /** XORing two pieces with one continuing keystream is XORing the whole. */
  lemma XorSplit(ks: Keystream, key: seq<byte>, iv: seq<byte>, offset: nat, a: seq<byte>, b: seq<byte>)
    ensures Xor(ks, key, iv, offset, a + b) == Xor(ks, key, iv, offset, a) + Xor(ks, key, iv, offset + |a|, b)
  {
    var x := Xor(ks, key, iv, offset, a + b);
    var y := Xor(ks, key, iv, offset, a) + Xor(ks, key, iv, offset + |a|, b);
    forall i | 0 <= i < |a + b|
      ensures x[i] == y[i]
    {
      if i >= |a| {
        assert (a + b)[i] == b[i - |a|];
      }
    }
  }

  /** The same keystream at the same offsets undoes the XOR: decryption inverts encryption. */
  lemma XorTwice(ks: Keystream, key: seq<byte>, iv: seq<byte>, offset: nat, s: seq<byte>)
    ensures Xor(ks, key, iv, offset, Xor(ks, key, iv, offset, s)) == s
  {
    var x := Xor(ks, key, iv, offset, s);
    var y := Xor(ks, key, iv, offset, x);
    forall i | 0 <= i < |s|
      ensures y[i] == s[i]
    {
      var k := ks(key, iv, offset + i);
      assert y[i] == (s[i] ^ k) ^ k;
    }
  }

  /** Reading from offset `from` to `to` in two steps is the same as in one. */
  lemma XorExtend(ks: Keystream, key: seq<byte>, iv: seq<byte>, offset: nat, data: seq<byte>, from: nat, mid: nat, to: nat)
    requires from <= mid <= to <= |data|
    ensures Xor(ks, key, iv, offset, data[from..to])
      == Xor(ks, key, iv, offset, data[from..mid]) + Xor(ks, key, iv, offset + (mid - from), data[mid..to])
  {
    assert data[from..to] == data[from..mid] + data[mid..to];
    XorSplit(ks, key, iv, offset, data[from..mid], data[mid..to]);
  }

  /** The XOR of data[from..from + k], extended by the XOR of the n bytes after it. */
  lemma XorStep(ks: Keystream, key: seq<byte>, iv: seq<byte>, s0: nat, data: seq<byte>, from: nat, k: nat, n: nat, x: seq<byte>)
    requires from + k + n <= |data| && x == Xor(ks, key, iv, s0, data[from..from + k])
    ensures x + Xor(ks, key, iv, s0 + k, data[from + k..from + k + n]) == Xor(ks, key, iv, s0, data[from..from + k + n])
  {
    XorExtend(ks, key, iv, s0, data, from, from + k, from + k + n);
  }

  /** The `cipher.Stream` of `cipher.NewCTR`: it remembers how far into the keystream it is. */
  class Stream {
    const ks: Keystream
    const key: seq<byte>
    const iv: seq<byte>
    var offset: nat

    constructor (ks: Keystream, key: seq<byte>, iv: seq<byte>)
      ensures this.ks == ks && this.key == key && this.iv == iv && offset == 0
    {
      this.ks := ks;
      this.key := key;
      this.iv := iv;
      offset := 0;
    }

    /** `XORKeyStream(buf, buf[:n])`: the first n bytes are XORed in place. */
    method XorKeyStream(buf: array<byte>, n: nat)
      requires n <= buf.Length
      modifies this, buf
      ensures buf[..n] == Xor(ks, key, iv, old(offset), old(buf[..n]))
      ensures buf[n..] == old(buf[n..])
      ensures offset == old(offset) + n
    {
      ghost var before := buf[..];
      var i := 0;
      while i < n
        invariant 0 <= i <= n && offset == old(offset)
        invariant forall k :: 0 <= k < i ==> buf[k] == before[k] ^ ks(key, iv, offset + k)
        invariant forall k :: i <= k < buf.Length ==> buf[k] == before[k]
      {
        buf[i] := buf[i] ^ ks(key, iv, offset + i);
        i := i + 1;
      }
      assert buf[..n] == Xor(ks, key, iv, offset, before[..n]);
      offset := offset + n;
    }
  }

  /**
   * One pass of the loop of `Encrypt`: read a chunk, XOR it in place and
   * write it. `failed` says the write came up short.
   */
  method EncryptChunk(f: Reader, out: Writer, buf: array<byte>, stream: Stream) returns (st: ReadStatus, failed: bool)
    requires f.Valid() && out.Valid() && buf.Length > 0
    modifies f, out, out.fs, buf, stream
    ensures f.Valid() && old(f.pos) <= f.pos && stream.offset == old(stream.offset) + (f.pos - old(f.pos))
    ensures st == ReadOk <==> old(f.pos) < f.pos
    ensures st != ReadOk ==> f.pos == f.limit
    ensures out.fs.disk == old(out.fs.disk).WriteAt(out.path, old(out.offset),
      Xor(stream.ks, stream.key, stream.iv, old(stream.offset), f.data[old(f.pos)..f.pos])).0
    ensures failed == (old(out.fs.disk.quota) < f.pos - old(f.pos))
    ensures !failed ==> out.Valid() && out.offset == old(out.offset) + (f.pos - old(f.pos))
  {
    ghost var before := f.pos;
    var n;
    n, st := f.Read(buf);
    if n > 0 {
      stream.XorKeyStream(buf, n);
      var w, err := out.Write(buf[..n]);
      failed := err.Some?;
    } else {
      failed := false;
      WriteAtNothing(out.fs.disk, out.path, out.offset);
      assert f.data[before..f.pos] == [];
    }
    if st != ReadOk {
      assert f.pos == f.limit;
    }
  }

  /**
   * `EncryptChunk` seen from the loop: with the XOR of data[p0..pos] written
   * at o0 so far, afterwards that of data[p0..pos'] is, for the new offset pos'.
   */
  method EncryptStep(f: Reader, out: Writer, buf: array<byte>, stream: Stream,
                     ghost d0: Disk, ghost o0: nat, ghost s0: nat, ghost p0: nat, ghost written: seq<byte>)
    returns (st: ReadStatus, failed: bool, ghost written': seq<byte>)
    requires f.Valid() && out.Valid() && buf.Length > 0 && p0 <= f.pos
    requires d0.IsFile(out.path) && o0 <= |d0.Content(out.path)|
    requires stream.offset == s0 + (f.pos - p0) && out.offset == o0 + (f.pos - p0)
    requires written == Xor(stream.ks, stream.key, stream.iv, s0, f.data[p0..f.pos]) && |written| <= d0.quota
    requires out.fs.disk == d0.WriteAt(out.path, o0, written).0
    modifies f, out, out.fs, buf, stream
    ensures f.Valid() && old(f.pos) <= f.pos
    ensures st == ReadOk <==> old(f.pos) < f.pos
    ensures st != ReadOk ==> f.pos == f.limit
    ensures stream.offset == s0 + (f.pos - p0)
    ensures written' == Xor(stream.ks, stream.key, stream.iv, s0, f.data[p0..f.pos])
    ensures out.fs.disk == d0.WriteAt(out.path, o0, written').0
    ensures failed == (d0.quota < |written'|)
    ensures !failed ==> out.Valid() && out.offset == o0 + (f.pos - p0)
  {
    ghost var ks, key, iv, data, path := stream.ks, stream.key, stream.iv, f.data, out.path;
    ghost var d1, before := out.fs.disk, f.pos;
    st, failed := EncryptChunk(f, out, buf, stream);
    ghost var chunk := Xor(ks, key, iv, s0 + (before - p0), data[before..f.pos]);
    assert out.fs.disk == d1.WriteAt(path, o0 + Min(d0.quota, |written|), chunk).0;
    WriteAtThen(d0, path, o0, written, chunk);
    XorExtend(ks, key, iv, s0, data, p0, before, f.pos);
    written' := written + chunk;
  }

  /**
   * The loop of `Encrypt` (both versions): read a chunk, XOR it, write it;
   * stop at the end of the input or at a read error, and give up at the first
   * failed write. All told it writes the XOR of every readable byte, or as
   * much of it as fits on the disk, which is when it fails.
   */
  method EncryptLoop(f: Reader, out: Writer, buf: array<byte>, stream: Stream) returns (failed: bool)
    requires f.Valid() && out.Valid() && buf.Length > 0
    modifies f, out, out.fs, buf, stream
    ensures out.fs.disk == old(out.fs.disk).WriteAt(out.path, old(out.offset),
      Xor(stream.ks, stream.key, stream.iv, old(stream.offset), f.data[old(f.pos)..f.limit])).0
    ensures failed == (old(out.fs.disk.quota) < f.limit - old(f.pos))
    ensures !failed ==> out.Valid() && out.offset == old(out.offset) + (f.limit - old(f.pos))
  {
    ghost var d0, o0, s0, p0 := out.fs.disk, out.offset, stream.offset, f.pos;
    ghost var written: seq<byte> := [];
    WriteAtNothing(d0, out.path, o0);
    while true
      invariant f.Valid() && out.Valid() && p0 <= f.pos
      invariant stream.offset == s0 + (f.pos - p0) && out.offset == o0 + (f.pos - p0)
      invariant written == Xor(stream.ks, stream.key, stream.iv, s0, f.data[p0..f.pos]) && |written| <= d0.quota
      invariant out.fs.disk == d0.WriteAt(out.path, o0, written).0
      decreases f.limit - f.pos
    {
      var st;
      st, failed, written := EncryptStep(f, out, buf, stream, d0, o0, s0, p0, written);
      if failed {
        ghost var full := Xor(stream.ks, stream.key, stream.iv, s0, f.data[p0..f.limit]);
        XorExtend(stream.ks, stream.key, stream.iv, s0, f.data, p0, f.pos, f.limit);
        WriteAtPrefix(d0, out.path, o0, written, full);
        return;
      }
      if st != ReadOk {
        return;
      }
    }
  }

  /**
   * One pass of the loop of `Decrypt`: read a chunk, cut it to the `msgLen`
   * bytes still owed, XOR it in place and write it, whatever the write says.
   */
  method DecryptChunk(f: Reader, out: Writer, buf: array<byte>, stream: Stream, msgLen: nat) returns (st: ReadStatus, n: nat)
    requires f.Valid() && out.Valid() && buf.Length > 0
    modifies f, out, out.fs, buf, stream
    ensures f.Valid() && old(f.pos) <= f.pos && n == Min(f.pos - old(f.pos), msgLen)
    ensures st == ReadOk <==> old(f.pos) < f.pos
    ensures st != ReadOk ==> f.pos == f.limit
    ensures stream.offset == old(stream.offset) + n
    ensures out.fs.disk == old(out.fs.disk).WriteAt(out.path, old(out.offset),
      Xor(stream.ks, stream.key, stream.iv, old(stream.offset), f.data[old(f.pos)..old(f.pos) + n])).0
    ensures out.Valid() && out.offset == old(out.offset) + Min(old(out.fs.disk.quota), n)
  {
    ghost var before := f.pos;
    n, st := f.Read(buf);
    if n > 0 {
      ghost var whole := n;
      if n > msgLen {
        n := msgLen;
      }
      assert buf[..n] == f.data[before..before + n] by {
        assert buf[..n] == buf[..whole][..n];
      }
      stream.XorKeyStream(buf, n);
      if n == 0 {
        WriteAtNothing(out.fs.disk, out.path, out.offset);
      }
      var w, err := out.Write(buf[..n]);
    } else {
      WriteAtNothing(out.fs.disk, out.path, out.offset);
      assert f.data[before..before] == [];
    }
    if st != ReadOk {
      assert f.pos == f.limit;
    }
  }

  /**
   * `DecryptChunk` seen from the loop: with the XOR of the first e bytes
   * from p0 written at o0 so far, afterwards that of the first e + n is.
   */
  method DecryptStep(f: Reader, out: Writer, buf: array<byte>, stream: Stream, msgLen: nat,
                     ghost d0: Disk, ghost o0: nat, ghost s0: nat, ghost p0: nat, ghost e: nat)
    returns (st: ReadStatus, n: nat)
    requires f.Valid() && out.Valid() && buf.Length > 0 && p0 + e <= f.pos
    requires p0 + e < f.pos ==> msgLen == 0
    requires d0.IsFile(out.path) && o0 <= |d0.Content(out.path)|
    requires stream.offset == s0 + e && out.offset == o0 + Min(d0.quota, e)
    requires out.fs.disk == d0.WriteAt(out.path, o0, Xor(stream.ks, stream.key, stream.iv, s0, f.data[p0..p0 + e])).0
    modifies f, out, out.fs, buf, stream
    ensures f.Valid() && old(f.pos) <= f.pos && n == Min(f.pos - old(f.pos), msgLen) && p0 + e + n <= f.pos
    ensures st == ReadOk <==> old(f.pos) < f.pos
    ensures st != ReadOk ==> f.pos == f.limit
    ensures out.Valid() && stream.offset == s0 + (e + n) && out.offset == o0 + Min(d0.quota, e + n)
    ensures out.fs.disk == d0.WriteAt(out.path, o0, Xor(stream.ks, stream.key, stream.iv, s0, f.data[p0..p0 + (e + n)])).0
  {
    ghost var ks, key, iv, data, path := stream.ks, stream.key, stream.iv, f.data, out.path;
    ghost var before, d1, o1 := f.pos, out.fs.disk, out.offset;
    st, n := DecryptChunk(f, out, buf, stream, msgLen);
    ghost var prior, chunk := Xor(ks, key, iv, s0, data[p0..p0 + e]), Xor(ks, key, iv, s0 + e, data[before..before + n]);
    XorMore(ks, key, iv, s0, data, p0, e, before, n);
    WriteAtJoin(d0, d1, path, o0, o1, prior, chunk, Xor(ks, key, iv, s0, data[p0..p0 + (e + n)]));
  }

  /**
   * The XOR of the first e bytes from p0, then that of n more bytes read at
   * `before`, which is p0 + e unless nothing more is owed: the XOR of the
   * first e + n bytes.
   */
  lemma XorMore(ks: Keystream, key: seq<byte>, iv: seq<byte>, s0: nat, data: seq<byte>, p0: nat, e: nat, before: nat, n: nat)
    requires p0 + e <= before && before + n <= |data| && (p0 + e < before ==> n == 0)
    ensures Xor(ks, key, iv, s0, data[p0..p0 + e]) + Xor(ks, key, iv, s0 + e, data[before..before + n])
      == Xor(ks, key, iv, s0, data[p0..p0 + (e + n)])
  {
    assert data[before..before + n] == data[p0 + e..p0 + e + n] by {
      if before != p0 + e {
        assert n == 0;
      }
    }
    XorStep(ks, key, iv, s0, data, p0, e, n, Xor(ks, key, iv, s0, data[p0..p0 + e]));
    assert p0 + e + n == p0 + (e + n);
  }

  /**
   * The loop of `Decrypt` (both versions): each chunk read is cut to the
   * `msgLen` bytes still owed, so that the IV trailer is never written;
   * write errors are not looked at. All told it writes the XOR of the first
   * `msgLen` readable bytes, as much of it as fits on the disk.
   */
  method DecryptLoop(f: Reader, out: Writer, buf: array<byte>, stream: Stream, msgLen0: int)
    returns (emitted: nat, msgLen: int)
    requires f.Valid() && out.Valid() && buf.Length > 0 && msgLen0 >= 0
    modifies f, out, out.fs, buf, stream
    ensures msgLen >= 0 && emitted + msgLen == msgLen0
    ensures f.pos == f.limit && emitted == Min(f.limit - old(f.pos), msgLen0)
    ensures out.Valid() && out.offset == old(out.offset) + Min(old(out.fs.disk.quota), emitted)
    ensures out.fs.disk == old(out.fs.disk).WriteAt(out.path, old(out.offset),
      Xor(stream.ks, stream.key, stream.iv, old(stream.offset), f.data[old(f.pos)..old(f.pos) + emitted])).0
  {
    ghost var d0, o0, s0, p0 := out.fs.disk, out.offset, stream.offset, f.pos;
    emitted, msgLen := 0, msgLen0;
    WriteAtNothing(d0, out.path, o0);
    assert f.data[p0..p0] == [];
    while true
      invariant f.Valid() && out.Valid() && p0 + emitted <= f.pos
      invariant msgLen >= 0 && emitted + msgLen == msgLen0 && emitted == Min(f.pos - p0, msgLen0)
      invariant stream.offset == s0 + emitted && out.offset == o0 + Min(d0.quota, emitted)
      invariant out.fs.disk == d0.WriteAt(out.path, o0, Xor(stream.ks, stream.key, stream.iv, s0, f.data[p0..p0 + emitted])).0
      decreases f.limit - f.pos
    {
      var st, n;
      st, n := DecryptStep(f, out, buf, stream, msgLen, d0, o0, s0, p0, emitted);
      emitted, msgLen := emitted + n, msgLen - n;
      if st != ReadOk {
        return;
      }
    }
  }
}
