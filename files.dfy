/**
 * The file system the tools act on: a map from paths to files and
 * directories, with the ways its operations fail. A set of locked paths
 * stands for permission errors, a map of fault offsets for files whose
 * reads fail part-way (an I/O error), and a quota for the bytes that can
 * still be written before the disk is full.
 *
 * A path is the list of its components; `filepath.Join` is concatenation,
 * and [] is the working directory, which always exists.
 */
module Files {
  import opened Wrappers
  import opened Text

  type Path = seq<string>

  datatype Node = Dir | File(data: seq<byte>)

  datatype IoError = NotExist | Exist | NotDir | IsDirectory | Permission | NoSpace | ReadFault | DirNotEmpty | BadOffset

  function Parent(p: Path): Path
    requires |p| > 0
  {
    p[..|p| - 1]
  }

  function Min(a: int, b: int): int {
    if a <= b then a else b
  }

  /** One byte written at offset `off`: it replaces the byte there, or extends the file at its end. */
  function Put(base: seq<byte>, off: nat, b: byte): (r: seq<byte>)
    requires off <= |base|
    ensures |r| == if off < |base| then |base| else off + 1
  {
    if off < |base| then base[off := b] else base + [b]
  }

  /** The bytes of a file after `data` is written at offset `off`, byte by byte. */
  function Overlay(base: seq<byte>, off: nat, data: seq<byte>): (r: seq<byte>)
    requires off <= |base|
    ensures |r| == if off + |data| < |base| then |base| else off + |data|
    decreases |data|
  {
    if data == [] then base else Overlay(Put(base, off, data[0]), off + 1, data[1..])
  }

  datatype Disk = Disk(nodes: map<Path, Node>, locked: set<Path>, faults: map<Path, nat>, quota: nat)
  {
    predicate IsDir(p: Path) {
      p == [] || (p in nodes && nodes[p].Dir?)
    }

    predicate IsFile(p: Path) {
      p != [] && p in nodes && nodes[p].File?
    }

    /** `os.Stat` succeeds. */
    predicate Exists(p: Path) {
      p == [] || p in nodes
    }

    function Content(p: Path): seq<byte>
      requires IsFile(p)
    {
      nodes[p].data
    }

    predicate HasChildren(p: Path) {
      exists q :: q in nodes && p < q
    }

    /** `Readdir(1)` on p reports end of directory. */
    predicate IsEmptyDir(p: Path) {
      IsDir(p) && !HasChildren(p)
    }

    /** Why a new entry cannot be made at p, if its parent is not a directory. */
    function ParentError(p: Path): IoError
      requires |p| > 0
    {
      if Parent(p) in nodes && nodes[Parent(p)].File? then NotDir else NotExist
    }

    /** The number of bytes of file p that can be read before a read fails. */
    function Readable(p: Path): (n: nat)
      requires IsFile(p)
      ensures n <= |Content(p)|
    {
      if p in faults && faults[p] < |Content(p)| then faults[p] else |Content(p)|
    }

    /**
     * `os.RemoveAll`: p and everything below it; a path that does not exist
     * is no error. A locked entry cannot be removed, and neither can the
     * directories that hold it: everything else under p is removed, and the
     * error is reported.
     */
    function RemoveAll(p: Path): (r: (Disk, Option<IoError>))
      ensures r.0 == if p == [] then this else this.(nodes := Pruned(p))
      ensures r.1.None? ==> forall q :: q in r.0.nodes ==> !(p <= q) || p == []
      ensures r.1.None? <==> p == [] || forall q :: q in nodes && p <= q ==> q !in locked
    {
      if p == [] then (this, None)
      else if exists q :: q in nodes && q in locked && p <= q then (this.(nodes := Pruned(p)), Some(Permission))
      else (this.(nodes := Pruned(p)), None)
    }

    /** Some locked entry is at or below q. */
    predicate Pinned(q: Path) {
      exists l :: l in nodes && l in locked && q <= l
    }

    /** The entries left after removing what can be removed under p. */
    function Pruned(p: Path): map<Path, Node> {
      map q | q in nodes && !(p <= q && !Pinned(q)) :: nodes[q]
    }

    /**
     * `os.MkdirAll`: the missing directories on the way to p are created,
     * parents first; those made before a failure stay.
     */
    function MkdirAll(p: Path): (r: (Disk, Option<IoError>))
      ensures r.0.locked == locked && r.0.faults == faults && r.0.quota == quota
      ensures r.1.None? ==> r.0.IsDir(p)
      ensures forall q :: q in nodes ==> q in r.0.nodes && r.0.nodes[q] == nodes[q]
      ensures forall q :: q in r.0.nodes && q !in nodes ==> q <= p && r.0.nodes[q] == Dir
      decreases |p|
    {
      if p == [] then (this, None)
      else if p in nodes then (this, if nodes[p].Dir? then None else Some(NotDir))
      else
        var (d, e) := MkdirAll(Parent(p));
        if e.Some? then (d, e)
        else if p in locked then (d, Some(Permission))
        else (d.(nodes := d.nodes[p := Dir]), None)
    }

    /** `os.Mkdir`: one directory, whose parent must exist. */
    function Mkdir(p: Path): (r: Result<Disk, IoError>)
      ensures r.Success? ==> r.value == this.(nodes := nodes[p := Dir])
    {
      if p == [] || p in nodes then Failure(Exist)
      else if !IsDir(Parent(p)) then Failure(ParentError(p))
      else if p in locked then Failure(Permission)
      else Success(this.(nodes := nodes[p := Dir]))
    }

    /** The checks shared by every open that may create a file at p. */
    function CreateCheck(p: Path): Option<IoError> {
      if p == [] || IsDir(p) then Some(IsDirectory)
      else if !IsDir(Parent(p)) then Some(ParentError(p))
      else if p in locked then Some(Permission)
      else None
    }

    /** `os.Create` (O_RDWR|O_CREATE|O_TRUNC): p becomes an empty file. */
    function Create(p: Path): (r: Result<Disk, IoError>)
      ensures r.Success? <==> CreateCheck(p).None?
      ensures r.Success? ==> r.value == this.(nodes := nodes[p := File([])])
    {
      if CreateCheck(p).Some? then Failure(CreateCheck(p).value)
      else Success(this.(nodes := nodes[p := File([])]))
    }

    /** `os.OpenFile` with O_CREATE but without O_TRUNC: an existing file keeps its bytes. */
    function OpenWrite(p: Path): (r: Result<Disk, IoError>)
      ensures r.Success? <==> CreateCheck(p).None?
      ensures r.Success? ==> r.value == if IsFile(p) then this else this.(nodes := nodes[p := File([])])
    {
      if CreateCheck(p).Some? then Failure(CreateCheck(p).value)
      else if IsFile(p) then Success(this)
      else Success(this.(nodes := nodes[p := File([])]))
    }

    /** `os.OpenFile` with O_TRUNC and without O_CREATE: only an existing file can be opened. */
    function OpenTruncate(p: Path): (r: Result<Disk, IoError>)
      ensures r.Success? <==> IsFile(p) && p !in locked
      ensures r.Success? ==> r.value == this.(nodes := nodes[p := File([])])
    {
      if !Exists(p) then Failure(NotExist)
      else if IsDir(p) then Failure(IsDirectory)
      else if p in locked then Failure(Permission)
      else Success(this.(nodes := nodes[p := File([])]))
    }

    /**
     * `os.Open` for reading: what the reader sees. A directory opens too, as
     * nothing to read; its first read then fails (`EISDIR`).
     */
    function Open(p: Path): (r: Result<seq<byte>, IoError>)
      ensures r.Success? <==> Exists(p) && p !in locked
      ensures r.Success? ==> r.value == Data(p)
    {
      if !Exists(p) then Failure(NotExist)
      else if p in locked then Failure(Permission)
      else Success(Data(p))
    }

    /** The bytes a reader opened on p holds: a file's content, none for a directory. */
    function Data(p: Path): seq<byte> {
      if IsFile(p) then Content(p) else []
    }

    /** How many of them can be read before a read fails: none for a directory. */
    function Limit(p: Path): (n: nat)
      ensures n <= |Data(p)|
    {
      if IsFile(p) then Readable(p) else 0
    }

    /**
     * The error of `os.Stat(p)`: none when p exists; `ENOTDIR` when its
     * parent is a file; otherwise one for which `os.IsNotExist` holds.
     */
    function Stat(p: Path): Option<IoError> {
      if Exists(p) then None
      else if IsFile(Parent(p)) then Some(NotDir)
      else Some(NotExist)
    }

    /**
     * The bytes `ioutil.ReadFile` returns whatever its error: nothing when
     * the open or the first read fails, else those read before a fault.
     */
    function ReadFileBytes(p: Path): seq<byte> {
      if IsFile(p) && p !in locked then Content(p)[..Readable(p)] else []
    }

    /** `ioutil.ReadFile` */
    function ReadFile(p: Path): (r: Result<seq<byte>, IoError>)
      ensures r.Success? <==> IsFile(p) && p !in locked && Readable(p) == |Content(p)|
      ensures r.Success? ==> r.value == Content(p)
    {
      match Open(p)
      case Failure(e) => Failure(e)
      case Success(data) =>
        if !IsFile(p) then Failure(IsDirectory)
        else if Readable(p) < |data| then Failure(ReadFault)
        else Success(data)
    }

    /**
     * `WriteAt` on file p: as many bytes as the quota allows are written, and
     * the count is returned; fewer than asked means the disk is full.
     */
    function WriteAt(p: Path, off: nat, data: seq<byte>): (r: (Disk, nat))
      requires IsFile(p) && off <= |Content(p)|
      ensures r.1 == Min(quota, |data|)
      ensures r.0 == this.(nodes := nodes[p := File(Overlay(Content(p), off, data[..r.1]))], quota := quota - r.1)
    {
      var w := Min(quota, |data|);
      (this.(nodes := nodes[p := File(Overlay(Content(p), off, data[..w]))], quota := quota - w), w)
    }

    /** `os.Remove`: a file or an empty directory. */
    function Remove(p: Path): (r: Result<Disk, IoError>)
      ensures r.Success? ==> r.value == this.(nodes := nodes - {p})
    {
      if p !in nodes then Failure(NotExist)
      else if p in locked then Failure(Permission)
      else if nodes[p].Dir? && HasChildren(p) then Failure(DirNotEmpty)
      else Success(this.(nodes := nodes - {p}))
    }
  }

  /** The second of two updates of one entry is the one that stays. */
  lemma UpdateTwice(m: map<Path, Node>, k: Path, a: Node, b: Node)
    ensures m[k := a][k := b] == m[k := b]
  {
  }

  /** Writing A and then B right after it lays down the bytes of A + B. */
  lemma {:induction false} OverlayThen(base: seq<byte>, off: nat, a: seq<byte>, b: seq<byte>)
    requires off <= |base|
    ensures off + |a| <= |Overlay(base, off, a)|
    ensures Overlay(Overlay(base, off, a), off + |a|, b) == Overlay(base, off, a + b)
    decreases |a|
  {
    if a == [] {
      assert a + b == b;
    } else {
      assert (a + b)[0] == a[0] && (a + b)[1..] == a[1..] + b;
      OverlayThen(Put(base, off, a[0]), off + 1, a[1..], b);
    }
  }

  /** A write that reaches past the end of the file leaves the bytes before it and then exactly the data. */
  lemma {:induction false} OverlayCovers(base: seq<byte>, off: nat, data: seq<byte>)
    requires off <= |base| <= off + |data|
    ensures Overlay(base, off, data) == base[..off] + data
    decreases |data|
  {
    if off == |base| && data == [] {
      assert base[..off] == base;
    } else {
      var next := Put(base, off, data[0]);
      OverlayCovers(next, off + 1, data[1..]);
      assert next[..off + 1] == base[..off] + [data[0]];
      assert [data[0]] + data[1..] == data;
    }
  }

  /** A write that stops short of the end of the file leaves the file's tail where it was. */
  lemma {:induction false} OverlayKeepsTail(base: seq<byte>, off: nat, data: seq<byte>)
    requires off + |data| <= |base|
    ensures Overlay(base, off, data) == base[..off] + data + base[off + |data|..]
    decreases |data|
  {
    if data == [] {
      assert base[..off] + base[off..] == base;
    } else {
      var next := Put(base, off, data[0]);
      OverlayKeepsTail(next, off + 1, data[1..]);
      assert next[..off + 1] == base[..off] + [data[0]];
      assert next[off + |data|..] == base[off + |data|..];
      assert [data[0]] + data[1..] == data;
    }
  }

  /**
   * Two writes in a row, the second at the offset the first one reached,
   * leave the disk as one write of both: when the first is cut short by a
   * full disk, the second writes nothing.
   */
  lemma WriteAtThen(d: Disk, p: Path, off: nat, a: seq<byte>, b: seq<byte>)
    requires d.IsFile(p) && off <= |d.Content(p)|
    ensures d.WriteAt(p, off, a).0.IsFile(p) && off + Min(d.quota, |a|) <= |d.WriteAt(p, off, a).0.Content(p)|
    ensures d.WriteAt(p, off, a).0.WriteAt(p, off + Min(d.quota, |a|), b).0 == d.WriteAt(p, off, a + b).0
  {
    var c := d.Content(p);
    var q := d.quota;
    var w1 := Min(q, |a|);
    var c1 := Overlay(c, off, a[..w1]);
    var d1 := d.(nodes := d.nodes[p := File(c1)], quota := q - w1);
    assert d.WriteAt(p, off, a) == (d1, w1);
    var w2 := Min(q - w1, |b|);
    var w := Min(q, |a + b|);
    assert w == w1 + w2;
    assert (a + b)[..w] == a[..w1] + b[..w2] by {
      if w1 < |a| {
        assert w2 == 0 && w == w1;
      } else {
        assert (a + b)[..w1 + w2] == a + b[..w2];
      }
    }
    OverlayThen(c, off, a[..w1], b[..w2]);
    assert d1.Content(p) == c1;
    assert d1.WriteAt(p, off + w1, b).0 == d.(nodes := d.nodes[p := File(Overlay(c1, off + w1, b[..w2]))], quota := q - w);
  }

  /**
   * `WriteAtThen` as a loop uses it: the disk d1 after writing A at off,
   * and the offset o1 just past what of A fitted.
   */
  lemma WriteAtJoin(d: Disk, d1: Disk, p: Path, off: nat, o1: nat, a: seq<byte>, b: seq<byte>, c: seq<byte>)
    requires d.IsFile(p) && off <= |d.Content(p)|
    requires d1 == d.WriteAt(p, off, a).0 && o1 == off + Min(d.quota, |a|) && a + b == c
    ensures d1.IsFile(p) && o1 <= |d1.Content(p)|
    ensures d1.WriteAt(p, o1, b).0 == d.WriteAt(p, off, c).0
  {
    WriteAtThen(d, p, off, a, b);
  }

  /** Writing at the start of an empty file leaves in it the bytes the quota allowed. */
  lemma WriteAtFresh(d: Disk, p: Path, x: seq<byte>)
    requires d.IsFile(p) && d.Content(p) == []
    ensures d.WriteAt(p, 0, x).0.IsFile(p) && d.WriteAt(p, 0, x).0.Content(p) == x[..Min(d.quota, |x|)]
  {
    OverlayCovers([], 0, x[..Min(d.quota, |x|)]);
  }

  /** Writing nothing changes nothing. */
  lemma WriteAtNothing(d: Disk, p: Path, off: nat)
    requires d.IsFile(p) && off <= |d.Content(p)|
    ensures d.WriteAt(p, off, []).0 == d
  {
    assert Overlay(d.Content(p), off, []) == d.Content(p);
    assert d.nodes[p := File(d.Content(p))] == d.nodes;
  }

  /** Once the disk fills inside y, the bytes after y do not matter. */
  lemma WriteAtPrefix(d: Disk, p: Path, off: nat, y: seq<byte>, z: seq<byte>)
    requires d.IsFile(p) && off <= |d.Content(p)|
    requires |y| <= |z| && y == z[..|y|] && d.quota < |y|
    ensures d.WriteAt(p, off, y) == d.WriteAt(p, off, z)
  {
    assert y[..d.quota] == z[..d.quota];
  }

  /** The disk after an operation: unchanged when it failed. */
  function Commit(d: Disk, r: Result<Disk, IoError>): (Disk, Option<IoError>) {
    match r
    case Success(d') => (d', None)
    case Failure(e) => (d, Some(e))
  }

  datatype ReadStatus = ReadOk | ReadEof | ReadError

  /** An `*os.File` open for reading: the bytes it had when it was opened, and the offset reached. */
  class Reader {
    const data: seq<byte>
    /** Reads fail once they reach this offset, unless it is the end of the file. */
    const limit: nat
    /** A directory: it holds nothing, and every read of it fails. */
    const dir: bool
    var pos: nat

    ghost predicate Valid()
      reads this
    {
      limit <= |data| && pos <= limit && (dir ==> data == [])
    }

    constructor (data: seq<byte>, limit: nat, dir: bool)
      requires limit <= |data| && (dir ==> data == [])
      ensures Valid() && this.data == data && this.limit == limit && this.dir == dir && pos == 0
    {
      this.data := data;
      this.limit := limit;
      this.dir := dir;
      pos := 0;
    }

    /**
     * `Read(buf)`: some number n of the following bytes, 0 < n <= len(buf),
     * with no error while readable bytes remain; then (0, EOF) at the end of
     * the file, or (0, error) at a fault or on a directory. An empty buffer
     * reads nothing.
     */
    method Read(buf: array<byte>) returns (n: nat, st: ReadStatus)
      requires Valid()
      modifies this, buf
      ensures Valid() && pos == old(pos) + n && n <= buf.Length
      ensures buf[..n] == data[old(pos)..pos] && buf[n..] == old(buf[n..])
      ensures buf.Length == 0 ==> n == 0 && st == ReadOk
      ensures buf.Length > 0 ==> (st == ReadOk <==> n > 0)
      ensures buf.Length > 0 ==> (st == ReadEof <==> old(pos) == |data| && !dir)
      ensures buf.Length > 0 ==> (st == ReadError <==> old(pos) == limit && (limit < |data| || dir))
    {
      if buf.Length == 0 {
        return 0, ReadOk;
      }
      if dir {
        return 0, ReadError;
      }
      if pos == |data| {
        return 0, ReadEof;
      }
      if pos == limit {
        return 0, ReadError;
      }
      n :| 0 < n <= buf.Length && n <= limit - pos;
      var i := 0;
      while i < n
        invariant 0 <= i <= n && pos == old(pos)
        invariant buf[..i] == data[pos..pos + i]
        invariant buf[n..] == old(buf[n..])
      {
        buf[i] := data[pos + i];
        i := i + 1;
      }
      pos := pos + n;
      st := ReadOk;
    }

    /** `ReadAt(buf, off)` for k bytes: it fails at a negative offset or when it meets the end or a fault first. */
    method ReadAt(k: nat, off: int) returns (bytes: seq<byte>, ok: bool)
      requires Valid()
      ensures ok <==> 0 <= off && off + k <= limit
      ensures ok ==> bytes == data[off..off + k]
    {
      ok := 0 <= off && off + k <= limit;
      bytes := if ok then data[off..off + k] else [];
    }
  }

  /** An `*os.File` open for writing, with its current offset. */
  class Writer {
    const fs: FileSystem
    const path: Path
    var offset: nat

    ghost predicate Valid()
      reads this, fs
    {
      fs.disk.IsFile(path) && offset <= |fs.disk.Content(path)|
    }

    constructor (fs: FileSystem, path: Path)
      requires fs.disk.IsFile(path)
      ensures Valid() && this.fs == fs && this.path == path && offset == 0
    {
      this.fs := fs;
      this.path := path;
      offset := 0;
    }

    /** `Write(b)`: written at the current offset, which advances by the count written. */
    method Write(b: seq<byte>) returns (n: nat, err: Option<IoError>)
      requires Valid()
      modifies fs, this
      ensures Valid()
      ensures fs.disk == old(fs.disk).WriteAt(path, old(offset), b).0 && n == Min(old(fs.disk.quota), |b|)
      ensures offset == old(offset) + n
      ensures err == if n < |b| then Some(NoSpace) else None
    {
      var r := fs.disk.WriteAt(path, offset, b);
      fs.disk := r.0;
      n := r.1;
      offset := offset + n;
      err := if n < |b| then Some(NoSpace) else None;
    }

    /** `WriteAt(b, off)`: the offset of the file does not move. */
    method WriteAt(b: seq<byte>, off: nat) returns (n: nat, err: Option<IoError>)
      requires fs.disk.IsFile(path) && off <= |fs.disk.Content(path)|
      modifies fs
      ensures fs.disk == old(fs.disk).WriteAt(path, off, b).0 && n == Min(old(fs.disk.quota), |b|)
      ensures err == if n < |b| then Some(NoSpace) else None
    {
      var r := fs.disk.WriteAt(path, off, b);
      fs.disk := r.0;
      n := r.1;
      err := if n < |b| then Some(NoSpace) else None;
    }
  }

  /** The file system of the machine, changed in place by every operation. */
  class FileSystem {
    var disk: Disk

    constructor (d: Disk)
      ensures disk == d
    {
      disk := d;
    }

    method RemoveAll(p: Path) returns (err: Option<IoError>)
      modifies this
      ensures (disk, err) == old(disk).RemoveAll(p)
    {
      disk, err := disk.RemoveAll(p).0, disk.RemoveAll(p).1;
    }

    method MkdirAll(p: Path) returns (err: Option<IoError>)
      modifies this
      ensures (disk, err) == old(disk).MkdirAll(p)
    {
      disk, err := disk.MkdirAll(p).0, disk.MkdirAll(p).1;
    }

    method Mkdir(p: Path) returns (err: Option<IoError>)
      modifies this
      ensures (disk, err) == Commit(old(disk), old(disk).Mkdir(p))
    {
      disk, err := Commit(disk, disk.Mkdir(p)).0, Commit(disk, disk.Mkdir(p)).1;
    }

    method Remove(p: Path) returns (err: Option<IoError>)
      modifies this
      ensures (disk, err) == Commit(old(disk), old(disk).Remove(p))
    {
      disk, err := Commit(disk, disk.Remove(p)).0, Commit(disk, disk.Remove(p)).1;
    }

    /** `os.Open`: a reader over the file's bytes, positioned at 0. */
    method Open(p: Path) returns (r: Reader?, err: Option<IoError>)
      ensures err.None? <==> disk.Open(p).Success?
      ensures err.Some? ==> r == null && err == Some(disk.Open(p).error)
      ensures err.None? ==> r != null && fresh(r) && r.Valid() && r.pos == 0
      ensures err.None? ==> r.data == disk.Data(p) && r.limit == disk.Limit(p) && r.dir == !disk.IsFile(p)
    {
      match disk.Open(p)
      case Failure(e) =>
        r, err := null, Some(e);
      case Success(data) =>
        r := new Reader(data, disk.Limit(p), !disk.IsFile(p));
        err := None;
    }

    /** `os.Create`: a writer at offset 0 of a file emptied or made for it. */
    method Create(p: Path) returns (w: Writer?, err: Option<IoError>)
      modifies this
      ensures (disk, err) == Commit(old(disk), old(disk).Create(p))
      ensures err.Some? <==> w == null
      ensures err.None? ==> fresh(w) && w.Valid() && w.fs == this && w.path == p && w.offset == 0
    {
      var r := disk.Create(p);
      disk, err := Commit(disk, r).0, Commit(disk, r).1;
      w := null;
      if err.None? {
        w := new Writer(this, p);
      }
    }

    /** `os.OpenFile(p, O_RDWR|O_CREATE, …)`: a writer at offset 0; an existing file keeps its bytes. */
    method OpenWrite(p: Path) returns (w: Writer?, err: Option<IoError>)
      modifies this
      ensures (disk, err) == Commit(old(disk), old(disk).OpenWrite(p))
      ensures err.Some? <==> w == null
      ensures err.None? ==> fresh(w) && w.Valid() && w.fs == this && w.path == p && w.offset == 0
    {
      var r := disk.OpenWrite(p);
      disk, err := Commit(disk, r).0, Commit(disk, r).1;
      w := null;
      if err.None? {
        w := new Writer(this, p);
      }
    }

    /** `os.OpenFile(p, O_WRONLY|O_TRUNC, …)` */
    method OpenTruncate(p: Path) returns (w: Writer?, err: Option<IoError>)
      modifies this
      ensures (disk, err) == Commit(old(disk), old(disk).OpenTruncate(p))
      ensures err.Some? <==> w == null
      ensures err.None? ==> fresh(w) && w.Valid() && w.fs == this && w.path == p && w.offset == 0
    {
      var r := disk.OpenTruncate(p);
      disk, err := Commit(disk, r).0, Commit(disk, r).1;
      w := null;
      if err.None? {
        w := new Writer(this, p);
      }
    }

    /** `ioutil.ReadFile` */
    method ReadFile(p: Path) returns (r: Result<seq<byte>, IoError>)
      ensures r == disk.ReadFile(p)
    {
      r := disk.ReadFile(p);
    }
  }
}
