/** The file system the archiver talks to, reduced to what the core relies on: named byte
    sequences with attributes, read descriptors with a position, appending writes that
    come up short when the device is full, unlink, rename and utime. */
module Files {
  import opened Bytes

  datatype Attr = Attr(mode: nat, uid: nat, gid: nat, mtime: int, isDir: bool)

  datatype Inode = Inode(content: seq<byte>, attr: Attr)

  /** What the device decides: the paths where creating a file fails (no permission, no
      such directory), how many bytes one file may grow to before writes come up short,
      and the owner and clock given to files it creates. */
  datatype Device = Device(locked: set<Path>, capacity: nat, uid: nat, gid: nat, now: int)

  type FileMap = map<Path, Inode>

  /** Bytes a file with this content can still take. */
  function Room(dev: Device, content: seq<byte>): nat {
    if |content| < dev.capacity then dev.capacity - |content| else 0
  }

  /** `open(p, O_RDONLY)` succeeds: the file exists (the empty path never does). */
  predicate CanOpen(files: FileMap, p: Path) {
    p != [] && p in files
  }

  /** `open(p, O_WRONLY | O_CREAT | O_TRUNC)` succeeds. */
  predicate CanCreate(dev: Device, files: FileMap, p: Path) {
    p != [] && p !in dev.locked && !(p in files && files[p].attr.isDir)
  }

  /** The file after a successful `O_CREAT | O_TRUNC` open: empty, keeping the
      attributes of an existing file, new ones (with the requested mode) otherwise. */
  function Truncated(dev: Device, files: FileMap, p: Path, mode: nat): (node: Inode)
    ensures node.content == [] && !node.attr.isDir
    ensures p in files && !files[p].attr.isDir ==> node.attr == files[p].attr.(mtime := dev.now)
  {
    if p in files then Inode([], files[p].attr.(mtime := dev.now, isDir := false))
    else Inode([], Attr(mode, dev.uid, dev.gid, dev.now, false))
  }

  /** The files after `write(fd, bytes, |bytes|)` on the file `p`: as many of the bytes as
      there is room for are appended, and nothing else changes. */
  function Appended(dev: Device, files: FileMap, p: Path, bytes: seq<byte>): FileMap
    requires p in files
  {
    files[p := files[p].(content := files[p].content + Take(bytes, Room(dev, files[p].content)))]
  }

  /** A write keeps the file's old content as a prefix, adds a prefix of the bytes, grows
      the file only up to the device capacity, and changes no attribute and no other
      file. */
  lemma AppendedShape(dev: Device, files: FileMap, p: Path, bytes: seq<byte>)
    requires p in files
    ensures var r := Appended(dev, files, p, bytes); var before := files[p].content;
      && r.Keys == files.Keys && r[p].attr == files[p].attr
      && |before| <= |r[p].content| && r[p].content[..|before|] == before
      && r[p].content[|before|..] <= bytes
      && (|r[p].content| > |before| ==> |r[p].content| <= dev.capacity)
      && forall q :: q in files && q != p ==> r[q] == files[q]
  {
    var r := Appended(dev, files, p, bytes);
    assert r[p].content == files[p].content + Take(bytes, Room(dev, files[p].content));
  }

  lemma AppendedNothing(dev: Device, files: FileMap, p: Path)
    requires p in files
    ensures Appended(dev, files, p, []) == files
  {
    assert files[p].content + [] == files[p].content;
    assert Appended(dev, files, p, [])[p] == files[p];
  }

  /** Two writes in a row append what one write of both would. */
  lemma AppendedTwice(dev: Device, files: FileMap, p: Path, a: seq<byte>, b: seq<byte>)
    requires p in files
    ensures Appended(dev, Appended(dev, files, p, a), p, b) == Appended(dev, files, p, a + b)
  {
    var c := files[p].content;
    var room := Room(dev, c);
    var ta := Take(a, room);
    TakeConcat(a, b, room);
    var rb := Room(dev, c + ta);
    assert rb == if room >= |a| then room - |a| else 0;
    var f1 := Appended(dev, files, p, a);
    assert f1[p].content + Take(b, rb) == c + Take(a + b, room);
    assert Appended(dev, f1, p, b)[p] == Appended(dev, files, p, a + b)[p];
  }

  /** A write that fits appends all of its bytes and uses up that much room. */
  lemma AppendedWithinRoom(dev: Device, files: FileMap, p: Path, bytes: seq<byte>)
    requires p in files && |bytes| <= Room(dev, files[p].content)
    ensures Appended(dev, files, p, bytes)[p].content == files[p].content + bytes
    ensures Room(dev, Appended(dev, files, p, bytes)[p].content) == Room(dev, files[p].content) - |bytes|
  {
    assert Take(bytes, Room(dev, files[p].content)) == bytes;
  }

  /** Once the device is full, what a longer write would have added does not matter. */
  lemma AppendedLongPrefix(dev: Device, files: FileMap, p: Path, x: seq<byte>, y: seq<byte>)
    requires p in files && x <= y && |x| >= Room(dev, files[p].content)
    ensures Appended(dev, files, p, x) == Appended(dev, files, p, y)
  {
    TakeOfLongPrefix(x, y, Room(dev, files[p].content));
  }

  /** The bytes still to be read from `data` at offset `pos`; none once the offset is at
      or past the end. */
  function RestAt(data: seq<byte>, pos: nat): seq<byte> {
    if pos <= |data| then data[pos..] else []
  }

  /** An open read descriptor: the offset, and the bytes of the file (as it was at
      `open`) from the offset to its end. */
  class FileDesc {
    var pos: nat
    var rest: seq<byte>

    constructor Open(data: seq<byte>)
      ensures pos == 0 && rest == data
    {
      pos := 0;
      rest := data;
    }

    /** `read(fd, buf, count)`: returns `min(count, remaining)` bytes, the next ones. */
    method Read(count: nat) returns (buf: seq<byte>)
      modifies this
      ensures buf == Take(old(rest), count)
      ensures pos == old(pos) + |buf| && rest == old(rest)[|buf|..]
    {
      buf := Take(rest, count);
      pos := pos + |buf|;
      rest := rest[|buf|..];
    }

    /** `lseek(fd, offset, SEEK_CUR)`; moving past the end is allowed and leaves nothing
        to read. */
    method Seek(offset: nat)
      modifies this
      ensures pos == old(pos) + offset && rest == RestAt(old(rest), offset)
    {
      pos := pos + offset;
      rest := RestAt(rest, offset);
    }
  }

  class FileSystem {
    var files: FileMap
    const dev: Device

    constructor (files: FileMap, dev: Device)
      ensures this.files == files && this.dev == dev
    {
      this.files := files;
      this.dev := dev;
    }

    /** `open(p, O_RDONLY)`: a fresh descriptor at offset 0, or null when there is no
        such file. */
    method OpenRead(p: Path) returns (fd: FileDesc?)
      ensures (fd != null) == CanOpen(files, p)
      ensures fd != null ==> fresh(fd) && fd.rest == files[p].content && fd.pos == 0
    {
      if CanOpen(files, p) {
        fd := new FileDesc.Open(files[p].content);
      } else {
        fd := null;
      }
    }

    /** `open(p, O_WRONLY | O_CREAT | O_TRUNC, mode)`. */
    method OpenTrunc(p: Path, mode: nat) returns (ok: bool)
      modifies this
      ensures ok == CanCreate(dev, old(files), p)
      ensures files == if ok then old(files)[p := Truncated(dev, old(files), p, mode)] else old(files)
    {
      ok := CanCreate(dev, files, p);
      if ok {
        files := files[p := Truncated(dev, files, p, mode)];
      }
    }

    /** `write` on a file opened for writing: appends what fits and returns the count. */
    method Write(p: Path, bytes: seq<byte>) returns (n: nat)
      requires p in files
      modifies this
      ensures files == Appended(dev, old(files), p, bytes)
      ensures n == Min(|bytes|, Room(dev, old(files)[p].content))
    {
      n := Min(|bytes|, Room(dev, files[p].content));
      files := Appended(dev, files, p, bytes);
    }

    /** `unlink(p)`. */
    method Unlink(p: Path)
      modifies this
      ensures files == old(files) - {p}
    {
      files := files - {p};
    }

    /** `rename(from, to)`: the file moves to the new name, replacing what was there. */
    method Rename(from: Path, to: Path)
      requires from in files && from != to
      modifies this
      ensures files == (old(files) - {from})[to := old(files)[from]]
    {
      files := (files - {from})[to := files[from]];
    }

    /** `utime(p, {t, t})`: sets the modification time of an existing file. */
    method SetTimes(p: Path, t: int)
      modifies this
      ensures files == if p in old(files) then old(files)[p := old(files)[p].(attr := old(files)[p].attr.(mtime := t))] else old(files)
    {
      if p in files {
        files := files[p := files[p].(attr := files[p].attr.(mtime := t))];
      }
    }
  }
}
