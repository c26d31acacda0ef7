/** Writing entries: `write_header` (my_tar.c:77-108), `write_file_to_tar`
    (my_tar.c:142-174) and the create branch of `main` (my_tar.c:350-368). */
module Writer {
  import opened Bytes
  import opened Octal
  import opened Header
  import opened Files
  import opened BlockStream

  /** Permission bits the create branch opens the archive with (0666). */
  const ARCHIVE_MODE: nat := 438

  /** my_tar.c:77-108: fills a cleared header, stores its checksum and writes the 512
      bytes. A name longer than 100 bytes is refused before anything is written. */
  method WriteHeader(fs: FileSystem, tar: Path, filename: Path, st: Stat) returns (status: int)
    requires tar in fs.files
    modifies fs
    ensures |filename| > NAME_SIZE ==> status == 1 && fs.files == old(fs.files)
    ensures |filename| <= NAME_SIZE ==>
      && fs.files == Appended(fs.dev, old(fs.files), tar, Raw(EncodeHeader(filename, st)))
      && status == (if BLOCK_SIZE <= Room(fs.dev, old(fs.files)[tar].content) then 0 else 1)
  {
    var header := Cleared();
    if |filename| > NAME_SIZE {
      return 1;
    }
    // strcpy: the name and its NUL; for a 100-byte name the NUL lands in mode[0], which
    // the next line overwrites.
    header := header.(name := filename + Zeros(NAME_SIZE - |filename|));
    header := header.(mode := OctalToStr(U64(st.mode % 512), 8));
    header := header.(uid := OctalToStr(U64(st.uid), 8));
    header := header.(gid := OctalToStr(U64(st.gid), 8));
    header := header.(size := OctalToStr(U64(st.size), 12));
    header := header.(mtime := OctalToStr(U64(st.mtime), 12));
    header := header.(chksum := Spaces(8));
    header := header.(typeflag := REGTYPE);
    header := header.(magic := USTAR_MAGIC);
    header := header.(version := USTAR_VERSION);
    assert header == Unsummed(filename, st);
    var sum := CalculateChecksum(header);
    header := header.(chksum := ChecksumField(sum));
    var n := fs.Write(tar, Raw(header));
    if n != BLOCK_SIZE {
      return 1;
    }
    return 0;
  }

  /** The attributes `fstat` reports for a file. */
  function StatOf(node: Inode): Stat {
    Stat(node.attr.mode, node.attr.uid, node.attr.gid, |node.content|, node.attr.mtime)
  }

  /** The bytes one regular file contributes: its header, its content, zero padding. */
  function Record(path: Path, node: Inode): seq<byte>
    requires |path| <= NAME_SIZE
  {
    Raw(EncodeHeader(path, StatOf(node))) + DataBlocks(node.content, |node.content|)
  }

  /** A record is the header block followed by the content and zeros up to a block
      boundary. */
  lemma RecordShape(path: Path, node: Inode)
    requires |path| <= NAME_SIZE
    ensures var r := Record(path, node); var n := |node.content|;
      && |r| == BLOCK_SIZE + PaddedSize(n)
      && r[..BLOCK_SIZE] == Raw(EncodeHeader(path, StatOf(node)))
      && r[BLOCK_SIZE..BLOCK_SIZE + n] == node.content
      && (forall i :: BLOCK_SIZE + n <= i < |r| ==> r[i] == NUL)
  {
    var n := |node.content|;
    DataBlocksShape(node.content, n);
    var d := DataBlocks(node.content, n);
    assert d[..n] == node.content;
  }

  /** Effect of `write_file_to_tar` on the archive `tar`: the status it returns and the
      files afterwards. */
  function WriteOne(dev: Device, files: FileMap, tar: Path, path: Path): (r: (int, FileMap))
    requires tar in files
    ensures r.0 == 0 || r.0 == 1
    ensures r.1.Keys == files.Keys
    ensures forall q :: q in files && q != tar ==> r.1[q] == files[q]
    ensures r.1[tar].attr == files[tar].attr && files[tar].content <= r.1[tar].content
  {
    if !CanOpen(files, path) then (1, files)
    else if files[path].attr.isDir then (0, files)
    else if |path| > NAME_SIZE then (1, files)
    else
      var rec := Record(path, files[path]);
      (if |rec| <= Room(dev, files[tar].content) then 0 else 1, Appended(dev, files, tar, rec))
  }

  /** my_tar.c:142-174. */
  method WriteFileToTar(fs: FileSystem, tar: Path, filename: Path) returns (status: int)
    requires tar in fs.files
    modifies fs
    ensures (status, fs.files) == WriteOne(fs.dev, old(fs.files), tar, filename)
  {
    ghost var f0 := fs.files;
    var fd := fs.OpenRead(filename);
    if fd == null {
      return 1;
    }
    var node := fs.files[filename];
    if node.attr.isDir {
      return 0;
    }
    var st := StatOf(node);
    status := WriteHeader(fs, tar, filename, st);
    if status != 0 {
      if |filename| <= NAME_SIZE {
        AppendedLongPrefix(fs.dev, f0, tar, Raw(EncodeHeader(filename, st)), Record(filename, node));
      }
      return 1;
    }
    assert fd.rest == node.content;
    status := WriteFileData(fs, tar, fd, st.size);
    AppendedTwice(fs.dev, f0, tar, Raw(EncodeHeader(filename, st)), DataBlocks(node.content, st.size));
    if status != 0 {
      return 1;
    }
    return 0;
  }

  /** The create loop: files written in order until the first failure. */
  function WriteUntilFailure(dev: Device, files: FileMap, tar: Path, paths: seq<Path>): (r: (int, FileMap))
    requires tar in files
    ensures r.0 == 0 || r.0 == 1
    ensures r.1.Keys == files.Keys
    ensures forall q :: q in files && q != tar ==> r.1[q] == files[q]
    ensures r.1[tar].attr == files[tar].attr && files[tar].content <= r.1[tar].content
    decreases |paths|
  {
    if paths == [] then (0, files)
    else
      var (s, f) := WriteOne(dev, files, tar, paths[0]);
      if s != 0 then (1, f) else WriteUntilFailure(dev, f, tar, paths[1..])
  }

  /** The append loop: every file is attempted; the status records any failure. */
  function WriteEach(dev: Device, files: FileMap, tar: Path, paths: seq<Path>): (r: (int, FileMap))
    requires tar in files
    ensures r.0 == 0 || r.0 == 1
    ensures r.1.Keys == files.Keys
    ensures forall q :: q in files && q != tar ==> r.1[q] == files[q]
    ensures r.1[tar].attr == files[tar].attr && files[tar].content <= r.1[tar].content
    decreases |paths|
  {
    if paths == [] then (0, files)
    else
      var (s, f) := WriteOne(dev, files, tar, paths[0]);
      var (s', f') := WriteEach(dev, f, tar, paths[1..]);
      (if s != 0 then 1 else s', f')
  }

  /** Effect of the create branch of `main`: the archive is truncated, the files are
      written in order, and on success two zero blocks end it. A failure leaves what was
      written so far. No file but the archive changes. */
  function CreateOutcome(dev: Device, files: FileMap, tar: Path, paths: seq<Path>): (r: (int, FileMap))
    ensures r.0 == 0 || r.0 == 1
    ensures r.0 == 0 ==> tar in r.1
    ensures !CanCreate(dev, files, tar) ==> r == (1, files)
    ensures CanCreate(dev, files, tar) ==>
      tar in r.1 && r.1[tar].attr == Truncated(dev, files, tar, ARCHIVE_MODE).attr
    ensures forall q :: q != tar ==> (q in r.1 <==> q in files) && (q in files ==> r.1[q] == files[q])
  {
    if !CanCreate(dev, files, tar) then (1, files)
    else
      var started := files[tar := Truncated(dev, files, tar, ARCHIVE_MODE)];
      var (s, written) := WriteUntilFailure(dev, started, tar, paths);
      if s != 0 then (1, written)
      else (0, Appended(dev, written, tar, Zeros(2 * BLOCK_SIZE)))
  }

  /** my_tar.c:350-368. */
  method CreateArchive(fs: FileSystem, tar: Path, paths: seq<Path>) returns (status: int)
    modifies fs
    ensures (status, fs.files) == CreateOutcome(fs.dev, old(fs.files), tar, paths)
  {
    var ok := fs.OpenTrunc(tar, ARCHIVE_MODE);
    if !ok {
      return 1;
    }
    ghost var started := fs.files;
    var i := 0;
    while i < |paths|
      invariant 0 <= i <= |paths| && tar in fs.files
      invariant WriteUntilFailure(fs.dev, started, tar, paths) == WriteUntilFailure(fs.dev, fs.files, tar, paths[i..])
    {
      assert paths[i..][1..] == paths[i + 1..];
      var s := WriteFileToTar(fs, tar, paths[i]);
      if s != 0 {
        return 1;
      }
      i := i + 1;
    }
    ghost var written := fs.files;
    var zeroBlock := Zeros(BLOCK_SIZE);
    var n1 := fs.Write(tar, zeroBlock);
    var n2 := fs.Write(tar, zeroBlock);
    AppendedTwice(fs.dev, written, tar, zeroBlock, zeroBlock);
    assert zeroBlock + zeroBlock == Zeros(2 * BLOCK_SIZE);
    return 0;
  }
}
