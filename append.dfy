/** `append_files` (my_tar.c:236-332): the new files are written to a temporary archive
    `<archive>.tmp`, the entries of the old archive are copied after them, two zero blocks
    end it, and the temporary archive then replaces the old one. */
module Append {
  import opened Bytes
  import opened Header
  import opened Files
  import opened Writer
  import opened Reader

  /** ".tmp" */
  const TMP_SUFFIX: seq<byte> := [46, 116, 109, 112]

  /** Permission bits the temporary archive is created with (0644). */
  const TMP_MODE: nat := 420

  /** The temporary archive's name, `snprintf("%s.tmp", tar_filename)`. */
  function TmpName(tar: Path): (tmp: Path)
    ensures |tmp| == |tar| + 4 && tmp[..|tar|] == tar
  {
    tar + TMP_SUFFIX
  }

  /** Effect of the loop that copies the old archive's entries (my_tar.c:262-304) on the
      temporary archive `tmp`: `data` is what is left to read of the old archive and
      `status` the status so far. A zero-length read ends the loop, a partial header is
      an error, a header whose name starts with NUL ends the loop; otherwise the header
      and the content rounded up to whole blocks are copied. Running out of archive or of
      room is an error, and any error, including one from writing the new files, ends the
      loop after the entry. */
  function CopyOld(dev: Device, files: FileMap, tmp: Path, data: seq<byte>, status: int): (r: (int, FileMap))
    requires tmp in files
    ensures r.0 == 0 || r.0 == 1 || r.0 == status
    ensures r.0 == 0 ==> status == 0
    ensures r.1.Keys == files.Keys
    ensures forall q :: q in files && q != tmp ==> r.1[q] == files[q]
    ensures files[tmp].content <= r.1[tmp].content && r.1[tmp].attr == files[tmp].attr
    decreases |data|
  {
    if |data| == 0 then (status, files)
    else if |data| < BLOCK_SIZE then (1, files)
    else if data[0] == NUL then (status, files)
    else
      var h := data[..BLOCK_SIZE];
      var body := data[BLOCK_SIZE..];
      var room := Room(dev, files[tmp].content);
      var withHeader := Appended(dev, files, tmp, h);
      if room < BLOCK_SIZE then (1, withHeader)
      else
        var toCopy := PaddedSize(EntrySize(h));
        var copied := Appended(dev, withHeader, tmp, Take(body, toCopy));
        var complete := toCopy <= |body| && toCopy <= room - BLOCK_SIZE;
        if !complete || status != 0 then (1, copied)
        else CopyOld(dev, copied, tmp, body[toCopy..], status)
  }

  /** Effect of `append_files`: its status and the files afterwards. On an error the
      temporary archive is removed and the old archive is left as it was; otherwise the
      temporary archive takes the old archive's name. The temporary archive never
      survives an append that got as far as creating it; a failed append leaves every
      other file, the archive included, as it was, and a successful one changes only
      the archive. */
  function AppendOutcome(dev: Device, files: FileMap, tar: Path, paths: seq<Path>): (r: (int, FileMap))
    ensures r.0 == 0 || r.0 == 1
    ensures CanOpen(files, tar) && CanCreate(dev, files, TmpName(tar)) ==> TmpName(tar) !in r.1
    ensures r.0 == 0 ==> tar in files && tar in r.1
    ensures forall q :: q != TmpName(tar) && (r.0 != 0 || q != tar) ==>
      (q in r.1 <==> q in files) && (q in files ==> r.1[q] == files[q])
  {
    var tmp := TmpName(tar);
    if !CanOpen(files, tar) || !CanCreate(dev, files, tmp) then (1, files)
    else
      var started := files[tmp := Truncated(dev, files, tmp, TMP_MODE)];
      var (s1, withNew) := WriteEach(dev, started, tmp, paths);
      var (s2, withOld) := CopyOld(dev, withNew, tmp, files[tar].content, s1);
      var finished := Appended(dev, withOld, tmp, Zeros(2 * BLOCK_SIZE));
      if s2 != 0 then (1, finished - {tmp})
      else (0, (finished - {tmp})[tar := finished[tmp]])
  }

  /** The inner copy loop (my_tar.c:286-301): `toCopy` bytes in chunks of at most one
      block. `complete` is false when the archive ends or a write comes up short. */
  method CopyContent(fs: FileSystem, fd: FileDesc, tmp: Path, toCopy: nat) returns (complete: bool)
    requires tmp in fs.files
    modifies fs, fd
    ensures fs.files == Appended(fs.dev, old(fs.files), tmp, Take(old(fd.rest), toCopy))
    ensures complete == (toCopy <= |old(fd.rest)| && toCopy <= Room(fs.dev, old(fs.files)[tmp].content))
    ensures complete ==> fd.rest == old(fd.rest)[toCopy..]
  {
    ghost var avail := fd.rest;
    ghost var f0 := fs.files;
    ghost var room := Room(fs.dev, f0[tmp].content);
    var remaining: nat := toCopy;
    var consumed: nat := 0;
    AppendedNothing(fs.dev, f0, tmp);
    while remaining > 0
      invariant consumed + remaining == toCopy && consumed <= |avail| && consumed <= room
      invariant consumed % BLOCK_SIZE == 0 || remaining == 0 || consumed == |avail|
      invariant fd.rest == avail[consumed..]
      invariant fs.files == Appended(fs.dev, f0, tmp, avail[..consumed])
    {
      var r, stop := CopyStep(fs, fd, tmp, avail, f0, toCopy, consumed, remaining);
      consumed := consumed + r;
      if stop {
        return false;
      }
      remaining := remaining - r;
    }
    assert avail[..consumed] == Take(avail, toCopy);
    return true;
  }

  /** One turn of the outer copy loop (my_tar.c:262-304). `done` is set when the loop
      ends; the outcome of the whole loop is unchanged by the turn. */
  method CopyEntry(fs: FileSystem, fd: FileDesc, tmp: Path, status: int) returns (status': int, done: bool)
    requires tmp in fs.files
    modifies fs, fd
    ensures tmp in fs.files
    ensures done ==> (status', fs.files) == CopyOld(fs.dev, old(fs.files), tmp, old(fd.rest), status)
    ensures !done ==> && |fd.rest| < |old(fd.rest)|
                      && CopyOld(fs.dev, old(fs.files), tmp, old(fd.rest), status)
                         == CopyOld(fs.dev, fs.files, tmp, fd.rest, status')
  {
    ghost var data := fd.rest;
    ghost var f0 := fs.files;
    var header := fd.Read(BLOCK_SIZE);
    if |header| == 0 {
      return status, true;
    }
    if |header| != BLOCK_SIZE {
      return 1, true;
    }
    if header[0] == NUL {
      return status, true;
    }
    assert header == data[..BLOCK_SIZE] && fd.rest == data[BLOCK_SIZE..];
    var n := fs.Write(tmp, header);
    if n != BLOCK_SIZE {
      return 1, true;
    }
    var size := EntrySize(header);
    var toCopy := PaddedSize(size);
    var complete := CopyContent(fs, fd, tmp, toCopy);
    status' := status;
    if !complete {
      status' := 1;
    }
    if status' != 0 {
      return 1, true;
    }
    return status', false;
  }

  /** The loop writing the new files (my_tar.c:255-259): each is attempted, and the
      status records any failure. */
  method WriteNew(fs: FileSystem, tmp: Path, paths: seq<Path>) returns (status: int)
    requires tmp in fs.files
    modifies fs
    ensures (status, fs.files) == WriteEach(fs.dev, old(fs.files), tmp, paths)
  {
    ghost var started := fs.files;
    status := 0;
    var i := 0;
    while i < |paths|
      invariant 0 <= i <= |paths| && tmp in fs.files && (status == 0 || status == 1)
      invariant var rest := WriteEach(fs.dev, fs.files, tmp, paths[i..]);
        WriteEach(fs.dev, started, tmp, paths) == (if status != 0 then 1 else rest.0, rest.1)
    {
      assert paths[i..][1..] == paths[i + 1..];
      var s := WriteFileToTar(fs, tmp, paths[i]);
      if s != 0 {
        status := 1;
      }
      i := i + 1;
    }
  }

  /** The loop copying the old archive's entries (my_tar.c:262-304). */
  method CopyOldEntries(fs: FileSystem, fd: FileDesc, tmp: Path, status: int) returns (status': int)
    requires tmp in fs.files
    modifies fs, fd
    ensures (status', fs.files) == CopyOld(fs.dev, old(fs.files), tmp, old(fd.rest), status)
  {
    ghost var outcome := CopyOld(fs.dev, fs.files, tmp, fd.rest, status);
    status' := status;
    while true
      invariant tmp in fs.files
      invariant CopyOld(fs.dev, fs.files, tmp, fd.rest, status') == outcome
      decreases |fd.rest|
    {
      var done;
      status', done := CopyEntry(fs, fd, tmp, status');
      if done {
        return;
      }
    }
  }

  /** my_tar.c:236-332. */
  method AppendFiles(fs: FileSystem, tar: Path, paths: seq<Path>) returns (status: int)
    modifies fs
    ensures (status, fs.files) == AppendOutcome(fs.dev, old(fs.files), tar, paths)
  {
    var orig := fs.OpenRead(tar);
    if orig == null {
      return 1;
    }
    var tmp := tar + TMP_SUFFIX;
    var ok := fs.OpenTrunc(tmp, TMP_MODE);
    if !ok {
      return 1;
    }
    status := WriteNew(fs, tmp, paths);
    status := CopyOldEntries(fs, orig, tmp, status);
    ghost var withOld := fs.files;
    var zeroBlock := Zeros(BLOCK_SIZE);
    var n1 := fs.Write(tmp, zeroBlock);
    var n2 := fs.Write(tmp, zeroBlock);
    AppendedTwice(fs.dev, withOld, tmp, zeroBlock, zeroBlock);
    assert zeroBlock + zeroBlock == Zeros(2 * BLOCK_SIZE);
    if status != 0 {
      fs.Unlink(tmp);
      return 1;
    }
    fs.Rename(tmp, tar);
    return 0;
  }
}
