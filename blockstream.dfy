/** The block stream (my_tar.c:112-139): file content copied into the archive in chunks
    of at most one block, then zero padding up to the next block boundary. */
module BlockStream {
  import opened Bytes
  import opened Files

  /** What `write_file_data` sends for a header that announced `size` bytes when
      `available` is what the input still holds: the first `min(size, |available|)` bytes
      in order, then `PadLen(size)` zero bytes. */
  function DataBlocks(available: seq<byte>, size: nat): seq<byte> {
    Take(available, size) + Zeros(PadLen(size))
  }

  /** The copied part is a prefix of the input, everything after it is zero, and when the
      input holds the whole announced size the data fills whole blocks exactly. */
  lemma DataBlocksShape(available: seq<byte>, size: nat)
    ensures var d := DataBlocks(available, size);
      var copied := Min(size, |available|);
      && |d| == copied + PadLen(size)
      && d[..copied] == available[..copied]
      && (forall i :: copied <= i < |d| ==> d[i] == NUL)
      && (|available| >= size ==> |d| == PaddedSize(size) && |d| % BLOCK_SIZE == 0)
  {
    PadLenFillsBlock(size);
  }

  lemma SplitAt(s: seq<byte>, i: nat, r: nat)
    requires i + r <= |s|
    ensures s[..i] + s[i..][..r] == s[..i + r] && s[i..][r..] == s[i + r..]
  {
  }

  /** One turn of the copy loops of `write_file_data` and `extract_tar`: read up to
      `toRead` bytes from `fd` and write them to `name`. `stop` is set when the loop
      breaks: nothing was read, or the write came up short. */
  method CopyChunk(fs: FileSystem, fd: FileDesc, name: Path, toRead: nat) returns (r: nat, stop: bool)
    requires name in fs.files
    modifies fs, fd
    ensures r == Min(toRead, |old(fd.rest)|)
    ensures fd.rest == old(fd.rest)[r..]
    ensures fs.files == Appended(fs.dev, old(fs.files), name, old(fd.rest)[..r])
    ensures stop == (r == 0 || Room(fs.dev, old(fs.files)[name].content) < r)
  {
    var buffer := fd.Read(toRead);
    r := |buffer|;
    if r == 0 {
      AppendedNothing(fs.dev, fs.files, name);
      return 0, true;
    }
    var n := fs.Write(name, buffer);
    stop := n != r;
  }

  /** my_tar.c:112-139. */
  method WriteFileData(fs: FileSystem, tar: Path, fd: FileDesc, size: nat) returns (status: int)
    requires tar in fs.files
    modifies fs, fd
    ensures var intended := DataBlocks(old(fd.rest), size);
      && fs.files == Appended(fs.dev, old(fs.files), tar, intended)
      && status == (if |intended| <= Room(fs.dev, old(fs.files)[tar].content) then 0 else 1)
  {
    ghost var avail := fd.rest;
    ghost var f0 := fs.files;
    ghost var room := Room(fs.dev, f0[tar].content);
    ghost var intended := DataBlocks(avail, size);
    var total: nat := 0;
    AppendedNothing(fs.dev, f0, tar);
    while total < size
      invariant total <= size && total <= |avail| && total <= room
      invariant fd.rest == avail[total..]
      invariant fs.files == Appended(fs.dev, f0, tar, avail[..total])
    {
      var toRead := if size - total < BLOCK_SIZE then size - total else BLOCK_SIZE;
      ghost var tail := avail[total..];
      ghost var written := avail[..total];
      assert Room(fs.dev, fs.files[tar].content) == room - total;
      var r, stop := CopyChunk(fs, fd, tar, toRead);
      SplitAt(avail, total, r);
      AppendedTwice(fs.dev, f0, tar, written, tail[..r]);
      if r == 0 {
        break;
      }
      if stop {
        AppendedLongPrefix(fs.dev, f0, tar, avail[..total + r], intended);
        return 1;
      }
      total := total + r;
    }
    assert avail[..total] == Take(avail, size);
    if size % BLOCK_SIZE != 0 {
      var padding := BLOCK_SIZE - size % BLOCK_SIZE;
      var n := fs.Write(tar, Zeros(padding));
      AppendedTwice(fs.dev, f0, tar, avail[..total], Zeros(padding));
      if n != padding {
        return 1;
      }
    }
    return 0;
  }
}
