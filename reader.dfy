/** The reading loops: `list_tar` (my_tar.c:177-192) and `extract_tar` (my_tar.c:195-233).
    Both read one header block at a time, stop at a short read or at a block whose first
    byte is NUL, and move past the entry's content rounded up to whole blocks. */
module Reader {
  import opened Bytes
  import opened Header
  import opened Files
  import opened BlockStream

  /** An entry as the reading loops see it: its header block and the content bytes the
      archive holds for it (fewer than announced when the archive ends early). */
  datatype Member = Member(header: seq<byte>, content: seq<byte>)

  /** A header block the loops act on: a whole block whose name does not start with NUL. */
  predicate IsEntryHeader(h: seq<byte>) {
    |h| == BLOCK_SIZE && h[0] != NUL
  }

  /** The entries the reading loops visit in `data`, in order. */
  function Members(data: seq<byte>): (ms: seq<Member>)
    ensures forall i :: 0 <= i < |ms| ==>
      IsEntryHeader(ms[i].header) && |ms[i].content| <= EntrySize(ms[i].header)
    decreases |data|
  {
    if |data| < BLOCK_SIZE || data[0] == NUL then []
    else
      var h := data[..BLOCK_SIZE];
      var body := data[BLOCK_SIZE..];
      [Member(h, Take(body, EntrySize(h)))] + Members(RestAt(body, PaddedSize(EntrySize(h))))
  }

  /** The names of a sequence of entries, as `list_tar` prints them, one per line. */
  function Names(ms: seq<Member>): (names: seq<Path>)
    requires forall i :: 0 <= i < |ms| ==> |ms[i].header| == BLOCK_SIZE
    ensures |names| == |ms|
    decreases |ms|
  {
    if ms == [] then []
    else
      assert |ms[0].header| == BLOCK_SIZE;
      [EntryName(ms[0].header)] + Names(ms[1..])
  }

  /** The lines `list_tar` prints for the archive bytes `data`. */
  function Listing(data: seq<byte>): seq<Path> {
    Names(Members(data))
  }

  /** One step of the listing loop: a short read or a NUL name ends it; otherwise the
      name is printed and the loop resumes after the entry's padded content. */
  lemma ListingStep(data: seq<byte>)
    ensures |data| < BLOCK_SIZE || data[0] == NUL ==> Listing(data) == []
    ensures |data| >= BLOCK_SIZE && data[0] != NUL ==>
      var h := data[..BLOCK_SIZE];
      Listing(data) == [EntryName(h)] + Listing(RestAt(data[BLOCK_SIZE..], PaddedSize(EntrySize(h))))
  {
    if |data| >= BLOCK_SIZE && data[0] != NUL {
      var h := data[..BLOCK_SIZE];
      var m := Member(h, Take(data[BLOCK_SIZE..], EntrySize(h)));
      var rest := Members(RestAt(data[BLOCK_SIZE..], PaddedSize(EntrySize(h))));
      assert Members(data) == [m] + rest;
      assert ([m] + rest)[1..] == rest;
    }
  }

  /** Reading stops at the two zero blocks that end an archive, whatever follows them. */
  lemma MembersAtTerminator(rest: seq<byte>)
    ensures Members(Zeros(2 * BLOCK_SIZE) + rest) == []
  {
    assert (Zeros(2 * BLOCK_SIZE) + rest)[0] == NUL;
  }

  /** An archive is read entry by entry: a whole entry followed by more data lists its own
      header and content, then the members of what follows. */
  lemma MembersOfEntry(h: seq<byte>, content: seq<byte>, rest: seq<byte>)
    requires IsEntryHeader(h) && |content| == PaddedSize(EntrySize(h))
    ensures Members(h + content + rest) == [Member(h, content[..EntrySize(h)])] + Members(rest)
  {
    var data := h + content + rest;
    assert data[..BLOCK_SIZE] == h;
    assert data[BLOCK_SIZE..] == content + rest;
    assert Take(content + rest, EntrySize(h)) == content[..EntrySize(h)];
    assert RestAt(content + rest, PaddedSize(EntrySize(h))) == rest;
  }

  /** The bytes after an entry that starts `data`: what the reading loops continue with. */
  function Next(data: seq<byte>): (rest: seq<byte>)
    requires |data| >= BLOCK_SIZE
    ensures |rest| < |data|
  {
    RestAt(data[BLOCK_SIZE..], PaddedSize(EntrySize(data[..BLOCK_SIZE])))
  }

  /** The listing loop keeps its invariant across one entry. */
  lemma ListingAdvances(data: seq<byte>, lines: seq<Path>, all: seq<Path>)
    requires |data| >= BLOCK_SIZE && data[0] != NUL && lines + Listing(data) == all
    ensures (lines + [EntryName(data[..BLOCK_SIZE])]) + Listing(Next(data)) == all
  {
    ListingStep(data);
  }

  /** my_tar.c:177-192: the names of the entries, in archive order. */
  method ListTar(fd: FileDesc) returns (lines: seq<Path>)
    modifies fd
    ensures lines == Listing(old(fd.rest))
  {
    ghost var r0 := fd.rest;
    lines := [];
    while true
      invariant lines + Listing(fd.rest) == Listing(r0)
      decreases |fd.rest|
    {
      ghost var r := fd.rest;
      var header := fd.Read(BLOCK_SIZE);
      if |header| != BLOCK_SIZE || header[0] == NUL {
        ListingStep(r);
        assert lines + [] == lines;
        break;
      }
      ListingAdvances(r, lines, Listing(r0));
      var size := EntrySize(header);
      lines := lines + [EntryName(header)];
      fd.Seek(PaddedSize(size));
      assert fd.rest == Next(r);
    }
  }

  // ---------------------------------------------------------------- extraction

  /** Permission bits extracted files are created with (0644). */
  const EXTRACT_MODE: nat := 420

  /** Effect of extracting one entry: the file named by the header is created or
      truncated, receives the entry's content (as much as the device takes) and gets the
      header's modification time. When the file cannot be created nothing changes. */
  function ExtractOne(dev: Device, files: FileMap, m: Member): (r: FileMap)
    requires |m.header| == BLOCK_SIZE
    ensures r.Keys == files.Keys + (if CanCreate(dev, files, EntryName(m.header)) then {EntryName(m.header)} else {})
    ensures forall q :: q in files && q != EntryName(m.header) ==> r[q] == files[q]
  {
    var name := EntryName(m.header);
    if !CanCreate(dev, files, name) then files
    else
      var created := files[name := Truncated(dev, files, name, EXTRACT_MODE)];
      var written := Appended(dev, created, name, m.content);
      written[name := written[name].(attr := written[name].attr.(mtime := EntryMtime(m.header)))]
  }

  /** When the file can be created and the device has room for the content, extracting
      an entry leaves a regular file holding exactly the content, with the header's
      modification time, and changes no other file. */
  lemma ExtractOneCreates(dev: Device, files: FileMap, m: Member)
    requires |m.header| == BLOCK_SIZE && CanCreate(dev, files, EntryName(m.header))
    requires |m.content| <= dev.capacity
    ensures var r := ExtractOne(dev, files, m);
      var name := EntryName(m.header);
      && r.Keys == files.Keys + {name}
      && r[name].content == m.content && r[name].attr.mtime == EntryMtime(m.header)
      && !r[name].attr.isDir
      && forall q :: q in files && q != name ==> r[q] == files[q]
  {
    var name := EntryName(m.header);
    var created := files[name := Truncated(dev, files, name, EXTRACT_MODE)];
    AppendedWithinRoom(dev, created, name, m.content);
  }

  /** Extracting an entry leaves every path but the one it names as it was. */
  lemma ExtractOneElsewhere(dev: Device, files: FileMap, m: Member, p: Path)
    requires |m.header| == BLOCK_SIZE && EntryName(m.header) != p
    ensures var r := ExtractOne(dev, files, m);
      && (p in r <==> p in files) && (p in files ==> r[p] == files[p])
  {
  }

  /** Effect of `extract_tar` on the file system: the entries extracted in order. */
  function ExtractAll(dev: Device, files: FileMap, ms: seq<Member>): (r: FileMap)
    requires forall i :: 0 <= i < |ms| ==> |ms[i].header| == BLOCK_SIZE
    ensures files.Keys <= r.Keys
    decreases |ms|
  {
    if ms == [] then files else ExtractAll(dev, ExtractOne(dev, files, ms[0]), ms[1..])
  }

  /** Extracting `a + b` extracts `a`, then `b` from where `a` left the files. */
  lemma {:induction false} ExtractAllConcat(dev: Device, files: FileMap, a: seq<Member>, b: seq<Member>)
    requires forall i :: 0 <= i < |a| ==> |a[i].header| == BLOCK_SIZE
    requires forall i :: 0 <= i < |b| ==> |b[i].header| == BLOCK_SIZE
    ensures forall i :: 0 <= i < |a + b| ==> |(a + b)[i].header| == BLOCK_SIZE
    ensures ExtractAll(dev, files, a + b) == ExtractAll(dev, ExtractAll(dev, files, a), b)
    decreases |a|
  {
    if a == [] {
      assert a + b == b;
    } else {
      assert (a + b)[0] == a[0] && (a + b)[1..] == a[1..] + b;
      ExtractAllConcat(dev, ExtractOne(dev, files, a[0]), a[1..], b);
    }
  }

  /** Extraction only creates regular files, so a path that could be created before any
      extraction still can be after it. */
  lemma {:induction false} ExtractAllKeepsCreatable(dev: Device, files: FileMap, ms: seq<Member>, p: Path)
    requires forall i :: 0 <= i < |ms| ==> |ms[i].header| == BLOCK_SIZE
    requires CanCreate(dev, files, p)
    ensures CanCreate(dev, ExtractAll(dev, files, ms), p)
    decreases |ms|
  {
    if ms != [] {
      var next := ExtractOne(dev, files, ms[0]);
      var name := EntryName(ms[0].header);
      if CanCreate(dev, files, name) && name == p {
        var created := files[name := Truncated(dev, files, name, EXTRACT_MODE)];
        assert Appended(dev, created, name, ms[0].content)[name].attr == created[name].attr;
      }
      assert CanCreate(dev, next, p);
      ExtractAllKeepsCreatable(dev, next, ms[1..], p);
    }
  }

  /** How many bytes the copy loop of `extract_tar` (my_tar.c:212-220) reads from the
      archive, which holds `left` more bytes, for an entry of `remaining` bytes when the
      extracted file can take `room` more. The loop reads whole blocks and writes each one
      out. When everything available fits, it reads all of it. Otherwise the write of the
      block in which the room runs out comes up short and the loop breaks, after that
      block was read. */
  function CopyLoopReads(left: nat, remaining: nat, room: nat): (n: nat)
    ensures n <= Min(remaining, left)
    ensures n < Min(remaining, left) ==> room < n && n % BLOCK_SIZE == 0
  {
    var available := Min(remaining, left);
    if available <= room then available
    else Min(available, (room / BLOCK_SIZE + 1) * BLOCK_SIZE)
  }

  /** The block in which the room runs out starts at `consumed`. */
  lemma BlockOfRoom(consumed: nat, room: nat)
    requires consumed % BLOCK_SIZE == 0 && consumed <= room < consumed + BLOCK_SIZE
    ensures (room / BLOCK_SIZE + 1) * BLOCK_SIZE == consumed + BLOCK_SIZE
  {
  }

  /** One chunk of the copy loop, on the files: appending the `r` bytes read after
      `consumed` bytes continues the single write of the first `consumed + r` bytes. */
  lemma ChunkAppended(dev: Device, f0: FileMap, name: Path, avail: seq<byte>, consumed: nat, r: nat)
    requires name in f0 && consumed + r <= |avail| && consumed <= Room(dev, f0[name].content)
    ensures avail[consumed..][r..] == avail[consumed + r..]
    ensures Appended(dev, Appended(dev, f0, name, avail[..consumed]), name, avail[consumed..][..r])
      == Appended(dev, f0, name, avail[..consumed + r])
    ensures Room(dev, Appended(dev, f0, name, avail[..consumed])[name].content)
      == Room(dev, f0[name].content) - consumed
  {
    SplitAt(avail, consumed, r);
    AppendedTwice(dev, f0, name, avail[..consumed], avail[consumed..][..r]);
    AppendedWithinRoom(dev, f0, name, avail[..consumed]);
  }

  /** One turn of the copy loop, as counted: a turn that breaks the loop has read what
      `CopyLoopReads` says, and one that goes on has read whole blocks that all fit, or
      everything. */
  lemma CopyTurnCount(left: nat, size: nat, room: nat, consumed: nat, remaining: nat, r: nat, stop: bool)
    requires consumed + remaining == size && consumed <= left && remaining > 0 && consumed <= room
    requires consumed % BLOCK_SIZE == 0 || consumed == left
    requires r == Min(Min(BLOCK_SIZE, remaining), left - consumed)
    requires stop == (r == 0 || room - consumed < r)
    ensures stop ==> consumed + r == CopyLoopReads(left, size, room) && (left < size || room < size)
    ensures !stop ==> && consumed + r <= room
                      && ((consumed + r) % BLOCK_SIZE == 0 || remaining == r || consumed + r == left)
  {
    if r != 0 && room - consumed < r {
      BlockOfRoom(consumed, room);
    }
  }

  /** One turn of the copy loop, on values: `files1` is what the chunk of `r` bytes read
      after `consumed` bytes leaves, and `stop` whether the loop breaks. A turn that goes
      on keeps the loop's invariant; one that breaks leaves what one write of the whole
      content would and completes the count. */
  lemma CopyTurn(dev: Device, f0: FileMap, name: Path, avail: seq<byte>, size: nat,
                 consumed: nat, remaining: nat, r: nat, stop: bool, files1: FileMap)
    requires name in f0
    requires consumed + remaining == size && consumed <= |avail| && remaining > 0
    requires consumed <= Room(dev, f0[name].content)
    requires r == Min(Min(BLOCK_SIZE, remaining), |avail[consumed..]|)
    requires stop == (r == 0 || Room(dev, Appended(dev, f0, name, avail[..consumed])[name].content) < r)
    requires files1 == Appended(dev, Appended(dev, f0, name, avail[..consumed]), name, avail[consumed..][..r])
    ensures consumed + r <= |avail| && consumed + r <= size && avail[consumed..][r..] == avail[consumed + r..]
    ensures stop == (r == 0 || Room(dev, f0[name].content) - consumed < r)
    ensures stop ==> files1 == Appended(dev, f0, name, Take(avail, size))
    ensures !stop ==> files1 == Appended(dev, f0, name, avail[..consumed + r])
  {
    var room := Room(dev, f0[name].content);
    ChunkAppended(dev, f0, name, avail, consumed, r);
    assert files1 == Appended(dev, f0, name, avail[..consumed + r]);
    assert stop == (r == 0 || room - consumed < r);
    if r == 0 {
      assert avail[..consumed + r] == Take(avail, size);
    } else if room - consumed < r {
      AppendedLongPrefix(dev, f0, name, avail[..consumed + r], Take(avail, size));
    }
  }

  /** One turn of the copy loop, from the loop's invariant after `consumed` bytes to the
      invariant after `consumed + r`, or to the loop's outcome when it breaks. */
  method CopyStep(fs: FileSystem, fd: FileDesc, name: Path, ghost avail: seq<byte>, ghost f0: FileMap,
                  ghost size: nat, consumed: nat, remaining: nat)
    returns (r: nat, stop: bool)
    requires name in f0 && consumed + remaining == size && remaining > 0
    requires consumed <= |avail| && consumed <= Room(fs.dev, f0[name].content)
    requires consumed % BLOCK_SIZE == 0 || consumed == |avail|
    requires fd.rest == avail[consumed..] && fs.files == Appended(fs.dev, f0, name, avail[..consumed])
    modifies fs, fd
    ensures consumed + r <= |avail| && consumed + r <= size && fd.rest == avail[consumed + r..]
    ensures stop ==> && fs.files == Appended(fs.dev, f0, name, Take(avail, size))
                     && consumed + r == CopyLoopReads(|avail|, size, Room(fs.dev, f0[name].content))
                     && (|avail| < size || Room(fs.dev, f0[name].content) < size)
    ensures !stop ==> && 0 < r && consumed + r <= Room(fs.dev, f0[name].content)
                      && fs.files == Appended(fs.dev, f0, name, avail[..consumed + r])
                      && ((consumed + r) % BLOCK_SIZE == 0 || remaining == r || consumed + r == |avail|)
  {
    r, stop := CopyChunk(fs, fd, name, Min(BLOCK_SIZE, remaining));
    CopyTurn(fs.dev, f0, name, avail, size, consumed, remaining, r, stop, fs.files);
    CopyTurnCount(|avail|, size, Room(fs.dev, f0[name].content), consumed, remaining, r, stop);
  }

  /** The copy loop: the entry's content goes to the file `name`; returns how many bytes
      it took from the archive. */
  method CopyOut(fs: FileSystem, fd: FileDesc, name: Path, size: nat) returns (consumed: nat)
    requires name in fs.files
    modifies fs, fd
    ensures fs.files == Appended(fs.dev, old(fs.files), name, Take(old(fd.rest), size))
    ensures consumed == CopyLoopReads(|old(fd.rest)|, size, Room(fs.dev, old(fs.files)[name].content))
    ensures consumed <= size && fd.rest == old(fd.rest)[consumed..]
  {
    ghost var avail := fd.rest;
    ghost var f0 := fs.files;
    ghost var room := Room(fs.dev, f0[name].content);
    var remaining: nat := size;
    consumed := 0;
    AppendedNothing(fs.dev, f0, name);
    while remaining > 0
      invariant consumed + remaining == size && consumed <= |avail| && consumed <= room
      invariant consumed % BLOCK_SIZE == 0 || remaining == 0 || consumed == |avail|
      invariant fd.rest == avail[consumed..]
      invariant fs.files == Appended(fs.dev, f0, name, avail[..consumed])
    {
      var r, stop := CopyStep(fs, fd, name, avail, f0, size, consumed, remaining);
      consumed := consumed + r;
      if stop {
        return;
      }
      remaining := remaining - r;
    }
    assert avail[..consumed] == Take(avail, size);
  }

  /** Skipping the rest of an entry after `c` of its bytes were read ends where skipping
      the whole entry would. */
  lemma RestAtSkip(data: seq<byte>, c: nat, n: nat)
    requires c <= |data| && c <= n
    ensures RestAt(data[c..], n - c) == RestAt(data, n)
  {
  }

  /** The body of the loop in `extract_tar` once a header block has been read: create the
      file, copy the content, move to the next header and set the modification time. */
  method ExtractEntry(fs: FileSystem, fd: FileDesc, header: seq<byte>)
    requires IsEntryHeader(header)
    modifies fs, fd
    ensures fs.files == ExtractOne(fs.dev, old(fs.files),
      Member(header, Take(old(fd.rest), EntrySize(header))))
    ensures fd.rest == RestAt(old(fd.rest), PaddedSize(EntrySize(header)))
  {
    var size := EntrySize(header);
    var name := EntryName(header);
    var ok := fs.OpenTrunc(name, EXTRACT_MODE);
    if !ok {
      fd.Seek(PaddedSize(size));
      return;
    }
    ghost var content := fd.rest;
    var consumed := CopyOut(fs, fd, name, size);
    fd.Seek(PaddedSize(size) - consumed);
    RestAtSkip(content, consumed, PaddedSize(size));
    fs.SetTimes(name, EntryMtime(header));
  }

  /** my_tar.c:195-233, with the skip after the content measured from what the copy loop
      actually read (see `ResumeAsWritten` for the skip as written). */
  method ExtractTar(fs: FileSystem, fd: FileDesc)
    modifies fs, fd
    ensures fs.files == ExtractAll(fs.dev, old(fs.files), Members(old(fd.rest)))
  {
    ghost var r0 := fd.rest;
    ghost var f0 := fs.files;
    while true
      invariant ExtractAll(fs.dev, fs.files, Members(fd.rest)) == ExtractAll(fs.dev, f0, Members(r0))
      decreases |fd.rest|
    {
      ghost var r := fd.rest;
      ghost var before := fs.files;
      var header := fd.Read(BLOCK_SIZE);
      assert header == Take(r, BLOCK_SIZE);
      if |header| != BLOCK_SIZE || header[0] == NUL {
        assert Members(r) == [];
        assert ExtractAll(fs.dev, before, []) == before;
        break;
      }
      assert fd.rest == r[BLOCK_SIZE..];
      ghost var m := Member(header, Take(r[BLOCK_SIZE..], EntrySize(header)));
      ghost var next := RestAt(r[BLOCK_SIZE..], PaddedSize(EntrySize(header)));
      MembersStep(r);
      assert Members(r)[0] == m && Members(r)[1..] == Members(next);
      ExtractEntry(fs, fd, header);
      assert fd.rest == next && fs.files == ExtractOne(fs.dev, before, m);
    }
  }

  lemma MembersStep(data: seq<byte>)
    requires |data| >= BLOCK_SIZE && data[0] != NUL
    ensures var h := data[..BLOCK_SIZE];
      Members(data) == [Member(h, Take(data[BLOCK_SIZE..], EntrySize(h)))]
        + Members(RestAt(data[BLOCK_SIZE..], PaddedSize(EntrySize(h))))
  {
  }

  /** Where `extract_tar` as written resumes reading, counted from the end of the header
      block: after the bytes the copy loop read, it skips only the padding
      `PaddedSize(size) - size` (my_tar.c:223-226). */
  function ResumeAsWritten(left: nat, size: nat, room: nat): (n: nat)
    ensures n <= PaddedSize(size)
    ensures n == PaddedSize(size) <==> CopyLoopReads(left, size, room) == size
  {
    PadLenFillsBlock(size);
    CopyLoopReads(left, size, room) + PadLen(size)
  }

  /** When the archive holds the whole content and every write completes, the loop reads
      exactly `size` bytes, so reading resumes at the next header, as `ExtractTar` does in
      every case. */
  lemma ResumeAsWrittenWhenComplete(left: nat, size: nat, room: nat)
    requires size <= left && size <= room
    ensures ResumeAsWritten(left, size, room) == PaddedSize(size)
  {
    PadLenFillsBlock(size);
  }

  /** When the extracted file runs out of room more than a block before the end of the
      content, reading resumes inside the entry's content instead of at the next header. */
  lemma ResumeAsWrittenFallsShort(left: nat, size: nat, room: nat)
    requires size <= left && room + BLOCK_SIZE < size
    ensures ResumeAsWritten(left, size, room) < PaddedSize(size)
  {
    assert (room / BLOCK_SIZE) * BLOCK_SIZE <= room;
    PadLenFillsBlock(size);
  }

  /** A short write on the extracted file breaks the copy loop before `remaining` drops:
      with 1024 bytes of content and a full device, one block is read and the skip adds
      nothing, so reading resumes 512 bytes into the content, which is then taken for the
      next header. */
  lemma ResumeAsWrittenAfterShortWrite(left: nat)
    requires left >= 2 * BLOCK_SIZE
    ensures ResumeAsWritten(left, 2 * BLOCK_SIZE, 0) == BLOCK_SIZE
    ensures PaddedSize(2 * BLOCK_SIZE) == 2 * BLOCK_SIZE
  {
    PadLenFillsBlock(2 * BLOCK_SIZE);
  }
}
