/** What the three modes promise together: an archive written by the create or append
    branch lists, and extracts, the files it was given. */
module RoundTrip {
  import opened Bytes
  import opened Octal
  import opened Header
  import opened Files
  import opened BlockStream
  import opened Writer
  import opened Reader
  import opened Append

  /** A file whose header reads back exactly: a name of 1 to 100 bytes without NUL, and a
      size and modification time that fit the 11 octal digits of their fields. */
  predicate Archivable(p: Path, node: Inode) {
    1 <= |p| <= NAME_SIZE && IsCString(p)
    && |node.content| < Pow8(11) && 0 <= node.attr.mtime < Pow8(11)
  }

  /** `write_file_to_tar` writes an entry for `p`: it names a regular file. */
  predicate IsRegular(files: FileMap, p: Path) {
    p in files && !files[p].attr.isDir
  }

  /** Every regular file among `paths` is archivable. */
  predicate AllArchivable(files: FileMap, paths: seq<Path>) {
    forall i :: 0 <= i < |paths| && IsRegular(files, paths[i]) ==> Archivable(paths[i], files[paths[i]])
  }

  /** The regular files among `paths`, in order: the entries the writer produces. */
  function RegularNames(files: FileMap, paths: seq<Path>): seq<Path>
    decreases |paths|
  {
    if paths == [] then []
    else (if IsRegular(files, paths[0]) then [paths[0]] else []) + RegularNames(files, paths[1..])
  }

  /** The bytes the writer appends for `p` when its writes complete. */
  function RecordOf(files: FileMap, p: Path): seq<byte> {
    if IsRegular(files, p) && |p| <= NAME_SIZE then Record(p, files[p]) else []
  }

  /** The bytes the writer appends for `paths` when every write completes. */
  function Records(files: FileMap, paths: seq<Path>): seq<byte>
    decreases |paths|
  {
    if paths == [] then [] else RecordOf(files, paths[0]) + Records(files, paths[1..])
  }

  /** The entry a reader finds in `RecordOf(files, p)`. */
  function EntryOf(files: FileMap, p: Path): (es: seq<Member>)
    ensures forall i :: 0 <= i < |es| ==> |es[i].header| == BLOCK_SIZE
  {
    if IsRegular(files, p) && |p| <= NAME_SIZE
    then [Member(Raw(EncodeHeader(p, StatOf(files[p]))), files[p].content)] else []
  }

  /** The entries a reader finds in those bytes: each regular file's header and content. */
  function Entries(files: FileMap, paths: seq<Path>): (es: seq<Member>)
    ensures forall i :: 0 <= i < |es| ==> |es[i].header| == BLOCK_SIZE
    decreases |paths|
  {
    if paths == [] then [] else EntryOf(files, paths[0]) + Entries(files, paths[1..])
  }

  /** What holds of all the files holds of all but the first. */
  lemma AllArchivableTail(files: FileMap, paths: seq<Path>)
    requires paths != [] && AllArchivable(files, paths)
    ensures AllArchivable(files, paths[1..])
  {
    forall i | 0 <= i < |paths[1..]| && IsRegular(files, paths[1..][i])
      ensures Archivable(paths[1..][i], files[paths[1..][i]])
    {
      assert paths[1..][i] == paths[i + 1];
    }
  }

  // ---------------------------------------------------------------- writing

  /** Files that agree on `paths` give the same records. */
  lemma {:induction false} RecordsAgree(f: FileMap, g: FileMap, paths: seq<Path>)
    requires forall i :: 0 <= i < |paths| ==> (paths[i] in f <==> paths[i] in g)
    requires forall i :: 0 <= i < |paths| && paths[i] in f ==> f[paths[i]] == g[paths[i]]
    ensures Records(f, paths) == Records(g, paths)
    ensures Entries(f, paths) == Entries(g, paths)
    ensures RegularNames(f, paths) == RegularNames(g, paths)
    decreases |paths|
  {
    if paths != [] {
      RecordsAgree(f, g, paths[1..]);
    }
  }

  /** `write_file_to_tar` reports success only when it wrote the whole record of a
      regular file, or nothing for a directory. */
  lemma WrittenOne(dev: Device, files: FileMap, tar: Path, p: Path)
    requires tar in files && WriteOne(dev, files, tar, p).0 == 0
    ensures WriteOne(dev, files, tar, p).1[tar].content == files[tar].content + RecordOf(files, p)
  {
    if IsRegular(files, p) && |p| <= NAME_SIZE {
      AppendedWithinRoom(dev, files, tar, Record(p, files[p]));
    } else {
      assert files[tar].content + [] == files[tar].content;
    }
  }

  /** Writing the first file leaves the records of the others as they were. */
  lemma WrittenElsewhere(dev: Device, files: FileMap, tar: Path, paths: seq<Path>)
    requires tar in files && tar !in paths && paths != []
    ensures tar !in paths[1..]
    ensures Records(WriteOne(dev, files, tar, paths[0]).1, paths[1..]) == Records(files, paths[1..])
  {
    var f1 := WriteOne(dev, files, tar, paths[0]).1;
    assert forall i :: 1 <= i < |paths| ==> paths[i] != tar;
    RecordsAgree(f1, files, paths[1..]);
  }

  /** The create loop succeeds only when its first write does and the rest of the loop
      then succeeds. */
  lemma UntilFailureStep(dev: Device, files: FileMap, tar: Path, paths: seq<Path>)
    requires tar in files && paths != [] && WriteUntilFailure(dev, files, tar, paths).0 == 0
    ensures WriteOne(dev, files, tar, paths[0]).0 == 0
    ensures WriteUntilFailure(dev, WriteOne(dev, files, tar, paths[0]).1, tar, paths[1..])
      == WriteUntilFailure(dev, files, tar, paths)
  {
  }

  /** The archive after a create loop that reports success holds the records of all the
      files, in order, after what it held before. */
  lemma {:induction false} WrittenRecords(dev: Device, files: FileMap, tar: Path, paths: seq<Path>)
    requires tar in files && tar !in paths
    requires WriteUntilFailure(dev, files, tar, paths).0 == 0
    ensures WriteUntilFailure(dev, files, tar, paths).1[tar].content
      == files[tar].content + Records(files, paths)
    decreases |paths|
  {
    if paths == [] {
      assert files[tar].content + [] == files[tar].content;
    } else {
      var f1 := WriteOne(dev, files, tar, paths[0]).1;
      UntilFailureStep(dev, files, tar, paths);
      WrittenOne(dev, files, tar, paths[0]);
      WrittenElsewhere(dev, files, tar, paths);
      WrittenRecords(dev, f1, tar, paths[1..]);
      ConcatAssoc(files[tar].content, RecordOf(files, paths[0]), Records(files, paths[1..]));
    }
  }

  /** The append loop reports success only when every file was written, so it then
      leaves what the create loop would. */
  lemma {:induction false} WriteEachSucceeded(dev: Device, files: FileMap, tar: Path, paths: seq<Path>)
    requires tar in files && WriteEach(dev, files, tar, paths).0 == 0
    ensures WriteUntilFailure(dev, files, tar, paths) == WriteEach(dev, files, tar, paths)
    decreases |paths|
  {
    if paths != [] {
      var f1 := WriteOne(dev, files, tar, paths[0]).1;
      WriteEachSucceeded(dev, f1, tar, paths[1..]);
    }
  }

  // ---------------------------------------------------------------- reading back

  /** Zero bytes hold no entry, whatever their number. */
  lemma MembersOfZeros(z: seq<byte>)
    requires forall i :: 0 <= i < |z| ==> z[i] == NUL
    ensures Members(z) == []
  {
    if |z| >= BLOCK_SIZE {
      assert z[0] == NUL;
    }
  }

  /** A record reads back as the file's entry, and reading resumes right after it. */
  lemma MembersOfRecord(p: Path, node: Inode, rest: seq<byte>)
    requires Archivable(p, node)
    ensures var h := Raw(EncodeHeader(p, StatOf(node)));
      && IsEntryHeader(h) && EntryName(h) == p
      && Members(Record(p, node) + rest) == [Member(h, node.content)] + Members(rest)
  {
    var st := StatOf(node);
    var h := Raw(EncodeHeader(p, st));
    var n := |node.content|;
    EncodedHeaderDecodes(p, st);
    var d := DataBlocks(node.content, n);
    DataBlocksShape(node.content, n);
    MembersOfEntry(h, d, rest);
    assert d[..n] == node.content;
    assert Record(p, node) + rest == h + d + rest;
  }

  /** The record of one file reads back as its entry, and reading resumes right after
      it. */
  lemma MembersOfRecordOf(files: FileMap, p: Path, rest: seq<byte>)
    requires IsRegular(files, p) ==> Archivable(p, files[p])
    ensures Members(RecordOf(files, p) + rest) == EntryOf(files, p) + Members(rest)
  {
    if IsRegular(files, p) {
      var node := files[p];
      MembersOfRecord(p, node, rest);
      assert RecordOf(files, p) == Record(p, node);
      assert EntryOf(files, p) == [Member(Raw(EncodeHeader(p, StatOf(node))), node.content)];
    } else {
      assert RecordOf(files, p) == [] && EntryOf(files, p) == [];
      assert [] + rest == rest;
    }
  }

  /** The records of archivable files read back as their entries, in order. */
  lemma {:induction false} MembersOfRecords(files: FileMap, paths: seq<Path>, rest: seq<byte>)
    requires AllArchivable(files, paths)
    ensures Members(Records(files, paths) + rest) == Entries(files, paths) + Members(rest)
    decreases |paths|
  {
    if paths != [] {
      var p := paths[0];
      var tail := Records(files, paths[1..]);
      AllArchivableTail(files, paths);
      MembersOfRecords(files, paths[1..], rest);
      assert IsRegular(files, p) ==> Archivable(p, files[p]);
      MembersOfRecordOf(files, p, tail + rest);
      ConcatAssoc(RecordOf(files, p), tail, rest);
      ConcatAssoc(EntryOf(files, p), Entries(files, paths[1..]), Members(rest));
    } else {
      assert Records(files, paths) + rest == rest;
      assert Entries(files, paths) + Members(rest) == Members(rest);
    }
  }

  /** Names of a concatenation. */
  lemma {:induction false} NamesConcat(a: seq<Member>, b: seq<Member>)
    requires forall i :: 0 <= i < |a| ==> |a[i].header| == BLOCK_SIZE
    requires forall i :: 0 <= i < |b| ==> |b[i].header| == BLOCK_SIZE
    ensures Names(a + b) == Names(a) + Names(b)
    decreases |a|
  {
    if a == [] {
      assert a + b == b;
    } else {
      assert (a + b)[1..] == a[1..] + b;
      NamesConcat(a[1..], b);
    }
  }

  /** The names in the entries of archivable files are the files' own names. */
  lemma {:induction false} NamesOfEntries(files: FileMap, paths: seq<Path>)
    requires AllArchivable(files, paths)
    ensures Names(Entries(files, paths)) == RegularNames(files, paths)
    decreases |paths|
  {
    if paths != [] {
      var p := paths[0];
      AllArchivableTail(files, paths);
      NamesOfEntries(files, paths[1..]);
      NamesConcat(EntryOf(files, p), Entries(files, paths[1..]));
      if IsRegular(files, p) {
        assert Archivable(p, files[p]);
        EncodedHeaderDecodes(p, StatOf(files[p]));
      }
    }
  }

  /** An archive made of records followed by more data lists the files' names, then
      what that data lists. */
  lemma ListingOfRecords(files: FileMap, paths: seq<Path>, rest: seq<byte>)
    requires AllArchivable(files, paths)
    ensures Members(Records(files, paths) + rest) == Entries(files, paths) + Members(rest)
    ensures Listing(Records(files, paths) + rest) == RegularNames(files, paths) + Listing(rest)
  {
    MembersOfRecords(files, paths, rest);
    NamesConcat(Entries(files, paths), Members(rest));
    NamesOfEntries(files, paths);
  }

  // ---------------------------------------------------------------- create, then read

  /** After a create that reports success, the archive holds the files' records in order,
      then zero bytes: the two zero blocks, or as many of them as the device took. */
  lemma CreatedArchive(dev: Device, files: FileMap, tar: Path, paths: seq<Path>)
    requires CreateOutcome(dev, files, tar, paths).0 == 0 && tar !in paths
    ensures var recs := Records(files, paths);
      CreateOutcome(dev, files, tar, paths).1[tar].content
        == recs + Zeros(Min(2 * BLOCK_SIZE, Room(dev, recs)))
  {
    var recs := Records(files, paths);
    var started := files[tar := Truncated(dev, files, tar, ARCHIVE_MODE)];
    var written := WriteUntilFailure(dev, started, tar, paths);
    assert CreateOutcome(dev, files, tar, paths) == (0, Appended(dev, written.1, tar, Zeros(2 * BLOCK_SIZE)));
    RecordsAgree(started, files, paths);
    WrittenRecords(dev, started, tar, paths);
    assert written.1[tar].content == recs;
    TakeZeros(2 * BLOCK_SIZE, Room(dev, recs));
  }

  /** my_tar.c:350-368 then my_tar.c:177-192: an archive the create branch reports as
      written holds one entry per regular file given, with the file's header and content,
      and lists their names in order. */
  lemma CreateThenRead(dev: Device, files: FileMap, tar: Path, paths: seq<Path>)
    requires CreateOutcome(dev, files, tar, paths).0 == 0
    requires tar !in paths && AllArchivable(files, paths)
    ensures var archive := CreateOutcome(dev, files, tar, paths).1[tar].content;
      && Members(archive) == Entries(files, paths)
      && Listing(archive) == RegularNames(files, paths)
  {
    var started := files[tar := Truncated(dev, files, tar, ARCHIVE_MODE)];
    var written := WriteUntilFailure(dev, started, tar, paths).1;
    RecordsAgree(started, files, paths);
    WrittenRecords(dev, started, tar, paths);
    assert written[tar].content == Records(files, paths);
    var z := Take(Zeros(2 * BLOCK_SIZE), Room(dev, written[tar].content));
    MembersOfZeros(z);
    ListingOfRecords(files, paths, z);
    assert Members(Records(files, paths) + z) == Entries(files, paths) + [];
  }

  // ---------------------------------------------------------------- append, then read

  /** The old archive is intact for the append loop: each entry's content, rounded up to
      whole blocks, is all there, and it ends at its end or at a block whose first byte is
      NUL. */
  predicate CopiesWhole(data: seq<byte>)
    decreases |data|
  {
    if |data| == 0 then true
    else if |data| < BLOCK_SIZE then false
    else if data[0] == NUL then true
    else
      var toCopy := PaddedSize(EntrySize(data[..BLOCK_SIZE]));
      toCopy <= |data| - BLOCK_SIZE && CopiesWhole(data[BLOCK_SIZE + toCopy..])
  }

  /** The bytes the append loop copies from an intact archive: its entries up to the end
      marker. */
  function Kept(data: seq<byte>): seq<byte>
    requires CopiesWhole(data)
    decreases |data|
  {
    if |data| < BLOCK_SIZE || data[0] == NUL then []
    else
      var toCopy := PaddedSize(EntrySize(data[..BLOCK_SIZE]));
      data[..BLOCK_SIZE + toCopy] + Kept(data[BLOCK_SIZE + toCopy..])
  }

  /** One successful turn of the copy loop appends the header block and the content
      rounded up to whole blocks, all of which fit, and the loop goes on after them. */
  lemma CopyOldStep(dev: Device, files: FileMap, tmp: Path, data: seq<byte>)
    requires tmp in files && CopyOld(dev, files, tmp, data, 0).0 == 0
    requires |data| >= BLOCK_SIZE && data[0] != NUL
    ensures var n := BLOCK_SIZE + PaddedSize(EntrySize(data[..BLOCK_SIZE]));
      && n <= |data| && n <= Room(dev, files[tmp].content)
      && CopyOld(dev, files, tmp, data, 0)
         == CopyOld(dev, Appended(dev, files, tmp, data[..n]), tmp, data[n..], 0)
  {
    var h := data[..BLOCK_SIZE];
    var body := data[BLOCK_SIZE..];
    var toCopy := PaddedSize(EntrySize(h));
    var n := BLOCK_SIZE + toCopy;
    AppendedTwice(dev, files, tmp, h, Take(body, toCopy));
    assert Take(body, toCopy) == body[..toCopy];
    assert h + body[..toCopy] == data[..n];
    assert body[toCopy..] == data[n..];
  }

  /** The copy loop succeeds at the end of the old archive only when nothing is left or
      the end marker is reached, and it then copies nothing more. */
  lemma CopyOldAtEnd(dev: Device, files: FileMap, tmp: Path, data: seq<byte>)
    requires tmp in files && CopyOld(dev, files, tmp, data, 0).0 == 0
    requires |data| < BLOCK_SIZE || data[0] == NUL
    ensures |data| == 0 || data[0] == NUL
    ensures CopyOld(dev, files, tmp, data, 0).1 == files
  {
  }

  /** The copy loop reports success only on an intact archive, and then it has appended
      exactly its entries. */
  lemma {:induction false} CopyOldSucceeded(dev: Device, files: FileMap, tmp: Path, data: seq<byte>)
    requires tmp in files && CopyOld(dev, files, tmp, data, 0).0 == 0
    ensures CopiesWhole(data)
    ensures CopyOld(dev, files, tmp, data, 0).1[tmp].content == files[tmp].content + Kept(data)
    decreases |data|
  {
    if |data| < BLOCK_SIZE || data[0] == NUL {
      CopyOldAtEnd(dev, files, tmp, data);
      assert files[tmp].content + [] == files[tmp].content;
    } else {
      var n := BLOCK_SIZE + PaddedSize(EntrySize(data[..BLOCK_SIZE]));
      CopyOldStep(dev, files, tmp, data);
      var copied := Appended(dev, files, tmp, data[..n]);
      AppendedWithinRoom(dev, files, tmp, data[..n]);
      CopyOldSucceeded(dev, copied, tmp, data[n..]);
      assert CopiesWhole(data);
      assert Kept(data) == data[..n] + Kept(data[n..]);
      ConcatAssoc(files[tmp].content, data[..n], Kept(data[n..]));
    }
  }

  /** The copied entries, followed by zero bytes, read back as the old archive's
      entries. */
  lemma {:induction false} MembersOfKept(data: seq<byte>, z: seq<byte>)
    requires CopiesWhole(data) && forall i :: 0 <= i < |z| ==> z[i] == NUL
    ensures Members(Kept(data) + z) == Members(data)
    decreases |data|
  {
    if |data| < BLOCK_SIZE || data[0] == NUL {
      MembersOfZeros(z);
      assert [] + z == z;
    } else {
      var h := data[..BLOCK_SIZE];
      var n := BLOCK_SIZE + PaddedSize(EntrySize(h));
      var content := data[BLOCK_SIZE..n];
      var next := data[n..];
      MembersOfKept(next, z);
      assert data[..n] == h + content;
      assert data == data[..n] + next;
      MembersOfEntry(h, content, next);
      assert Kept(data) == data[..n] + Kept(next);
      ConcatAssoc(data[..n], Kept(next), z);
      MembersOfEntry(h, content, Kept(next) + z);
    }
  }

  /** The stages of an append that reports success: the archive could be opened and
      the temporary archive created, every new file was written, the old entries were
      all copied, and the temporary archive, ended by zero blocks, became the archive. */
  lemma AppendStages(dev: Device, files: FileMap, tar: Path, paths: seq<Path>)
    requires AppendOutcome(dev, files, tar, paths).0 == 0
    ensures CanOpen(files, tar) && CanCreate(dev, files, TmpName(tar))
    ensures var tmp := TmpName(tar);
      var started := files[tmp := Truncated(dev, files, tmp, TMP_MODE)];
      var withNew := WriteEach(dev, started, tmp, paths);
      var withOld := CopyOld(dev, withNew.1, tmp, files[tar].content, withNew.0);
      && withNew.0 == 0 && withOld.0 == 0
      && tar in AppendOutcome(dev, files, tar, paths).1
      && AppendOutcome(dev, files, tar, paths).1[tar]
         == Appended(dev, withOld.1, tmp, Zeros(2 * BLOCK_SIZE))[tmp]
  {
  }

  /** After an append that reports success, the archive holds the new files' records,
      then the old archive's entries, then zero bytes (as many of the two zero blocks as
      the device took). */
  lemma AppendedArchive(dev: Device, files: FileMap, tar: Path, paths: seq<Path>)
    requires AppendOutcome(dev, files, tar, paths).0 == 0
    requires TmpName(tar) !in paths
    ensures tar in files && tar in AppendOutcome(dev, files, tar, paths).1
    ensures CopiesWhole(files[tar].content)
    ensures var kept := Records(files, paths) + Kept(files[tar].content);
      AppendOutcome(dev, files, tar, paths).1[tar].content
        == kept + Zeros(Min(2 * BLOCK_SIZE, Room(dev, kept)))
  {
    AppendStages(dev, files, tar, paths);
    var tmp := TmpName(tar);
    var started := files[tmp := Truncated(dev, files, tmp, TMP_MODE)];
    var withNew := WriteEach(dev, started, tmp, paths);
    WriteEachSucceeded(dev, started, tmp, paths);
    assert forall i :: 0 <= i < |paths| ==> paths[i] != tmp;
    RecordsAgree(started, files, paths);
    WrittenRecords(dev, started, tmp, paths);
    assert withNew.1[tmp].content == Records(files, paths);
    CopyOldSucceeded(dev, withNew.1, tmp, files[tar].content);
    TakeZeros(2 * BLOCK_SIZE, Room(dev, Records(files, paths) + Kept(files[tar].content)));
  }

  /** my_tar.c:236-332 then my_tar.c:177-192: after an append that reports success, the
      archive holds the new files' entries first and then every entry the old archive
      had, and lists the new names before the old ones. */
  lemma AppendThenRead(dev: Device, files: FileMap, tar: Path, paths: seq<Path>)
    requires AppendOutcome(dev, files, tar, paths).0 == 0
    requires TmpName(tar) !in paths && AllArchivable(files, paths)
    ensures tar in files && tar in AppendOutcome(dev, files, tar, paths).1
    ensures var archive := AppendOutcome(dev, files, tar, paths).1[tar].content;
      && Members(archive) == Entries(files, paths) + Members(files[tar].content)
      && Listing(archive) == RegularNames(files, paths) + Listing(files[tar].content)
  {
    AppendedArchive(dev, files, tar, paths);
    var before := files[tar].content;
    var recs := Records(files, paths);
    var z := Zeros(Min(2 * BLOCK_SIZE, Room(dev, recs + Kept(before))));
    ConcatAssoc(recs, Kept(before), z);
    MembersOfKept(before, z);
    ListingOfRecords(files, paths, Kept(before) + z);
  }

  // ---------------------------------------------------------------- extract

  /** my_tar.c:195-233 on an entry the writer produced: when the file can be created and
      the device has room for the content, extracting the entry recreates the file with
      its content and modification time. */
  lemma ExtractRestores(dev: Device, files: FileMap, p: Path, node: Inode)
    requires Archivable(p, node) && CanCreate(dev, files, p) && |node.content| <= dev.capacity
    ensures var r := ExtractOne(dev, files, Member(Raw(EncodeHeader(p, StatOf(node))), node.content));
      && p in r && r[p].content == node.content && r[p].attr.mtime == node.attr.mtime
      && !r[p].attr.isDir
      && forall q :: q in files && q != p ==> q in r && r[q] == files[q]
  {
    var h := Raw(EncodeHeader(p, StatOf(node)));
    EncodedHeaderDecodes(p, StatOf(node));
    ExtractOneCreates(dev, files, Member(h, node.content));
  }

  /** The entry written for an archivable regular file is one entry that names it. */
  lemma EntryOfNames(files: FileMap, q: Path)
    requires IsRegular(files, q) && Archivable(q, files[q])
    ensures |EntryOf(files, q)| == 1 && EntryName(EntryOf(files, q)[0].header) == q
  {
    EncodedHeaderDecodes(q, StatOf(files[q]));
  }

  /** Extracting the entry written for `q` leaves any other path as it was. */
  lemma ExtractEntryElsewhere(dev: Device, g: FileMap, files: FileMap, q: Path, p: Path)
    requires IsRegular(files, q) ==> Archivable(q, files[q])
    requires q != p
    ensures var r := ExtractAll(dev, g, EntryOf(files, q));
      && (p in r <==> p in g) && (p in g ==> r[p] == g[p])
  {
    var es := EntryOf(files, q);
    if IsRegular(files, q) {
      EntryOfNames(files, q);
      ExtractOneElsewhere(dev, g, es[0], p);
      assert ExtractAll(dev, g, es) == ExtractAll(dev, ExtractOne(dev, g, es[0]), []);
    } else {
      assert es == [];
    }
  }

  /** Extracting the entries of files other than `p` leaves `p` as it was, present or
      absent. */
  lemma {:induction false} ExtractEntriesElsewhere(dev: Device, g: FileMap, files: FileMap, paths: seq<Path>, p: Path)
    requires AllArchivable(files, paths) && p !in paths
    ensures var r := ExtractAll(dev, g, Entries(files, paths));
      && (p in r <==> p in g) && (p in g ==> r[p] == g[p])
    decreases |paths|
  {
    if paths != [] {
      var q := paths[0];
      AllArchivableTail(files, paths);
      ExtractAllConcat(dev, g, EntryOf(files, q), Entries(files, paths[1..]));
      ExtractEntryElsewhere(dev, g, files, q, p);
      ExtractEntriesElsewhere(dev, ExtractAll(dev, g, EntryOf(files, q)), files, paths[1..], p);
    }
  }

  /** Extracting the entries written for `paths` restores the content and modification
      time of every regular file among them whose path can be created and whose content
      fits the device. When a path occurs twice, its last entry decides, and every entry
      for it holds the same file. */
  lemma {:induction false} ExtractEntriesRestore(dev: Device, g: FileMap, files: FileMap, paths: seq<Path>, p: Path)
    requires AllArchivable(files, paths) && p in paths && IsRegular(files, p)
    requires CanCreate(dev, g, p) && |files[p].content| <= dev.capacity
    ensures var r := ExtractAll(dev, g, Entries(files, paths));
      && p in r && r[p].content == files[p].content && r[p].attr.mtime == files[p].attr.mtime
    decreases |paths|
  {
    var q := paths[0];
    AllArchivableTail(files, paths);
    ExtractAllConcat(dev, g, EntryOf(files, q), Entries(files, paths[1..]));
    var g1 := ExtractAll(dev, g, EntryOf(files, q));
    if p in paths[1..] {
      ExtractAllKeepsCreatable(dev, g, EntryOf(files, q), p);
      ExtractEntriesRestore(dev, g1, files, paths[1..], p);
    } else {
      assert q == p;
      ExtractRestores(dev, g, p, files[p]);
      ExtractEntriesElsewhere(dev, g1, files, paths[1..], p);
    }
  }

  /** my_tar.c:350-368 then my_tar.c:195-233: extracting an archive the create branch
      reports as written, into any file system, restores the content and modification
      time of each regular file given whose path can be created there and whose content
      fits the device. */
  lemma CreateThenExtract(dev: Device, files: FileMap, tar: Path, paths: seq<Path>,
                          into: Device, g: FileMap, p: Path)
    requires CreateOutcome(dev, files, tar, paths).0 == 0
    requires tar !in paths && AllArchivable(files, paths)
    requires p in paths && IsRegular(files, p)
    requires CanCreate(into, g, p) && |files[p].content| <= into.capacity
    ensures var r := ExtractAll(into, g, Members(CreateOutcome(dev, files, tar, paths).1[tar].content));
      && p in r && r[p].content == files[p].content && r[p].attr.mtime == files[p].attr.mtime
  {
    CreateThenRead(dev, files, tar, paths);
    ExtractEntriesRestore(into, g, files, paths, p);
  }
}
