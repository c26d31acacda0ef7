# my_tar in Dafny

A model of `my_tar`, a minimal POSIX ustar archiver written in C (`my_tar.c`), and proofs
about it. The archiver has four modes. Create (`-cf`) writes a header block and the
padded content of each file, then two zero blocks. List (`-tf`) prints the entry names.
Extract (`-xf`) recreates the files. Append (`-rf`) rebuilds the archive in
`<archive>.tmp`, with the new files first and then the old entries, and renames the
result over the archive.

The model is split by component, one module per file:

- `bytes.dfy` (`Bytes`): bytes, zero blocks, `Take`, and the block padding arithmetic.
- `octal.dfy` (`Octal`): `octal_to_str` (`snprintf("%0*lo")`, including its truncation of
  values too wide for the field) and the base-8 `strtol` that reads sizes and times back.
- `header.dfy` (`Header`): `struct posix_header` as a datatype with its byte layout. It
  holds `calculate_checksum` as a loop proved against a checksum function, the header
  `write_header` builds, and the decoders the reading loops apply to a header block.
- `files.dfy` (`Files`): the file system the program talks to.
  - A `FileSystem` class holds a map from paths to files.
  - A `FileDesc` class is a read descriptor with its offset.
  - `open`, `read`, `write`, `lseek`, `unlink`, `rename` and `utime` are methods that
    update those fields.
  - Writes append as much as the device has room for, so they can come up short.
- `blockstream.dfy` (`BlockStream`): `write_file_data`.
- `writer.dfy` (`Writer`): `write_header`, `write_file_to_tar` and the create branch of
  `main`.
- `reader.dfy` (`Reader`): `list_tar` and `extract_tar`.
- `append.dfy` (`Append`): `append_files`.
- `roundtrip.dfy` (`RoundTrip`): the properties that relate the modes. An archive that
  create or append reports as written reads back as the files it was given, through the
  corrected reader (`Header.EntryName`, `Reader.ExtractEntry`).

Each C function that loops or changes state is a method. `Header.CalculateChecksum` loops
over a header value, and the others take the `FileSystem` or `FileDesc` they change. Each
contract ties the result or the new state to a pure function of the inputs
(`CreateOutcome`, `WriteEach`, `CopyOld`, `AppendOutcome`, `Members`, `ExtractAll`). The
properties are proved about those functions.

## Model

| member | source | states |
|---|---|---|
| `Bytes.PaddedSize` | my_tar.c:188 | the skip `((size + 511) / 512) * 512` is a multiple of 512, at least `size` and less than `size + 512` |
| `Bytes.PadLen` | my_tar.c:132-133 | the padding `512 - size % 512` (none when `size` is a multiple of 512) is under 512 and brings `size` to a block boundary |
| `Bytes.PadLenFillsBlock` | my_tar.c:132-135 | content plus padding is exactly the padded size the reading loops skip |
| `Octal.ToOctal` | my_tar.c:60 | `%lo` gives octal digits only, and the number of digits is the least `k` with `v < 8^k` |
| `Octal.OctalToStr` | my_tar.c:59-61 | `octal_to_str(str, size, v)` fills `size` bytes: `size - 1` octal digits, then a NUL |
| `Octal.OctalRun` | my_tar.c:184 | `strtol` base 8 stops at the first byte that is not an octal digit |
| `Octal.ParseOctal` | my_tar.c:184 | `strtol(s, NULL, 8)` (also at lines 202, 228 and 282) is the value of the leading run of octal digits, so it is below `8^k` for a run of `k` digits and 0 when there is none; `OctalToStrRoundTrip` and `ParseOctalStopsAt` prove what it reads back |
| `Octal.ToOctalValue` | my_tar.c:60 | the digits `%lo` prints read back as the value |
| `Octal.ToOctalLength` | my_tar.c:60 | the value fits in `k` digits exactly when it is below `8^k` |
| `Octal.OctalToStrRoundTrip` | my_tar.c:59-61 | a value below `8^(size-1)` written by `octal_to_str` reads back through `strtol` as the value, whatever follows the field |
| `Octal.OctalToStrTruncates` | my_tar.c:59-61 | a wider value is truncated: the field keeps the first `size - 1` digits of its octal text |
| `Octal.ParseOctalStopsAt` | my_tar.c:184 | once a non-digit is reached, the bytes after it do not change what `strtol` reads |
| `Octal.ParseDigitsThenNul` | my_tar.c:184 | digits followed by a NUL parse to their value |
| `Header.Raw` | my_tar.c:28-46 | the struct's bytes, its members in declaration order, are one 512-byte block |
| `Header.RawLayout` | my_tar.c:28-46 | each member lies at its ustar offset (name 0, mode 100, ..., chksum 148, typeflag 156, magic 257, ..., pad 500) |
| `Header.Overlay` | my_tar.c:181 | reading a block into the struct and writing the struct back gives the same block |
| `Header.ChecksumUpTo` | my_tar.c:67-72 | the running checksum of the first `n` bytes is at most 255 per ordinary byte plus 32 per checksum-field byte, and at least 32 per checksum-field byte |
| `Header.ChecksumBound` | my_tar.c:64-74 | every checksum lies between 256 and 504 * 255 + 8 * 32, so it fits in six octal digits |
| `Header.CalculateChecksum` | my_tar.c:64-74 | the loop returns the checksum of the header's 512 bytes |
| `Header.ChecksumIsSumWithSpaces` | my_tar.c:64-74 | the checksum is the plain byte sum of the header with its checksum field replaced by eight spaces |
| `Header.ChecksumIgnoresField` | my_tar.c:68-69 | the checksum does not depend on what the checksum field holds |
| `Header.Cleared` | my_tar.c:53-56 | `clear_header` leaves 512 zero bytes |
| `Header.U64` | my_tar.c:87-91 | the `(uint64_t)` cast is below `2^64` and keeps every value already in range |
| `Header.Unsummed` | my_tar.c:79-96 | the header `write_header` fills in before the checksum: a well-formed struct whose fields `EncodedFields` pins byte by byte |
| `Header.EncodeHeader` | my_tar.c:79-101 | the header `write_header` writes: `Unsummed` with the checksum field stored; `EncodedFields`, `EncodedChecksum` and `EncodedHeaderDecodes` prove its bytes and what reads back |
| `Header.ChecksumField` | my_tar.c:99-101 | the stored checksum field is 8 bytes, with byte 6 a NUL and byte 7 a space |
| `Header.EncodedFields` | my_tar.c:79-96 | in the written header the name is stored NUL-padded, mode holds `st_mode & 0777`, uid, gid, size and mtime are in octal, typeflag is `'0'`, magic `"ustar\0"`, version `"00"`, and linkname and every byte from uname on are zero |
| `Header.EncodedChecksum` | my_tar.c:98-101 | the stored checksum field parses back to the checksum of the finished header, and bytes 154 and 155 are NUL and space |
| `Header.EncodedHeaderDecodes` | my_tar.c:86-91 | a header written for a 1..100-byte NUL-free name, and a size and mtime under `8^11`, decodes to that name, size and mtime, and its first byte is not NUL |
| `Header.NulIndex` | my_tar.c:185 | the index of the first NUL, and the bytes before it hold no NUL |
| `Header.EntryName` | my_tar.c:185 | the name read from a header is at most 100 bytes and has no NUL |
| `Header.EntrySize` | my_tar.c:184 | `strtol(header.size, NULL, 8)` on a header block (also line 202); `EncodedHeaderDecodes` proves it reads back the size written |
| `Header.EntryMtime` | my_tar.c:228 | `strtol(header.mtime, NULL, 8)` on a header block; `EncodedHeaderDecodes` proves it reads back the mtime written |
| `Header.CStringName` | my_tar.c:185 | `strlen(header.name)` yields a NUL-free name |
| `Header.CStringNameOfShortName` | my_tar.c:185 | for names under 100 bytes, `strlen` reads back the stored name |
| `Header.FullLengthNameMisread` | my_tar.c:82-86 | a 100-byte name, which `write_header` accepts, is read back by `strlen` with the seven mode digits appended |
| `Files.Truncated` | my_tar.c:204 | `O_CREAT` with `O_TRUNC` leaves an empty regular file and keeps an existing file's attributes |
| `Files.CanOpen` | my_tar.c:143 | `open(p, O_RDONLY)` succeeds exactly on an existing path; `Files.FileSystem.OpenRead` is proved against it |
| `Files.CanCreate` | my_tar.c:204 | `open` with `O_WRONLY`, `O_CREAT` and `O_TRUNC` succeeds exactly on a non-empty path that is not locked and not a directory; `Files.FileSystem.OpenTrunc` is proved against it |
| `Files.Appended` | my_tar.c:126 | `write` on a file appends as much of the bytes as the device has room for; `AppendedShape`, `AppendedWithinRoom` and `AppendedTwice` prove its shape, a write that fits and two writes in a row |
| `Files.AppendedShape` | my_tar.c:126 | a write keeps the old content as a prefix, adds a prefix of the bytes, grows the file only up to the device capacity, and changes no attribute and no other file |
| `Files.AppendedTwice` | my_tar.c:126 | two writes in a row append what one write of both would |
| `Files.AppendedWithinRoom` | my_tar.c:126 | a write that fits appends all its bytes |
| `Files.FileDesc.Read` | my_tar.c:122 | `read` returns the next `min(count, remaining)` bytes and advances the offset past them |
| `Files.FileDesc.Seek` | my_tar.c:189 | `lseek(SEEK_CUR)` advances the offset, and nothing remains to read past the end |
| `Files.FileSystem.OpenRead` | my_tar.c:143 | `open(O_RDONLY)` succeeds exactly on an existing file and reads its content |
| `Files.FileSystem.OpenTrunc` | my_tar.c:204 | `open` with `O_WRONLY`, `O_CREAT` and `O_TRUNC` fails on locked paths and directories, and otherwise leaves the file empty |
| `Files.FileSystem.Write` | my_tar.c:126 | `write` appends what fits and returns the count written |
| `Files.FileSystem.Unlink` | my_tar.c:320 | `unlink` removes the file |
| `Files.FileSystem.Rename` | my_tar.c:325 | `rename` moves the file to the new name, replacing what was there |
| `Files.FileSystem.SetTimes` | my_tar.c:228-230 | `utime` sets the modification time of an existing file |
| `BlockStream.DataBlocksShape` | my_tar.c:112-139 | the data written is a prefix of the input of length `min(size, available)`, then zeros; with the whole input it fills `ceil(size/512)` blocks exactly |
| `BlockStream.DataBlocks` | my_tar.c:112-139 | what `write_file_data` sends: the input's first `min(size, available)` bytes, then `PadLen(size)` zeros; `DataBlocksShape` proves its shape |
| `BlockStream.CopyChunk` | my_tar.c:122-126 | one turn reads up to `toRead` bytes, writes them, and breaks on a zero-length read or a short write |
| `BlockStream.WriteFileData` | my_tar.c:112-139 | the archive grows by the input prefix and the padding, as far as the device takes them, and the status is 0 exactly when everything fit |
| `Writer.WriteHeader` | my_tar.c:77-108 | a name over 100 bytes is refused with status 1 and nothing written; otherwise exactly the encoded 512-byte header is written, with status 0 when it fit |
| `Writer.RecordShape` | my_tar.c:142-174 | a file's record is its header block, its content, then zeros up to the next block boundary |
| `Writer.StatOf` | my_tar.c:149-150 | the mode, owner, size and mtime `fstat` reports for a file, the size being its content's length |
| `Writer.Record` | my_tar.c:161-166 | the bytes `write_file_to_tar` appends for a regular file: the encoded header, then `DataBlocks` of its content; `RecordShape` and `RoundTrip.MembersOfRecord` prove its shape and how it reads back |
| `Writer.WriteOne` | my_tar.c:142-174 | writing one file changes only the archive, only by appending, and returns 0 or 1 |
| `Writer.WriteFileToTar` | my_tar.c:142-174 | a missing file gives status 1, a directory is skipped with status 0, and otherwise header and data are appended, with status 0 exactly when they fit |
| `Writer.WriteUntilFailure` | my_tar.c:356-361 | the create loop changes only the archive, by appending |
| `Writer.WriteEach` | my_tar.c:256-259 | the append loop changes only the temporary archive, by appending |
| `Writer.CreateOutcome` | my_tar.c:350-368 | create changes no file but the archive; if the archive cannot be created nothing changes and the status is 1 |
| `Writer.CreateArchive` | my_tar.c:350-368 | the status and the files afterwards are those of `CreateOutcome`: the branch stops at the first failing file, and on success ends the archive with two zero blocks (`RoundTrip.CreatedArchive`) |
| `Reader.Members` | my_tar.c:181-190 | the reading loops visit whole header blocks whose name does not start with NUL, and take at most the announced size of content from each |
| `Reader.Names` | my_tar.c:185-186 | one printed name per entry |
| `Reader.Listing` | my_tar.c:177-192 | the lines `list_tar` prints: the names of `Members`; `ListingStep` proves it follows the loop, and `RoundTrip.ListingOfRecords` what a written archive lists |
| `Reader.ListingStep` | my_tar.c:181-190 | a short read or a NUL name ends the listing; otherwise the name is printed and the next header is read after the padded content |
| `Reader.MembersAtTerminator` | my_tar.c:182 | reading stops at the two zero blocks that end an archive, whatever follows them |
| `Reader.MembersOfEntry` | my_tar.c:181-190 | a whole entry followed by more data reads as that entry, then the entries of what follows |
| `Reader.Next` | my_tar.c:188-189 | the loop always moves forward past the header |
| `Reader.ListingAdvances` | my_tar.c:185-189 | the listing invariant survives one entry |
| `Reader.ListTar` | my_tar.c:177-192 | the names printed are the archive's entry names, in order |
| `Reader.ChunkAppended` | my_tar.c:216-218 | a chunk appended after `consumed` bytes continues one write of the first `consumed + r` bytes |
| `Reader.CopyTurnCount` | my_tar.c:214-220 | a turn of the extract copy loop that breaks has read `CopyLoopReads` bytes; one that goes on has read whole blocks that fit |
| `Reader.CopyLoopReads` | my_tar.c:212-220 | the extract copy loop reads at most what the entry has and the archive holds, and stops short of that only after a whole block whose write did not fit; `CopyOut` proves the loop reads exactly this |
| `Reader.CopyTurn` | my_tar.c:214-220 | a breaking turn leaves what one write of the whole content would; a continuing turn keeps the loop invariant |
| `Reader.CopyStep` | my_tar.c:215-219 | one turn of the extract copy loop moves from the loop invariant to the next invariant, or to the loop's outcome |
| `Reader.CopyOut` | my_tar.c:212-220 | the file receives the first `size` bytes of the remaining archive, as far as they exist and fit, and the loop reads `CopyLoopReads` bytes |
| `Reader.RestAtSkip` | my_tar.c:223-226 | skipping the rest of the padded entry after `c` bytes lands where skipping the whole entry would |
| `Reader.ExtractEntry` | my_tar.c:204-230 | one entry is extracted (or skipped when the file cannot be created), and reading moves to the next header |
| `Reader.ExtractOneCreates` | my_tar.c:204-230 | when the file can be created and has room, extracting an entry leaves a regular file holding exactly the entry's content with the header's mtime, and no other file changes |
| `Reader.ExtractOne` | my_tar.c:204-230 | extracting one entry adds at most the path its header names, exactly when that path can be created, and changes no other file; `ExtractOneCreates` proves the content and mtime it leaves |
| `Reader.ExtractAll` | my_tar.c:195-233 | extracting the entries in order never removes a file; `ExtractAllConcat`, `ExtractAllKeepsCreatable` and `RoundTrip.CreateThenExtract` prove what it restores |
| `Reader.ExtractOneElsewhere` | my_tar.c:204-230 | extracting an entry leaves every path other than the one its header names as it was, present or absent |
| `Reader.ExtractAllConcat` | my_tar.c:195-233 | the extraction loop over two runs of entries extracts the first run, then the second from the files the first left |
| `Reader.ExtractAllKeepsCreatable` | my_tar.c:204-206 | extraction only creates regular files, so a path that could be opened for writing before still can be after any entries are extracted |
| `Reader.ExtractTar` | my_tar.c:195-233 | the files afterwards are the entries of the archive extracted in order |
| `Reader.MembersStep` | my_tar.c:199-202 | the first entry of the archive is its first header block and the content after it |
| `Reader.ResumeAsWrittenWhenComplete` | my_tar.c:223-226 | when the content is all there and fits, skipping only the padding lands on the next header |
| `Reader.ResumeAsWritten` | my_tar.c:223-226 | where `extract_tar` as written resumes: never past the padded entry, and at the next header exactly when the copy loop read the whole content; the as-written half of the second finding |
| `Reader.ResumeAsWrittenFallsShort` | my_tar.c:212-226 | when the extracted file runs out of room over a block before the end of the content, reading resumes inside the content |
| `Reader.ResumeAsWrittenAfterShortWrite` | my_tar.c:212-226 | with 1024 bytes of content and no room, reading resumes 512 bytes into the content |
| `Append.TmpName` | my_tar.c:244 | the temporary name is the archive name followed by `.tmp` |
| `Append.CopyOld` | my_tar.c:262-304 | the copy loop changes only the temporary archive, by appending, and never turns a failure into success |
| `Append.AppendOutcome` | my_tar.c:236-332 | append never leaves the temporary archive behind once created; a failed append changes no other file, the archive included; a successful one changes only the archive |
| `Append.CopyContent` | my_tar.c:286-301 | the temporary archive receives the first `toCopy` bytes of what is left of the old archive, as far as they exist and fit, and the loop completes exactly when both hold |
| `Append.CopyEntry` | my_tar.c:263-303 | one turn of the copy loop either ends it with the loop's outcome or consumes input and leaves the outcome unchanged |
| `Append.WriteNew` | my_tar.c:255-259 | every new file is attempted, and the status records any failure |
| `Append.CopyOldEntries` | my_tar.c:261-304 | the loop's status and file state are those of `CopyOld` |
| `Append.AppendFiles` | my_tar.c:236-332 | the status and the files afterwards are those of `AppendOutcome` |
| `RoundTrip.EntryOf` | my_tar.c:161-166 | an entry the writer produces has a full header block |
| `RoundTrip.Entries` | my_tar.c:356-361 | every entry the writer produces has a full header block |
| `RoundTrip.RecordsAgree` | my_tar.c:142-174 | the records written depend only on the files named |
| `RoundTrip.WrittenOne` | my_tar.c:142-174 | a file write that reports success appended exactly the file's record, or nothing for a directory |
| `RoundTrip.WrittenElsewhere` | my_tar.c:356-361 | writing to the archive does not change the records of the other files named |
| `RoundTrip.WrittenRecords` | my_tar.c:356-361 | a create loop that reports success appended the records of all the files, in order |
| `RoundTrip.WriteEachSucceeded` | my_tar.c:255-259 | an append loop that reports success wrote what the create loop would |
| `RoundTrip.MembersOfZeros` | my_tar.c:182 | zero bytes, of any number, hold no entry |
| `RoundTrip.MembersOfRecord` | my_tar.c:161-166 | a file's record reads back as one entry with the file's header and content, and reading resumes right after it |
| `RoundTrip.MembersOfRecordOf` | my_tar.c:161-166 | the record of any named file reads back as its entry |
| `RoundTrip.MembersOfRecords` | my_tar.c:356-361 | the records of archivable files read back as their entries, in order |
| `RoundTrip.NamesConcat` | my_tar.c:185-186 | the names of two runs of entries are the names of each, in order |
| `RoundTrip.NamesOfEntries` | my_tar.c:185 | the names in the written entries are the files' own names |
| `RoundTrip.ListingOfRecords` | my_tar.c:177-192 | records followed by more data list the files' names, then what the data lists, through the corrected reader (`Header.EntryName`, `Reader.ExtractEntry`) |
| `RoundTrip.CreatedArchive` | my_tar.c:350-368 | after a create that reports success, the archive is the files' records in order, followed by the two zero blocks, or as much of them as the device took |
| `RoundTrip.CreateThenRead` | my_tar.c:350-368 | an archive that create reports as written holds one entry per regular file, with its header and content, and lists their names in order, through the corrected reader (`Header.EntryName`, `Reader.ExtractEntry`) |
| `RoundTrip.CopyOldStep` | my_tar.c:263-303 | a successful turn of the copy loop appends the header and the padded content, all of which fit |
| `RoundTrip.CopyOldAtEnd` | my_tar.c:264-272 | the copy loop succeeds at the end of the old archive only on a zero-length read or a NUL name, and then copies nothing more |
| `RoundTrip.CopyOldSucceeded` | my_tar.c:262-304 | the copy loop succeeds only on an intact archive, and then appends exactly its entries up to the end marker |
| `RoundTrip.MembersOfKept` | my_tar.c:262-312 | the copied entries followed by zero bytes read back as the old archive's entries |
| `RoundTrip.AppendStages` | my_tar.c:236-332 | a successful append opened both files, wrote every new file, copied every old entry, and renamed the temporary archive ended by zero blocks |
| `RoundTrip.AppendedArchive` | my_tar.c:236-332 | after a successful append the archive is the new records, then the old entries, then zero bytes |
| `RoundTrip.AppendThenRead` | my_tar.c:236-332 | after a successful append the archive's entries are the new files' entries followed by all the old ones, and its listing is the new names before the old ones, through the corrected reader (`Header.EntryName`, `Reader.ExtractEntry`) |
| `RoundTrip.ExtractRestores` | my_tar.c:195-233 | extracting an entry the writer produced recreates the file with its content and modification time, and changes no other file |
| `RoundTrip.EntryOfNames` | my_tar.c:161-166 | the entry written for an archivable regular file is a single entry whose header names that file |
| `RoundTrip.ExtractEntryElsewhere` | my_tar.c:204-230 | extracting the entry written for one path leaves every other path as it was |
| `RoundTrip.ExtractEntriesElsewhere` | my_tar.c:195-233 | extracting the entries written for paths that do not include `p` leaves `p` as it was, present or absent |
| `RoundTrip.ExtractEntriesRestore` | my_tar.c:195-233 | extracting all the entries written for a list of paths restores the content and mtime of each regular file among them that can be created and fits the device, even when a path is listed twice |
| `RoundTrip.CreateThenExtract` | my_tar.c:350-368 | extracting, into any file system, an archive that create reports as written restores the content and modification time of every regular file given whose path can be created there and whose content fits, through the corrected reader (`Header.EntryName`, `Reader.ExtractEntry`) |

## Left out

- Read errors. `read` never returns -1 in the model, so a directory given as the
  archive (EISDIR) and I/O errors are not covered. A short read is modelled as the end of
  the file.
- `fstat` failure (my_tar.c:150-154) is not modelled. `fstat` always succeeds on a file
  that opened.
- `lseek` failure is not modelled. Offsets are unbounded, and seeking past the end leaves
  nothing to read.
- `rename` failure (my_tar.c:325-329) is not modelled. `Files.FileSystem.Rename` always
  succeeds, so its error branch with its second `unlink` is absent.
- Integer widths.
  - `size_t`, `ssize_t` and `off_t` are unbounded integers.
  - `strtol` saturation at `LONG_MAX` is not modelled.
  - Leading blanks and a sign are not modelled. Only the octal-digit prefix is parsed.
  - The `(uint64_t)` casts are modelled (`Header.U64`).
- Checksum width. `Header.CalculateChecksum` sums in an unbounded integer. The C
  `unsigned int` cannot overflow on 512 bytes, and `Header.ChecksumBound` shows it.
- `Append.TmpName`: the 256-byte buffer for the temporary name truncates archive names of
  252 bytes or more. The model does not truncate.
- Error messages. `print_error` text and the usage and mode checks of `main`
  (my_tar.c:335-348, 370-404) are left out. The list and extract branches are modelled
  by `Reader.ListTar` and `Reader.ExtractTar` themselves.
- Standard output. The names `list_tar` writes become the sequence `Reader.ListTar`
  returns.
- File system scope.
  - `close` is not modelled.
  - The umask is not modelled.
  - Ownership and permission checks are reduced to a set of paths where creating a file
    fails (`Files.Device.locked`).
  - Short writes come from a per-file capacity (`Files.Device.capacity`).
- Aliasing is left out. Reads work on the content the file had when it was opened. This
  is exact unless the program writes to a file it is reading, for example an archive
  that names itself, or an extracted entry that names the archive.
- `Header.EntryName` reads a name with `strnlen(name, 100)`, not with `strlen` as
  my_tar.c:185 and 204 do. This is the corrected reading of the first finding below.
  `Header.CStringName` models `strlen` as written.
- `Reader.ExtractEntry` skips `PaddedSize(size) - consumed` after the copy loop, where
  my_tar.c:223 skips `PaddedSize(size) - size`. After a short write it therefore resumes
  at the next header. This is the corrected skip of the second finding below.
  `Reader.ResumeAsWritten` models the skip as written.
- `Reader.ListTar` prints names read by `Header.EntryName`, so it carries the first
  correction.
- `Reader.ExtractTar` carries both corrections. Its names come from `Header.EntryName`,
  and it extracts each entry with `Reader.ExtractEntry`, which resumes at the next header
  after a short write.
- `Header.ChecksumUpTo` is only used to specify the checksum. Nothing in the program
  verifies checksums on read, and neither does the model.

## Findings

| source | as written | input that shows it | evidently intended | confidence | as-written member | corrected member |
|---|---|---|---|---|---|---|
| my_tar.c:82-86, 185, 204 | `write_header` accepts a name of exactly 100 bytes, which fills `name[100]` with no NUL; `list_tar` and `extract_tar` then take the name with `strlen`, which runs on into the mode field | any NUL-free name of 100 bytes: it is listed and extracted as the name followed by the seven mode digits | a full-length name reads back as itself (`strnlen(name, 100)`), or the writer refuses names of 100 bytes | not executed | `Header.FullLengthNameMisread` | `Header.EncodedHeaderDecodes` |
| my_tar.c:212-226 | after the extract copy loop breaks on a short write to the extracted file, the loop skips only the padding `ceil(size/512)*512 - size`, not the unread rest of the content | an entry of 1024 bytes extracted to a file with no room left: one block is read, the skip is 0, and the second content block is read as the next header | skip to the end of the padded entry whatever the copy loop read | not executed | `Reader.ResumeAsWrittenAfterShortWrite` | `Reader.ExtractTar` |
