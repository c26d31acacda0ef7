/** The 512-byte ustar header (`struct posix_header`, my_tar.c:28-46), its checksum
    (my_tar.c:64-74), the encoder `write_header` uses (my_tar.c:77-101) and the
    decoders the reading loops apply to a header block. */
module Header {
  import opened Bytes
  import opened Octal

  /** The C struct, one sequence per array member. */
  datatype PosixHeader = PosixHeader(
    name: seq<byte>,
    mode: seq<byte>,
    uid: seq<byte>,
    gid: seq<byte>,
    size: seq<byte>,
    mtime: seq<byte>,
    chksum: seq<byte>,
    typeflag: byte,
    linkname: seq<byte>,
    magic: seq<byte>,
    version: seq<byte>,
    uname: seq<byte>,
    gname: seq<byte>,
    devmajor: seq<byte>,
    devminor: seq<byte>,
    prefix: seq<byte>,
    pad: seq<byte>)

  /** Every member has its declared array length. */
  predicate WellFormed(h: PosixHeader) {
    && |h.name| == 100 && |h.mode| == 8 && |h.uid| == 8 && |h.gid| == 8
    && |h.size| == 12 && |h.mtime| == 12 && |h.chksum| == 8
    && |h.linkname| == 100 && |h.magic| == 6 && |h.version| == 2
    && |h.uname| == 32 && |h.gname| == 32 && |h.devmajor| == 8 && |h.devminor| == 8
    && |h.prefix| == 155 && |h.pad| == 12
  }

  /** The struct's memory: its members one after the other, with no padding. */
  function Raw(h: PosixHeader): (b: seq<byte>)
    requires WellFormed(h)
    ensures |b| == BLOCK_SIZE
  {
    h.name + h.mode + h.uid + h.gid + h.size + h.mtime + h.chksum
    + [h.typeflag] + h.linkname + h.magic + h.version
    + h.uname + h.gname + h.devmajor + h.devminor + h.prefix + h.pad
  }

  /** Field-offset table of the header block. */
  datatype Span = Span(offset: nat, width: nat)

  const NAME := Span(0, 100)
  const MODE := Span(100, 8)
  const UID := Span(108, 8)
  const GID := Span(116, 8)
  const SIZE := Span(124, 12)
  const MTIME := Span(136, 12)
  const CHKSUM := Span(148, 8)
  const TYPEFLAG := Span(156, 1)
  const LINKNAME := Span(157, 100)
  const MAGIC := Span(257, 6)
  const VERSION := Span(263, 2)
  const UNAME := Span(265, 32)
  const GNAME := Span(297, 32)
  const DEVMAJOR := Span(329, 8)
  const DEVMINOR := Span(337, 8)
  const PREFIX := Span(345, 155)
  const PAD := Span(500, 12)

  function Field(b: seq<byte>, f: Span): seq<byte>
    requires f.offset + f.width <= |b|
  {
    b[f.offset..f.offset + f.width]
  }

  /** Each member of the struct sits at its offset in the table. */
  lemma RawLayout(h: PosixHeader)
    requires WellFormed(h)
    ensures var b := Raw(h);
      && Field(b, NAME) == h.name && Field(b, MODE) == h.mode
      && Field(b, UID) == h.uid && Field(b, GID) == h.gid
      && Field(b, SIZE) == h.size && Field(b, MTIME) == h.mtime
      && Field(b, CHKSUM) == h.chksum && b[TYPEFLAG.offset] == h.typeflag
      && Field(b, LINKNAME) == h.linkname && Field(b, MAGIC) == h.magic
      && Field(b, VERSION) == h.version && Field(b, UNAME) == h.uname
      && Field(b, GNAME) == h.gname && Field(b, DEVMAJOR) == h.devmajor
      && Field(b, DEVMINOR) == h.devminor && Field(b, PREFIX) == h.prefix
      && Field(b, PAD) == h.pad
  {
    var b := Raw(h);
    var s0 := h.name + h.mode + h.uid + h.gid + h.size + h.mtime + h.chksum;
    var s1 := s0 + [h.typeflag] + h.linkname + h.magic + h.version;
    assert b == s1 + h.uname + h.gname + h.devmajor + h.devminor + h.prefix + h.pad;
    assert b[..156] == s0;
    assert b[..265] == s1;
    assert b[0..100] == h.name;
    assert b[100..108] == h.mode;
    assert b[108..116] == h.uid;
    assert b[116..124] == h.gid;
    assert b[124..136] == h.size;
    assert b[136..148] == h.mtime;
    assert b[148..156] == h.chksum;
    assert b[157..257] == h.linkname;
    assert b[257..263] == h.magic;
    assert b[263..265] == h.version;
    assert b[265..297] == h.uname;
    assert b[297..329] == h.gname;
    assert b[329..337] == h.devmajor;
    assert b[337..345] == h.devminor;
    assert b[345..500] == h.prefix;
    assert b[500..512] == h.pad;
  }

  /** Reading a block into the struct: each member is the bytes at its offset, and
      writing the struct back gives the same block. */
  function Overlay(b: seq<byte>): (h: PosixHeader)
    requires |b| == BLOCK_SIZE
    ensures WellFormed(h) && Raw(h) == b
  {
    var h := PosixHeader(
      Field(b, NAME), Field(b, MODE), Field(b, UID), Field(b, GID), Field(b, SIZE),
      Field(b, MTIME), Field(b, CHKSUM), b[TYPEFLAG.offset], Field(b, LINKNAME),
      Field(b, MAGIC), Field(b, VERSION), Field(b, UNAME), Field(b, GNAME),
      Field(b, DEVMAJOR), Field(b, DEVMINOR), Field(b, PREFIX), Field(b, PAD));
    RawLayout(h);
    assert forall i :: 0 <= i < BLOCK_SIZE ==> Raw(h)[i] == b[i] by {
      forall i | 0 <= i < BLOCK_SIZE ensures Raw(h)[i] == b[i] {
        SpanCovers(Raw(h), b, i);
      }
    }
    h
  }

  lemma AtSpan(a: seq<byte>, b: seq<byte>, f: Span, i: nat)
    requires f.offset + f.width <= |a| && f.offset + f.width <= |b|
    requires Field(a, f) == Field(b, f) && f.offset <= i < f.offset + f.width
    ensures a[i] == b[i]
  {
    assert a[i] == Field(a, f)[i - f.offset];
  }

  /** Two blocks that agree on every field of the table agree at every index. */
  lemma SpanCovers(a: seq<byte>, b: seq<byte>, i: nat)
    requires |a| == |b| == BLOCK_SIZE && i < BLOCK_SIZE
    requires Field(a, NAME) == Field(b, NAME) && Field(a, MODE) == Field(b, MODE)
    requires Field(a, UID) == Field(b, UID) && Field(a, GID) == Field(b, GID)
    requires Field(a, SIZE) == Field(b, SIZE) && Field(a, MTIME) == Field(b, MTIME)
    requires Field(a, CHKSUM) == Field(b, CHKSUM) && a[TYPEFLAG.offset] == b[TYPEFLAG.offset]
    requires Field(a, LINKNAME) == Field(b, LINKNAME) && Field(a, MAGIC) == Field(b, MAGIC)
    requires Field(a, VERSION) == Field(b, VERSION) && Field(a, UNAME) == Field(b, UNAME)
    requires Field(a, GNAME) == Field(b, GNAME) && Field(a, DEVMAJOR) == Field(b, DEVMAJOR)
    requires Field(a, DEVMINOR) == Field(b, DEVMINOR) && Field(a, PREFIX) == Field(b, PREFIX)
    requires Field(a, PAD) == Field(b, PAD)
    ensures a[i] == b[i]
  {
    if i < 100 { AtSpan(a, b, NAME, i); }
    else if i < 108 { AtSpan(a, b, MODE, i); }
    else if i < 116 { AtSpan(a, b, UID, i); }
    else if i < 124 { AtSpan(a, b, GID, i); }
    else if i < 136 { AtSpan(a, b, SIZE, i); }
    else if i < 148 { AtSpan(a, b, MTIME, i); }
    else if i < 156 { AtSpan(a, b, CHKSUM, i); }
    else if i == 156 { }
    else if i < 257 { AtSpan(a, b, LINKNAME, i); }
    else if i < 263 { AtSpan(a, b, MAGIC, i); }
    else if i < 265 { AtSpan(a, b, VERSION, i); }
    else if i < 297 { AtSpan(a, b, UNAME, i); }
    else if i < 329 { AtSpan(a, b, GNAME, i); }
    else if i < 337 { AtSpan(a, b, DEVMAJOR, i); }
    else if i < 345 { AtSpan(a, b, DEVMINOR, i); }
    else if i < 500 { AtSpan(a, b, PREFIX, i); }
    else { AtSpan(a, b, PAD, i); }
  }

  // ---------------------------------------------------------------- checksum

  /** What byte `i` contributes to the checksum: its value, or a space inside the
      checksum field. */
  function ChecksumByte(b: seq<byte>, i: nat): nat
    requires i < |b|
  {
    if CHKSUM.offset <= i < CHKSUM.offset + CHKSUM.width then SPACE as nat else b[i] as nat
  }

  /** Number of checksum-field positions below `n`. */
  function FieldPositionsBelow(n: nat): nat {
    if n <= 148 then 0 else if n >= 156 then 8 else n - 148
  }

  /** Checksum of the first `n` bytes. Each byte adds at most 255 and each checksum-field
      position adds exactly 32. */
  function ChecksumUpTo(b: seq<byte>, n: nat): (sum: nat)
    requires n <= |b|
    ensures sum <= 255 * n - 223 * FieldPositionsBelow(n)
    ensures sum >= 32 * FieldPositionsBelow(n)
  {
    if n == 0 then 0 else ChecksumUpTo(b, n - 1) + ChecksumByte(b, n - 1)
  }

  /** `calculate_checksum` as a value: the header bytes summed with the checksum field
      counted as eight spaces. */
  function Checksum(b: seq<byte>): nat
    requires |b| == BLOCK_SIZE
  {
    ChecksumUpTo(b, BLOCK_SIZE)
  }

  /** The largest checksum any header can have, 504 * 255 + 8 * 32, needs six octal
      digits and fits the 32-bit `unsigned int` accumulator. */
  const MAX_CHECKSUM: nat := 504 * 255 + 8 * 32

  lemma ChecksumBound(b: seq<byte>)
    requires |b| == BLOCK_SIZE
    ensures 256 <= Checksum(b) <= MAX_CHECKSUM < Pow8(6)
  {
    assert Pow8(6) == 262144;
  }

  /** my_tar.c:64-74: one pass over the 512 bytes of the header. */
  method CalculateChecksum(header: PosixHeader) returns (sum: nat)
    requires WellFormed(header)
    ensures sum == Checksum(Raw(header))
  {
    var bytes := Raw(header);
    sum := 0;
    var i := 0;
    while i < BLOCK_SIZE
      invariant 0 <= i <= BLOCK_SIZE
      invariant sum == ChecksumUpTo(bytes, i)
    {
      if i >= 148 && i < 156 {
        sum := sum + SPACE as nat;
      } else {
        sum := sum + bytes[i] as nat;
      }
      i := i + 1;
    }
  }

  /** Plain sum of bytes. */
  function ByteSum(s: seq<byte>): nat {
    if s == [] then 0 else ByteSum(s[..|s| - 1]) + s[|s| - 1] as nat
  }

  function Spaces(n: nat): (s: seq<byte>)
    ensures |s| == n && forall i :: 0 <= i < n ==> s[i] == SPACE
  {
    seq(n, _ => SPACE)
  }

  /** The block with its checksum field overwritten by eight spaces. */
  function WithBlankChecksum(b: seq<byte>): (r: seq<byte>)
    requires |b| == BLOCK_SIZE
    ensures |r| == BLOCK_SIZE
  {
    b[..CHKSUM.offset] + Spaces(CHKSUM.width) + b[CHKSUM.offset + CHKSUM.width..]
  }

  lemma {:induction false} ChecksumUpToIsSum(b: seq<byte>, n: nat)
    requires |b| == BLOCK_SIZE && n <= BLOCK_SIZE
    ensures ChecksumUpTo(b, n) == ByteSum(WithBlankChecksum(b)[..n])
  {
    if n > 0 {
      ChecksumUpToIsSum(b, n - 1);
      var w := WithBlankChecksum(b);
      assert w[..n][..n - 1] == w[..n - 1];
      assert w[n - 1] as nat == ChecksumByte(b, n - 1);
    }
  }

  /** The checksum is the plain byte sum of the header whose checksum field holds
      spaces, the value the encoder computes before storing it. */
  lemma ChecksumIsSumWithSpaces(b: seq<byte>)
    requires |b| == BLOCK_SIZE
    ensures Checksum(b) == ByteSum(WithBlankChecksum(b))
  {
    ChecksumUpToIsSum(b, BLOCK_SIZE);
    assert WithBlankChecksum(b)[..BLOCK_SIZE] == WithBlankChecksum(b);
  }

  lemma {:induction false} ChecksumUpToAgree(a: seq<byte>, b: seq<byte>, n: nat)
    requires |a| == |b| == BLOCK_SIZE && n <= BLOCK_SIZE
    requires forall i :: 0 <= i < BLOCK_SIZE && !(148 <= i < 156) ==> a[i] == b[i]
    ensures ChecksumUpTo(a, n) == ChecksumUpTo(b, n)
  {
    if n > 0 {
      ChecksumUpToAgree(a, b, n - 1);
    }
  }

  /** The checksum does not depend on the checksum field's contents. */
  lemma ChecksumIgnoresField(h: PosixHeader, field: seq<byte>)
    requires WellFormed(h) && |field| == CHKSUM.width
    ensures Checksum(Raw(h.(chksum := field))) == Checksum(Raw(h))
  {
    var a, b := Raw(h.(chksum := field)), Raw(h);
    RawLayout(h);
    RawLayout(h.(chksum := field));
    forall i | 0 <= i < BLOCK_SIZE && !(148 <= i < 156) ensures a[i] == b[i] {
      SpanCovers(a[..148] + b[148..156] + a[156..], b, i);
    }
    ChecksumUpToAgree(a, b, BLOCK_SIZE);
  }

  // ---------------------------------------------------------------- encoding

  /** What `fstat` reports about a regular file and `write_header` stores. */
  datatype Stat = Stat(mode: nat, uid: nat, gid: nat, size: nat, mtime: int)

  const NAME_SIZE: nat := 100
  const REGTYPE: byte := 48  // '0'
  const USTAR_MAGIC: seq<byte> := [117, 115, 116, 97, 114, 0]  // "ustar\0"
  const USTAR_VERSION: seq<byte> := [48, 48]  // "00"

  /** The `(uint64_t)` cast applied to every numeric field before formatting. */
  function U64(x: int): (r: nat)
    ensures r < 0x1_0000_0000_0000_0000
    ensures 0 <= x < 0x1_0000_0000_0000_0000 ==> r == x
  {
    x % 0x1_0000_0000_0000_0000
  }

  /** `clear_header`: the struct with every byte zero. */
  function Cleared(): (h: PosixHeader)
    ensures WellFormed(h) && Raw(h) == Zeros(BLOCK_SIZE)
  {
    PosixHeader(Zeros(100), Zeros(8), Zeros(8), Zeros(8), Zeros(12), Zeros(12), Zeros(8),
      NUL, Zeros(100), Zeros(6), Zeros(2), Zeros(32), Zeros(32), Zeros(8), Zeros(8),
      Zeros(155), Zeros(12))
  }

  /** The eight checksum bytes: `snprintf(chksum, 8, "%06o", sum)`, then byte 6 set to
      NUL and byte 7 to a space. snprintf stops after seven characters and a NUL, so the
      first seven bytes are what `octal_to_str(chksum, 7, sum)` writes. */
  function ChecksumField(sum: nat): (f: seq<byte>)
    ensures |f| == CHKSUM.width && f[6] == NUL && f[7] == SPACE
  {
    OctalToStr(sum, 7) + [SPACE]
  }

  /** The header before its checksum is stored (my_tar.c:79-96). */
  function Unsummed(name: Path, st: Stat): (h: PosixHeader)
    requires |name| <= NAME_SIZE
    ensures WellFormed(h)
  {
    Cleared().(
      name := name + Zeros(NAME_SIZE - |name|),
      mode := OctalToStr(U64(st.mode % 512), 8),
      uid := OctalToStr(U64(st.uid), 8),
      gid := OctalToStr(U64(st.gid), 8),
      size := OctalToStr(U64(st.size), 12),
      mtime := OctalToStr(U64(st.mtime), 12),
      chksum := Spaces(8),
      typeflag := REGTYPE,
      magic := USTAR_MAGIC,
      version := USTAR_VERSION)
  }

  /** The header `write_header` writes for `name` and `st` (my_tar.c:79-101). */
  function EncodeHeader(name: Path, st: Stat): (h: PosixHeader)
    requires |name| <= NAME_SIZE
    ensures WellFormed(h)
  {
    var blank := Unsummed(name, st);
    blank.(chksum := ChecksumField(Checksum(Raw(blank))))
  }

  /** The members `write_header` sets, and zeros everywhere else. */
  lemma EncodedFields(name: Path, st: Stat)
    requires |name| <= NAME_SIZE
    ensures var b := Raw(EncodeHeader(name, st));
      && Field(b, NAME) == name + Zeros(NAME_SIZE - |name|)
      && Field(b, MODE) == OctalToStr(st.mode % 512, 8)
      && Field(b, UID) == OctalToStr(U64(st.uid), 8)
      && Field(b, GID) == OctalToStr(U64(st.gid), 8)
      && Field(b, SIZE) == OctalToStr(U64(st.size), 12)
      && Field(b, MTIME) == OctalToStr(U64(st.mtime), 12)
      && b[TYPEFLAG.offset] == REGTYPE
      && Field(b, MAGIC) == USTAR_MAGIC && Field(b, VERSION) == USTAR_VERSION
      && Field(b, LINKNAME) == Zeros(100)
      && b[UNAME.offset..] == Zeros(BLOCK_SIZE - UNAME.offset)
  {
    var h := EncodeHeader(name, st);
    EncodedRecord(name, st);
    RawLayout(h);
    RawTail(h);
  }

  /** The fields of the header record `write_header` fills in. */
  lemma EncodedRecord(name: Path, st: Stat)
    requires |name| <= NAME_SIZE
    ensures var h := EncodeHeader(name, st);
      && h.name == name + Zeros(NAME_SIZE - |name|)
      && h.mode == OctalToStr(st.mode % 512, 8)
      && h.uid == OctalToStr(U64(st.uid), 8) && h.gid == OctalToStr(U64(st.gid), 8)
      && h.size == OctalToStr(U64(st.size), 12) && h.mtime == OctalToStr(U64(st.mtime), 12)
      && h.typeflag == REGTYPE && h.magic == USTAR_MAGIC && h.version == USTAR_VERSION
      && h.linkname == Zeros(100)
      && h.uname + h.gname + h.devmajor + h.devminor + h.prefix + h.pad == Zeros(BLOCK_SIZE - UNAME.offset)
  {
    assert st.mode % 512 < 0x1_0000_0000_0000_0000;
    assert U64(st.mode % 512) == st.mode % 512;
  }

  /** The bytes from `uname` on are the trailing fields, in order. */
  lemma RawTail(h: PosixHeader)
    requires WellFormed(h)
    ensures Raw(h)[UNAME.offset..] == h.uname + h.gname + h.devmajor + h.devminor + h.prefix + h.pad
  {
    var s1 := h.name + h.mode + h.uid + h.gid + h.size + h.mtime + h.chksum
      + [h.typeflag] + h.linkname + h.magic + h.version;
    assert Raw(h) == s1 + (h.uname + h.gname + h.devmajor + h.devminor + h.prefix + h.pad);
  }

  /** The stored checksum field reads back (octal, as strtol would) as the checksum of
      the finished header, and ends with a NUL and a space. */
  lemma EncodedChecksum(name: Path, st: Stat)
    requires |name| <= NAME_SIZE
    ensures var b := Raw(EncodeHeader(name, st));
      && ParseOctal(b[CHKSUM.offset..]) == Checksum(b)
      && b[154] == NUL && b[155] == SPACE
  {
    var blank := Unsummed(name, st);
    var sum := Checksum(Raw(blank));
    var h := blank.(chksum := ChecksumField(sum));
    assert h == EncodeHeader(name, st);
    RawLayout(h);
    ChecksumIgnoresField(blank, h.chksum);
    ChecksumBound(Raw(blank));
    ChecksumFieldDecodes(Raw(h), sum);
  }

  /** A checksum field written by `ChecksumField` reads back as the sum. */
  lemma ChecksumFieldDecodes(b: seq<byte>, sum: nat)
    requires |b| == BLOCK_SIZE && Field(b, CHKSUM) == ChecksumField(sum) && sum < Pow8(6)
    ensures ParseOctal(b[CHKSUM.offset..]) == sum && b[154] == NUL && b[155] == SPACE
  {
    FieldThenRest(b, CHKSUM);
    assert b[CHKSUM.offset..] == OctalToStr(sum, 7) + ([SPACE] + b[156..]);
    OctalToStrRoundTrip(sum, 7, [SPACE] + b[156..]);
    assert b[154] == Field(b, CHKSUM)[6] && b[155] == Field(b, CHKSUM)[7];
  }

  // ---------------------------------------------------------------- decoding

  /** Index of the first NUL in `s`, or `|s|` when there is none. */
  function NulIndex(s: seq<byte>): (n: nat)
    ensures n <= |s| && IsCString(s[..n])
    ensures n < |s| ==> s[n] == NUL
  {
    if s == [] || s[0] == NUL then 0
    else
      var n := 1 + NulIndex(s[1..]);
      assert s[..n] == [s[0]] + s[1..][..n - 1];
      n
  }

  /** The name field read back as a C string of at most 100 bytes, as `strnlen(name, 100)`
      delimits it. This is the name the reading loops of this model use. */
  function EntryName(b: seq<byte>): (name: Path)
    requires |b| == BLOCK_SIZE
    ensures |name| <= NAME_SIZE && IsCString(name)
  {
    var f := Field(b, NAME);
    f[..NulIndex(f)]
  }

  /** `strtol(header.size, NULL, 8)`: the parse may run past the field's twelve bytes
      when the field holds no terminator. */
  function EntrySize(b: seq<byte>): nat
    requires |b| == BLOCK_SIZE
  {
    ParseOctal(b[SIZE.offset..])
  }

  /** `strtol(header.mtime, NULL, 8)`. */
  function EntryMtime(b: seq<byte>): nat
    requires |b| == BLOCK_SIZE
  {
    ParseOctal(b[MTIME.offset..])
  }

  lemma NameFieldReadsBack(name: Path)
    requires |name| <= NAME_SIZE && IsCString(name)
    ensures var f := name + Zeros(NAME_SIZE - |name|); f[..NulIndex(f)] == name
  {
    var f := name + Zeros(NAME_SIZE - |name|);
    NulIndexOfCString(name, Zeros(NAME_SIZE - |name|));
  }

  lemma {:induction false} NulIndexOfCString(s: seq<byte>, rest: seq<byte>)
    requires IsCString(s) && (rest == [] || rest[0] == NUL)
    ensures NulIndex(s + rest) == |s|
  {
    if s != [] {
      assert (s + rest)[1..] == s[1..] + rest;
      NulIndexOfCString(s[1..], rest);
    }
  }

  lemma FieldThenRest(b: seq<byte>, f: Span)
    requires f.offset + f.width <= |b|
    ensures b[f.offset..] == Field(b, f) + b[f.offset + f.width..]
  {
  }

  /** Decoding a header the encoder produced gives back the name, the size and the
      modification time, as long as these fit their fields. */
  lemma EncodedHeaderDecodes(name: Path, st: Stat)
    requires 1 <= |name| <= NAME_SIZE && IsCString(name)
    requires st.size < Pow8(11) && 0 <= st.mtime < Pow8(11)
    ensures var b := Raw(EncodeHeader(name, st));
      && b[0] != NUL
      && EntryName(b) == name
      && EntrySize(b) == st.size
      && EntryMtime(b) == st.mtime
  {
    EncodedFields(name, st);
    FieldsDecode(Raw(EncodeHeader(name, st)), name, st);
  }

  lemma FieldsDecode(b: seq<byte>, name: Path, st: Stat)
    requires |b| == BLOCK_SIZE && 1 <= |name| <= NAME_SIZE && IsCString(name)
    requires st.size < Pow8(11) && 0 <= st.mtime < Pow8(11)
    requires Field(b, NAME) == name + Zeros(NAME_SIZE - |name|)
    requires Field(b, SIZE) == OctalToStr(U64(st.size), 12)
    requires Field(b, MTIME) == OctalToStr(U64(st.mtime), 12)
    ensures b[0] != NUL && EntryName(b) == name
    ensures EntrySize(b) == st.size && EntryMtime(b) == st.mtime
  {
    NameFieldReadsBack(name);
    assert b[0] == Field(b, NAME)[0];
    assert Pow8(11) == 0x2_0000_0000;
    assert U64(st.size) == st.size;
    NumericFieldDecodes(b, SIZE, st.size);
    assert U64(st.mtime) == st.mtime;
    NumericFieldDecodes(b, MTIME, st.mtime as nat);
  }

  /** A numeric field holding `v` in fewer digits than it has room for reads back as `v`,
      whatever follows it in the block. */
  lemma NumericFieldDecodes(b: seq<byte>, f: Span, v: nat)
    requires f.offset + f.width <= |b| && f.width >= 2
    requires Field(b, f) == OctalToStr(v, f.width) && v < Pow8(f.width - 1)
    ensures ParseOctal(b[f.offset..]) == v
  {
    FieldThenRest(b, f);
    OctalToStrRoundTrip(v, f.width, b[f.offset + f.width..]);
  }

  /** `strlen(header.name)`, as list_tar and extract_tar delimit the name (my_tar.c:185,
      204): the scan for the NUL runs past the name field when that field is full. */
  function CStringName(b: seq<byte>): (name: Path)
    requires |b| == BLOCK_SIZE
    ensures IsCString(name)
  {
    b[..NulIndex(b)]
  }

  /** Names shorter than the field read back the same through strlen. */
  lemma CStringNameOfShortName(name: Path, st: Stat)
    requires |name| < NAME_SIZE && IsCString(name)
    ensures CStringName(Raw(EncodeHeader(name, st))) == name
  {
    var b := Raw(EncodeHeader(name, st));
    EncodedFields(name, st);
    assert b[..NAME_SIZE] == name + Zeros(NAME_SIZE - |name|);
    assert b == b[..NAME_SIZE] + b[NAME_SIZE..];
    ConcatAssoc(name, Zeros(NAME_SIZE - |name|), b[NAME_SIZE..]);
    NulIndexOfCString(name, Zeros(NAME_SIZE - |name|) + b[NAME_SIZE..]);
  }

  /** A name of exactly 100 bytes, which write_header accepts, fills the field with no
      NUL; strlen then runs on through the seven mode digits, so the name read back is the
      stored name with the mode digits appended. */
  lemma FullLengthNameMisread(name: Path, st: Stat)
    requires |name| == NAME_SIZE && IsCString(name)
    ensures var b := Raw(EncodeHeader(name, st));
      && CStringName(b) == name + Field(b, MODE)[..7]
      && CStringName(b) != name
      && EntryName(b) == name
  {
    var b := Raw(EncodeHeader(name, st));
    EncodedFields(name, st);
    var digits := Field(b, MODE)[..7];
    assert IsCString(digits) by {
      assert AllOctal(digits);
    }
    assert b == (name + digits) + ([b[107]] + b[108..]);
    assert b[107] == Field(b, MODE)[7] == NUL;
    NulIndexOfCString(name + digits, [b[107]] + b[108..]);
    assert |CStringName(b)| == 107;
    NameFieldReadsBack(name);
  }
}
