/** ELF64 executables: what is accepted, and the iterator over the segments to load. */
module Elf {
  import opened Sizes
  import opened Numerals
  import opened Wrappers

  const HEADER_SIZE: nat := 64
  const PROGRAM_HEADER_SIZE: nat := 56
  const MAX_PROGRAM_HEADERS: nat := 64
  const PT_LOAD: nat := 1

  datatype ParseError =
    | Truncated
    | InvalidMagic
    | UnsupportedClass
    | UnsupportedEndian
    | UnsupportedIdentVersion
    | UnsupportedAbi
    | UnsupportedFileType
    | UnsupportedMachine
    | UnsupportedVersion
    | InvalidHeaderSize
    | MissingProgramHeaders
    | InvalidProgramHeaderSize
    | TooManyProgramHeaders
    | ProgramHeaderTableOutOfBounds
    | MissingLoadSegment
    | EmptyLoadSegment
    | FileSizeExceedsMemorySize
    | FileRangeOutOfBounds
    | AddressOverflow
    | NonCanonicalAddress
    | InvalidAlignment
    | MisalignedLoadSegment
    | WritableExecutableSegment
    | OverlappingLoadSegments
    | EntryOutsideExecutableSegment

  function Field(bytes: seq<Byte>, at: nat, size: nat): nat
    requires at + size <= |bytes|
  {
    LittleEndian(bytes[at..at + size])
  }

  /** The bytes from `at` on are those of the number, lowest first. */
  ghost predicate LaidOut(bytes: seq<Byte>, at: nat, size: nat, value: nat) {
    && at + size <= |bytes| && value < Pow256(size)
    && forall k | 0 <= k < size :: bytes[at + k] == Digit(value, k)
  }

  datatype ProgramHeader = ProgramHeader(
    kind: nat, flags: nat, offset: nat, address: nat, fileSize: nat, memorySize: nat, alignment: nat)
  {
    predicate Loads() { kind == PT_LOAD }

    predicate Executable() { flags % 2 == 1 }

    predicate Writable() { flags / 2 % 2 == 1 }

    /** The addresses the segment occupies. */
    predicate Covers(a: nat) { address <= a < address + memorySize }

    /** What a segment to load must satisfy, in a file of this many bytes. */
    predicate Acceptable(length: nat) {
      && memorySize > 0 && fileSize <= memorySize && !(Writable() && Executable())
      && (alignment > 1 ==> IsPowerOfTwo(alignment) && address % alignment == offset % alignment)
      && offset + fileSize <= length && address + memorySize <= U64_MAX
      && IsCanonical(address) && IsCanonical(address + memorySize - 1)
    }
  }

  predicate IsPowerOfTwo(n: nat) {
    n == 1 || (n > 1 && n % 2 == 0 && IsPowerOfTwo(n / 2))
  }

  predicate IsCanonical(a: nat) {
    a <= 0x7fff_ffff_ffff || a >= 0xffff_8000_0000_0000
  }

  /** The program header whose fields start here. */
  function HeaderAt(bytes: seq<Byte>, at: nat): ProgramHeader
    requires at + PROGRAM_HEADER_SIZE <= |bytes|
  {
    ProgramHeader(Field(bytes, at, 4), Field(bytes, at + 4, 4), Field(bytes, at + 8, 8), Field(bytes, at + 16, 8),
                  Field(bytes, at + 32, 8), Field(bytes, at + 40, 8), Field(bytes, at + 48, 8))
  }

  /** A file whose header has been read: its entry point and where its program headers are. */
  datatype ElfFile = ElfFile(bytes: seq<Byte>, entry: nat, table: nat, count: nat) {
    predicate Valid() {
      table + count * PROGRAM_HEADER_SIZE <= |bytes|
    }

    function Header(i: nat): ProgramHeader
      requires Valid() && i < count
    {
      HeaderAt(bytes, table + i * PROGRAM_HEADER_SIZE)
    }

    /** The indices of the segments to load, from one on. */
    function Loads(from: nat): (s: seq<nat>)
      requires Valid() && from <= count
      ensures forall k | 0 <= k < |s| :: from <= s[k] < count && Header(s[k]).Loads()
      decreases count - from
    {
      if from == count then [] else if Header(from).Loads() then [from] + Loads(from + 1) else Loads(from + 1)
    }

    /** No two segments to load, both below `n`, share an address. */
    ghost predicate Disjoint(n: nat)
      requires Valid() && n <= count
    {
      forall i, j | 0 <= j < i < n && Header(i).Loads() && Header(j).Loads() :: !Overlap(Header(i), Header(j))
    }

    ghost predicate AllAcceptable(n: nat)
      requires Valid() && n <= count
    {
      forall i | 0 <= i < n && Header(i).Loads() :: Header(i).Acceptable(|bytes|)
    }

    predicate EntryIn(i: nat)
      requires Valid() && i < count
    {
      Header(i).Loads() && Header(i).Executable() && Header(i).Covers(entry)
    }

    /** Every segment to load is acceptable, they are disjoint, and the entry is in an executable one. */
    ghost predicate Sound()
      requires Valid()
    {
      AllAcceptable(count) && Disjoint(count) && exists i | 0 <= i < count :: EntryIn(i)
    }
  }

  /** The test the parser makes. */
  predicate Overlap(left: ProgramHeader, right: ProgramHeader) {
    left.address < right.address + right.memorySize && right.address < left.address + left.memorySize
  }

  /** It is true exactly of segments that share an address, given that neither is empty. */
  lemma OverlapShares(left: ProgramHeader, right: ProgramHeader)
    requires left.memorySize > 0 && right.memorySize > 0
    ensures Overlap(left, right) <==> exists a: nat :: left.Covers(a) && right.Covers(a)
  {
    if Overlap(left, right) {
      var a := if left.address < right.address then right.address else left.address;
      assert left.Covers(a) && right.Covers(a);
    }
  }

  /** Checking only the two ends lets a segment run across the hole of non-canonical addresses, and only so. */
  lemma CanonicalThroughout(h: ProgramHeader, length: nat)
    requires h.Acceptable(length)
    ensures (forall a: nat | h.Covers(a) :: IsCanonical(a)) <==>
      !(h.address <= 0x7fff_ffff_ffff && h.address + h.memorySize - 1 >= 0xffff_8000_0000_0000)
  {
    if h.address <= 0x7fff_ffff_ffff && h.address + h.memorySize - 1 >= 0xffff_8000_0000_0000 {
      assert h.Covers(0x8000_0000_0000) && !IsCanonical(0x8000_0000_0000);
    }
  }

  /** Such a segment is accepted in every file: empty on file, it begins below the hole and ends above it. */
  lemma SpansTheHole(length: nat) returns (h: ProgramHeader, a: nat)
    ensures h.Loads() && h.Acceptable(length) && h.Covers(a) && !IsCanonical(a)
  {
    h := ProgramHeader(PT_LOAD, 4, 0, 0, 0, 0xffff_8000_0000_0001, 0);
    a := 0x8000_0000_0000;
  }

  /** What an error found in one segment says of it. */
  predicate BadSegment(h: ProgramHeader, length: nat, error: ParseError) {
    match error
    case EmptyLoadSegment => h.memorySize == 0
    case FileSizeExceedsMemorySize => h.fileSize > h.memorySize
    case WritableExecutableSegment => h.Writable() && h.Executable()
    case InvalidAlignment => h.alignment > 1 && !IsPowerOfTwo(h.alignment)
    case MisalignedLoadSegment => h.alignment > 1 && h.address % h.alignment != h.offset % h.alignment
    case FileRangeOutOfBounds => h.offset + h.fileSize > length
    case AddressOverflow => h.address + h.memorySize > U64_MAX
    case NonCanonicalAddress => !IsCanonical(h.address) || (h.memorySize > 0 && !IsCanonical(h.address + h.memorySize - 1))
    case _ => false
  }

  /** Checks one segment to load; the first failed check names the error. */
  method ValidateLoadSegment(length: nat, h: ProgramHeader) returns (r: Result<(), ParseError>)
    ensures r.Ok? <==> h.Acceptable(length)
    ensures r.Err? ==> BadSegment(h, length, r.error)
  {
    if h.memorySize == 0 {
      return Err(EmptyLoadSegment);
    }
    if h.fileSize > h.memorySize {
      return Err(FileSizeExceedsMemorySize);
    }
    if h.Writable() && h.Executable() {
      return Err(WritableExecutableSegment);
    }
    if h.alignment > 1 {
      if !IsPowerOfTwo(h.alignment) {
        return Err(InvalidAlignment);
      }
      if h.address % h.alignment != h.offset % h.alignment {
        return Err(MisalignedLoadSegment);
      }
    }
    if h.offset + h.fileSize > length {
      return Err(FileRangeOutOfBounds);
    }
    if h.address + h.memorySize > U64_MAX {
      return Err(AddressOverflow);
    }
    if !IsCanonical(h.address) || !IsCanonical(h.address + h.memorySize - 1) {
      return Err(NonCanonicalAddress);
    }
    return Ok(());
  }

  /** Looks for an earlier segment to load that overlaps this one. */
  method FindOverlap(file: ElfFile, i: nat) returns (j: Option<nat>)
    requires file.Valid() && i < file.count && file.AllAcceptable(i + 1) && file.Header(i).Loads()
    ensures j.Some? ==> j.value < i && file.Header(j.value).Loads() && Overlap(file.Header(i), file.Header(j.value))
    ensures j.None? ==> forall k | 0 <= k < i && file.Header(k).Loads() :: !Overlap(file.Header(i), file.Header(k))
  {
    hide HeaderAt, Overlap;
    for k := 0 to i
      invariant forall m | 0 <= m < k && file.Header(m).Loads() :: !Overlap(file.Header(i), file.Header(m))
    {
      if file.Header(k).Loads() && Overlap(file.Header(i), file.Header(k)) {
        return Some(k);
      }
    }
    return None;
  }

  /** Two segments to load that share an address. */
  ghost predicate Clash(file: ElfFile)
    requires file.Valid()
  {
    exists i, j | 0 <= j < i < file.count ::
      file.Header(i).Loads() && file.Header(j).Loads() && Overlap(file.Header(i), file.Header(j))
  }

  /** What an error found among the segments says of the file. */
  ghost predicate BadFile(file: ElfFile, error: ParseError)
    requires file.Valid()
  {
    match error
    case OverlappingLoadSegments => Clash(file)
    case MissingLoadSegment => file.Loads(0) == []
    case EntryOutsideExecutableSegment => forall i | 0 <= i < file.count :: !file.EntryIn(i)
    case _ => exists i | 0 <= i < file.count :: file.Header(i).Loads() && BadSegment(file.Header(i), |file.bytes|, error)
  }

  lemma BadOne(file: ElfFile, i: nat, error: ParseError)
    requires file.Valid() && i < file.count && file.Header(i).Loads() && BadSegment(file.Header(i), |file.bytes|, error)
    ensures BadFile(file, error)
  {
  }

  lemma BadPair(file: ElfFile, i: nat, j: nat)
    requires file.Valid() && j < i < file.count && file.Header(i).Loads() && file.Header(j).Loads()
    requires Overlap(file.Header(i), file.Header(j))
    ensures BadFile(file, OverlappingLoadSegments) && !file.Disjoint(file.count)
  {
  }

  lemma BadEntry(file: ElfFile)
    requires file.Valid() && !exists k | 0 <= k < file.count :: file.EntryIn(k)
    ensures BadFile(file, EntryOutsideExecutableSegment)
  {
  }

  lemma NoLoads(file: ElfFile)
    requires file.Valid() && file.Loads(0) == []
    ensures BadFile(file, MissingLoadSegment)
  {
  }

  /** Accepts exactly the sound files, counting their segments to load; overlap is reported only when there is one. */
  method ValidateLoadSegments(file: ElfFile) returns (r: Result<nat, ParseError>)
    requires file.Valid()
    ensures r.Ok? <==> file.Sound()
    ensures r.Ok? ==> r.value == |file.Loads(0)| && r.value > 0
    ensures r.Err? ==> BadFile(file, r.error)
  {
    hide ProgramHeader.Acceptable, Overlap, HeaderAt, BadSegment, BadFile;
    var executable := false;
    var loads := 0;
    for i := 0 to file.count
      invariant file.AllAcceptable(i) && file.Disjoint(i)
      invariant |file.Loads(0)| == loads + |file.Loads(i)|
      invariant executable <==> exists k | 0 <= k < i :: file.EntryIn(k)
      invariant executable ==> loads > 0
    {
      var h := file.Header(i);
      if !h.Loads() {
        continue;
      }
      var checked := ValidateLoadSegment(|file.bytes|, h);
      if checked.Err? {
        BadOne(file, i, checked.error);
        return Err(checked.error);
      }
      loads := loads + 1;
      if h.Executable() && h.address <= file.entry < h.address + h.memorySize {
        executable := true;
        assert file.EntryIn(i);
      }
      var clash := FindOverlap(file, i);
      if clash.Some? {
        BadPair(file, i, clash.value);
        return Err(OverlappingLoadSegments);
      }
    }
    if loads == 0 {
      NoLoads(file);
      return Err(MissingLoadSegment);
    }
    if !executable {
      BadEntry(file);
      return Err(EntryOutsideExecutableSegment);
    }
    return Ok(loads);
  }

  // ------------------------------------------------------------------ the file header

  /** An x86-64 executable whose program-header table lies in the file, after the header. */
  predicate HeaderOk(bytes: seq<Byte>) {
    && |bytes| >= HEADER_SIZE && bytes[..4] == [0x7f, 0x45, 0x4c, 0x46]
    && bytes[4] == 2 && bytes[5] == 1 && bytes[6] == 1 && (bytes[7] == 0 || bytes[7] == 3)
    && Field(bytes, 16, 2) == 2 && Field(bytes, 18, 2) == 62 && Field(bytes, 20, 4) == 1 && Field(bytes, 52, 2) == HEADER_SIZE
    && Field(bytes, 54, 2) == PROGRAM_HEADER_SIZE && 0 < Field(bytes, 56, 2) <= MAX_PROGRAM_HEADERS
    && HEADER_SIZE <= Field(bytes, 32, 8) && Field(bytes, 32, 8) + Field(bytes, 56, 2) * PROGRAM_HEADER_SIZE <= |bytes|
  }

  function FileOf(bytes: seq<Byte>): (file: ElfFile)
    requires HeaderOk(bytes)
    ensures file.Valid() && 0 < file.count
  {
    ElfFile(bytes, Field(bytes, 24, 8), Field(bytes, 32, 8), Field(bytes, 56, 2))
  }

  /** What an error found in the file header says of the file, by its bytes. */
  ghost predicate BadHeader(bytes: seq<Byte>, error: ParseError) {
    if |bytes| < 64 then error.Truncated?
    else
      match error
      case InvalidMagic => bytes[..4] != [0x7f, 0x45, 0x4c, 0x46]
      case UnsupportedClass => bytes[4] != 2
      case UnsupportedEndian => bytes[5] != 1
      case UnsupportedIdentVersion => bytes[6] != 1
      case UnsupportedAbi => bytes[7] !in {0, 3}
      case UnsupportedFileType => !LaidOut(bytes, 16, 2, 2)
      case UnsupportedMachine => !LaidOut(bytes, 18, 2, 62)
      case UnsupportedVersion => !LaidOut(bytes, 20, 4, 1)
      case InvalidHeaderSize => !LaidOut(bytes, 52, 2, 64)
      case InvalidProgramHeaderSize => !LaidOut(bytes, 54, 2, 56)
      case MissingProgramHeaders => LaidOut(bytes, 56, 2, 0)
      case TooManyProgramHeaders => exists count: nat :: LaidOut(bytes, 56, 2, count) && count > 64
      case ProgramHeaderTableOutOfBounds =>
        exists table: nat, count: nat :: LaidOut(bytes, 32, 8, table) && LaidOut(bytes, 56, 2, count)
          && (table < 64 || table + count * 56 > |bytes|)
      case _ => false
  }

  /** Checks the file header; the first failed check names the error. */
  method CheckHeader(bytes: seq<Byte>) returns (error: Option<ParseError>)
    ensures error.None? <==> HeaderOk(bytes)
    ensures error.Some? ==> BadHeader(bytes, error.value)
  {
    hide Field, LaidOut;
    if |bytes| < HEADER_SIZE {
      return Some(Truncated);
    }
    if bytes[..4] != [0x7f, 0x45, 0x4c, 0x46] {
      return Some(InvalidMagic);
    }
    if bytes[4] != 2 {
      return Some(UnsupportedClass);
    }
    if bytes[5] != 1 {
      return Some(UnsupportedEndian);
    }
    if bytes[6] != 1 {
      return Some(UnsupportedIdentVersion);
    }
    if bytes[7] != 0 && bytes[7] != 3 {
      return Some(UnsupportedAbi);
    }
    FieldIs(bytes, 16, 2, 2);
    FieldIs(bytes, 18, 2, 62);
    FieldIs(bytes, 20, 4, 1);
    FieldIs(bytes, 52, 2, 64);
    FieldIs(bytes, 54, 2, 56);
    if Field(bytes, 16, 2) != 2 {
      return Some(UnsupportedFileType);
    }
    if Field(bytes, 18, 2) != 62 {
      return Some(UnsupportedMachine);
    }
    if Field(bytes, 20, 4) != 1 {
      return Some(UnsupportedVersion);
    }
    if Field(bytes, 52, 2) != HEADER_SIZE {
      return Some(InvalidHeaderSize);
    }
    var table, count := Field(bytes, 32, 8), Field(bytes, 56, 2);
    FieldIs(bytes, 32, 8, table);
    FieldIs(bytes, 56, 2, count);
    if count == 0 {
      return Some(MissingProgramHeaders);
    }
    if Field(bytes, 54, 2) != PROGRAM_HEADER_SIZE {
      return Some(InvalidProgramHeaderSize);
    }
    if count > MAX_PROGRAM_HEADERS {
      return Some(TooManyProgramHeaders);
    }
    if table < HEADER_SIZE || table + count * PROGRAM_HEADER_SIZE > |bytes| {
      return Some(ProgramHeaderTableOutOfBounds);
    }
    return None;
  }

  /** Parses a file: accepted exactly when its header is well formed and its segments are sound. */
  method Parse(bytes: seq<Byte>) returns (r: Result<(ElfFile, nat), ParseError>)
    ensures r.Ok? <==> HeaderOk(bytes) && FileOf(bytes).Sound()
    ensures r.Ok? ==> r.value.0 == FileOf(bytes) && r.value.1 == |FileOf(bytes).Loads(0)| > 0
    ensures r.Err? ==> BadHeader(bytes, r.error) || (HeaderOk(bytes) && BadFile(FileOf(bytes), r.error))
    ensures r.Ok? <==> exists entry, table, headers :: Image(bytes, entry, table, headers) && WellMade(headers, entry, |bytes|)
  {
    hide Field, ElfFile.Sound, HeaderOk, BadHeader, BadFile, Image, WellMade;
    AcceptsExactly(bytes);
    var bad := CheckHeader(bytes);
    if bad.Some? {
      return Err(bad.value);
    }
    var file := FileOf(bytes);
    var loads :- ValidateLoadSegments(file);
    return Ok((file, loads));
  }

  // ------------------------------------------------------------------ the layout of the file

  /** The field's value is the one whose bytes, lowest first, lie there. */
  lemma FieldIs(bytes: seq<Byte>, at: nat, size: nat, value: nat)
    requires at + size <= |bytes|
    ensures Field(bytes, at, size) == value <==> LaidOut(bytes, at, size, value)
  {
    hide Digit;
    var part := bytes[at..at + size];
    var v := LittleEndian(part);
    LittleEndianBound(part);
    forall k | 0 <= k < size ensures bytes[at + k] == Digit(v, k) {
      LittleEndianAt(part, k);
    }
    if LaidOut(bytes, at, size, value) {
      BytesDetermine(v, value, size);
    }
  }

  /** A program header in the file: the order of the fields is that of chapter 5 of the System V ABI. */
  ghost predicate HeaderLaidOut(bytes: seq<Byte>, at: nat, h: ProgramHeader) {
    && LaidOut(bytes, at, 4, h.kind) && LaidOut(bytes, at + 4, 4, h.flags)
    && LaidOut(bytes, at + 8, 8, h.offset) && LaidOut(bytes, at + 16, 8, h.address)
    && LaidOut(bytes, at + 32, 8, h.fileSize) && LaidOut(bytes, at + 40, 8, h.memorySize)
    && LaidOut(bytes, at + 48, 8, h.alignment)
  }

  lemma HeaderAtIs(bytes: seq<Byte>, at: nat, h: ProgramHeader)
    requires at + PROGRAM_HEADER_SIZE <= |bytes|
    ensures HeaderAt(bytes, at) == h <==> HeaderLaidOut(bytes, at, h)
  {
    hide Field, LaidOut;
    FieldIs(bytes, at, 4, h.kind);
    FieldIs(bytes, at + 4, 4, h.flags);
    FieldIs(bytes, at + 8, 8, h.offset);
    FieldIs(bytes, at + 16, 8, h.address);
    FieldIs(bytes, at + 32, 8, h.fileSize);
    FieldIs(bytes, at + 40, 8, h.memorySize);
    FieldIs(bytes, at + 48, 8, h.alignment);
  }

  /** Execution and writing are the two lowest bits of the flags' first byte. */
  lemma FlagBits(bytes: seq<Byte>, at: nat)
    requires at + PROGRAM_HEADER_SIZE <= |bytes|
    ensures HeaderAt(bytes, at).Executable() <==> bytes[at + 4] % 2 == 1
    ensures HeaderAt(bytes, at).Writable() <==> bytes[at + 4] / 2 % 2 == 1
  {
    var part := bytes[at + 4..at + 8];
    assert LittleEndian(part) == part[0] + 256 * LittleEndian(part[1..]);
    hide LittleEndian;
    LowBits(part[0], LittleEndian(part[1..]));
    var flags := HeaderAt(bytes, at).flags;
    assert flags == LittleEndian(part);
    hide Field;
  }

  lemma LowBits(b: nat, rest: nat)
    ensures (b + 256 * rest) % 2 == b % 2 && (b + 256 * rest) / 2 % 2 == b / 2 % 2
  {
    TwoBits(b, b / 4, b % 4);
    TwoBits(b + 256 * rest, b / 4 + 64 * rest, b % 4);
  }

  lemma TwoBits(x: nat, m: nat, r: nat)
    requires x == 4 * m + r && r < 4
    ensures x % 2 == r % 2 && x / 2 % 2 == r / 2
  {
    var half := 2 * m + r / 2;
    assert x == 2 * half + r % 2;
    assert x / 2 == half;
  }

  /** A file with this entry and these program headers from `table` on. */
  ghost predicate Image(bytes: seq<Byte>, entry: nat, table: nat, headers: seq<ProgramHeader>) {
    && |bytes| >= 64 && bytes[..7] == [0x7f, 0x45, 0x4c, 0x46, 2, 1, 1] && bytes[7] in {0, 3}
    && LaidOut(bytes, 16, 2, 2) && LaidOut(bytes, 18, 2, 62) && LaidOut(bytes, 20, 4, 1)
    && LaidOut(bytes, 24, 8, entry) && LaidOut(bytes, 32, 8, table)
    && LaidOut(bytes, 52, 2, 64) && LaidOut(bytes, 54, 2, 56) && LaidOut(bytes, 56, 2, |headers|)
    && 1 <= |headers| <= 64 && 64 <= table && table + |headers| * 56 <= |bytes|
    && forall i | 0 <= i < |headers| :: HeaderLaidOut(bytes, table + i * 56, headers[i])
  }

  /** Segments that can be loaded: each acceptable, no two sharing an address, the entry in an executable one. */
  ghost predicate WellMade(headers: seq<ProgramHeader>, entry: nat, length: nat) {
    && (forall i | 0 <= i < |headers| && headers[i].kind == 1 :: headers[i].Acceptable(length))
    && (forall i, j, a: nat | 0 <= i < j < |headers| && headers[i].kind == 1 && headers[j].kind == 1 ::
          !(headers[i].Covers(a) && headers[j].Covers(a)))
    && exists i | 0 <= i < |headers| ::
         headers[i].kind == 1 && headers[i].Executable() && headers[i].Covers(entry)
  }

  lemma ImageHeader(bytes: seq<Byte>)
    requires |bytes| >= 64
    ensures HeaderOk(bytes) <==>
      && bytes[..7] == [0x7f, 0x45, 0x4c, 0x46, 2, 1, 1] && bytes[7] in {0, 3}
      && LaidOut(bytes, 16, 2, 2) && LaidOut(bytes, 18, 2, 62) && LaidOut(bytes, 20, 4, 1)
      && LaidOut(bytes, 52, 2, 64) && LaidOut(bytes, 54, 2, 56)
      && 1 <= Field(bytes, 56, 2) <= 64 && 64 <= Field(bytes, 32, 8)
      && Field(bytes, 32, 8) + Field(bytes, 56, 2) * 56 <= |bytes|
  {
    hide Field, LaidOut;
    FieldIs(bytes, 16, 2, 2);
    FieldIs(bytes, 18, 2, 62);
    FieldIs(bytes, 20, 4, 1);
    FieldIs(bytes, 52, 2, 64);
    FieldIs(bytes, 54, 2, 56);
    assert bytes[..7] == bytes[..4] + [bytes[4], bytes[5], bytes[6]];
  }

  /** The file read from the bytes is the one laid out in them. */
  lemma ImageIs(bytes: seq<Byte>, entry: nat, table: nat, headers: seq<ProgramHeader>)
    ensures Image(bytes, entry, table, headers) <==>
      && HeaderOk(bytes) && FileOf(bytes) == ElfFile(bytes, entry, table, |headers|)
      && forall i | 0 <= i < |headers| :: FileOf(bytes).Header(i) == headers[i]
  {
    hide Field, LaidOut, HeaderAt, HeaderLaidOut;
    if |bytes| >= 64 {
      ImageHeader(bytes);
      FieldIs(bytes, 24, 8, entry);
      FieldIs(bytes, 32, 8, table);
      FieldIs(bytes, 56, 2, |headers|);
      hide HeaderOk;
      forall i | 0 <= i < |headers| && table + i * 56 + 56 <= |bytes|
        ensures HeaderAt(bytes, table + i * 56) == headers[i] <==> HeaderLaidOut(bytes, table + i * 56, headers[i])
      {
        HeaderAtIs(bytes, table + i * 56, headers[i]);
      }
      if table + |headers| * 56 <= |bytes| {
        forall i | 0 <= i < |headers| ensures table + i * 56 + 56 <= |bytes| {
        }
      }
    }
  }

  lemma WellMadeIs(file: ElfFile, headers: seq<ProgramHeader>)
    requires file.Valid() && |headers| == file.count && forall i | 0 <= i < |headers| :: file.Header(i) == headers[i]
    ensures file.Sound() <==> WellMade(headers, file.entry, |file.bytes|)
  {
    hide ProgramHeader.Acceptable, HeaderAt;
    assert file.AllAcceptable(file.count) <==>
      (forall i | 0 <= i < |headers| && headers[i].kind == 1 :: headers[i].Acceptable(|file.bytes|));
    if file.AllAcceptable(file.count) {
      forall i | 0 <= i < |headers| && headers[i].Loads() ensures headers[i].memorySize > 0 {
        AcceptableNonEmpty(headers[i], |file.bytes|);
      }
      forall i, j | 0 <= i < j < |headers| && headers[i].Loads() && headers[j].Loads()
        ensures Overlap(headers[j], headers[i]) <==> exists a: nat :: headers[j].Covers(a) && headers[i].Covers(a)
      {
        OverlapShares(headers[j], headers[i]);
      }
      hide ProgramHeader.Covers, Overlap;
    }
    assert (exists i | 0 <= i < file.count :: file.EntryIn(i)) <==>
      exists i | 0 <= i < |headers| :: headers[i].kind == 1 && headers[i].Executable() && headers[i].Covers(file.entry) by {
      hide ProgramHeader.Covers;
      forall i | 0 <= i < |headers|
        ensures file.EntryIn(i) <==> headers[i].kind == 1 && headers[i].Executable() && headers[i].Covers(file.entry)
      {
      }
    }
  }

  lemma AcceptableNonEmpty(h: ProgramHeader, length: nat)
    requires h.Acceptable(length)
    ensures h.memorySize > 0
  {
  }

  /** What is accepted, by the bytes of the file alone. */
  lemma AcceptsExactly(bytes: seq<Byte>)
    ensures HeaderOk(bytes) && FileOf(bytes).Sound() <==>
      exists entry, table, headers :: Image(bytes, entry, table, headers) && WellMade(headers, entry, |bytes|)
  {
    hide HeaderOk, Image, WellMade, ElfFile.Sound, HeaderAt, Field;
    if HeaderOk(bytes) && FileOf(bytes).Sound() {
      var file := FileOf(bytes);
      var headers := seq(file.count, i requires 0 <= i < file.count => file.Header(i));
      ImageIs(bytes, file.entry, file.table, headers);
      assert Image(bytes, file.entry, file.table, headers);
      WellMadeIs(file, headers);
    }
    if entry, table, headers :| Image(bytes, entry, table, headers) && WellMade(headers, entry, |bytes|) {
      ImageIs(bytes, entry, table, headers);
      WellMadeIs(FileOf(bytes), headers);
    }
  }

  /** In an accepted file no address belongs to two segments, and each is read from inside the file. */
  lemma SoundDisjoint(file: ElfFile, i: nat, j: nat, a: nat)
    requires file.Valid() && file.Sound() && i < file.count && j < file.count && i != j
    requires file.Header(i).Loads() && file.Header(j).Loads() && file.Header(i).Covers(a)
    ensures !file.Header(j).Covers(a) && file.Header(i).offset + file.Header(i).fileSize <= |file.bytes|
    ensures !(file.Header(i).Writable() && file.Header(i).Executable())
  {
    hide HeaderAt;
    var low, high := if i < j then i else j, if i < j then j else i;
    assert !Overlap(file.Header(high), file.Header(low));
    assert file.Header(i).Acceptable(|file.bytes|);
  }

  // ------------------------------------------------------------------ the segments in order

  datatype LoadSegment = LoadSegment(data: seq<Byte>, address: nat, memorySize: nat, flags: nat, alignment: nat)

  function SegmentOf(file: ElfFile, h: ProgramHeader): LoadSegment
    requires h.offset + h.fileSize <= |file.bytes|
  {
    LoadSegment(file.bytes[h.offset..h.offset + h.fileSize], h.address, h.memorySize, h.flags, h.alignment)
  }

  function Decrement(n: nat): nat { if n == 0 then 0 else n - 1 }

  /** The segments to load, in the order of their headers, each once and none left out. */
  lemma {:induction false} LoadsExact(file: ElfFile, from: nat)
    requires file.Valid() && from <= file.count
    ensures forall i | from <= i < file.count :: file.Header(i).Loads() <==> i in file.Loads(from)
    ensures forall k, m | 0 <= k < m < |file.Loads(from)| :: file.Loads(from)[k] < file.Loads(from)[m]
    decreases file.count - from
  {
    hide HeaderAt;
    if from < file.count {
      LoadsExact(file, from + 1);
    }
  }

  /** The iterator over an accepted file's segments. */
  class LoadSegments {
    const file: ElfFile
    var nextHeader: nat
    var remaining: nat

    ghost predicate Valid()
      reads this
    {
      file.Valid() && file.Sound() && nextHeader <= file.count && remaining == |file.Loads(nextHeader)|
    }

    constructor (file: ElfFile, loads: nat)
      requires file.Valid() && file.Sound() && loads == |file.Loads(0)|
      ensures Valid() && this.file == file && nextHeader == 0
    {
      this.file := file;
      nextHeader := 0;
      remaining := loads;
    }

    /** Yields the next segment to load, and nothing more once they are all out. */
    method Next() returns (segment: Option<LoadSegment>)
      requires Valid()
      modifies this
      ensures Valid()
      ensures segment.None? <==> old(file.Loads(nextHeader)) == []
      ensures segment.Some? ==>
        var loads := old(file.Loads(nextHeader));
        && file.Loads(nextHeader) == loads[1..]
        && var h, s := file.Header(loads[0]), segment.value;
           && h.offset + h.fileSize <= |file.bytes| && s.data == file.bytes[h.offset..h.offset + h.fileSize]
           && s.address == h.address && s.memorySize == h.memorySize && s.flags == h.flags && s.alignment == h.alignment
    {
      hide HeaderAt, Overlap;
      while nextHeader < file.count
        invariant Valid() && file.Loads(nextHeader) == old(file.Loads(nextHeader))
        decreases file.count - nextHeader
      {
        var index := nextHeader;
        nextHeader := nextHeader + 1;
        if file.Header(index).Loads() {
          assert file.Header(index).Acceptable(|file.bytes|);
          remaining := Decrement(remaining);
          return Some(SegmentOf(file, file.Header(index)));
        }
      }
      return None;
    }

    /** The exact number still to come. */
    method SizeHint() returns (low: nat, high: nat)
      requires Valid()
      ensures low == high == |file.Loads(nextHeader)|
    {
      return remaining, remaining;
    }
  }
}
