/**
 The boot image: a header that names the sizes of its sections, each section padded to whole pages, and, in versions
 1 and 2, the position of the recovery dtbo, which is computed apart from the writing.
 */
module BootImage {
  import opened Common
  import opened BootBytes
  import opened Cmdline

  const BOOT_MAGIC: seq<byte> := Ascii("ANDROID!")
  const HEADER_V3_PAGE: nat := 4096
  const SIGNATURE_SIZE: nat := 4096

  datatype BootArgs = BootArgs(
    kernel: File, ramdisk: File, second: File, recoveryDtbo: File, dtb: File,
    base: int, kernelOffset: int, ramdiskOffset: int, secondOffset: int, dtbOffset: int, tagsOffset: int,
    osVersion: nat, osPatchLevel: nat, board: seq<byte>, cmdline: seq<byte>, extraCmdline: seq<byte>,
    pageSize: nat, headerVersion: int, signature: File)
  {
    ghost predicate Parsed() { PageSize(pageSize) && osPatchLevel < 2048 }

    /** The version above the patch level's 11 bits. */
    function OsWord(): nat { osVersion * 2048 + osPatchLevel }

    function RamdiskAddress(): int { if FileSize(ramdisk) > 0 then base + ramdiskOffset else 0 }
    function SecondAddress(): int { if FileSize(second) > 0 then base + secondOffset else 0 }
    function DataPage(): nat { if headerVersion > 2 then HEADER_V3_PAGE else pageSize }
  }

  function RecoveryDtboOffset(a: BootArgs): nat
    requires PageSize(a.pageSize)
  {
    a.pageSize * (1 + Pages(FileSize(a.kernel), a.pageSize) + Pages(FileSize(a.ramdisk), a.pageSize)
                    + Pages(FileSize(a.second), a.pageSize))
  }

  // ---------- Where everything is ----------

  /** Fields of versions 0 to 2, with their positions. */
  ghost predicate LoadsIn(placed: set<Placed>, a: BootArgs) {
    && Placed(0, Text(BOOT_MAGIC, 8)) in placed
    && Placed(8, U32(FileSize(a.kernel))) in placed && Placed(12, U32(a.base + a.kernelOffset)) in placed
    && Placed(16, U32(FileSize(a.ramdisk))) in placed && Placed(20, U32(a.RamdiskAddress())) in placed
  }

  ghost predicate SecondsIn(placed: set<Placed>, a: BootArgs) {
    && Placed(24, U32(FileSize(a.second))) in placed && Placed(28, U32(a.SecondAddress())) in placed
    && Placed(32, U32(a.base + a.tagsOffset)) in placed && Placed(36, U32(a.pageSize)) in placed
  }

  ghost predicate NamesIn(placed: set<Placed>, a: BootArgs) {
    && Placed(40, U32(a.headerVersion)) in placed && Placed(44, U32(a.OsWord())) in placed
    && Placed(48, Text(a.board, 16)) in placed && Placed(64, Text(a.cmdline, BOOT_ARGS_SIZE)) in placed
  }

  ghost predicate DigestIn(placed: set<Placed>, a: BootArgs, digest: seq<byte>) {
    Placed(576, Text(digest, 32)) in placed && Placed(608, Text(a.extraCmdline, BOOT_EXTRA_ARGS_SIZE)) in placed
  }

  function OldHeaderSize(a: BootArgs): nat {
    if a.headerVersion <= 0 then 1632 else if a.headerVersion == 1 then 1648 else 1660
  }

  /** Version 1 and 2. */
  ghost predicate DtboIn(placed: set<Placed>, a: BootArgs)
    requires PageSize(a.pageSize)
  {
    && Placed(1632, U32(FileSize(a.recoveryDtbo))) in placed
    && Placed(1636, U64(if a.recoveryDtbo.Some? then RecoveryDtboOffset(a) else 0)) in placed
    && Placed(1644, U32(OldHeaderSize(a))) in placed
  }

  /** Version 2. */
  ghost predicate DtbIn(placed: set<Placed>, a: BootArgs) {
    Placed(1648, U32(FileSize(a.dtb))) in placed && Placed(1652, U64(a.base + a.dtbOffset)) in placed
  }

  ghost predicate CommonIn(placed: set<Placed>, a: BootArgs, digest: seq<byte>) {
    LoadsIn(placed, a) && SecondsIn(placed, a) && NamesIn(placed, a) && DigestIn(placed, a, digest)
  }

  ghost predicate OldFieldsIn(placed: set<Placed>, a: BootArgs, digest: seq<byte>)
    requires PageSize(a.pageSize)
  {
    && CommonIn(placed, a, digest)
    && (a.headerVersion > 0 ==> DtboIn(placed, a))
    && (a.headerVersion > 1 ==> DtbIn(placed, a))
  }

  ghost predicate OldHeaderIn(placed: set<Placed>, a: BootArgs, digest: seq<byte>)
    requires PageSize(a.pageSize)
  {
    && OldFieldsIn(placed, a, digest)
    && Placed(OldHeaderSize(a), Raw(Zeros(a.pageSize - OldHeaderSize(a)))) in placed
  }

  function NewHeaderSize(a: BootArgs): nat {
    if a.headerVersion > 3 then 1584 else 1580
  }

  /** Fields of versions 3 and 4. */
  ghost predicate NewLoadsIn(placed: set<Placed>, a: BootArgs) {
    && Placed(0, Text(BOOT_MAGIC, 8)) in placed
    && Placed(8, U32(FileSize(a.kernel))) in placed && Placed(12, U32(FileSize(a.ramdisk))) in placed
    && Placed(16, U32(a.OsWord())) in placed && Placed(20, U32(NewHeaderSize(a))) in placed
  }

  ghost predicate NewHeaderIn(placed: set<Placed>, a: BootArgs) {
    && NewLoadsIn(placed, a)
    && Placed(24, Raw(Zeros(16))) in placed && Placed(40, U32(a.headerVersion)) in placed
    && Placed(44, Text(a.cmdline, BOOT_ARGS_SIZE + BOOT_EXTRA_ARGS_SIZE)) in placed
    && (a.headerVersion > 3 ==> Placed(1580, U32(SIGNATURE_SIZE)) in placed)
    && Placed(NewHeaderSize(a), Raw(Zeros(HEADER_V3_PAGE - NewHeaderSize(a)))) in placed
  }

  ghost predicate HeaderIn(placed: set<Placed>, a: BootArgs, digest: seq<byte>)
    requires PageSize(a.pageSize)
  {
    if a.headerVersion >= 3 then NewHeaderIn(placed, a) else OldHeaderIn(placed, a, digest)
  }

  // Sections start at page boundaries, the header taking one page.

  function RamdiskAt(a: BootArgs): nat
    requires PageSize(a.DataPage())
  {
    a.DataPage() + Spread(FileSize(a.kernel), a.DataPage())
  }

  function SecondAt(a: BootArgs): nat
    requires PageSize(a.DataPage())
  {
    RamdiskAt(a) + Spread(FileSize(a.ramdisk), a.DataPage())
  }

  function DtboAt(a: BootArgs): nat
    requires PageSize(a.DataPage())
  {
    SecondAt(a) + Spread(FileSize(a.second), a.DataPage())
  }

  function DtbAt(a: BootArgs): nat
    requires PageSize(a.DataPage())
  {
    DtboAt(a) + if 0 < a.headerVersion < 3 then Spread(FileSize(a.recoveryDtbo), a.DataPage()) else 0
  }

  function Signature(signature: File): seq<byte> {
    if signature.None? then Zeros(SIGNATURE_SIZE) else signature.value
  }

  ghost predicate LoadersIn(placed: set<Placed>, a: BootArgs)
    requires PageSize(a.DataPage())
  {
    && FileIn(placed, a.DataPage(), a.kernel, a.DataPage())
    && FileIn(placed, RamdiskAt(a), a.ramdisk, a.DataPage())
    && FileIn(placed, SecondAt(a), a.second, a.DataPage())
  }

  ghost predicate TreesIn(placed: set<Placed>, a: BootArgs)
    requires PageSize(a.DataPage())
  {
    && (0 < a.headerVersion < 3 ==> FileIn(placed, DtboAt(a), a.recoveryDtbo, a.DataPage()))
    && (a.headerVersion == 2 ==> FileIn(placed, DtbAt(a), a.dtb, a.DataPage()))
  }

  lemma LoadersStayIn(before: set<Placed>, after: set<Placed>, a: BootArgs)
    requires before <= after && PageSize(a.DataPage()) && LoadersIn(before, a)
    ensures LoadersIn(after, a)
  {
  }

  lemma TreesStayIn(before: set<Placed>, after: set<Placed>, a: BootArgs)
    requires before <= after && PageSize(a.DataPage()) && TreesIn(before, a)
    ensures TreesIn(after, a)
  {
  }

  ghost predicate DataIn(placed: set<Placed>, a: BootArgs)
    requires PageSize(a.DataPage())
  {
    && LoadersIn(placed, a) && TreesIn(placed, a)
    && (a.headerVersion >= 4 ==> FileIn(placed, DtbAt(a), Some(Signature(a.signature)), a.DataPage()))
  }

  function ImageSize(a: BootArgs): nat
    requires PageSize(a.DataPage())
  {
    DtbAt(a) + if a.headerVersion == 2 then Spread(FileSize(a.dtb), a.DataPage())
               else if a.headerVersion >= 4 then Spread(|Signature(a.signature)|, a.DataPage())
               else 0
  }

  /** What an image of each version consists of. */
  ghost function WholePages(a: BootArgs): nat
    requires PageSize(a.pageSize)
  {
    var p := if a.headerVersion >= 3 then 4096 else a.pageSize;
    p + Spread(|FileBytes(a.kernel)|, p) + Spread(|FileBytes(a.ramdisk)|, p) + Spread(|FileBytes(a.second)|, p)
    + (if a.headerVersion == 1 || a.headerVersion == 2 then Spread(|FileBytes(a.recoveryDtbo)|, p) else 0)
    + (if a.headerVersion == 2 then Spread(|FileBytes(a.dtb)|, p) else 0)
    + (if a.headerVersion >= 4 then Spread(if a.signature.None? then 4096 else |a.signature.value|, p) else 0)
  }

  lemma SizeIsWholePages(a: BootArgs)
    requires PageSize(a.pageSize)
    ensures PageSize(a.DataPage()) && ImageSize(a) == WholePages(a)
  {
  }

  /** The position written in the header is the one the sections before the dtbo lead to. */
  lemma RecoveryDtboOffsetIsPosition(a: BootArgs)
    requires a.Parsed() && a.headerVersion < 3
    ensures RecoveryDtboOffset(a) == DtboAt(a)
  {
    var page := a.pageSize;
    var k, r, s := Pages(FileSize(a.kernel), page), Pages(FileSize(a.ramdisk), page), Pages(FileSize(a.second), page);
    SpreadIsPages(FileSize(a.kernel), page);
    SpreadIsPages(FileSize(a.ramdisk), page);
    SpreadIsPages(FileSize(a.second), page);
    assert page * (1 + k + r + s) == page + page * k + page * r + page * s;
  }

  lemma CommonStaysIn(before: set<Placed>, after: set<Placed>, a: BootArgs, digest: seq<byte>)
    requires before <= after && CommonIn(before, a, digest)
    ensures CommonIn(after, a, digest)
  {
  }

  lemma OnePage(size: nat, page: nat)
    requires PageSize(page) && 0 < size <= page
    ensures size + Padding(size, page) == page
  {
    PaddingValue(size, page);
    RemainderIs(size, page, if size == page then 1 else 0, if size == page then 0 else size);
  }

  // ---------- When writing fails ----------

  predicate LoadsFit(a: BootArgs) {
    && Fits32(FileSize(a.kernel)) && Fits32(a.base + a.kernelOffset)
    && Fits32(FileSize(a.ramdisk)) && Fits32(a.RamdiskAddress())
  }

  predicate SecondsFit(a: BootArgs) {
    Fits32(FileSize(a.second)) && Fits32(a.SecondAddress()) && Fits32(a.base + a.tagsOffset)
  }

  predicate HashedFit(a: BootArgs) {
    && (a.headerVersion > 0 ==> Fits32(FileSize(a.recoveryDtbo)))
    && (a.headerVersion > 1 ==> Fits32(FileSize(a.dtb)))
  }

  predicate SizesFit(a: BootArgs) {
    && LoadsFit(a) && SecondsFit(a) && Fits32(a.headerVersion) && Fits32(a.OsWord())
    && HashedFit(a)
  }

  function DtbOutcome(a: BootArgs): Outcome {
    if FileSize(a.dtb) == 0 then Fail(EmptyDtb)
    else if Packed(U64(a.base + a.dtbOffset)) then Pass else Fail(StructError)
  }

  function OldOutcome(a: BootArgs): Outcome {
    if !SizesFit(a) then Fail(StructError)
    else if a.headerVersion > 1 then DtbOutcome(a)
    else Pass
  }

  function NewOutcome(a: BootArgs): Outcome {
    if Fits32(FileSize(a.kernel)) && Fits32(FileSize(a.ramdisk)) && Fits32(a.OsWord()) then Pass else Fail(StructError)
  }

  function HeaderOutcome(a: BootArgs): Outcome {
    if a.headerVersion > 4 then Fail(UnsupportedVersion)
    else if a.headerVersion >= 3 then NewOutcome(a) else OldOutcome(a)
  }

  function ImageOutcome(a: BootArgs): Outcome {
    if a.second.Some? && a.headerVersion > 2 then Fail(SecondNotSupported)
    else if HeaderOutcome(a).Fail? then HeaderOutcome(a)
    else if a.headerVersion >= 4 && FileSize(a.signature) > SIGNATURE_SIZE then Fail(SignatureTooLong)
    else Pass
  }

  /** A position four sections into the image fits 64 bits. */
  lemma OffsetPacked(a: BootArgs)
    requires a.Parsed() && a.headerVersion < 3 && SizesFit(a)
    ensures Packed(U64(RecoveryDtboOffset(a)))
  {
    RecoveryDtboOffsetIsPosition(a);
    SpreadValue(FileSize(a.kernel), a.pageSize);
    SpreadValue(FileSize(a.ramdisk), a.pageSize);
    SpreadValue(FileSize(a.second), a.pageSize);
  }

  /** What a header of versions 0 to 2 needs of its values. */
  ghost predicate OldValuesFit(a: BootArgs) {
    && Word(|FileBytes(a.kernel)|) && Word(|FileBytes(a.ramdisk)|) && Word(|FileBytes(a.second)|)
    && Word(a.base + a.kernelOffset) && Word(a.base + a.tagsOffset)
    && (|FileBytes(a.ramdisk)| > 0 ==> Word(a.base + a.ramdiskOffset))
    && (|FileBytes(a.second)| > 0 ==> Word(a.base + a.secondOffset))
    && Word(a.headerVersion) && Word(a.osVersion * 2048 + a.osPatchLevel)
    && (a.headerVersion > 0 ==> Word(|FileBytes(a.recoveryDtbo)|))
    && (a.headerVersion > 1 ==> Word(|FileBytes(a.dtb)|))
  }

  ghost predicate NewValuesFit(a: BootArgs) {
    Word(|FileBytes(a.kernel)|) && Word(|FileBytes(a.ramdisk)|) && Word(a.osVersion * 2048 + a.osPatchLevel)
  }

  /** Which images are refused, and for what. */
  ghost function Refusal(a: BootArgs): Outcome {
    if a.headerVersion > 2 then
      if a.second.Some? then Fail(SecondNotSupported)
      else if a.headerVersion > 4 then Fail(UnsupportedVersion)
      else if !NewValuesFit(a) then Fail(StructError)
      else if a.headerVersion == 4 && |FileBytes(a.signature)| > 4096 then Fail(SignatureTooLong) else Pass
    else if !OldValuesFit(a) then Fail(StructError)
    else if a.headerVersion < 2 then Pass
    else if |FileBytes(a.dtb)| == 0 then Fail(EmptyDtb)
    else if 0 <= a.base + a.dtbOffset <= 0xFFFF_FFFF_FFFF_FFFF then Pass else Fail(StructError)
  }

  lemma RefusedExactly(a: BootArgs)
    ensures ImageOutcome(a) == Refusal(a)
  {
  }

  // ---------- Reading an image from its header alone ----------

  datatype Sections = Sections(kernel: seq<byte>, ramdisk: seq<byte>, second: seq<byte>, dtbo: seq<byte>, dtb: seq<byte>,
                               signature: seq<byte>)

  /** Versions 0 to 2: sections follow the header page by page; the dtbo is where the header says. */
  function ReadOld(image: seq<byte>): Sections {
    var page, version := U32At(image, 36), U32At(image, 40);
    if page == 0 then Sections([], [], [], [], [], []) else
      var k, r, s := U32At(image, 8), U32At(image, 16), U32At(image, 24);
      var ramdiskAt := page + Spread(k, page);
      var secondAt := ramdiskAt + Spread(r, page);
      var dtboSize := if version > 0 then U32At(image, 1632) else 0;
      var dtbAt := secondAt + Spread(s, page) + Spread(dtboSize, page);
      Sections(
        Sub(image, page, k), Sub(image, ramdiskAt, r), Sub(image, secondAt, s),
        if version > 0 then Sub(image, U64At(image, 1636), dtboSize) else [],
        if version > 1 then Sub(image, dtbAt, U32At(image, 1648)) else [],
        [])
  }

  /** Versions 3 and 4: pages are fixed; version 4 ends with a signature of the size the header gives. */
  function ReadNew(image: seq<byte>): Sections {
    var k, r := U32At(image, 8), U32At(image, 12);
    var ramdiskAt := HEADER_V3_PAGE + Spread(k, HEADER_V3_PAGE);
    var signatureAt := ramdiskAt + Spread(r, HEADER_V3_PAGE);
    Sections(Sub(image, HEADER_V3_PAGE, k), Sub(image, ramdiskAt, r), [], [], [],
      if U32At(image, 40) >= 4 then Sub(image, signatureAt, U32At(image, 1580)) else [])
  }

  function ReadImage(image: seq<byte>): Sections {
    if U32At(image, 40) >= 3 then ReadNew(image) else ReadOld(image)
  }

  /** The signature filled up to the size that every version 4 header gives; an empty file leaves no section. */
  function WholeSignature(signature: File): seq<byte> {
    if Signature(signature) == [] then [] else Fixed(Signature(signature), SIGNATURE_SIZE)
  }

  function Supplied(a: BootArgs): Sections {
    Sections(FileBytes(a.kernel), FileBytes(a.ramdisk), FileBytes(a.second),
      if 0 < a.headerVersion < 3 then FileBytes(a.recoveryDtbo) else [],
      if a.headerVersion == 2 then FileBytes(a.dtb) else [],
      if a.headerVersion >= 4 then WholeSignature(a.signature) else [])
  }

  /** Below version 3 the command line is split over two fields, from version 3 on it has one. */
  function ReadCmdline(image: seq<byte>): seq<byte> {
    if U32At(image, 40) >= 3 then UpToNul(Sub(image, 44, BOOT_ARGS_SIZE + BOOT_EXTRA_ARGS_SIZE))
    else UpToNul(Sub(image, 64, BOOT_ARGS_SIZE)) + UpToNul(Sub(image, 608, BOOT_EXTRA_ARGS_SIZE))
  }

  lemma OldNumbers(content: seq<byte>, placed: set<Placed>, a: BootArgs)
    requires Readable(content, placed) && a.Parsed() && OldOutcome(a).Pass?
    requires LoadsIn(placed, a) && SecondsIn(placed, a) && NamesIn(placed, a)
    ensures U32At(content, 8) == FileSize(a.kernel) && U32At(content, 16) == FileSize(a.ramdisk)
    ensures U32At(content, 24) == FileSize(a.second) && U32At(content, 36) == a.pageSize
    ensures U32At(content, 40) == a.headerVersion
  {
    NumberIn(content, placed, 8, FileSize(a.kernel));
    NumberIn(content, placed, 16, FileSize(a.ramdisk));
    NumberIn(content, placed, 24, FileSize(a.second));
    NumberIn(content, placed, 36, a.pageSize);
    NumberIn(content, placed, 40, a.headerVersion);
  }

  lemma LoadersRead(content: seq<byte>, placed: set<Placed>, a: BootArgs)
    requires Readable(content, placed) && PageSize(a.DataPage()) && LoadersIn(placed, a)
    ensures Sub(content, a.DataPage(), FileSize(a.kernel)) == FileBytes(a.kernel)
    ensures Sub(content, RamdiskAt(a), FileSize(a.ramdisk)) == FileBytes(a.ramdisk)
    ensures Sub(content, SecondAt(a), FileSize(a.second)) == FileBytes(a.second)
  {
    FileReads(content, placed, a.DataPage(), a.kernel, a.DataPage());
    FileReads(content, placed, RamdiskAt(a), a.ramdisk, a.DataPage());
    FileReads(content, placed, SecondAt(a), a.second, a.DataPage());
  }

  /** The recovery dtbo is at the offset and of the size that the header gives. */
  lemma DtboReads(content: seq<byte>, placed: set<Placed>, a: BootArgs)
    requires Readable(content, placed) && a.Parsed() && 0 < a.headerVersion < 3
    requires DtboIn(placed, a) && FileIn(placed, DtboAt(a), a.recoveryDtbo, a.DataPage())
    ensures U32At(content, 1632) == FileSize(a.recoveryDtbo)
    ensures U64At(content, 1636) == if a.recoveryDtbo.Some? then DtboAt(a) else 0
    ensures Sub(content, U64At(content, 1636), FileSize(a.recoveryDtbo)) == FileBytes(a.recoveryDtbo)
  {
    RecoveryDtboOffsetIsPosition(a);
    NumberIn(content, placed, 1632, FileSize(a.recoveryDtbo));
    NumberIn(content, placed, 1636, if a.recoveryDtbo.Some? then DtboAt(a) else 0);
    FileReads(content, placed, DtboAt(a), a.recoveryDtbo, a.DataPage());
  }

  lemma DtbReads(content: seq<byte>, placed: set<Placed>, a: BootArgs)
    requires Readable(content, placed) && a.Parsed() && a.headerVersion == 2
    requires DtbIn(placed, a) && FileIn(placed, DtbAt(a), a.dtb, a.DataPage())
    ensures U32At(content, 1648) == FileSize(a.dtb) && Sub(content, DtbAt(a), FileSize(a.dtb)) == FileBytes(a.dtb)
  {
    NumberIn(content, placed, 1648, FileSize(a.dtb));
    FileReads(content, placed, DtbAt(a), a.dtb, a.DataPage());
  }

  /** What is read is what was supplied, once every number and every section is. */
  lemma OldSections(content: seq<byte>, a: BootArgs)
    requires a.Parsed() && 0 <= a.headerVersion < 3
    requires U32At(content, 36) == a.pageSize && U32At(content, 40) == a.headerVersion
    requires U32At(content, 8) == FileSize(a.kernel) && U32At(content, 16) == FileSize(a.ramdisk)
    requires U32At(content, 24) == FileSize(a.second)
    requires a.headerVersion > 0 ==> U32At(content, 1632) == FileSize(a.recoveryDtbo)
    requires a.headerVersion > 1 ==> U32At(content, 1648) == FileSize(a.dtb)
    ensures ReadOld(content) == Sections(
              Sub(content, a.pageSize, FileSize(a.kernel)), Sub(content, RamdiskAt(a), FileSize(a.ramdisk)),
              Sub(content, SecondAt(a), FileSize(a.second)),
              if a.headerVersion > 0 then Sub(content, U64At(content, 1636), FileSize(a.recoveryDtbo)) else [],
              if a.headerVersion > 1 then Sub(content, DtbAt(a), FileSize(a.dtb)) else [], [])
  {
  }

  lemma OldReads(content: seq<byte>, placed: set<Placed>, a: BootArgs, digest: seq<byte>)
    requires Readable(content, placed) && a.Parsed() && OldOutcome(a).Pass? && a.headerVersion < 3
    requires OldHeaderIn(placed, a, digest) && DataIn(placed, a)
    ensures U32At(content, 40) == a.headerVersion && ReadOld(content) == Supplied(a)
  {
    OldNumbers(content, placed, a);
    LoadersRead(content, placed, a);
    if a.headerVersion > 0 {
      DtboReads(content, placed, a);
      if a.headerVersion == 2 {
        DtbReads(content, placed, a);
      }
    }
    OldSections(content, a);
  }

  lemma SignatureAligned(a: BootArgs)
    requires a.headerVersion >= 3
    ensures PageSize(a.DataPage()) && Aligned(DtbAt(a), a.DataPage())
  {
    var page := a.DataPage();
    assert Aligned(0, page) && Aligned(page, page);
    PaddingMeetsPages(page, FileSize(a.kernel), page);
    PaddingMeetsPages(RamdiskAt(a), FileSize(a.ramdisk), page);
    PaddingMeetsPages(SecondAt(a), FileSize(a.second), page);
  }

  lemma RestOfPage(at: nat, n: nat, page: nat)
    requires PageSize(page) && Aligned(at, page) && 0 < n <= page
    ensures Padding(at + n, page) == page - n
  {
    PaddingMeetsPages(at, n, page);
  }

  lemma JoinedSubs(content: seq<byte>, at: nat, n: nat, more: nat)
    requires at + n + more <= |content|
    ensures Sub(content, at, n + more) == Sub(content, at, n) + Sub(content, at + n, more)
  {
    assert content[at..at + n + more] == content[at..at + n] + content[at + n..at + n + more];
  }

  /** A file of at most a page, read together with its padding. */
  lemma PageReads(content: seq<byte>, placed: set<Placed>, at: nat, data: seq<byte>, page: nat)
    requires Readable(content, placed) && PageSize(page) && Aligned(at, page)
    requires FileIn(placed, at, Some(data), page) && 0 < |data| <= page
    ensures Sub(content, at, page) == Fixed(data, page)
  {
    var n := |data|;
    RestOfPage(at, n, page);
    assert FieldAt(content, at, Raw(data)) && FieldAt(content, at + n, Raw(Zeros(page - n)));
    JoinedSubs(content, at, n, page - n);
  }

  lemma SignatureReads(content: seq<byte>, placed: set<Placed>, a: BootArgs)
    requires Readable(content, placed) && a.headerVersion >= 4 && FileSize(a.signature) <= SIGNATURE_SIZE
    requires PageSize(a.DataPage()) && DataIn(placed, a) && |content| == ImageSize(a)
    ensures Sub(content, DtbAt(a), SIGNATURE_SIZE) == WholeSignature(a.signature)
  {
    SignatureAligned(a);
    if Signature(a.signature) != [] {
      PageReads(content, placed, DtbAt(a), Signature(a.signature), a.DataPage());
    }
  }

  /** Versions 3 and 4: what a reader finds once the numbers are right. */
  lemma NewSections(content: seq<byte>, a: BootArgs)
    requires a.headerVersion >= 3 && a.second.None? && U32At(content, 40) == a.headerVersion
    requires U32At(content, 8) == FileSize(a.kernel) && U32At(content, 12) == FileSize(a.ramdisk)
    requires a.headerVersion >= 4 ==> U32At(content, 1580) == SIGNATURE_SIZE
    ensures PageSize(a.DataPage())
    ensures ReadNew(content) == Sections(
              Sub(content, a.DataPage(), FileSize(a.kernel)), Sub(content, RamdiskAt(a), FileSize(a.ramdisk)), [], [], [],
              if a.headerVersion >= 4 then Sub(content, DtbAt(a), SIGNATURE_SIZE) else [])
  {
  }

  lemma NewReads(content: seq<byte>, placed: set<Placed>, a: BootArgs)
    requires Readable(content, placed) && a.Parsed() && ImageOutcome(a).Pass? && 3 <= a.headerVersion
    requires NewHeaderIn(placed, a) && DataIn(placed, a) && |content| == ImageSize(a)
    ensures U32At(content, 40) == a.headerVersion && ReadNew(content) == Supplied(a)
  {
    NumberIn(content, placed, 8, FileSize(a.kernel));
    NumberIn(content, placed, 12, FileSize(a.ramdisk));
    NumberIn(content, placed, 40, a.headerVersion);
    NumberIn(content, placed, 1580, SIGNATURE_SIZE);
    LoadersRead(content, placed, a);
    if a.headerVersion >= 4 {
      SignatureReads(content, placed, a);
    }
    NewSections(content, a);
  }

  /** A reader that sees only the header recovers every section as supplied. */
  lemma ImageReads(content: seq<byte>, placed: set<Placed>, a: BootArgs, digest: seq<byte>)
    requires Readable(content, placed) && a.Parsed() && ImageOutcome(a).Pass?
    requires HeaderIn(placed, a, digest) && DataIn(placed, a) && |content| == ImageSize(a)
    ensures ReadImage(content) == Supplied(a)
  {
    if a.headerVersion >= 3 {
      NewReads(content, placed, a);
    } else {
      OldReads(content, placed, a, digest);
    }
  }

  // ---------- The bytes of a header ----------

  ghost predicate OldSizesAre(image: seq<byte>, a: BootArgs) {
    && Sub(image, 0, 8) == Ascii("ANDROID!")
    && U32At(image, 8) == |FileBytes(a.kernel)| && U32At(image, 12) == a.base + a.kernelOffset
    && U32At(image, 16) == |FileBytes(a.ramdisk)|
    && U32At(image, 20) == (if |FileBytes(a.ramdisk)| > 0 then a.base + a.ramdiskOffset else 0)
    && U32At(image, 24) == |FileBytes(a.second)|
    && U32At(image, 28) == (if |FileBytes(a.second)| > 0 then a.base + a.secondOffset else 0)
  }

  ghost predicate OldNamesAre(image: seq<byte>, a: BootArgs, digest: seq<byte>) {
    && U32At(image, 32) == a.base + a.tagsOffset && U32At(image, 36) == a.pageSize
    && U32At(image, 40) == a.headerVersion && U32At(image, 44) == a.osVersion * 2048 + a.osPatchLevel
    && Sub(image, 48, 16) == Fixed(a.board, 16) && Sub(image, 64, 512) == Fixed(a.cmdline, 512)
    && Sub(image, 576, 32) == Fixed(digest, 32) && Sub(image, 608, 1024) == Fixed(a.extraCmdline, 1024)
  }

  /** Behind the header's page and the pages of kernel, ramdisk and second. */
  ghost function AfterSecond(a: BootArgs): nat
    requires PageSize(a.pageSize)
  {
    a.pageSize + Spread(|FileBytes(a.kernel)|, a.pageSize) + Spread(|FileBytes(a.ramdisk)|, a.pageSize)
    + Spread(|FileBytes(a.second)|, a.pageSize)
  }

  /** Version 1 adds the recovery dtbo and the header's own size, version 2 also the dtb; zeros fill the page. */
  ghost predicate OldTreesAre(image: seq<byte>, a: BootArgs)
    requires PageSize(a.pageSize)
  {
    && (a.headerVersion > 0 ==>
          && U32At(image, 1632) == |FileBytes(a.recoveryDtbo)|
          && U64At(image, 1636) == (if a.recoveryDtbo.Some? then AfterSecond(a) else 0)
          && U32At(image, 1644) == (if a.headerVersion == 1 then 1648 else 1660))
    && (a.headerVersion > 1 ==> U32At(image, 1648) == |FileBytes(a.dtb)| && U64At(image, 1652) == a.base + a.dtbOffset)
    && var end := if a.headerVersion <= 0 then 1632 else if a.headerVersion == 1 then 1648 else 1660;
       Sub(image, end, a.pageSize - end) == Zeros(a.pageSize - end)
  }

  ghost predicate NewFieldsAre(image: seq<byte>, a: BootArgs) {
    && Sub(image, 0, 8) == Ascii("ANDROID!")
    && U32At(image, 8) == |FileBytes(a.kernel)| && U32At(image, 12) == |FileBytes(a.ramdisk)|
    && U32At(image, 16) == a.osVersion * 2048 + a.osPatchLevel
    && U32At(image, 20) == (if a.headerVersion == 4 then 1584 else 1580)
    && Sub(image, 24, 16) == Zeros(16) && U32At(image, 40) == a.headerVersion
    && Sub(image, 44, 1536) == Fixed(a.cmdline, 1536)
  }

  /** Version 4 adds the size of the signature; zeros fill the page. */
  ghost predicate NewEndIs(image: seq<byte>, a: BootArgs) {
    if a.headerVersion == 4 then U32At(image, 1580) == 4096 && Sub(image, 1584, 2512) == Zeros(2512)
    else Sub(image, 1580, 2516) == Zeros(2516)
  }

  /** The header byte by byte. */
  ghost predicate HeaderIs(image: seq<byte>, a: BootArgs, digest: seq<byte>)
    requires PageSize(a.pageSize)
  {
    if a.headerVersion < 3 then OldSizesAre(image, a) && OldNamesAre(image, a, digest) && OldTreesAre(image, a)
    else NewFieldsAre(image, a) && NewEndIs(image, a)
  }

  lemma OldSizesRead(content: seq<byte>, placed: set<Placed>, a: BootArgs)
    requires Readable(content, placed) && LoadsIn(placed, a) && SecondsIn(placed, a)
    ensures OldSizesAre(content, a)
  {
    BytesIn(content, placed, 0, Text(BOOT_MAGIC, 8));
    WordIn(content, placed, 8, FileSize(a.kernel));
    WordIn(content, placed, 12, a.base + a.kernelOffset);
    WordIn(content, placed, 16, FileSize(a.ramdisk));
    WordIn(content, placed, 20, a.RamdiskAddress());
    WordIn(content, placed, 24, FileSize(a.second));
    WordIn(content, placed, 28, a.SecondAddress());
  }

  lemma OldNamesRead(content: seq<byte>, placed: set<Placed>, a: BootArgs, digest: seq<byte>)
    requires Readable(content, placed) && SecondsIn(placed, a) && NamesIn(placed, a) && DigestIn(placed, a, digest)
    ensures OldNamesAre(content, a, digest)
  {
    WordIn(content, placed, 32, a.base + a.tagsOffset);
    WordIn(content, placed, 36, a.pageSize);
    WordIn(content, placed, 40, a.headerVersion);
    WordIn(content, placed, 44, a.OsWord());
    BytesIn(content, placed, 48, Text(a.board, 16));
    BytesIn(content, placed, 64, Text(a.cmdline, BOOT_ARGS_SIZE));
    BytesIn(content, placed, 576, Text(digest, 32));
    BytesIn(content, placed, 608, Text(a.extraCmdline, BOOT_EXTRA_ARGS_SIZE));
  }

  lemma OldTreesRead(content: seq<byte>, placed: set<Placed>, a: BootArgs, digest: seq<byte>)
    requires Readable(content, placed) && a.Parsed() && a.headerVersion < 3 && OldHeaderIn(placed, a, digest)
    ensures OldTreesAre(content, a)
  {
    if a.headerVersion > 0 {
      RecoveryDtboOffsetIsPosition(a);
      WordIn(content, placed, 1632, FileSize(a.recoveryDtbo));
      LongIn(content, placed, 1636, if a.recoveryDtbo.Some? then DtboAt(a) else 0);
      WordIn(content, placed, 1644, OldHeaderSize(a));
    }
    if a.headerVersion > 1 {
      WordIn(content, placed, 1648, FileSize(a.dtb));
      LongIn(content, placed, 1652, a.base + a.dtbOffset);
    }
    BytesIn(content, placed, OldHeaderSize(a), Raw(Zeros(a.pageSize - OldHeaderSize(a))));
  }

  lemma NewFieldsRead(content: seq<byte>, placed: set<Placed>, a: BootArgs)
    requires Readable(content, placed) && 3 <= a.headerVersion <= 4 && NewHeaderIn(placed, a)
    ensures NewFieldsAre(content, a)
  {
    BytesIn(content, placed, 0, Text(BOOT_MAGIC, 8));
    WordIn(content, placed, 8, FileSize(a.kernel));
    WordIn(content, placed, 12, FileSize(a.ramdisk));
    WordIn(content, placed, 16, a.OsWord());
    WordIn(content, placed, 20, NewHeaderSize(a));
    BytesIn(content, placed, 24, Raw(Zeros(16)));
    WordIn(content, placed, 40, a.headerVersion);
    BytesIn(content, placed, 44, Text(a.cmdline, BOOT_ARGS_SIZE + BOOT_EXTRA_ARGS_SIZE));
  }

  lemma NewEndReads(content: seq<byte>, placed: set<Placed>, a: BootArgs)
    requires Readable(content, placed) && 3 <= a.headerVersion <= 4 && NewHeaderIn(placed, a)
    ensures NewEndIs(content, a)
  {
    if a.headerVersion == 4 {
      WordIn(content, placed, 1580, SIGNATURE_SIZE);
    }
    BytesIn(content, placed, NewHeaderSize(a), Raw(Zeros(HEADER_V3_PAGE - NewHeaderSize(a))));
  }

  /** Every field of every version is where the format puts it, with its value. */
  lemma HeaderReads(content: seq<byte>, placed: set<Placed>, a: BootArgs, digest: seq<byte>)
    requires Readable(content, placed) && a.Parsed() && a.headerVersion <= 4 && HeaderIn(placed, a, digest)
    ensures HeaderIs(content, a, digest)
  {
    if a.headerVersion < 3 {
      OldSizesRead(content, placed, a);
      OldNamesRead(content, placed, a, digest);
      OldTreesRead(content, placed, a, digest);
    } else {
      NewFieldsRead(content, placed, a);
      NewEndReads(content, placed, a);
    }
  }

  /** The command-line fields are what parsing makes of an argument. */
  ghost predicate ParsedFrom(a: BootArgs, arg: seq<byte>) {
    && AsciizBytes(arg, CmdlineSize(a.headerVersion)).Some?
    && if a.headerVersion < 3 then a.cmdline == FirstPart(arg + [0]) && a.extraCmdline == ExtraPart(arg + [0])
       else a.cmdline == arg + [0]
  }

  /** In every version the command line survives the header, exactly when it holds no zero byte. */
  lemma CmdlineReads(content: seq<byte>, placed: set<Placed>, a: BootArgs, digest: seq<byte>, arg: seq<byte>)
    requires Readable(content, placed) && PageSize(a.pageSize) && HeaderIn(placed, a, digest) && ParsedFrom(a, arg)
    ensures ReadCmdline(content) == arg <==> 0 !in arg
  {
    assert FieldAt(content, 40, U32(a.headerVersion));
    NumberIn(content, placed, 40, a.headerVersion);
    if a.headerVersion < 3 {
      assert FieldAt(content, 64, Text(a.cmdline, BOOT_ARGS_SIZE));
      assert FieldAt(content, 608, Text(a.extraCmdline, BOOT_EXTRA_ARGS_SIZE));
      SplitRoundTrip(arg);
    } else {
      assert FieldAt(content, 44, Text(a.cmdline, BOOT_ARGS_SIZE + BOOT_EXTRA_ARGS_SIZE));
      WholeRoundTrip(arg);
    }
  }

  // ---------- Writing ----------

  class Writer {
    const out: OutFile

    constructor (out: OutFile)
      ensures this.out == out
    {
      this.out := out;
    }

    method WriteLoads(a: BootArgs) returns (outcome: Outcome)
      requires out.Valid() && |out.content| == 0
      modifies out
      ensures out.Valid() && outcome == (if LoadsFit(a) then Pass else Fail(StructError))
      ensures outcome.Pass? ==> |out.content| == 24 && old(out.placed) <= out.placed && LoadsIn(out.placed, a)
    {
      out.WriteText(BOOT_MAGIC, 8);
      :- out.Pack(U32(FileSize(a.kernel)));
      :- out.Pack(U32(a.base + a.kernelOffset));
      :- out.Pack(U32(FileSize(a.ramdisk)));
      :- out.Pack(U32(a.RamdiskAddress()));
      outcome := Pass;
    }

    method WriteSeconds(a: BootArgs) returns (outcome: Outcome)
      requires out.Valid() && |out.content| == 24 && PageSize(a.pageSize)
      modifies out
      ensures out.Valid() && outcome == (if SecondsFit(a) then Pass else Fail(StructError))
      ensures outcome.Pass? ==> |out.content| == 40 && old(out.placed) <= out.placed && SecondsIn(out.placed, a)
    {
      outcome := Pass;
      :- out.Pack(U32(FileSize(a.second)));
      :- out.Pack(U32(a.SecondAddress()));
      :- out.Pack(U32(a.base + a.tagsOffset));
      var _ := out.Pack(U32(a.pageSize));
    }

    method WriteNames(a: BootArgs) returns (outcome: Outcome)
      requires out.Valid() && |out.content| == 40
      modifies out
      ensures out.Valid()
      ensures outcome == if Fits32(a.headerVersion) && Fits32(a.OsWord()) then Pass else Fail(StructError)
      ensures outcome.Pass? ==> |out.content| == 576 && old(out.placed) <= out.placed && NamesIn(out.placed, a)
    {
      outcome := Pass;
      :- out.Pack(U32(a.headerVersion));
      :- out.Pack(U32(a.OsWord()));
      out.WriteText(a.board, 16);
      out.WriteText(a.cmdline, BOOT_ARGS_SIZE);
    }

    /** The sizes hashed beside each section are packed too. */
    method WriteDigest(a: BootArgs, digest: seq<byte>) returns (outcome: Outcome)
      requires out.Valid() && |out.content| == 576
      modifies out
      ensures out.Valid() && outcome == (if HashedFit(a) then Pass else Fail(StructError))
      ensures (outcome.Pass? ==>
                |out.content| == 1632 && old(out.placed) <= out.placed && DigestIn(out.placed, a, digest))
    {
      if a.headerVersion > 0 && !Fits32(FileSize(a.recoveryDtbo)) {
        return Fail(StructError);
      }
      if a.headerVersion > 1 && !Fits32(FileSize(a.dtb)) {
        return Fail(StructError);
      }
      out.WriteText(digest, 32);
      out.WriteText(a.extraCmdline, BOOT_EXTRA_ARGS_SIZE);
      outcome := Pass;
    }

    method WriteCommon(a: BootArgs, digest: seq<byte>) returns (outcome: Outcome)
      requires out.Valid() && a.Parsed() && |out.content| == 0
      modifies out
      ensures out.Valid() && outcome == (if SizesFit(a) then Pass else Fail(StructError))
      ensures outcome.Pass? ==> |out.content| == 1632 && CommonIn(out.placed, a, digest)
    {
      outcome := Pass;
      :- WriteLoads(a);
      :- WriteSeconds(a);
      :- WriteNames(a);
      outcome := WriteDigest(a, digest);
    }

    method WriteDtbo(a: BootArgs)
      requires out.Valid() && a.Parsed() && SizesFit(a) && 0 < a.headerVersion < 3 && |out.content| == 1632
      modifies out
      ensures out.Valid() && |out.content| == 1648 && old(out.placed) <= out.placed && DtboIn(out.placed, a)
    {
      OffsetPacked(a);
      if a.recoveryDtbo.Some? {
        var _ := out.Pack(U32(FileSize(a.recoveryDtbo)));
        var _ := out.Pack(U64(RecoveryDtboOffset(a)));
      } else {
        var _ := out.Pack(U32(0));
        var _ := out.Pack(U64(0));
      }
      if a.headerVersion == 1 {
        var _ := out.Pack(U32(1648));
      } else {
        var _ := out.Pack(U32(1660));
      }
    }

    method WriteDtb(a: BootArgs) returns (outcome: Outcome)
      requires out.Valid() && Fits32(FileSize(a.dtb)) && |out.content| == 1648
      modifies out
      ensures out.Valid() && outcome == DtbOutcome(a)
      ensures outcome.Pass? ==> |out.content| == 1660 && old(out.placed) <= out.placed && DtbIn(out.placed, a)
    {
      if FileSize(a.dtb) == 0 {
        return Fail(EmptyDtb);
      }
      var _ := out.Pack(U32(FileSize(a.dtb)));
      :- out.Pack(U64(a.base + a.dtbOffset));
      outcome := Pass;
    }

    method WriteOldFields(a: BootArgs, digest: seq<byte>) returns (outcome: Outcome)
      requires out.Valid() && a.Parsed() && |out.content| == 0 && a.headerVersion < 3
      modifies out
      ensures out.Valid() && outcome == OldOutcome(a)
      ensures outcome.Pass? ==> |out.content| == OldHeaderSize(a) && OldFieldsIn(out.placed, a, digest)
    {
      outcome := WriteCommon(a, digest);
      if outcome.Pass? && a.headerVersion > 0 {
        ghost var before := out.placed;
        WriteDtbo(a);
        CommonStaysIn(before, out.placed, a, digest);
        if a.headerVersion > 1 {
          before := out.placed;
          outcome := WriteDtb(a);
          if outcome.Pass? {
            CommonStaysIn(before, out.placed, a, digest);
          }
        }
      }
    }

    method WriteOldHeader(a: BootArgs, digest: seq<byte>) returns (outcome: Outcome)
      requires out.Valid() && a.Parsed() && |out.content| == 0 && a.headerVersion < 3
      modifies out
      ensures out.Valid() && outcome == OldOutcome(a)
      ensures outcome.Pass? ==> |out.content| == a.pageSize && OldHeaderIn(out.placed, a, digest)
    {
      outcome := Pass;
      :- WriteOldFields(a, digest);
      OnePage(|out.content|, a.pageSize);
      out.PadFile(a.pageSize);
    }

    method WriteNewLoads(a: BootArgs) returns (outcome: Outcome)
      requires out.Valid() && |out.content| == 0
      modifies out
      ensures out.Valid() && outcome == NewOutcome(a)
      ensures outcome.Pass? ==> |out.content| == 24 && NewLoadsIn(out.placed, a)
    {
      out.WriteText(BOOT_MAGIC, 8);
      :- out.Pack(U32(FileSize(a.kernel)));
      :- out.Pack(U32(FileSize(a.ramdisk)));
      :- out.Pack(U32(a.OsWord()));
      if a.headerVersion > 3 {
        var _ := out.Pack(U32(1584));
      } else {
        var _ := out.Pack(U32(1580));
      }
      outcome := Pass;
    }

    method WriteNewHeader(a: BootArgs) returns (outcome: Outcome)
      requires out.Valid() && a.Parsed() && |out.content| == 0 && 3 <= a.headerVersion <= 4
      modifies out
      ensures out.Valid() && outcome == NewOutcome(a)
      ensures outcome.Pass? ==> |out.content| == HEADER_V3_PAGE && NewHeaderIn(out.placed, a)
    {
      outcome := Pass;
      :- WriteNewLoads(a);
      out.Write(Zeros(16));
      var _ := out.Pack(U32(a.headerVersion));
      out.WriteText(a.cmdline, BOOT_ARGS_SIZE + BOOT_EXTRA_ARGS_SIZE);
      if a.headerVersion >= 4 {
        var _ := out.Pack(U32(SIGNATURE_SIZE));
      }
      OnePage(|out.content|, HEADER_V3_PAGE);
      out.PadFile(HEADER_V3_PAGE);
    }

    method WriteHeader(a: BootArgs, digest: seq<byte>) returns (outcome: Outcome)
      requires out.Valid() && a.Parsed() && |out.content| == 0
      modifies out
      ensures out.Valid() && outcome == HeaderOutcome(a)
      ensures outcome.Pass? ==> |out.content| == a.DataPage() && HeaderIn(out.placed, a, digest)
    {
      if a.headerVersion > 4 {
        return Fail(UnsupportedVersion);
      }
      if a.headerVersion == 3 || a.headerVersion == 4 {
        outcome := WriteNewHeader(a);
      } else {
        outcome := WriteOldHeader(a, digest);
      }
    }

    /** Without a key the signature is all zeros; with one it is given. */
    method AddSignature(signature: File, page: nat) returns (outcome: Outcome)
      requires out.Valid() && PageSize(page) && Aligned(|out.content|, page)
      modifies out
      ensures out.Valid() && outcome == (if FileSize(signature) > SIGNATURE_SIZE then Fail(SignatureTooLong) else Pass)
      ensures (outcome.Pass? ==>
                && old(out.placed) <= out.placed
                && FileIn(out.placed, |old(out.content)|, Some(Signature(signature)), page)
                && |out.content| == |old(out.content)| + Spread(|Signature(signature)|, page))
    {
      PaddingMeetsPages(|out.content|, |Signature(signature)|, page);
      if signature.None? {
        out.Write(Zeros(SIGNATURE_SIZE));
        out.PadFile(page);
        return Pass;
      }
      if FileSize(signature) > SIGNATURE_SIZE {
        return Fail(SignatureTooLong);
      }
      out.WritePaddedFile(signature, page);
      outcome := Pass;
    }

    method WriteLoaders(a: BootArgs, page: nat)
      requires out.Valid() && PageSize(page) && page == a.DataPage() == |out.content|
      modifies out
      ensures out.Valid() && old(out.placed) <= out.placed && LoadersIn(out.placed, a)
      ensures |out.content| == DtboAt(a) && Aligned(|out.content|, page)
    {
      assert Aligned(0, page) && Aligned(page, page);
      out.WritePaddedFile(a.kernel, page);
      ghost var one := out.placed;
      out.WritePaddedFile(a.ramdisk, page);
      ghost var two := out.placed;
      FileStaysIn(one, two, page, a.kernel, page);
      out.WritePaddedFile(a.second, page);
      FileStaysIn(two, out.placed, page, a.kernel, page);
      FileStaysIn(two, out.placed, RamdiskAt(a), a.ramdisk, page);
    }

    /** The device trees of versions 1 and 2. */
    method WriteTrees(a: BootArgs, page: nat)
      requires out.Valid() && PageSize(page) && page == a.DataPage()
      requires |out.content| == DtboAt(a) && Aligned(|out.content|, page)
      modifies out
      ensures out.Valid() && old(out.placed) <= out.placed && TreesIn(out.placed, a)
      ensures |out.content| == (if a.headerVersion < 4 then ImageSize(a) else DtbAt(a)) && Aligned(|out.content|, page)
    {
      if a.headerVersion > 0 && a.headerVersion < 3 {
        out.WritePaddedFile(a.recoveryDtbo, page);
      }
      if a.headerVersion == 2 {
        out.WritePaddedFile(a.dtb, page);
      }
    }

    method WriteData(a: BootArgs, page: nat) returns (outcome: Outcome)
      requires out.Valid() && PageSize(page) && page == a.DataPage() == |out.content|
      modifies out
      ensures out.Valid()
      ensures outcome == if a.headerVersion >= 4 && FileSize(a.signature) > SIGNATURE_SIZE then Fail(SignatureTooLong)
                         else Pass
      ensures (outcome.Pass? ==>
                old(out.placed) <= out.placed && DataIn(out.placed, a) && |out.content| == ImageSize(a))
    {
      WriteLoaders(a, page);
      ghost var one := out.placed;
      WriteTrees(a, page);
      ghost var two := out.placed;
      outcome := Pass;
      if a.headerVersion >= 4 {
        outcome := AddSignature(a.signature, page);
      }
      if outcome.Pass? {
        LoadersStayIn(one, out.placed, a);
        TreesStayIn(two, out.placed, a);
      }
    }

    /** Writes the whole image; a reader of its header finds every section. */
    method WriteImage(a: BootArgs, digest: seq<byte>) returns (outcome: Outcome)
      requires out.Valid() && a.Parsed() && |out.content| == 0
      modifies out
      ensures out.Valid() && outcome == ImageOutcome(a) == Refusal(a)
      ensures (outcome.Pass? ==>
                && |out.content| == ImageSize(a) == WholePages(a)
                && HeaderIn(out.placed, a, digest) && DataIn(out.placed, a))
      ensures outcome.Pass? ==> HeaderIs(out.content, a, digest) && ReadImage(out.content) == Supplied(a)
    {
      RefusedExactly(a);
      SizeIsWholePages(a);
      if a.second.Some? && a.headerVersion > 2 {
        return Fail(SecondNotSupported);
      }
      :- WriteHeader(a, digest);
      outcome := WriteData(a, if a.headerVersion > 2 then HEADER_V3_PAGE else a.pageSize);
      if outcome.Pass? {
        HeaderReads(out.content, out.placed, a, digest);
        ImageReads(out.content, out.placed, a, digest);
      }
    }
  }
}
