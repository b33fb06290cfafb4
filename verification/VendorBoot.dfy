/**
 The vendor boot image: a header, the ramdisk fragments, the dtb, the fragment table and the bootconfig, each padded to
 whole pages; a reader of header fields alone recovers all of them.
 */
module VendorBoot {
  import opened BootBytes
  import opened RamdiskTable

  const VENDOR_BOOT_MAGIC: seq<byte> := Ascii("VNDRBOOT")
  const ARGS_SIZE: nat := 2048

  datatype VendorArgs = VendorArgs(
    headerVersion: int, pageSize: nat,
    base: int, kernelOffset: int, ramdiskOffset: int, tagsOffset: int, dtbOffset: int,
    vendorCmdline: seq<byte>, board: seq<byte>, dtb: File, bootconfig: File, vendorRamdisk: File)
  {
    function HeaderSize(): nat { if headerVersion > 3 then 2128 else 2112 }
  }

  /** The fragment table as the header and the data use it. */
  datatype Contents = Contents(entries: seq<Entry>, total: nat)

  function RamdiskSize(a: VendorArgs, t: Contents): nat {
    if a.headerVersion > 3 then t.total else FileSize(a.vendorRamdisk)
  }

  // ---------- Where everything is ----------

  ghost predicate AddressesIn(placed: set<Placed>, a: VendorArgs) {
    && Placed(0, Text(VENDOR_BOOT_MAGIC, 8)) in placed
    && Placed(8, U32(a.headerVersion)) in placed && Placed(12, U32(a.pageSize)) in placed
    && Placed(16, U32(a.base + a.kernelOffset)) in placed && Placed(20, U32(a.base + a.ramdiskOffset)) in placed
  }

  ghost predicate NamesIn(placed: set<Placed>, a: VendorArgs, t: Contents) {
    && Placed(24, U32(RamdiskSize(a, t))) in placed && Placed(28, Text(a.vendorCmdline, ARGS_SIZE)) in placed
    && Placed(2076, U32(a.base + a.tagsOffset)) in placed && Placed(2080, Text(a.board, 16)) in placed
  }

  ghost predicate DtbIn(placed: set<Placed>, a: VendorArgs) {
    && Placed(2096, U32(a.HeaderSize())) in placed && Placed(2100, U32(FileSize(a.dtb))) in placed
    && Placed(2104, U64(a.base + a.dtbOffset)) in placed
  }

  function TableSize(t: Contents): nat {
    |t.entries| * ENTRY_SIZE
  }

  /** Version 4. */
  ghost predicate TableIn(placed: set<Placed>, a: VendorArgs, t: Contents) {
    && Placed(2112, U32(TableSize(t))) in placed && Placed(2116, U32(|t.entries|)) in placed
    && Placed(2120, U32(ENTRY_SIZE)) in placed && Placed(2124, U32(FileSize(a.bootconfig))) in placed
  }

  ghost predicate HeaderIn(placed: set<Placed>, a: VendorArgs, t: Contents) {
    && AddressesIn(placed, a) && NamesIn(placed, a, t) && DtbIn(placed, a)
    && (a.headerVersion > 3 ==> TableIn(placed, a, t))
  }

  function RamdiskAt(a: VendorArgs): nat
    requires PageSize(a.pageSize)
  {
    Spread(a.HeaderSize(), a.pageSize)
  }

  function DtbAt(a: VendorArgs, t: Contents): nat
    requires PageSize(a.pageSize)
  {
    RamdiskAt(a) + Spread(RamdiskSize(a, t), a.pageSize)
  }

  function TableAt(a: VendorArgs, t: Contents): nat
    requires PageSize(a.pageSize)
  {
    DtbAt(a, t) + Spread(FileSize(a.dtb), a.pageSize)
  }

  function BootconfigAt(a: VendorArgs, t: Contents): nat
    requires PageSize(a.pageSize)
  {
    TableAt(a, t) + Spread(TableSize(t), a.pageSize)
  }

  ghost predicate DataIn(placed: set<Placed>, a: VendorArgs, t: Contents, files: Files)
    requires PageSize(a.pageSize)
  {
    && FileIn(placed, DtbAt(a, t), a.dtb, a.pageSize)
    && if a.headerVersion > 3 then
         && FragmentsIn(placed, RamdiskAt(a), t.entries, |t.entries|, files)
         && PaddingIn(placed, RamdiskAt(a) + t.total, a.pageSize)
         && EntriesIn(placed, TableAt(a, t), t.entries, |t.entries|)
         && PaddingIn(placed, TableAt(a, t) + TableSize(t), a.pageSize)
         && FileIn(placed, BootconfigAt(a, t), a.bootconfig, a.pageSize)
       else FileIn(placed, RamdiskAt(a), a.vendorRamdisk, a.pageSize)
  }

  /** Version 4: fragments and dtb stay where they are while the table and the bootconfig are written. */
  lemma DataTogether(before: set<Placed>, after: set<Placed>, a: VendorArgs, t: Contents, files: Files)
    requires before <= after && PageSize(a.pageSize) && a.headerVersion > 3
    requires FragmentsIn(before, RamdiskAt(a), t.entries, |t.entries|, files)
    requires PaddingIn(before, RamdiskAt(a) + t.total, a.pageSize) && FileIn(before, DtbAt(a, t), a.dtb, a.pageSize)
    requires EntriesIn(after, TableAt(a, t), t.entries, |t.entries|)
    requires PaddingIn(after, TableAt(a, t) + TableSize(t), a.pageSize)
    requires FileIn(after, BootconfigAt(a, t), a.bootconfig, a.pageSize)
    ensures DataIn(after, a, t, files)
  {
    FragmentsStayIn(before, after, RamdiskAt(a), t.entries, files);
    FileStaysIn(before, after, DtbAt(a, t), a.dtb, a.pageSize);
  }

  function ImageSize(a: VendorArgs, t: Contents): nat
    requires PageSize(a.pageSize)
  {
    if a.headerVersion > 3 then BootconfigAt(a, t) + Spread(FileSize(a.bootconfig), a.pageSize) else TableAt(a, t)
  }

  /** What an image of each version consists of. */
  ghost function WholePages(a: VendorArgs, t: Contents): nat
    requires PageSize(a.pageSize)
  {
    var p := a.pageSize;
    Spread(|FileBytes(a.dtb)|, p) +
    if a.headerVersion >= 4 then
      Spread(2128, p) + Spread(t.total, p) + Spread(|t.entries| * 108, p) + Spread(|FileBytes(a.bootconfig)|, p)
    else
      Spread(2112, p) + Spread(|FileBytes(a.vendorRamdisk)|, p)
  }

  lemma SizeIsWholePages(a: VendorArgs, t: Contents)
    requires PageSize(a.pageSize)
    ensures ImageSize(a, t) == WholePages(a, t)
  {
  }

  // ---------- When writing fails ----------

  predicate AddressesFit(a: VendorArgs) {
    Fits32(a.base + a.kernelOffset) && Fits32(a.base + a.ramdiskOffset)
  }

  predicate NamesFit(a: VendorArgs, t: Contents) {
    Fits32(RamdiskSize(a, t)) && Fits32(a.base + a.tagsOffset)
  }

  predicate DtbFits(a: VendorArgs) {
    Fits32(FileSize(a.dtb)) && Packed(U64(a.base + a.dtbOffset))
  }

  predicate TableFits(a: VendorArgs, t: Contents) {
    Fits32(TableSize(t)) && Fits32(FileSize(a.bootconfig))
  }

  predicate HeaderFits(a: VendorArgs, t: Contents) {
    && AddressesFit(a) && NamesFit(a, t) && DtbFits(a)
    && (a.headerVersion > 3 ==> TableFits(a, t))
  }

  function HeaderOutcome(a: VendorArgs, t: Contents): Outcome {
    if FileSize(a.dtb) == 0 then Fail(EmptyDtb) else if HeaderFits(a, t) then Pass else Fail(StructError)
  }

  predicate DataFits(a: VendorArgs, t: Contents) {
    a.headerVersion > 3 ==> EntriesFit(t.entries)
  }

  function ImageOutcome(a: VendorArgs, t: Contents): Outcome {
    if a.headerVersion != 3 && a.headerVersion != 4 then Fail(NotVendorVersion)
    else if a.headerVersion == 3 && a.vendorRamdisk.None? then Fail(MissingRamdisk)
    else if HeaderOutcome(a, t).Fail? then HeaderOutcome(a, t)
    else if DataFits(a, t) then Pass else Fail(StructError)
  }

  ghost predicate ValuesFit(a: VendorArgs, ramdiskSize: nat) {
    && Word(a.base + a.kernelOffset) && Word(a.base + a.ramdiskOffset) && Word(a.base + a.tagsOffset)
    && Word(ramdiskSize) && Word(|FileBytes(a.dtb)|) && 0 <= a.base + a.dtbOffset <= 0xFFFF_FFFF_FFFF_FFFF
  }

  ghost predicate TableValuesFit(a: VendorArgs, t: Contents) {
    && Word(|t.entries| * 108) && Word(|FileBytes(a.bootconfig)|)
    && forall k :: 0 <= k < |t.entries| ==>
         Word(t.entries[k].size) && Word(t.entries[k].offset) && Word(t.entries[k].kind)
  }

  /** Which images are refused, and for what; below version 4 no table is written. */
  ghost function Refusal(a: VendorArgs, t: Contents): Outcome {
    if a.headerVersion < 3 || a.headerVersion > 4 then Fail(NotVendorVersion)
    else if a.headerVersion == 3 && a.vendorRamdisk.None? then Fail(MissingRamdisk)
    else if |FileBytes(a.dtb)| == 0 then Fail(EmptyDtb)
    else if ValuesFit(a, if a.headerVersion == 4 then t.total else |a.vendorRamdisk.value|)
         && (a.headerVersion == 4 ==> TableValuesFit(a, t)) then Pass
    else Fail(StructError)
  }

  lemma RefusedExactly(a: VendorArgs, t: Contents)
    ensures ImageOutcome(a, t) == Refusal(a, t)
  {
  }

  // ---------- Reading ----------

  datatype EntryRead = EntryRead(size: nat, offset: nat, kind: nat, name: seq<byte>, boardId: seq<nat>)

  datatype Sections = Sections(fragments: seq<seq<byte>>, dtb: seq<byte>, entries: seq<EntryRead>, bootconfig: seq<byte>)

  function ReadEntry(image: seq<byte>, at: nat): EntryRead {
    EntryRead(U32At(image, at), U32At(image, at + 4), U32At(image, at + 8), Strip(Sub(image, at + 12, NAME_SIZE)),
      seq(BOARD_ID_SIZE, i requires 0 <= i < BOARD_ID_SIZE => U32At(image, at + 44 + 4 * i)))
  }

  function ReadEntries(image: seq<byte>, at: nat, count: nat, width: nat): (es: seq<EntryRead>)
    ensures |es| == count
  {
    seq(count, i requires 0 <= i < count => ReadEntry(image, at + width * i))
  }

  function ReadFragments(image: seq<byte>, start: nat, es: seq<EntryRead>): (fs: seq<seq<byte>>)
    ensures |fs| == |es|
  {
    seq(|es|, i requires 0 <= i < |es| => Sub(image, start + es[i].offset, es[i].size))
  }

  /** Finds everything from header fields and page rounding. */
  function ReadVendor(image: seq<byte>): Sections {
    var version, page := U32At(image, 8), U32At(image, 12);
    if page == 0 then Sections([], [], [], []) else
      var start := Spread(U32At(image, 2096), page);
      var dtbAt := start + Spread(U32At(image, 24), page);
      var dtb := Sub(image, dtbAt, U32At(image, 2100));
      if version > 3 then
        var tableAt := dtbAt + Spread(U32At(image, 2100), page);
        var bootconfigAt := tableAt + Spread(U32At(image, 2112), page);
        var es := ReadEntries(image, tableAt, U32At(image, 2116), U32At(image, 2120));
        Sections(ReadFragments(image, start, es), dtb, es, Sub(image, bootconfigAt, U32At(image, 2124)))
      else
        Sections([Sub(image, start, U32At(image, 24))], dtb, [], [])
  }

  /** An entry as supplied, its name without trailing zeros. */
  function EntrySupplied(e: Entry): EntryRead
    requires e.kind >= 0
  {
    EntryRead(e.size, e.offset, e.kind, Strip(e.name), e.boardId)
  }

  ghost function Supplied(a: VendorArgs, t: Contents, files: Files): Sections
    requires Stored(t.entries, files) && DataFits(a, t)
  {
    if a.headerVersion > 3 then
      Sections(seq(|t.entries|, k requires 0 <= k < |t.entries| => files[t.entries[k].path]), FileBytes(a.dtb),
        seq(|t.entries|, k requires 0 <= k < |t.entries| => EntrySupplied(t.entries[k])), FileBytes(a.bootconfig))
    else Sections([FileBytes(a.vendorRamdisk)], FileBytes(a.dtb), [], [])
  }

  lemma SubOfSub(image: seq<byte>, at: nat, size: nat, from: nat, n: nat)
    requires at + size <= |image| && from + n <= size
    ensures Sub(Sub(image, at, size), from, n) == Sub(image, at + from, n)
  {
    var whole := image[at..at + size];
    var part, direct := whole[from..from + n], image[at + from..at + from + n];
    forall k | 0 <= k < n ensures part[k] == direct[k] {
      assert part[k] == whole[from + k];
      assert direct[k] == image[at + (from + k)];
    }
    assert part == direct;
  }

  lemma WordReads(content: seq<byte>, placed: set<Placed>, at: nat, e: Entry, i: nat)
    requires Readable(content, placed) && EntryIn(placed, at, e) && GoodBoardId(e.boardId) && i < BOARD_ID_SIZE
    ensures U32At(content, at + 44 + 4 * i) == e.boardId[i]
  {
    var bytes := BoardBytes(e.boardId);
    assert FieldAt(content, at + 44, Raw(bytes));
    assert Sub(content, at + 44, |bytes|) == bytes;
    BoardReads(e.boardId, 0, i);
    assert U32At(bytes, 4 * i) == e.boardId[i];
    assert |bytes| == 64;
    SubOfSub(content, at + 44, |bytes|, 4 * i, 4);
    assert Sub(content, at + 44 + 4 * i, 4) == Sub(bytes, 4 * i, 4);
  }

  lemma WordsRead(content: seq<byte>, placed: set<Placed>, at: nat, e: Entry)
    requires Readable(content, placed) && EntryIn(placed, at, e) && GoodBoardId(e.boardId)
    ensures ReadEntry(content, at).boardId == e.boardId
  {
    forall i | 0 <= i < BOARD_ID_SIZE ensures U32At(content, at + 44 + 4 * i) == e.boardId[i] {
      WordReads(content, placed, at, e, i);
    }
  }

  /** One table entry is read back as supplied. */
  lemma EntryReads(content: seq<byte>, placed: set<Placed>, at: nat, e: Entry)
    requires Readable(content, placed) && EntryIn(placed, at, e) && EntryFits(e) && GoodBoardId(e.boardId)
    requires |Strip(e.name)| <= NAME_SIZE
    ensures ReadEntry(content, at) == EntrySupplied(e)
  {
    WordIn(content, placed, at, e.size);
    WordIn(content, placed, at + 4, e.offset);
    WordIn(content, placed, at + 8, e.kind);
    BytesIn(content, placed, at + 12, Text(e.name, NAME_SIZE));
    NameReads(e.name);
    WordsRead(content, placed, at, e);
  }

  ghost predicate NamesShort(t: Contents) {
    forall k :: 0 <= k < |t.entries| ==> |Strip(t.entries[k].name)| <= NAME_SIZE
  }

  lemma EntriesRead(content: seq<byte>, placed: set<Placed>, at: nat, t: Contents, files: Files)
    requires Readable(content, placed) && EntriesIn(placed, at, t.entries, |t.entries|)
    requires EntriesFit(t.entries) && Stored(t.entries, files) && NamesShort(t)
    ensures ReadEntries(content, at, |t.entries|, ENTRY_SIZE) ==
            seq(|t.entries|, k requires 0 <= k < |t.entries| => EntrySupplied(t.entries[k]))
  {
    forall k | 0 <= k < |t.entries| ensures ReadEntry(content, at + ENTRY_SIZE * k) == EntrySupplied(t.entries[k]) {
      assert EntryIn(placed, at + ENTRY_SIZE * k, t.entries[k]);
      EntryReads(content, placed, at + ENTRY_SIZE * k, t.entries[k]);
    }
  }

  lemma FragmentsRead(content: seq<byte>, placed: set<Placed>, start: nat, t: Contents, files: Files)
    requires Readable(content, placed) && FragmentsIn(placed, start, t.entries, |t.entries|, files)
    requires EntriesFit(t.entries) && Stored(t.entries, files)
    ensures ReadFragments(content, start, seq(|t.entries|, k requires 0 <= k < |t.entries| => EntrySupplied(t.entries[k])))
            == seq(|t.entries|, k requires 0 <= k < |t.entries| => files[t.entries[k].path])
  {
    forall k | 0 <= k < |t.entries|
      ensures Sub(content, start + t.entries[k].offset, t.entries[k].size) == files[t.entries[k].path]
    {
      assert FieldAt(content, start + t.entries[k].offset, Raw(files[t.entries[k].path]));
    }
  }

  ghost predicate NumbersRead(content: seq<byte>, a: VendorArgs, t: Contents) {
    && U32At(content, 8) == a.headerVersion && U32At(content, 12) == a.pageSize
    && U32At(content, 24) == RamdiskSize(a, t)
    && U32At(content, 2096) == a.HeaderSize() && U32At(content, 2100) == FileSize(a.dtb)
  }

  ghost predicate TableNumbersRead(content: seq<byte>, a: VendorArgs, t: Contents) {
    && U32At(content, 2112) == TableSize(t) && U32At(content, 2116) == |t.entries|
    && U32At(content, 2120) == ENTRY_SIZE && U32At(content, 2124) == FileSize(a.bootconfig)
  }

  lemma NumbersFound(content: seq<byte>, placed: set<Placed>, a: VendorArgs, t: Contents)
    requires Readable(content, placed) && a.headerVersion >= 0
    requires AddressesIn(placed, a) && NamesIn(placed, a, t) && DtbIn(placed, a)
    ensures NumbersRead(content, a, t)
  {
    NumberIn(content, placed, 8, a.headerVersion);
    NumberIn(content, placed, 12, a.pageSize);
    NumberIn(content, placed, 24, RamdiskSize(a, t));
    NumberIn(content, placed, 2096, a.HeaderSize());
    NumberIn(content, placed, 2100, FileSize(a.dtb));
  }

  lemma TableReads(content: seq<byte>, placed: set<Placed>, a: VendorArgs, t: Contents)
    requires Readable(content, placed) && TableIn(placed, a, t)
    ensures TableNumbersRead(content, a, t)
  {
    NumberIn(content, placed, 2112, TableSize(t));
    NumberIn(content, placed, 2116, |t.entries|);
    NumberIn(content, placed, 2120, ENTRY_SIZE);
    NumberIn(content, placed, 2124, FileSize(a.bootconfig));
  }

  /** Version 4: what a reader finds once the numbers are right. */
  lemma SectionsRead(content: seq<byte>, a: VendorArgs, t: Contents)
    requires PageSize(a.pageSize) && a.headerVersion > 3 && NumbersRead(content, a, t) && TableNumbersRead(content, a, t)
    ensures var es := ReadEntries(content, TableAt(a, t), |t.entries|, ENTRY_SIZE);
            ReadVendor(content) == Sections(
              ReadFragments(content, RamdiskAt(a), es), Sub(content, DtbAt(a, t), FileSize(a.dtb)), es,
              Sub(content, BootconfigAt(a, t), FileSize(a.bootconfig)))
  {
  }

  lemma TablesRead(content: seq<byte>, placed: set<Placed>, a: VendorArgs, t: Contents, files: Files)
    requires Readable(content, placed) && PageSize(a.pageSize) && a.headerVersion > 3 && DataIn(placed, a, t, files)
    requires Stored(t.entries, files) && NamesShort(t) && EntriesFit(t.entries)
    ensures ReadEntries(content, TableAt(a, t), |t.entries|, ENTRY_SIZE) == Supplied(a, t, files).entries
    ensures ReadFragments(content, RamdiskAt(a), Supplied(a, t, files).entries) == Supplied(a, t, files).fragments
    ensures Sub(content, BootconfigAt(a, t), FileSize(a.bootconfig)) == FileBytes(a.bootconfig)
  {
    EntriesRead(content, placed, TableAt(a, t), t, files);
    FragmentsRead(content, placed, RamdiskAt(a), t, files);
    FileReads(content, placed, BootconfigAt(a, t), a.bootconfig, a.pageSize);
  }

  lemma VersionFourReads(content: seq<byte>, placed: set<Placed>, a: VendorArgs, t: Contents, files: Files)
    requires Readable(content, placed) && PageSize(a.pageSize) && a.headerVersion > 3 && NumbersRead(content, a, t)
    requires TableIn(placed, a, t) && DataIn(placed, a, t, files)
    requires Stored(t.entries, files) && NamesShort(t) && EntriesFit(t.entries)
    ensures ReadVendor(content) == Supplied(a, t, files)
  {
    FileReads(content, placed, DtbAt(a, t), a.dtb, a.pageSize);
    TableReads(content, placed, a, t);
    SectionsRead(content, a, t);
    TablesRead(content, placed, a, t, files);
  }

  lemma VersionThreeReads(content: seq<byte>, placed: set<Placed>, a: VendorArgs, t: Contents, files: Files)
    requires Readable(content, placed) && PageSize(a.pageSize) && a.headerVersion == 3 && NumbersRead(content, a, t)
    requires DataIn(placed, a, t, files) && Stored(t.entries, files)
    ensures ReadVendor(content) == Supplied(a, t, files)
  {
    FileReads(content, placed, DtbAt(a, t), a.dtb, a.pageSize);
    FileReads(content, placed, RamdiskAt(a), a.vendorRamdisk, a.pageSize);
  }

  /** A reader recovers every fragment, the dtb, the table entries and the bootconfig. */
  lemma VendorReads(content: seq<byte>, placed: set<Placed>, a: VendorArgs, t: Contents, files: Files)
    requires Readable(content, placed) && PageSize(a.pageSize) && ImageOutcome(a, t).Pass?
    requires HeaderIn(placed, a, t) && DataIn(placed, a, t, files)
    requires Stored(t.entries, files) && NamesShort(t)
    ensures ReadVendor(content) == Supplied(a, t, files)
  {
    NumbersFound(content, placed, a, t);
    if a.headerVersion > 3 {
      VersionFourReads(content, placed, a, t, files);
    } else {
      VersionThreeReads(content, placed, a, t, files);
    }
  }

  // ---------- The bytes of a header ----------

  ghost predicate AddressesAre(image: seq<byte>, a: VendorArgs) {
    && Sub(image, 0, 8) == Ascii("VNDRBOOT") && U32At(image, 8) == a.headerVersion && U32At(image, 12) == a.pageSize
    && U32At(image, 16) == a.base + a.kernelOffset && U32At(image, 20) == a.base + a.ramdiskOffset
    && U32At(image, 2076) == a.base + a.tagsOffset
  }

  ghost predicate NamesAre(image: seq<byte>, a: VendorArgs) {
    && Sub(image, 28, 2048) == Fixed(a.vendorCmdline, 2048) && Sub(image, 2080, 16) == Fixed(a.board, 16)
    && U32At(image, 2100) == |FileBytes(a.dtb)| && U64At(image, 2104) == a.base + a.dtbOffset
  }

  /** Version 4 gives the size of all fragments, and the shape of their table. */
  ghost predicate RamdisksAre(image: seq<byte>, a: VendorArgs, t: Contents) {
    if a.headerVersion == 4 then
      && U32At(image, 24) == t.total && U32At(image, 2096) == 2128
      && U32At(image, 2112) == |t.entries| * 108 && U32At(image, 2116) == |t.entries| && U32At(image, 2120) == 108
      && U32At(image, 2124) == |FileBytes(a.bootconfig)|
    else U32At(image, 24) == |FileBytes(a.vendorRamdisk)| && U32At(image, 2096) == 2112
  }

  /** What pages of 2048 bytes and larger leave of a header's last page. */
  ghost function Rest(end: nat, page: nat): (rest: nat)
    requires PageSize(page) && 2048 < end < 4096
  {
    if page == 2048 then 4096 - end else page - end
  }

  lemma PaddingIsRest(end: nat, page: nat)
    requires PageSize(page) && 2048 < end < 4096
    ensures Padding(end, page) == Rest(end, page)
  {
    PaddingValue(end, page);
    RemainderIs(end, page, if page == 2048 then 1 else 0, if page == 2048 then end - 2048 else end);
  }

  /** Zeros up to the next page boundary. */
  ghost predicate RestIsZero(image: seq<byte>, a: VendorArgs)
    requires PageSize(a.pageSize)
  {
    var end := if a.headerVersion == 4 then 2128 else 2112;
    Sub(image, end, Rest(end, a.pageSize)) == Zeros(Rest(end, a.pageSize))
  }

  /** The header byte by byte. */
  ghost predicate HeaderIs(image: seq<byte>, a: VendorArgs, t: Contents)
    requires PageSize(a.pageSize)
  {
    AddressesAre(image, a) && NamesAre(image, a) && RamdisksAre(image, a, t) && RestIsZero(image, a)
  }

  lemma AddressesRead(content: seq<byte>, placed: set<Placed>, a: VendorArgs, t: Contents)
    requires Readable(content, placed) && AddressesIn(placed, a) && NamesIn(placed, a, t)
    ensures AddressesAre(content, a)
  {
    BytesIn(content, placed, 0, Text(VENDOR_BOOT_MAGIC, 8));
    WordIn(content, placed, 8, a.headerVersion);
    WordIn(content, placed, 12, a.pageSize);
    WordIn(content, placed, 16, a.base + a.kernelOffset);
    WordIn(content, placed, 20, a.base + a.ramdiskOffset);
    WordIn(content, placed, 2076, a.base + a.tagsOffset);
  }

  lemma NamesRead(content: seq<byte>, placed: set<Placed>, a: VendorArgs, t: Contents)
    requires Readable(content, placed) && NamesIn(placed, a, t) && DtbIn(placed, a)
    ensures NamesAre(content, a)
  {
    BytesIn(content, placed, 28, Text(a.vendorCmdline, ARGS_SIZE));
    BytesIn(content, placed, 2080, Text(a.board, 16));
    WordIn(content, placed, 2100, FileSize(a.dtb));
    LongIn(content, placed, 2104, a.base + a.dtbOffset);
  }

  lemma RamdisksRead(content: seq<byte>, placed: set<Placed>, a: VendorArgs, t: Contents)
    requires Readable(content, placed) && 3 <= a.headerVersion <= 4 && HeaderIn(placed, a, t)
    ensures RamdisksAre(content, a, t)
  {
    WordIn(content, placed, 24, RamdiskSize(a, t));
    WordIn(content, placed, 2096, a.HeaderSize());
    if a.headerVersion == 4 {
      TableReads(content, placed, a, t);
    }
  }

  lemma RestReads(content: seq<byte>, placed: set<Placed>, a: VendorArgs)
    requires Readable(content, placed) && 3 <= a.headerVersion <= 4 && PageSize(a.pageSize)
    requires PaddingIn(placed, a.HeaderSize(), a.pageSize)
    ensures RestIsZero(content, a)
  {
    PaddingIsRest(a.HeaderSize(), a.pageSize);
    BytesIn(content, placed, a.HeaderSize(), Raw(Zeros(Padding(a.HeaderSize(), a.pageSize))));
  }

  /** Every field of the header is where the format puts it, with its value. */
  lemma HeaderReads(content: seq<byte>, placed: set<Placed>, a: VendorArgs, t: Contents)
    requires Readable(content, placed) && 3 <= a.headerVersion <= 4 && PageSize(a.pageSize)
    requires HeaderIn(placed, a, t) && PaddingIn(placed, a.HeaderSize(), a.pageSize)
    ensures HeaderIs(content, a, t)
  {
    AddressesRead(content, placed, a, t);
    NamesRead(content, placed, a, t);
    RamdisksRead(content, placed, a, t);
    RestReads(content, placed, a);
  }

  // ---------- Writing ----------

  class Writer {
    const out: OutFile
    const builder: Builder

    constructor (out: OutFile, builder: Builder)
      ensures this.out == out && this.builder == builder
    {
      this.out, this.builder := out, builder;
    }

    ghost function Table(): Contents
      reads builder
    {
      Contents(builder.entries, builder.total)
    }

    method WriteAddresses(a: VendorArgs) returns (outcome: Outcome)
      requires out.Valid() && |out.content| == 0 && PageSize(a.pageSize) && 3 <= a.headerVersion <= 4
      modifies out
      ensures out.Valid() && outcome == (if AddressesFit(a) then Pass else Fail(StructError))
      ensures outcome.Pass? ==> |out.content| == 24 && AddressesIn(out.placed, a)
    {
      out.WriteText(VENDOR_BOOT_MAGIC, 8);
      var _ := out.Pack(U32(a.headerVersion));
      var _ := out.Pack(U32(a.pageSize));
      :- out.Pack(U32(a.base + a.kernelOffset));
      :- out.Pack(U32(a.base + a.ramdiskOffset));
      outcome := Pass;
    }

    method WriteNames(a: VendorArgs, ramdiskSize: nat, ghost t: Contents) returns (outcome: Outcome)
      requires out.Valid() && |out.content| == 24 && ramdiskSize == RamdiskSize(a, t)
      modifies out
      ensures out.Valid() && outcome == (if NamesFit(a, t) then Pass else Fail(StructError))
      ensures outcome.Pass? ==> |out.content| == 2096 && old(out.placed) <= out.placed && NamesIn(out.placed, a, t)
    {
      outcome := Pass;
      :- out.Pack(U32(ramdiskSize));
      out.WriteText(a.vendorCmdline, ARGS_SIZE);
      :- out.Pack(U32(a.base + a.tagsOffset));
      out.WriteText(a.board, 16);
    }

    method WriteDtb(a: VendorArgs, headerSize: nat) returns (outcome: Outcome)
      requires out.Valid() && |out.content| == 2096 && headerSize == a.HeaderSize()
      modifies out
      ensures out.Valid() && outcome == (if DtbFits(a) then Pass else Fail(StructError))
      ensures outcome.Pass? ==> |out.content| == 2112 && old(out.placed) <= out.placed && DtbIn(out.placed, a)
    {
      var _ := out.Pack(U32(headerSize));
      :- out.Pack(U32(FileSize(a.dtb)));
      :- out.Pack(U64(a.base + a.dtbOffset));
      outcome := Pass;
    }

    method WriteTable(a: VendorArgs) returns (outcome: Outcome)
      requires out.Valid() && |out.content| == 2112
      modifies out
      ensures out.Valid() && outcome == (if TableFits(a, Table()) then Pass else Fail(StructError))
      ensures (outcome.Pass? ==>
                |out.content| == 2128 && old(out.placed) <= out.placed && TableIn(out.placed, a, Table()))
    {
      outcome := Pass;
      :- out.Pack(U32(|builder.entries| * ENTRY_SIZE));
      var _ := out.Pack(U32(|builder.entries|));
      var _ := out.Pack(U32(ENTRY_SIZE));
      :- out.Pack(U32(FileSize(a.bootconfig)));
    }

    method WriteFields(a: VendorArgs) returns (outcome: Outcome)
      requires out.Valid() && |out.content| == 0 && PageSize(a.pageSize) && 3 <= a.headerVersion <= 4
      modifies out
      ensures out.Valid() && outcome == HeaderOutcome(a, Table())
      ensures outcome.Pass? ==> |out.content| == a.HeaderSize() && HeaderIn(out.placed, a, Table())
    {
      if FileSize(a.dtb) == 0 {
        return Fail(EmptyDtb);
      }
      var ramdiskSize, headerSize := FileSize(a.vendorRamdisk), 2112;
      if a.headerVersion > 3 {
        ramdiskSize, headerSize := builder.total, 2128;
      }
      :- WriteAddresses(a);
      :- WriteNames(a, ramdiskSize, Table());
      :- WriteDtb(a, headerSize);
      if a.headerVersion > 3 {
        :- WriteTable(a);
      }
      outcome := Pass;
    }

    method WriteVendorBootHeader(a: VendorArgs) returns (outcome: Outcome)
      requires out.Valid() && |out.content| == 0 && PageSize(a.pageSize) && 3 <= a.headerVersion <= 4
      modifies out
      ensures out.Valid() && outcome == HeaderOutcome(a, Table())
      ensures outcome.Pass? ==> |out.content| == RamdiskAt(a) && HeaderIn(out.placed, a, Table())
      ensures outcome.Pass? ==> PaddingIn(out.placed, a.HeaderSize(), a.pageSize)
      ensures outcome.Pass? ==> Aligned(|out.content|, a.pageSize)
    {
      outcome := Pass;
      :- WriteFields(a);
      assert Aligned(0, a.pageSize);
      PaddingMeetsPages(0, |out.content|, a.pageSize);
      out.PadFile(a.pageSize);
    }

    method WriteRamdisksAndDtb(a: VendorArgs)
      requires out.Valid() && builder.Sized() && PageSize(a.pageSize) && 3 < a.headerVersion
      requires |out.content| == RamdiskAt(a) && Aligned(|out.content|, a.pageSize)
      modifies out
      ensures out.Valid() && old(out.placed) <= out.placed
      ensures |out.content| == TableAt(a, Table()) && Aligned(|out.content|, a.pageSize)
      ensures FragmentsIn(out.placed, RamdiskAt(a), builder.entries, |builder.entries|, builder.files)
      ensures PaddingIn(out.placed, RamdiskAt(a) + builder.total, a.pageSize)
      ensures FileIn(out.placed, DtbAt(a, Table()), a.dtb, a.pageSize)
    {
      PaddingMeetsPages(|out.content|, builder.total, a.pageSize);
      builder.WriteRamdisksPadded(out, a.pageSize);
      ghost var one := out.placed;
      out.WritePaddedFile(a.dtb, a.pageSize);
      FragmentsStayIn(one, out.placed, RamdiskAt(a), builder.entries, builder.files);
    }

    method WriteTableAndBootconfig(a: VendorArgs) returns (outcome: Outcome)
      requires out.Valid() && builder.Sized() && PageSize(a.pageSize) && 3 < a.headerVersion
      requires |out.content| == TableAt(a, Table()) && Aligned(|out.content|, a.pageSize)
      modifies out
      ensures out.Valid() && outcome == (if EntriesFit(builder.entries) then Pass else Fail(StructError))
      ensures (outcome.Pass? ==>
                && old(out.placed) <= out.placed && |out.content| == ImageSize(a, Table())
                && EntriesIn(out.placed, TableAt(a, Table()), builder.entries, |builder.entries|)
                && PaddingIn(out.placed, TableAt(a, Table()) + TableSize(Table()), a.pageSize)
                && FileIn(out.placed, BootconfigAt(a, Table()), a.bootconfig, a.pageSize))
    {
      ghost var at, size := |out.content|, TableSize(Table());
      PaddingMeetsPages(at, size, a.pageSize);
      :- builder.WriteEntriesPadded(out, a.pageSize);
      ghost var one := out.placed;
      assert |out.content| == at + Spread(size, a.pageSize) && PaddingIn(one, at + size, a.pageSize);
      out.WritePaddedFile(a.bootconfig, a.pageSize);
      EntriesStayIn(one, out.placed, at, builder.entries, |builder.entries|);
      outcome := Pass;
    }

    method WriteSections(a: VendorArgs) returns (outcome: Outcome)
      requires out.Valid() && builder.Sized() && PageSize(a.pageSize) && 3 < a.headerVersion
      requires |out.content| == RamdiskAt(a) && Aligned(|out.content|, a.pageSize)
      modifies out
      ensures out.Valid() && outcome == (if EntriesFit(builder.entries) then Pass else Fail(StructError))
      ensures (outcome.Pass? ==>
                old(out.placed) <= out.placed && |out.content| == ImageSize(a, Table())
                && DataIn(out.placed, a, Table(), builder.files))
    {
      WriteRamdisksAndDtb(a);
      ghost var one := out.placed;
      :- WriteTableAndBootconfig(a);
      DataTogether(one, out.placed, a, Table(), builder.files);
      outcome := Pass;
    }

    method WriteVendorBootData(a: VendorArgs) returns (outcome: Outcome)
      requires out.Valid() && builder.Sized() && PageSize(a.pageSize) && 3 <= a.headerVersion
      requires |out.content| == RamdiskAt(a) && Aligned(|out.content|, a.pageSize)
      modifies out
      ensures out.Valid() && outcome == (if DataFits(a, Table()) then Pass else Fail(StructError))
      ensures (outcome.Pass? ==>
                old(out.placed) <= out.placed && |out.content| == ImageSize(a, Table())
                && DataIn(out.placed, a, Table(), builder.files))
    {
      if a.headerVersion > 3 {
        outcome := WriteSections(a);
      } else {
        out.WritePaddedFile(a.vendorRamdisk, a.pageSize);
        out.WritePaddedFile(a.dtb, a.pageSize);
        outcome := Pass;
      }
    }

    /** Writes the whole image; what a reader of its header finds is what was supplied. */
    method WriteImage(a: VendorArgs) returns (outcome: Outcome)
      requires out.Valid() && builder.Sized() && PageSize(a.pageSize) && |out.content| == 0
      modifies out
      ensures out.Valid() && outcome == ImageOutcome(a, Table()) == Refusal(a, Table())
      ensures (outcome.Pass? ==>
                && |out.content| == ImageSize(a, Table()) == WholePages(a, Table())
                && HeaderIn(out.placed, a, Table()) && PaddingIn(out.placed, a.HeaderSize(), a.pageSize)
                && DataIn(out.placed, a, Table(), builder.files))
      ensures outcome.Pass? ==> HeaderIs(out.content, a, Table())
      ensures (outcome.Pass? && NamesShort(Table()) ==>
                ReadVendor(out.content) == Supplied(a, Table(), builder.files))
    {
      RefusedExactly(a, Table());
      SizeIsWholePages(a, Table());
      if a.headerVersion != 3 && a.headerVersion != 4 {
        return Fail(NotVendorVersion);
      }
      if a.headerVersion == 3 && a.vendorRamdisk.None? {
        return Fail(MissingRamdisk);
      }
      :- WriteVendorBootHeader(a);
      :- WriteVendorBootData(a);
      HeaderReads(out.content, out.placed, a, Table());
      if NamesShort(Table()) {
        VendorReads(out.content, out.placed, a, Table(), builder.files);
      }
      outcome := Pass;
    }
  }
}
