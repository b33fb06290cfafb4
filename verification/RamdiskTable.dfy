/**
 The table of vendor ramdisk fragments: names are kept apart, each fragment gets the offset where the ones before it
 end, and the fragments and their entries are written as recorded.
 */
module RamdiskTable {
  import opened Common
  import opened BootBytes

  const NAME_SIZE: nat := 32
  const BOARD_ID_SIZE: nat := 16
  const ENTRY_SIZE: nat := 108
  const BANNED: seq<byte> := Ascii("default")

  datatype Entry = Entry(path: string, size: nat, offset: nat, kind: int, name: seq<byte>, boardId: seq<nat>)

  /** Files by path; they do not change while the image is built. */
  type Files = map<string, seq<byte>>

  /** Without trailing zeros. */
  function Strip(name: seq<byte>): (stripped: seq<byte>)
    ensures |stripped| <= |name| && stripped == name[..|stripped|]
    ensures stripped != [] ==> stripped[|stripped| - 1] != 0
    ensures forall k :: |stripped| <= k < |name| ==> name[k] == 0
  {
    if name != [] && name[|name| - 1] == 0 then Strip(name[..|name| - 1]) else name
  }

  /** The stripped name is the only prefix that ends without a zero and drops nothing else. */
  lemma StripOnly(name: seq<byte>, n: nat)
    requires n <= |name| && (forall k :: n <= k < |name| ==> name[k] == 0) && (n > 0 ==> name[n - 1] != 0)
    ensures Strip(name) == name[..n]
  {
  }

  /** A name survives its fixed field exactly when what is left without trailing zeros fits. */
  lemma NameReads(name: seq<byte>)
    ensures Strip(Fixed(name, NAME_SIZE)) == Strip(name) <==> |Strip(name)| <= NAME_SIZE
  {
    var s, field := Strip(name), Fixed(name, NAME_SIZE);
    if |s| <= NAME_SIZE {
      StripOnly(field, |s|);
      assert field[..|s|] == name[..|s|];
    }
  }

  // ---------- Tiling ----------

  /** The fragments follow each other from 0 to the total. */
  ghost predicate Tiled(entries: seq<Entry>, total: nat) {
    if entries == [] then total == 0 else
      var e := entries[|entries| - 1];
      e.offset + e.size == total && Tiled(entries[..|entries| - 1], e.offset)
  }

  /** Where fragment `k` starts, or the end for the count of all. */
  function StartOf(entries: seq<Entry>, total: nat, k: nat): nat
    requires k <= |entries|
  {
    if k < |entries| then entries[k].offset else total
  }

  lemma TiledAppend(entries: seq<Entry>, total: nat, e: Entry)
    requires Tiled(entries, total) && e.offset == total
    ensures Tiled(entries + [e], total + e.size)
  {
  }

  /** No gap: the first fragment starts at 0 and each ends where the next starts. */
  lemma {:induction false} TiledNext(entries: seq<Entry>, total: nat, k: nat)
    requires Tiled(entries, total) && k < |entries|
    ensures StartOf(entries, total, 0) == 0
    ensures StartOf(entries, total, k) + entries[k].size == StartOf(entries, total, k + 1) <= total
  {
    var n := |entries| - 1;
    if n == 0 {
    } else {
      TiledNext(entries[..n], entries[n].offset, if k < n then k else 0);
    }
  }

  lemma {:induction false} TiledBefore(entries: seq<Entry>, total: nat, j: nat, k: nat)
    requires Tiled(entries, total) && j < k <= |entries|
    ensures entries[j].offset + entries[j].size <= StartOf(entries, total, k)
  {
    TiledNext(entries, total, j);
    if j + 1 < k {
      TiledNext(entries, total, k - 1);
      TiledBefore(entries, total, j, k - 1);
    }
  }

  ghost predicate Covers(e: Entry, p: nat) {
    e.offset <= p < e.offset + e.size
  }

  lemma {:induction false} CoveredBefore(entries: seq<Entry>, total: nat, n: nat, p: nat) returns (k: nat)
    requires Tiled(entries, total) && n <= |entries| && p < StartOf(entries, total, n)
    ensures k < |entries| && Covers(entries[k], p)
  {
    if n == 0 {
      if |entries| > 0 { TiledNext(entries, total, 0); }
      assert false;
    } else {
      TiledNext(entries, total, n - 1);
      if StartOf(entries, total, n - 1) <= p {
        k := n - 1;
      } else {
        k := CoveredBefore(entries, total, n - 1, p);
      }
    }
  }

  /** Every byte of the whole belongs to exactly one fragment, and no byte beyond belongs to any. */
  lemma {:induction false} TilesOnce(entries: seq<Entry>, total: nat, p: nat)
    requires Tiled(entries, total)
    ensures p < total <==> exists k :: 0 <= k < |entries| && Covers(entries[k], p)
    ensures forall j, k :: 0 <= j < k < |entries| && Covers(entries[j], p) ==> !Covers(entries[k], p)
  {
    forall j, k | 0 <= j < k < |entries| ensures entries[j].offset + entries[j].size <= entries[k].offset {
      TiledBefore(entries, total, j, k);
    }
    forall k | 0 <= k < |entries| ensures entries[k].offset + entries[k].size <= total {
      TiledBefore(entries, total, k, |entries|);
    }
    if p < total {
      var k := CoveredBefore(entries, total, |entries|, p);
    }
  }

  // ---------- One entry in the file ----------

  function BoardBytes(ids: seq<nat>, from: nat := 0): (bytes: seq<byte>)
    requires from <= |ids|
    ensures |bytes| == 4 * (|ids| - from)
    decreases |ids| - from
  {
    if from == |ids| then [] else LittleEndian(ids[from], 4) + BoardBytes(ids, from + 1)
  }

  lemma {:induction false} BoardReads(ids: seq<nat>, from: nat, k: nat)
    requires from <= k < |ids| && ids[k] < UINT32
    ensures U32At(BoardBytes(ids, from), 4 * (k - from)) == ids[k]
    decreases k - from
  {
    var first, rest := LittleEndian(ids[from], 4), BoardBytes(ids, from + 1);
    if k == from {
      assert Sub(first + rest, 0, 4) == first;
      LittleEndianRoundTrip(ids[k], 4);
      assert Capacity(2) == 0x1_0000 && Capacity(4) == UINT32;
    } else {
      BoardReads(ids, from + 1, k);
      assert Sub(first + rest, 4 + 4 * (k - from - 1), 4) == Sub(rest, 4 * (k - from - 1), 4);
    }
  }

  ghost predicate EntryIn(placed: set<Placed>, at: nat, e: Entry) {
    && Placed(at, U32(e.size)) in placed && Placed(at + 4, U32(e.offset)) in placed
    && Placed(at + 8, U32(e.kind)) in placed && Placed(at + 12, Text(e.name, NAME_SIZE)) in placed
    && Placed(at + 44, Raw(BoardBytes(e.boardId))) in placed
  }

  predicate EntryFits(e: Entry) {
    Packed(U32(e.size)) && Packed(U32(e.offset)) && Packed(U32(e.kind))
  }

  ghost predicate FragmentsIn(placed: set<Placed>, start: nat, entries: seq<Entry>, n: nat, files: Files) {
    forall k :: 0 <= k < n <= |entries| && entries[k].path in files ==>
      Placed(start + entries[k].offset, Raw(files[entries[k].path])) in placed
  }

  predicate EntriesFit(entries: seq<Entry>) {
    forall k :: 0 <= k < |entries| ==> EntryFits(entries[k])
  }

  ghost predicate EntriesIn(placed: set<Placed>, start: nat, entries: seq<Entry>, n: nat) {
    forall k :: 0 <= k < n <= |entries| ==> EntryIn(placed, start + ENTRY_SIZE * k, entries[k])
  }

  lemma FragmentsNext(before: set<Placed>, after: set<Placed>, start: nat, entries: seq<Entry>, k: nat, files: Files)
    requires before <= after && k < |entries| && FragmentsIn(before, start, entries, k, files)
    requires entries[k].path in files ==> Placed(start + entries[k].offset, Raw(files[entries[k].path])) in after
    ensures FragmentsIn(after, start, entries, k + 1, files)
  {
  }

  lemma EntriesNext(before: set<Placed>, after: set<Placed>, start: nat, entries: seq<Entry>, k: nat)
    requires before <= after && k < |entries| && EntriesIn(before, start, entries, k)
    requires EntryIn(after, start + ENTRY_SIZE * k, entries[k])
    ensures EntriesIn(after, start, entries, k + 1)
  {
  }

  lemma FragmentsStayIn(before: set<Placed>, after: set<Placed>, start: nat, entries: seq<Entry>, files: Files)
    requires before <= after && FragmentsIn(before, start, entries, |entries|, files)
    ensures FragmentsIn(after, start, entries, |entries|, files)
  {
  }

  lemma EntriesStayIn(before: set<Placed>, after: set<Placed>, start: nat, entries: seq<Entry>, n: nat)
    requires before <= after && n <= |entries| && EntriesIn(before, start, entries, n)
    ensures EntriesIn(after, start, entries, n)
  {
  }

  // ---------- The builder ----------

  ghost predicate Named(entries: seq<Entry>, names: set<seq<byte>>) {
    && BANNED !in names
    && (forall k :: 0 <= k < |entries| ==> Strip(entries[k].name) in names)
    && forall j, k :: 0 <= j < k < |entries| ==> Strip(entries[j].name) != Strip(entries[k].name)
  }

  ghost predicate GoodBoardId(ids: seq<nat>) {
    |ids| == BOARD_ID_SIZE && forall i :: 0 <= i < |ids| ==> ids[i] < UINT32
  }

  ghost predicate Stored(entries: seq<Entry>, files: Files) {
    forall k :: 0 <= k < |entries| ==>
      && entries[k].path in files && entries[k].size == |files[entries[k].path]|
      && GoodBoardId(entries[k].boardId)
  }

  predicate InRange(ids: seq<int>) {
    forall i :: 0 <= i < |ids| ==> 0 <= ids[i] < UINT32
  }

  function Words(ids: seq<int>): (words: seq<nat>)
    requires InRange(ids)
    ensures |words| == |ids| && forall i :: 0 <= i < |ids| ==> words[i] == ids[i]
  {
    seq(|ids|, i requires 0 <= i < |ids| => ids[i])
  }

  lemma NamedAppend(entries: seq<Entry>, names: set<seq<byte>>, e: Entry)
    requires Named(entries, names) && Strip(e.name) !in names && Strip(e.name) != BANNED
    ensures Named(entries, names + {Strip(e.name)}) && Named(entries + [e], names + {Strip(e.name)})
  {
  }

  lemma StoredAppend(entries: seq<Entry>, files: Files, e: Entry)
    requires Stored(entries, files) && e.path in files && e.size == |files[e.path]| && GoodBoardId(e.boardId)
    ensures Stored(entries + [e], files)
  {
  }

  /** What one added fragment is recorded as. */
  ghost predicate Records(e: Entry, files: Files, path: string, offset: nat, kind: int, name: seq<byte>, boardId: Option<seq<int>>) {
    && path in files && e.(boardId := []) == Entry(path, |files[path]|, offset, kind, name, [])
    && |e.boardId| == BOARD_ID_SIZE
    && if boardId.None? then forall i :: 0 <= i < BOARD_ID_SIZE ==> e.boardId[i] == 0 else e.boardId == boardId.value
  }

  /** The words of a board id: sixteen zeros when none is given. */
  method BoardWords(boardId: Option<seq<int>>) returns (outcome: Outcome, words: seq<nat>)
    ensures outcome == if boardId.None? then Pass
                       else if (exists i :: 0 <= i < |boardId.value| && !Word(boardId.value[i])) then Fail(BoardIdRange)
                       else if |boardId.value| != BOARD_ID_SIZE then Fail(BadBoardId) else Pass
    ensures outcome.Pass? ==> GoodBoardId(words)
    ensures outcome.Pass? && boardId.Some? ==> words == boardId.value
    ensures outcome.Pass? && boardId.None? ==> forall i :: 0 <= i < BOARD_ID_SIZE ==> words[i] == 0
  {
    words := seq(BOARD_ID_SIZE, _ => 0);
    if boardId.Some? {
      if !InRange(boardId.value) {
        return Fail(BoardIdRange), words;
      }
      words := Words(boardId.value);
    }
    outcome := if |words| != BOARD_ID_SIZE then Fail(BadBoardId) else Pass;
  }

  class Builder {
    const files: Files
    var entries: seq<Entry>
    var total: nat
    var names: set<seq<byte>>

    /** What writing needs: sizes and offsets fit the files. */
    ghost predicate Sized()
      reads this
    {
      Tiled(entries, total) && Stored(entries, files)
    }

    ghost predicate Valid()
      reads this
    {
      Sized() && Named(entries, names)
    }

    constructor (files: Files)
      ensures Valid() && entries == [] && total == 0 && names == {} && this.files == files
    {
      this.files := files;
      entries, total, names := [], 0, {};
    }

    /** Appends a fragment; a name is taken from the moment it passes the name checks. */
    method AddEntry(path: string, kind: int, name: seq<byte>, boardId: Option<seq<int>>) returns (outcome: Outcome)
      requires Valid()
      modifies this
      ensures Valid()
      ensures outcome == if Strip(name) == Ascii("default") then Fail(BannedName)
                         else if Strip(name) in old(names) then Fail(DuplicateName)
                         else if boardId.Some? && (exists i :: 0 <= i < |boardId.value| && !Word(boardId.value[i]))
                           then Fail(BoardIdRange)
                         else if boardId.Some? && |boardId.value| != 16 then Fail(BadBoardId)
                         else if path !in files then Fail(NoSuchFile)
                         else Pass
      ensures names == if outcome == Fail(BannedName) then old(names) else old(names) + {Strip(name)}
      ensures outcome.Fail? ==> entries == old(entries) && total == old(total)
      ensures (outcome.Pass? ==>
                && |entries| == |old(entries)| + 1 && entries[..|old(entries)|] == old(entries)
                && total == old(total) + entries[|old(entries)|].size
                && Records(entries[|old(entries)|], files, path, old(total), kind, name, boardId))
    {
      var stripped := Strip(name);
      if stripped == BANNED {
        return Fail(BannedName);
      }
      if stripped in names {
        return Fail(DuplicateName);
      }
      ghost var taken := names;
      NamedAppend(entries, names, Entry(path, 0, 0, kind, name, []));
      names := names + {stripped};
      var words;
      outcome, words := BoardWords(boardId);
      if outcome.Fail? {
        return;
      }
      if path !in files {
        return Fail(NoSuchFile);
      }
      Append(Entry(path, |files[path]|, total, kind, name, words), taken);
    }

    method Append(e: Entry, ghost taken: set<seq<byte>>)
      requires Tiled(entries, total) && Named(entries, taken) && Stored(entries, files)
      requires Strip(e.name) !in taken && Strip(e.name) != BANNED && names == taken + {Strip(e.name)}
      requires e.path in files && e.size == |files[e.path]| && GoodBoardId(e.boardId) && e.offset == total
      modifies this`entries, this`total
      ensures Valid() && entries == old(entries) + [e] && total == old(total) + e.size
    {
      TiledAppend(entries, total, e);
      NamedAppend(entries, taken, e);
      StoredAppend(entries, files, e);
      entries, total := entries + [e], total + e.size;
    }

    /** Every fragment lies at its recorded offset from where the first one was put. */
    method WriteRamdisksPadded(out: OutFile, page: nat)
      requires Sized() && out.Valid() && PageSize(page)
      modifies out
      ensures out.Valid() && old(out.placed) <= out.placed
      ensures FragmentsIn(out.placed, |old(out.content)|, entries, |entries|, files)
      ensures |out.content| == |old(out.content)| + total + Padding(|old(out.content)| + total, page)
      ensures PaddingIn(out.placed, |old(out.content)| + total, page)
    {
      WriteRamdisks(out);
      ghost var before := out.placed;
      out.PadFile(page);
      FragmentsStayIn(before, out.placed, |old(out.content)|, entries, files);
    }

    method WriteRamdisks(out: OutFile)
      requires Sized() && out.Valid()
      modifies out
      ensures out.Valid() && old(out.placed) <= out.placed && |out.content| == |old(out.content)| + total
      ensures FragmentsIn(out.placed, |old(out.content)|, entries, |entries|, files)
    {
      var k := 0;
      ghost var start := |out.content|;
      if |entries| > 0 { TiledNext(entries, total, 0); }
      while k < |entries|
        invariant k <= |entries| && out.Valid() && old(out.placed) <= out.placed
        invariant |out.content| == start + StartOf(entries, total, k)
        invariant FragmentsIn(out.placed, start, entries, k, files)
      {
        ghost var before := out.placed;
        TiledNext(entries, total, k);
        out.Write(files[entries[k].path]);
        FragmentsNext(before, out.placed, start, entries, k, files);
        k := k + 1;
      }
    }

    method WriteEntry(out: OutFile, e: Entry) returns (outcome: Outcome)
      requires out.Valid() && |e.boardId| == BOARD_ID_SIZE
      modifies out
      ensures out.Valid() && outcome == (if EntryFits(e) then Pass else Fail(StructError))
      ensures (outcome.Pass? ==>
                && old(out.placed) <= out.placed && EntryIn(out.placed, |old(out.content)|, e)
                && |out.content| == |old(out.content)| + ENTRY_SIZE)
    {
      outcome := Pass;
      :- out.Pack(U32(e.size));
      :- out.Pack(U32(e.offset));
      :- out.Pack(U32(e.kind));
      out.WriteText(e.name, NAME_SIZE);
      out.Write(BoardBytes(e.boardId));
    }

    method WriteEntriesPadded(out: OutFile, page: nat) returns (outcome: Outcome)
      requires Sized() && out.Valid() && PageSize(page)
      modifies out
      ensures out.Valid() && (outcome.Pass? || outcome == Fail(StructError))
      ensures (outcome.Pass? <==>
                forall k :: 0 <= k < |entries| ==> Word(entries[k].size) && Word(entries[k].offset) && Word(entries[k].kind))
      ensures outcome.Pass? <==> EntriesFit(entries)
      ensures (outcome.Pass? ==>
                && old(out.placed) <= out.placed && EntriesIn(out.placed, |old(out.content)|, entries, |entries|)
                && var end := |old(out.content)| + ENTRY_SIZE * |entries|;
                   |out.content| == end + Padding(end, page)
                   && PaddingIn(out.placed, end, page))
    {
      outcome := Pass;
      :- WriteEntries(out);
      ghost var before := out.placed;
      out.PadFile(page);
      EntriesStayIn(before, out.placed, |old(out.content)|, entries, |entries|);
    }

    method WriteEntries(out: OutFile) returns (outcome: Outcome)
      requires Stored(entries, files) && out.Valid()
      modifies out
      ensures out.Valid() && outcome == (if EntriesFit(entries) then Pass else Fail(StructError))
      ensures (outcome.Pass? ==>
                && old(out.placed) <= out.placed && EntriesIn(out.placed, |old(out.content)|, entries, |entries|)
                && |out.content| == |old(out.content)| + ENTRY_SIZE * |entries|)
    {
      var k := 0;
      ghost var start := |out.content|;
      while k < |entries|
        invariant k <= |entries| && out.Valid() && old(out.placed) <= out.placed
        invariant |out.content| == start + ENTRY_SIZE * k
        invariant forall j :: 0 <= j < k ==> EntryFits(entries[j])
        invariant EntriesIn(out.placed, start, entries, k)
      {
        ghost var before := out.placed;
        :- WriteEntry(out, entries[k]);
        EntriesNext(before, out.placed, start, entries, k);
        k := k + 1;
      }
      outcome := Pass;
    }
  }
}
