/**
 The text-out half of the console splitter: the device list, the query data and the flat mode map, updated in place
 as devices come and go.  Allocation always succeeds here.
 */
module TextOutSplitter {
  import opened Common
  import opened ModeMap
  import opened FlatTable

  /** `k` cells of an absent mode. */
  function Blank(k: nat): (s: seq<int>)
    ensures |s| == k && forall i :: 0 <= i < k ==> s[i] == -1
  {
    seq(k, _ => -1)
  }

  /** Every row, filled up with absent modes to `step` cells. */
  function Padded(rows: seq<seq<int>>, step: nat): (p: seq<seq<int>>)
    requires forall r :: 0 <= r < |rows| ==> |rows[r]| <= step
    ensures |p| == |rows| && forall r :: 0 <= r < |p| ==> p[r] == rows[r] + Blank(step - |rows[r]|)
  {
    seq(|rows|, r requires 0 <= r < |rows| => rows[r] + Blank(step - |rows[r]|))
  }

  ghost predicate AllAtMost(rows: seq<seq<int>>, n: nat) {
    forall r :: 0 <= r < |rows| ==> |rows[r]| <= n
  }

  /** The flat map holds `rows`, each at the start of its stretch and followed by absent modes. */
  ghost predicate Laid(m: seq<int>, step: nat, rows: seq<seq<int>>) {
    AllAtMost(rows, step) && At(0, step, |rows|) <= |m| && Rows(m, step, |rows|) == Padded(rows, step)
  }

  lemma LaidRow(m: seq<int>, step: nat, rows: seq<seq<int>>, r: nat)
    requires Laid(m, step, rows) && r < |rows|
    ensures At(0, step, r) + |rows[r]| <= |m| && m[At(0, step, r)..At(0, step, r) + |rows[r]|] == rows[r]
    ensures forall c :: 0 <= c < |rows[r]| ==> m[At(c, step, r)] == rows[r][c]
  {
    RowInside(step, |rows|, r);
    var row := Row(m, step, |rows|, r);
    assert row == Rows(m, step, |rows|)[r] == rows[r] + Blank(step - |rows[r]|);
    assert row[..|rows[r]|] == rows[r];
    assert row[..|rows[r]|] == m[At(0, step, r)..At(0, step, r) + |rows[r]|];
    forall c | 0 <= c < |rows[r]| ensures m[At(c, step, r)] == rows[r][c] {
      assert row[c] == m[At(c, step, r)];
    }
  }

  lemma LaidPrefix(m: seq<int>, step: nat, rows: seq<seq<int>>, k: nat)
    requires Laid(m, step, rows) && k <= |rows|
    ensures Laid(m, step, rows[..k])
  {
    if k < |rows| { RowsApart(step, k, |rows|); }
    forall r | 0 <= r < k ensures Rows(m, step, k)[r] == Padded(rows[..k], step)[r] {
      assert Rows(m, step, |rows|)[r] == Padded(rows, step)[r];
    }
  }

  /** A table of `count` empty rows. */
  function Empty(count: nat): (e: seq<seq<int>>)
    ensures |e| == count && forall r :: 0 <= r < count ==> e[r] == []
  {
    seq(count, _ => [])
  }

  lemma LaidBlank(step: nat, count: nat)
    ensures Laid(Blank(At(0, step, count)), step, Empty(count))
  {
    var m, empty := Blank(At(0, step, count)), Empty(count);
    forall r | 0 <= r < count ensures Rows(m, step, count)[r] == Padded(empty, step)[r] {
      RowInside(step, count, r);
    }
  }

  /** Copying `x` to the start of row `k` of a table leaves the other rows alone. */
  lemma RowAfterFill(m: seq<int>, step: nat, n: nat, k: nat, x: seq<int>, r: nat)
    requires At(0, step, n) <= |m| && k < n && r < n && |x| <= step
    requires At(0, step, k) + |x| <= |m|
    ensures var m' := m[..At(0, step, k)] + x + m[At(0, step, k) + |x|..];
            Row(m', step, n, r) == if r == k then x + Row(m, step, n, k)[|x|..] else Row(m, step, n, r)
  {
    RowInside(step, n, r);
    SliceAfterSplice(m, At(0, step, k), x, At(0, step, r), step);
    if r < k { RowsApart(step, r, k); }
    if k < r { RowsApart(step, k, r); }
    if r == k {
      var p := At(0, step, k);
      var m' := m[..p] + x + m[p + |x|..];
      var row, row' := Row(m, step, n, k), Row(m', step, n, k);
      forall c | 0 <= c < step ensures row'[c] == if c < |x| then x[c] else row[c] {
        assert row'[c] == m'[p + c] && row[c] == m[p + c];
      }
      assert row' == x + row[|x|..];
    }
  }

  /** Writing `x` over the start of row `i`. */
  lemma LaidWrite(m: seq<int>, step: nat, rows: seq<seq<int>>, i: nat, x: seq<int>)
    requires Laid(m, step, rows) && i < |rows| && |rows[i]| <= |x| <= step
    ensures At(0, step, i) + |x| <= |m|
    ensures Laid(m[..At(0, step, i)] + x + m[At(0, step, i) + |x|..], step, rows[i := x])
  {
    RowInside(step, |rows|, i);
    var m' := m[..At(0, step, i)] + x + m[At(0, step, i) + |x|..];
    forall r | 0 <= r < |rows| ensures Rows(m', step, |rows|)[r] == Padded(rows[i := x], step)[r] {
      RowAfterFill(m, step, |rows|, i, x, r);
      assert Rows(m, step, |rows|)[r] == Padded(rows, step)[r];
      assert r == i ==> Padded(rows, step)[i][|x|..] == Blank(step - |x|);
    }
  }

  /** Writing one cell of row `i`, or of a row that is not laid out. */
  lemma LaidSet(m: seq<int>, step: nat, rows: seq<seq<int>>, i: nat, c: nat, v: int)
    requires Laid(m, step, rows) && At(0, step, i) + c < |m| && c < step
    requires i < |rows| ==> c < |rows[i]|
    ensures Laid(m[At(0, step, i) + c := v], step, if i < |rows| then rows[i := rows[i][c := v]] else rows)
  {
    var m' := m[At(0, step, i) + c := v];
    var rows' := if i < |rows| then rows[i := rows[i][c := v]] else rows;
    forall r | 0 <= r < |rows| ensures Rows(m', step, |rows|)[r] == Padded(rows', step)[r] {
      RowAfterSet(m, step, |rows|, i, c, v, r);
      assert Rows(m, step, |rows|)[r] == Padded(rows, step)[r];
    }
  }

  /** The next column is there already, all absent. */
  lemma LaidNewColumn(m: seq<int>, step: nat, rows: seq<seq<int>>)
    requires Laid(m, step, rows) && 0 < step && AllAtMost(rows, step - 1)
    ensures Laid(m, step, WithColumn(rows, Blank(|rows|)))
  {
    var wide := WithColumn(rows, Blank(|rows|));
    forall r | 0 <= r < |rows| ensures Padded(wide, step)[r] == Padded(rows, step)[r] {
      assert Blank(step - |rows[r]|) == [-1] + Blank(step - |wide[r]|);
    }
    assert Padded(wide, step) == Padded(rows, step);
  }

  lemma LaidCompact(m: seq<int>, m': seq<int>, step: nat, rows: seq<seq<int>>, flags: seq<bool>)
    requires Laid(m, step, rows) && |flags| == |rows|
    requires At(0, step, |Survivors(flags)|) <= |m'|
    requires Rows(m', step, |Survivors(flags)|) == Compact(Rows(m, step, |rows|), flags)
    ensures Laid(m', step, Compact(rows, flags))
  {
  }

  /** Marking a cell of the newest column. */
  lemma LaidMark(m: seq<int>, step: nat, rows: seq<seq<int>>, n: nat, col: seq<int>, i: nat, v: int)
    requires |col| == |rows| && Laid(m, step, WithColumn(rows, col)) && n < step
    requires forall r :: 0 <= r < |rows| ==> |rows[r]| == n
    requires At(0, step, i) + n < |m|
    ensures Laid(m[At(0, step, i) + n := v], step, WithColumn(rows, if i < |col| then col[i := v] else col))
  {
    LaidSet(m, step, WithColumn(rows, col), i, n, v);
    if i < |col| {
      var wide, wide' := WithColumn(rows, col), WithColumn(rows, col[i := v]);
      forall r | 0 <= r < |rows| ensures wide[i := wide[i][n := v]][r] == wide'[r] { }
      assert wide[i := wide[i][n := v]] == wide';
    }
  }

  ghost predicate Wide(rows: seq<seq<int>>, n: nat) {
    forall r :: 0 <= r < |rows| ==> |rows[r]| == n
  }

  /** Reading the newest column as flags. */
  lemma ColumnFlags(m: seq<int>, step: nat, rows: seq<seq<int>>, col: seq<int>, n: nat)
    requires |col| == |rows| && Laid(m, step, WithColumn(rows, col)) && Wide(rows, n)
    ensures forall i :: 0 <= i < |rows| ==> At(n, step, i) < |m|
    ensures AddedFlags(m, n, step, |rows|) == Flags(col)
  {
    forall i | 0 <= i < |rows| ensures At(n, step, i) < |m| && m[At(n, step, i)] == col[i] {
      LaidRow(m, step, WithColumn(rows, col), i);
    }
  }

  /** A table of `count` rows of which the first `k` have been filled in from `src`. */
  function Partial(src: seq<seq<int>>, k: nat, count: nat): (p: seq<seq<int>>)
    requires k <= |src| <= count
    ensures |p| == count && forall r :: 0 <= r < count ==> p[r] == if r < k then src[r] else []
  {
    seq(count, r requires 0 <= r < count => if r < k then src[r] else [])
  }

  lemma LaidPartialNext(m: seq<int>, m': seq<int>, step: nat, src: seq<seq<int>>, k: nat, count: nat)
    requires k < |src| <= count && Laid(m, step, Partial(src, k, count)) && |src[k]| <= step
    requires At(0, step, k) + |src[k]| <= |m| && m' == m[..At(0, step, k)] + src[k] + m[At(0, step, k) + |src[k]|..]
    ensures Laid(m', step, Partial(src, k + 1, count))
  {
    LaidWrite(m, step, Partial(src, k, count), k, src[k]);
    assert Partial(src, k, count)[k := src[k]] == Partial(src, k + 1, count);
  }

  lemma LaidPartialAll(m: seq<int>, step: nat, src: seq<seq<int>>, count: nat)
    requires |src| <= count && Laid(m, step, Partial(src, |src|, count))
    ensures Laid(m, step, src)
  {
    LaidPrefix(m, step, Partial(src, |src|, count), |src|);
    assert Partial(src, |src|, count)[..|src|] == src;
  }

  /** Copies one old row to the start of row `k` of the new map. */
  method CopyRow(newMap: array<int>, dst: nat, newStep: nat, oldMap: array<int>, from: nat, size: nat,
                 ghost src: seq<seq<int>>, ghost k: nat, ghost count: nat)
    requires newMap != oldMap && newMap.Length == At(0, newStep, count) && k < |src| <= count
    requires dst == At(0, newStep, k) && from + size <= oldMap.Length && size <= newStep
    requires oldMap[from..from + size] == src[k]
    requires Laid(newMap[..], newStep, Partial(src, k, count))
    modifies newMap
    ensures Laid(newMap[..], newStep, Partial(src, k + 1, count))
  {
    ghost var m := newMap[..];
    RowInside(newStep, count, k);
    CopyCells(newMap, dst, oldMap, from, size);
    assert newMap[..] == m[..dst] + src[k] + m[dst + size..];
    LaidPartialNext(m, newMap[..], newStep, src, k, count);
  }

  /** Copies the first `size` cells of each of the `n` rows of `oldMap` into the wider, blank `newMap`. */
  method CopyRows(newMap: array<int>, newStep: nat, oldMap: array<int>, oldStep: nat, size: nat, n: nat,
                  ghost src: seq<seq<int>>, ghost count: nat)
    requires newMap != oldMap && newMap.Length == At(0, newStep, count) && n == |src| <= count
    requires Laid(newMap[..], newStep, Empty(count))
    requires size <= newStep && Laid(oldMap[..], oldStep, src) && Wide(src, size)
    modifies newMap
    ensures Laid(newMap[..], newStep, src)
  {
    var index, dst: nat, from: nat := 0, 0, 0;
    ghost var cells := oldMap[..];
    assert Empty(count) == Partial(src, 0, count);
    while index < n
      invariant index <= n && dst == At(0, newStep, index) && from == At(0, oldStep, index)
      invariant Laid(newMap[..], newStep, Partial(src, index, count)) && oldMap[..] == cells
    {
      LaidRow(cells, oldStep, src, index);
      assert oldMap[from..from + size] == cells[from..from + size];
      CopyRow(newMap, dst, newStep, oldMap, from, size, src, index, count);
      RowInside(newStep, index + 1, index);
      RowInside(oldStep, index + 1, index);
      dst, from, index := dst + newStep, from + oldStep, index + 1;
    }
    LaidPartialAll(newMap[..], newStep, src, count);
  }

  /** Query data once the first `k` modes have been stored. */
  ghost predicate LoadedUpTo(before: seq<Geometry>, query: seq<Geometry>, modes: seq<Option<Geometry>>, k: nat)
    requires k <= |modes|
  {
    && |before| == |query|
    && (forall m :: k <= m < |query| ==> query[m] == before[m])
    && forall m :: 0 <= m < k && m < |query| ==>
         match modes[m]
         case Some(g) => query[m] == g
         case None => query[m] == if m == 1 then ZERO else before[m]
  }

  /** Numbers row `k` in column 0. */
  method NumberRow(table: array<int>, entry: nat, step: nat, k: nat, ghost n: nat, ghost count: nat)
    requires k < n <= count && table.Length == At(0, step, count) && entry == At(0, step, k) && 0 < step
    requires Laid(table[..], step, Partial(FirstRows(n), k, count))
    modifies table
    ensures Laid(table[..], step, Partial(FirstRows(n), k + 1, count))
  {
    RowInside(step, count, k);
    ghost var was := table[..];
    table[entry] := k;
    assert table[..] == was[..entry] + [k] + was[entry + 1..];
    LaidPartialNext(was, table[..], step, FirstRows(n), k, count);
  }

  /** Stores what mode `k` of the first device answered. */
  method StoreAnswer(query: array<Geometry>, k: nat, answer: Option<Geometry>,
                     ghost before: seq<Geometry>, ghost modes: seq<Option<Geometry>>)
    requires k < |modes| <= query.Length && answer == modes[k] && LoadedUpTo(before, query[..], modes, k)
    modifies query
    ensures LoadedUpTo(before, query[..], modes, k + 1)
  {
    match answer {
      case Some(g) => query[k] := g;
      case None =>
        // An unsupported mode 1 is reported as 0 x 0.
        if k == 1 {
          query[k] := ZERO;
        }
    }
  }

  /** Stores every mode of the first device and numbers the rows of the blank map with them. */
  method RecordModes(dev: Device, query: array<Geometry>, table: array<int>, step: nat)
    requires 0 < step && |dev.modes| <= query.Length && table.Length == At(0, step, query.Length)
    requires Laid(table[..], step, Empty(query.Length))
    modifies query, table
    ensures LoadedUpTo(old(query[..]), query[..], dev.modes, |dev.modes|)
    ensures Laid(table[..], step, FirstRows(|dev.modes|))
  {
    ghost var before, count, n := query[..], query.Length, |dev.modes|;
    assert Empty(count) == Partial(FirstRows(n), 0, count);
    var m, index: nat := 0, 0;
    while m < |dev.modes|
      invariant m <= n && index == At(0, step, m)
      invariant LoadedUpTo(before, query[..], dev.modes, m)
      invariant Laid(table[..], step, Partial(FirstRows(n), m, count))
    {
      RowInside(step, count, m);
      ghost var cells := table[..];
      StoreAnswer(query, m, dev.modes[m], before, dev.modes);
      assert table[..] == cells;
      ghost var answers := query[..];
      NumberRow(table, index, step, m, n, count);
      assert query[..] == answers;
      index := index + step;
      m := m + 1;
    }
    LaidPartialAll(table[..], step, FirstRows(n), count);
  }

  /** Marks row `i` of the newest column; a row that is not published may be marked too. */
  method MarkCell(table: array<int>, step: nat, n: nat, i: nat, v: int, ghost rows: seq<seq<int>>, ghost col: seq<int>)
    requires |col| == |rows| && Wide(rows, n) && n < step && At(0, step, i) + n < table.Length
    requires Laid(table[..], step, WithColumn(rows, col))
    modifies table
    ensures Laid(table[..], step, WithColumn(rows, if i < |col| then col[i := v] else col))
  {
    ghost var was := table[..];
    LaidMark(was, step, rows, n, col, i, v);
    table[At(n, step, i)] := v;
    assert table[..] == was[At(0, step, i) + n := v];
  }

  /** A map with one entry per row. */
  lemma UnitSteps(added: seq<int>, n: nat)
    requires |added| == n
    ensures forall i :: 0 <= i < n ==> At(0, 1, i) < |added|
    ensures AddedFlags(added, 0, 1, n) == Flags(added)
  {
    forall i | 0 <= i < n ensures At(0, 1, i) == i {
      TimesIsProduct(i, 1);
    }
  }

  /** The list without its first device of this identity. */
  function Without(devs: seq<Device>, id: nat): seq<Device> {
    if devs == [] then [] else if devs[0].id == id then devs[1..] else [devs[0]] + Without(devs[1..], id)
  }

  lemma {:induction false} WithoutAt(devs: seq<Device>, id: nat, at: nat)
    requires at < |devs| && devs[at].id == id && forall d :: 0 <= d < at ==> devs[d].id != id
    ensures Without(devs, id) == devs[..at] + devs[at + 1..]
  {
    if at == 0 {
    } else {
      WithoutAt(devs[1..], id, at - 1);
      assert devs[..at] + devs[at + 1..] == [devs[0]] + (devs[1..][..at - 1] + devs[1..][at..]);
    }
  }

  /** Closing the gap at `at` among the first `n` entries. */
  lemma GapClosed(was: seq<Device>, now: seq<Device>, at: nat, n: nat)
    requires at < n <= |was|
    requires now == was[..at] + was[at + 1..n] + was[n - 1..]
    ensures |now| == |was| && now[..n - 1] == was[..n][..at] + was[..n][at + 1..]
  {
  }

  /** A longer list with the same devices at its front. */
  method GrownList(list: array<Device>) returns (longer: array<Device>)
    requires list.Length > 0
    ensures fresh(longer) && longer.Length == list.Length + ALLOC_UNIT && longer[..list.Length] == list[..]
  {
    longer := new Device[list.Length + ALLOC_UNIT](_ requires 0 < list.Length reads list => list[0]);
    CopyCells(longer, 0, list, 0, list.Length);
  }

  class Splitter {
    var devices: array<Device>        // TextOutList
    var consoles: nat                 // CurrentNumberOfConsoles
    var queryData: array<Geometry>    // TextOutQueryData
    var modeMap: array?<int>          // TextOutModeMap
    var maxMode: nat
    var mode: int
    ghost var attached: seq<Device>   // the devices in the list
    ghost var table: Table            // the logical mode map and the query data

    ghost predicate Shaped()
      reads this
    {
      ALLOC_UNIT <= devices.Length && consoles <= devices.Length && ALLOC_UNIT <= queryData.Length
    }

    /** The mode map holds these rows. */
    ghost predicate Mapped(rows: seq<seq<int>>)
      reads this, modeMap
    {
      && modeMap != null
      && modeMap.Length == At(0, devices.Length, queryData.Length)
      && maxMode == |rows| <= queryData.Length
      && Laid(modeMap[..], devices.Length, rows)
    }

    ghost predicate Listed()
      reads this, devices
    {
      consoles <= devices.Length && devices[..consoles] == attached
    }

    ghost predicate Queried()
      reads this, queryData
    {
      queryData[..] == table.query
    }

    /** The map and the query data can be looked up. */
    ghost predicate Readable()
      reads this, queryData, modeMap
    {
      Queried() && Mapped(table.rows) && WellKeyed(table)
    }

    ghost predicate Valid()
      reads this, devices, queryData, modeMap
    {
      Shaped() && Listed() && Queried() && (consoles > 0 ==> Mapped(table.rows) && Sound(attached, table))
    }

    constructor ()
      ensures Valid() && attached == [] && fresh(devices) && fresh(queryData) && modeMap == null
      ensures 0 < queryData.Length && queryData[0] == Geometry(80, 25) && maxMode == 1 && mode == 0
    {
      devices := new Device[ALLOC_UNIT];
      var q := new Geometry[ALLOC_UNIT];
      new;
      q[0] := Geometry(80, 25);
      queryData := q;
      consoles, modeMap, maxMode, mode := 0, null, 1, 0;
      attached, table := [], Table([], queryData[..]);
    }

    /** Enlarges the query data until it holds `count` entries; the new entries are whatever memory held. */
    method GrowQueryData(count: nat)
      modifies this`queryData
      ensures queryData == old(queryData) || fresh(queryData)
      ensures count <= queryData.Length && old(queryData).Length <= queryData.Length
      ensures queryData[..old(queryData).Length] == old(queryData[..])
      ensures queryData == old(queryData) || (old(queryData).Length < count && queryData.Length < count + 32)
    {
      while queryData.Length < count
        invariant queryData == old(queryData) || fresh(queryData)
        invariant old(queryData).Length <= queryData.Length
        invariant queryData[..old(queryData).Length] == old(queryData[..])
        invariant queryData == old(queryData) || (old(queryData).Length < count && queryData.Length < count + ALLOC_UNIT)
        decreases count - queryData.Length
      {
        var q := new Geometry[queryData.Length + ALLOC_UNIT];
        CopyCells(q, 0, queryData, 0, queryData.Length);
        assert q[..queryData.Length] == queryData[..];
        queryData := q;
      }
    }

    /** Reallocates the mode map for the current list and query-data sizes, keeping the published rows. */
    method GrowMapTable(ghost rows: seq<seq<int>>)
      requires Shaped() && maxMode <= queryData.Length
      requires consoles > 0 && modeMap != null ==>
        ALLOC_UNIT + consoles <= devices.Length && maxMode == |rows|
        && Laid(modeMap[..], devices.Length - ALLOC_UNIT, rows)
        && Wide(rows, consoles)
      modifies this`modeMap
      ensures modeMap != null && fresh(modeMap) && modeMap.Length == At(0, devices.Length, queryData.Length)
      ensures consoles > 0 && old(modeMap) != null ==> Laid(modeMap[..], devices.Length, rows)
      ensures consoles == 0 || old(modeMap) == null ==> Laid(modeMap[..], devices.Length, Empty(queryData.Length))
    {
      var newStep, count, oldMap := devices.Length, queryData.Length, modeMap;
      var newMap := new int[At(0, newStep, count)](_ => -1);
      assert newMap[..] == Blank(At(0, newStep, count));
      LaidBlank(newStep, count);
      modeMap := newMap;
      if oldMap != null && consoles > 0 {
        CopyRows(newMap, newStep, oldMap, newStep - ALLOC_UNIT, consoles, maxMode, rows, count);
      }
    }

    /** Takes over all modes of the first device. */
    method AddOutputMode(dev: Device)
      requires Shaped() && Queried() && (consoles == 0 || modeMap == null)
      modifies this`maxMode, this`queryData, this`modeMap, this`table, queryData
      ensures Shaped() && Queried() && Mapped(table.rows) && fresh(modeMap)
      ensures queryData == old(queryData) || fresh(queryData)
      ensures table.rows == FirstRows(|dev.modes|) && Loaded(old(table.query), table.query, dev.modes)
    {
      maxMode := |dev.modes|;
      GrowQueryData(maxMode);
      GrowMapTable([]);
      RecordModes(dev, queryData, modeMap, devices.Length);
      table := Table(FirstRows(maxMode), queryData[..]);
    }

    /** Searches the published modes for geometry `g`. */
    method FindMode(g: Geometry, ghost wide: seq<seq<int>>) returns (index: nat)
      requires modeMap != null && Laid(modeMap[..], devices.Length, wide)
      requires maxMode == |wide| && WellKeyed(Table(wide, queryData[..]))
      ensures index == FirstMatch(Keys(wide), queryData[..], g)
    {
      var entry: nat := 0;
      ghost var keys, query := Keys(wide), queryData[..];
      index := 0;
      while index < maxMode
        invariant index <= maxMode && entry == At(0, devices.Length, index)
        invariant FirstMatch(keys, query, g) == FirstMatch(keys, query, g, index)
      {
        LaidRow(modeMap[..], devices.Length, wide, index);
        RowInside(devices.Length, index + 1, index);
        var queryMode := modeMap[entry];
        assert queryMode == keys[index] && queryData[queryMode] == query[queryMode];
        if queryData[queryMode] == g {
          return;
        }
        index, entry := index + 1, entry + devices.Length;
      }
    }

    /** Looks mode `m` of the new device up among the published modes and marks the first match. */
    method MarkMode(m: nat, answer: Option<Geometry>, ghost modes: seq<Option<Geometry>>)
      requires m < |modes| && answer == modes[m] && WellKeyed(table) && Wide(table.rows, consoles)
      requires Shaped() && 0 < consoles < devices.Length
      requires Mapped(WithColumn(table.rows, Marked(Keys(table.rows), table.query, modes, m)))
      requires queryData[..] == QueryAt(table.query, modes, m)
      modifies queryData, modeMap
      ensures queryData[..] == QueryAt(table.query, modes, m + 1)
      ensures Mapped(WithColumn(table.rows, Marked(Keys(table.rows), table.query, modes, m + 1)))
    {
      var step := devices.Length;
      ghost var rows := table.rows;
      ghost var col := Marked(Keys(rows), table.query, modes, m);
      match answer {
        case None =>
          if m == 1 {
            RowInside(step, queryData.Length, 1);
            MarkCell(modeMap, step, consoles, 1, m, rows, col);
            queryData[m] := ZERO;
          }
        case Some(g) =>
          var index := FindMode(g, WithColumn(rows, col));
          assert Keys(WithColumn(rows, col)) == Keys(rows);
          if index < maxMode {
            RowInside(step, queryData.Length, index);
            MarkCell(modeMap, step, consoles, index, m, rows, col);
          }
      }
    }

    method MarkModes(dev: Device)
      requires Shaped() && Queried() && 0 < consoles < devices.Length && Mapped(table.rows)
      requires WellKeyed(table) && Wide(table.rows, consoles)
      modifies queryData, modeMap
      ensures queryData[..] == QueryAt(table.query, dev.modes, |dev.modes|)
      ensures Mapped(WithColumn(table.rows, Marked(Keys(table.rows), table.query, dev.modes, |dev.modes|)))
    {
      LaidNewColumn(modeMap[..], devices.Length, table.rows);
      assert Blank(|table.rows|) == Marked(Keys(table.rows), table.query, dev.modes, 0);
      var m := 0;
      while m < |dev.modes|
        invariant m <= |dev.modes|
        invariant queryData[..] == QueryAt(table.query, dev.modes, m)
        invariant Mapped(WithColumn(table.rows, Marked(Keys(table.rows), table.query, dev.modes, m)))
      {
        MarkMode(m, dev.modes[m], dev.modes);
        m := m + 1;
      }
    }

    /** Filters the rows by their newest column, which lies in the table being filtered. */
    method DropUnmarked(ghost rows: seq<seq<int>>, ghost col: seq<int>)
      requires Shaped() && 0 < consoles < devices.Length && |col| == |rows| && Wide(rows, consoles)
      requires Mapped(WithColumn(rows, col))
      modifies this`maxMode, this`mode, modeMap
      ensures Mapped(Compact(WithColumn(rows, col), Flags(col))) && mode == NewCurrent(Flags(col), old(mode))
    {
      ghost var marked := modeMap[..];
      ColumnFlags(marked, devices.Length, rows, col, consoles);
      maxMode, mode := GetIntersection(modeMap, modeMap, consoles, devices.Length, devices.Length, maxMode, mode);
      LaidCompact(marked, modeMap[..], devices.Length, WithColumn(rows, col), Flags(col));
    }

    /** Adds the column of a further device and drops the modes it does not share. */
    method SyncOutputMode(dev: Device)
      requires Shaped() && Queried() && 0 < consoles < devices.Length && Mapped(table.rows)
      requires WellKeyed(table) && Wide(table.rows, consoles)
      modifies this`maxMode, this`mode, this`table, queryData, modeMap
      ensures Queried() && Mapped(table.rows)
      ensures table == Sync(old(table), dev) && mode == ModeAfterSync(old(table), dev, old(mode))
    {
      MarkModes(dev);
      ghost var query := queryData[..];
      DropUnmarked(table.rows, Marked(Keys(table.rows), table.query, dev.modes, |dev.modes|));
      assert queryData[..] == query;
      table := Sync(table, dev);
    }

    /** Enlarges the device list and the mode map with it. */
    method GrowTextOutList()
      requires Valid() && consoles == devices.Length
      modifies this`devices, this`modeMap
      ensures Valid() && fresh(devices) && fresh(modeMap) && devices.Length == old(devices.Length) + ALLOC_UNIT
    {
      assert consoles > 0 ==> Wide(table.rows, consoles);
      devices := GrownList(devices);
      GrowMapTable(table.rows);
    }

    /** Makes sure the device list has a free place. */
    method MakeRoom()
      requires Valid()
      modifies this`devices, this`modeMap
      ensures Valid() && consoles < devices.Length
      ensures devices == old(devices) || fresh(devices)
      ensures modeMap == old(modeMap) || fresh(modeMap)
    {
      while consoles >= devices.Length
        invariant Valid()
        invariant devices == old(devices) || fresh(devices)
        invariant modeMap == old(modeMap) || fresh(modeMap)
        decreases consoles + 1 - devices.Length
      {
        GrowTextOutList();
      }
    }

    /** Takes over the modes of the device just listed, and counts it. */
    method AttachFirst(dev: Device)
      requires Shaped() && Queried() && (consoles == 0 || modeMap == null) && devices[0] == dev
      modifies this, queryData
      ensures Valid() && devices == old(devices) && fresh(modeMap)
      ensures queryData == old(queryData) || fresh(queryData)
      ensures attached == [dev] && table.rows == FirstRows(|dev.modes|)
      ensures Loaded(old(table.query), table.query, dev.modes)
      ensures dev.FailsAtMostMode1() ==> Canonical(attached, table)
    {
      AddOutputMode(dev);
      FirstTableIsSound(dev, old(table.query), table.query);
      if dev.FailsAtMostMode1() {
        FirstTableIsCanonical(dev, old(table.query), table.query);
      }
      consoles, attached := 1, [dev];
    }

    method AttachNext(dev: Device)
      requires Valid() && 0 < consoles < devices.Length && devices[consoles] == dev
      modifies this, queryData, modeMap
      ensures Valid() && devices == old(devices) && queryData == old(queryData) && modeMap == old(modeMap)
      ensures attached == old(attached) + [dev]
      ensures table == Sync(old(table), dev) && mode == ModeAfterSync(old(table), dev, old(mode))
      ensures Canonical(old(attached), old(table)) ==> Canonical(attached, table)
    {
      ghost var devs, t := attached, table;
      SyncKeepsAll(devs, t, dev);
      assert Wide(t.rows, consoles);
      SyncOutputMode(dev);
      consoles, attached := consoles + 1, devs + [dev];
    }

    /** Adds a device after the others. */
    method AddDevice(dev: Device)
      requires Valid()
      modifies this, devices, queryData, modeMap
      ensures Valid()
      ensures devices == old(devices) || fresh(devices)
      ensures queryData == old(queryData) || fresh(queryData)
      ensures modeMap == old(modeMap) || fresh(modeMap)
      ensures attached == old(attached) + [dev]
      ensures old(attached) == [] ==>
        table.rows == FirstRows(|dev.modes|) && Loaded(old(table.query), table.query, dev.modes)
      ensures old(attached) != [] ==> table == Sync(old(table), dev) && mode == ModeAfterSync(old(table), dev, old(mode))
      ensures (if old(attached) == [] then dev.FailsAtMostMode1() else Canonical(old(attached), old(table)))
        ==> Canonical(attached, table)
    {
      MakeRoom();
      devices[consoles] := dev;
      if consoles == 0 {
        AttachFirst(dev);
      } else {
        AttachNext(dev);
      }
    }

    /** The place of the first device with this identity, or the number of devices. */
    method FindDevice(id: nat) returns (at: nat)
      requires Listed()
      ensures at <= consoles && forall d :: 0 <= d < at ==> attached[d].id != id
      ensures at < consoles ==> attached[at].id == id
    {
      var index: int := consoles - 1;
      at := 0;
      while index >= 0
        invariant at + index == consoles - 1 && -1 <= index
        invariant forall d :: 0 <= d < at ==> attached[d].id != id
      {
        assert devices[at] == attached[at];
        if devices[at].id == id {
          return;
        }
        index, at := index - 1, at + 1;
      }
    }

    /** Moves the devices behind place `at` up by one. */
    method CloseGap(at: nat)
      requires Listed() && at < consoles
      modifies devices
      ensures devices[..consoles - 1] == attached[..at] + attached[at + 1..]
    {
      ghost var was := devices[..];
      CopyCells(devices, at, devices, at + 1, consoles - 1 - at);
      GapClosed(was, devices[..], at, consoles);
    }

    /** Removes the first device with this identity from the list; false when there is none. */
    method Unlist(id: nat) returns (found: bool)
      requires Listed()
      modifies devices
      ensures found <==> exists d :: 0 <= d < |attached| && attached[d].id == id
      ensures !found ==> devices[..] == old(devices[..])
      ensures found ==> consoles > 0 && devices[..consoles - 1] == Without(attached, id)
    {
      var at := FindDevice(id);
      found := at < consoles;
      if found {
        WithoutAt(attached, id, at);
        CloseGap(at);
      }
    }

    /** Rebuilds everything from the devices still listed, of which there is at least one. */
    method Rescan(n: nat)
      requires Shaped() && 0 < n <= devices.Length
      requires queryData[..] == table.query && (forall i :: 0 <= i < |table.query| ==> table.query[i] == ZERO)
      requires modeMap == null
      modifies this, queryData
      ensures Valid() && devices == old(devices) && (queryData == old(queryData) || fresh(queryData)) && fresh(modeMap)
      ensures devices[..n] == old(devices[..n]) == attached
      ensures devices[0].FailsAtMostMode1() ==> Canonical(attached, table)
    {
      AttachFirst(devices[0]);
      var index := 1;
      while index < n
        invariant devices == old(devices) && 1 <= index <= n && consoles == index
        invariant Valid() && modeMap != null && fresh(modeMap) && (queryData == old(queryData) || fresh(queryData))
        invariant devices[..n] == old(devices[..n])
        invariant devices[0].FailsAtMostMode1() ==> Canonical(attached, table)
      {
        AttachNext(devices[index]);
        index := index + 1;
      }
    }

    /** Removes a device and rebuilds the mode map from those that remain; false when it is not in the list. */
    method DeleteDevice(id: nat) returns (found: bool)
      requires Valid()
      modifies this, devices, queryData
      ensures Valid() && devices == old(devices)
      ensures queryData == old(queryData) || fresh(queryData)
      ensures modeMap == null || modeMap == old(modeMap) || fresh(modeMap)
      ensures found <==> exists d :: 0 <= d < |old(attached)| && old(attached)[d].id == id
      ensures !found ==> attached == old(attached) && table == old(table) && mode == old(mode)
      ensures found ==> attached == Without(old(attached), id)
      ensures found && attached != [] && attached[0].FailsAtMostMode1() ==> Canonical(attached, table)
      ensures found && attached == [] ==> maxMode == 1 && mode == 0 && table.query[0] == Geometry(80, 25)
    {
      found := Unlist(id);
      if !found {
        assert devices[..consoles] == attached;
        return;
      }
      if consoles == 1 {
        Reset();
      } else {
        forall i | 0 <= i < queryData.Length {
          queryData[i] := ZERO;
        }
        modeMap, table := null, Table([], queryData[..]);
        Rescan(consoles - 1);
      }
    }

    /** No device is left. */
    method Reset()
      requires Shaped()
      modifies this`consoles, this`maxMode, this`mode, this`attached, this`table, queryData
      ensures Valid() && attached == []
      ensures maxMode == 1 && mode == 0 && table.query[0] == Geometry(80, 25)
    {
      consoles, maxMode, mode := 0, 1, 0;
      queryData[0] := Geometry(80, 25);
      attached, table := [], Table([], queryData[..]);
    }

    /**
     Sets the current mode and passes it on, each device getting its own number for it; false when there is no such
     mode.  `told[d]` is the mode device `d` is left in: one that is in it already may not be told again.  Setting the
     current mode again only clears the screen.
     */
    method SetMode(number: nat) returns (supported: bool, told: seq<int>)
      requires Valid()
      modifies this`mode
      ensures Valid() && supported == (number < maxMode) && mode == if supported then number else old(mode)
      ensures !supported || number == old(mode) ==> told == []
      ensures (supported && number != old(mode) && 0 < consoles ==>
                number < |table.rows| && told == table.rows[number] && Tells(attached, table, number, told))
    {
      supported, told := number < maxMode, [];
      if !supported || mode == number {
        return;
      }
      mode := number;
      if consoles > 0 {
        told := CellsOf(number);
        RowTells(attached, table, number);
      }
    }

    /** The modes that row `number` of the map has for the devices in the list. */
    method CellsOf(number: nat) returns (cells: seq<int>)
      requires Valid() && 0 < consoles && number < maxMode
      ensures cells == table.rows[number]
    {
      LaidRow(modeMap[..], devices.Length, table.rows, number);
      var entry := Times(number, devices.Length);
      var index := 0;
      cells := [];
      while index < consoles
        invariant index <= consoles && cells == table.rows[number][..index]
      {
        assert At(index, devices.Length, number) == entry + index;
        cells := cells + [modeMap[entry + index]];
        index := index + 1;
      }
    }

    /** Keeps the published modes whose entry in `added` is not -1; a current mode that is dropped becomes mode 0. */
    method FilterBy(added: array<int>)
      requires Valid() && 0 < consoles && added.Length == maxMode && added != modeMap
      modifies this`maxMode, this`mode, this`table, modeMap
      ensures Valid() && table == Table(Compact(old(table.rows), Flags(added[..])), old(table.query))
      ensures mode == ModeAfterCut(Flags(added[..]), old(mode), maxMode)
    {
      ghost var marked, flags, rows := modeMap[..], Flags(added[..]), table.rows;
      UnitSteps(added[..], |rows|);
      CompactKeepsSound(attached, table, flags);
      maxMode, mode := GetIntersection(modeMap, added, 0, devices.Length, 1, maxMode, mode);
      LaidCompact(marked, modeMap[..], devices.Length, rows, flags);
      table := Table(Compact(rows, flags), table.query);
      if mode < 0 {
        var _, _ := SetMode(0);
      }
    }
  }
}
