/**
 The logical mode map of the console splitter, stated on values.

 A table has one row per published text mode and one column per attached device; the cell holds the device's own
 mode number.  Column 0 doubles as an index into the query data.  The functions below say what adding a device does
 to that table; the in-place code that works on the flat array is proved against them in TextOutSplitter.
 */
module ModeMap {
  import opened Common

  datatype Geometry = Geometry(columns: nat, rows: nat)

  const ZERO := Geometry(0, 0)

  /** A text-out device: `modes[m]` is what QueryMode answers for mode `m`, `None` being an error. */
  datatype Device = Device(id: nat, modes: seq<Option<Geometry>>)
  {
    /** Only mode 1 (80x50) may be unsupported. */
    predicate FailsAtMostMode1() {
      forall m :: 0 <= m < |modes| && m != 1 ==> modes[m].Some?
    }

    ghost predicate Names(mode: int, g: Geometry) {
      0 <= mode < |modes| && modes[mode] == Some(g)
    }

    ghost predicate Supports(g: Geometry) {
      Some(g) in modes
    }

    /** What the device says of mode 1; 0 x 0 when it does not support it. */
    function Mode1(): Geometry {
      if 1 < |modes| && modes[1].Some? then modes[1].value else ZERO
    }

    /** There is a mode 1, and it is not supported. */
    ghost predicate LacksMode1() {
      1 < |modes| && modes[1].None?
    }

    /** No mode from 2 on is 0 x 0 or repeats the geometry of an earlier mode. */
    ghost predicate KeysApart() {
      forall j :: 2 <= j < |modes| ==> modes[j] != Some(ZERO) && forall i :: 0 <= i < j ==> modes[i] != modes[j]
    }
  }

  datatype Table = Table(rows: seq<seq<int>>, query: seq<Geometry>)

  // ---------- Filtering rows ----------

  /** Rows 0 and 1 are reserved and always kept; a later row is kept when its flag is set. */
  predicate Kept(flags: seq<bool>, i: nat)
    requires i < |flags|
  {
    i < 2 || flags[i]
  }

  /** The numbers of the rows that stay, in the order they stay in. */
  function Survivors(flags: seq<bool>): (s: seq<nat>)
    ensures |s| <= |flags|
    ensures forall k :: 0 <= k < |s| ==> s[k] < |flags|
  {
    if flags == [] then [] else
      var n := |flags| - 1;
      var s := Survivors(flags[..n]);
      if Kept(flags, n) then s + [n] else s
  }

  function Compact<T>(rows: seq<T>, flags: seq<bool>): (r: seq<T>)
    requires |rows| == |flags|
  {
    seq(|Survivors(flags)|, k requires 0 <= k < |Survivors(flags)| => rows[Survivors(flags)[k]])
  }

  /** Where a current-mode number points once the rows have been compacted; -1 when its row is gone. */
  function NewCurrent(flags: seq<bool>, current: int): int {
    if 2 <= current < |flags| && !flags[current] then -1
    else if current < 0 then current
    else if current < |flags| then |Survivors(flags[..current])|
    else current - (|flags| - |Survivors(flags)|)
  }

  /** The same after a filter that falls back to mode 0 when there is one. */
  function ModeAfterCut(flags: seq<bool>, current: int, count: nat): int {
    if NewCurrent(flags, current) < 0 && 0 < count then 0 else NewCurrent(flags, current)
  }

  /** Survivors of a prefix are a prefix of the survivors. */
  lemma {:induction false} SurvivorsPrefix(flags: seq<bool>, i: nat)
    requires i <= |flags|
    ensures Survivors(flags[..i]) <= Survivors(flags)
    ensures i < |flags| && Kept(flags, i) ==>
      |Survivors(flags[..i])| < |Survivors(flags)| && Survivors(flags)[|Survivors(flags[..i])|] == i
  {
    if i == |flags| {
      assert flags[..i] == flags;
    } else {
      var n := |flags| - 1;
      SurvivorsPrefix(flags[..n], i);
      assert flags[..n][..i] == flags[..i];
    }
  }

  ghost predicate Ascending(s: seq<nat>) {
    forall j, k :: 0 <= j < k < |s| ==> s[j] < s[k]
  }

  lemma {:induction false} SurvivorsAscend(flags: seq<bool>)
    ensures Ascending(Survivors(flags))
    ensures forall k :: 0 <= k < |Survivors(flags)| ==> Kept(flags, Survivors(flags)[k])
  {
    if flags == [] {
    } else {
      var n := |flags| - 1;
      SurvivorsAscend(flags[..n]);
      var p := Survivors(flags[..n]);
      forall k | 0 <= k < |p| ensures Kept(flags, p[k]) {
        assert p[k] < |flags[..n]| && Kept(flags[..n], p[k]);
        assert flags[..n][p[k]] == flags[p[k]];
      }
    }
  }

  /** The filter is stable and exact: ascending, only kept rows, every kept row, rows 0 and 1 in place. */
  lemma SurvivorsExact(flags: seq<bool>)
    ensures var s := Survivors(flags);
            && Ascending(s)
            && (forall k :: 0 <= k < |s| ==> Kept(flags, s[k]))
            && (forall i :: 0 <= i < |flags| && Kept(flags, i) ==> i in s)
            && (forall i :: 0 <= i < 2 && i < |flags| ==> i < |s| && s[i] == i)
    ensures forall i :: 0 <= i < |flags| ==> (i in Survivors(flags) <==> i < 2 || flags[i])
  {
    SurvivorsAscend(flags);
    forall i | 0 <= i < |flags| && Kept(flags, i) ensures i in Survivors(flags) {
      SurvivorsPrefix(flags, i);
    }
    if 0 < |flags| { SurvivorsPrefix(flags, 0); }
    if 1 < |flags| {
      SurvivorsPrefix(flags, 1);
      assert flags[..1][..0] == [];
      assert |Survivors(flags[..1])| == 1;
    }
    forall i | 0 <= i < |flags| ensures i in Survivors(flags) <==> i < 2 || flags[i] {
      assert Kept(flags, i) <==> i < 2 || flags[i];
    }
  }

  /** From place 2 on, the survivors are rows from 2 on whose flag is set. */
  lemma SurvivorFromTwo(flags: seq<bool>, k: nat)
    requires 2 <= k < |Survivors(flags)|
    ensures 2 <= Survivors(flags)[k] && flags[Survivors(flags)[k]]
  {
  }

  /** How one more row changes the survivors and the current mode. */
  lemma SurvivorsStep(flags: seq<bool>, i: nat, current: int)
    requires i < |flags|
    ensures var p := Survivors(flags[..i]);
            && Survivors(flags[..i + 1]) == (if Kept(flags, i) then p + [i] else p)
            && NewCurrent(flags[..i + 1], current) ==
               (if Kept(flags, i) || current < i then NewCurrent(flags[..i], current)
                else if current == i then -1
                else NewCurrent(flags[..i], current) - 1)
  {
    assert flags[..i + 1][..i] == flags[..i];
    if 0 <= current < i {
      assert flags[..i + 1][..current] == flags[..i][..current];
    }
  }

  /** A valid current mode keeps denoting the same row; it becomes -1 exactly when that row is removed. */
  lemma CurrentFollowsRow<T>(rows: seq<T>, flags: seq<bool>, current: nat)
    requires |rows| == |flags| && current < |rows|
    ensures var c := NewCurrent(flags, current);
            && (c == -1 <==> 2 <= current && !flags[current])
            && (c != -1 ==> 0 <= c < |Compact(rows, flags)| && Compact(rows, flags)[c] == rows[current])
  {
    SurvivorsPrefix(flags, current);
  }

  /** With the fallback: a valid current mode keeps its row, and becomes mode 0 exactly when its row is removed. */
  lemma CutFollowsRow<T>(rows: seq<T>, flags: seq<bool>, current: int)
    requires |rows| == |flags| && current < |rows|
    ensures var after, c := Compact(rows, flags), ModeAfterCut(flags, current, |Compact(rows, flags)|);
            if current < 0 then c == if |rows| == 0 then current else 0
            else
              && 0 <= c < |after|
              && if current < 2 || flags[current] then after[c] == rows[current] else c == 0
  {
    SurvivorsExact(flags);
    assert |rows| > 0 ==> 0 in Survivors(flags);
    if current >= 0 {
      CurrentFollowsRow(rows, flags, current);
    }
  }

  // ---------- Adding a device to a table ----------

  /** The first row from `from` on whose query data has geometry `g`, or the number of rows when there is none. */
  function FirstMatch(keys: seq<int>, query: seq<Geometry>, g: Geometry, from: nat := 0): (i: nat)
    requires forall r :: 0 <= r < |keys| ==> 0 <= keys[r] < |query|
    requires from <= |keys|
    ensures from <= i <= |keys|
    ensures i < |keys| ==> query[keys[i]] == g
    ensures forall r :: from <= r < i ==> query[keys[r]] != g
    decreases |keys| - from
  {
    if from == |keys| || query[keys[from]] == g then from else FirstMatch(keys, query, g, from + 1)
  }

  /** Query data while mode `mode` is looked up: an unsupported mode 1 has cleared entry 1 by then. */
  function QueryAt(query: seq<Geometry>, modes: seq<Option<Geometry>>, mode: nat): (q: seq<Geometry>)
    requires 2 <= |query|
    ensures |q| == |query|
    ensures forall i :: 0 <= i < |q| && i != 1 ==> q[i] == query[i]
  {
    if 1 < mode && 1 < |modes| && modes[1].None? then query[1 := ZERO] else query
  }

  /** The new device's column once its modes below `mode` have been looked up; -1 marks an absent mode. */
  function Marked(keys: seq<int>, query: seq<Geometry>, modes: seq<Option<Geometry>>, mode: nat): (col: seq<int>)
    requires 2 <= |query| && mode <= |modes|
    requires forall r :: 0 <= r < |keys| ==> 0 <= keys[r] < |query|
    ensures |col| == |keys|
  {
    if mode == 0 then seq(|keys|, _ => -1) else
      var col := Marked(keys, query, modes, mode - 1);
      match modes[mode - 1]
      case None => if mode - 1 == 1 && 1 < |col| then col[1 := 1] else col
      case Some(g) =>
        var i := FirstMatch(keys, QueryAt(query, modes, mode - 1), g);
        if i < |col| then col[i := mode - 1] else col
  }

  function Keys(rows: seq<seq<int>>): (keys: seq<int>)
    requires forall r :: 0 <= r < |rows| ==> 0 < |rows[r]|
    ensures |keys| == |rows| && forall r :: 0 <= r < |rows| ==> keys[r] == rows[r][0]
  {
    seq(|rows|, r requires 0 <= r < |rows| => rows[r][0])
  }

  function WithColumn(rows: seq<seq<int>>, col: seq<int>): (r: seq<seq<int>>)
    requires |rows| == |col|
    ensures |r| == |rows| && forall m :: 0 <= m < |r| ==> r[m] == rows[m] + [col[m]]
  {
    seq(|rows|, m requires 0 <= m < |rows| => rows[m] + [col[m]])
  }

  function Flags(col: seq<int>): (f: seq<bool>)
    ensures |f| == |col| && forall i :: 0 <= i < |f| ==> f[i] == (col[i] != -1)
  {
    seq(|col|, i requires 0 <= i < |col| => col[i] != -1)
  }

  ghost predicate WellKeyed(t: Table) {
    && 2 <= |t.query|
    && forall r :: 0 <= r < |t.rows| ==> 0 < |t.rows[r]| && 0 <= t.rows[r][0] < |t.query|
  }

  function Sync(t: Table, dev: Device): Table
    requires WellKeyed(t)
  {
    var col := Marked(Keys(t.rows), t.query, dev.modes, |dev.modes|);
    Table(Compact(WithColumn(t.rows, col), Flags(col)), QueryAt(t.query, dev.modes, |dev.modes|))
  }

  /** The current mode number after a further device has been added. */
  function ModeAfterSync(t: Table, dev: Device, current: int): int
    requires WellKeyed(t)
  {
    NewCurrent(Flags(Marked(Keys(t.rows), t.query, dev.modes, |dev.modes|)), current)
  }

  /** What the first device leaves: one row per mode, numbered by that mode. */
  function FirstRows(n: nat): (rows: seq<seq<int>>)
    ensures |rows| == n && forall r :: 0 <= r < n ==> rows[r] == [r]
  {
    seq(n, r => [r])
  }

  /** How the first device fills the query data: supported modes are stored, an unsupported mode 1 is cleared. */
  ghost predicate Loaded(before: seq<Geometry>, query: seq<Geometry>, modes: seq<Option<Geometry>>) {
    && |modes| <= |query| && 2 <= |query|
    && forall m :: 0 <= m < |modes| ==>
      match modes[m]
      case Some(g) => query[m] == g
      case None => if m == 1 then query[m] == ZERO else m < |before| ==> query[m] == before[m]
  }

  /** Entry 1 is cleared exactly when a mode 1 that is not supported has been asked for; no other entry changes. */
  lemma QueryAtExactly(query: seq<Geometry>, modes: seq<Option<Geometry>>, mode: nat)
    requires 2 <= |query|
    ensures var cleared := 1 < mode && 1 < |modes| && modes[1].None?;
            forall i :: 0 <= i < |query| ==>
              QueryAt(query, modes, mode)[i] == if i == 1 && cleared then Geometry(0, 0) else query[i]
  {
  }

  /** Mode `c` of a device is looked up to row `r`: the first row with its geometry. */
  ghost predicate LooksUpTo(keys: seq<int>, query: seq<Geometry>, modes: seq<Option<Geometry>>, c: int, r: nat)
    requires 2 <= |query|
    requires forall i :: 0 <= i < |keys| ==> 0 <= keys[i] < |query|
  {
    0 <= c < |modes| && modes[c].Some? && FirstMatch(keys, QueryAt(query, modes, c), modes[c].value) == r
  }

  /** Mode `c` leaves its number in row `r`: it is looked up to it, or is the unsupported mode 1, which keeps row 1. */
  ghost predicate Marks(keys: seq<int>, query: seq<Geometry>, modes: seq<Option<Geometry>>, c: int, r: nat)
    requires 2 <= |query|
    requires forall i :: 0 <= i < |keys| ==> 0 <= keys[i] < |query|
  {
    LooksUpTo(keys, query, modes, c, r) || (c == 1 && r == 1 && 1 < |modes| && modes[1].None?)
  }

  /** Every cell of the column, rows 0 and 1 included, is the last mode that marks its row, or -1 without one. */
  lemma {:induction false} MarkedIs(keys: seq<int>, query: seq<Geometry>, modes: seq<Option<Geometry>>, mode: nat, r: nat)
    requires 2 <= |query| && mode <= |modes| && r < |keys|
    requires forall i :: 0 <= i < |keys| ==> 0 <= keys[i] < |query|
    ensures var v := Marked(keys, query, modes, mode)[r];
            && -1 <= v < mode
            && (0 <= v ==> Marks(keys, query, modes, v, r))
            && forall c :: v < c < mode ==> !Marks(keys, query, modes, c, r)
  {
    if mode == 0 {
    } else {
      MarkedIs(keys, query, modes, mode - 1, r);
      var v := Marked(keys, query, modes, mode)[r];
      assert Marks(keys, query, modes, mode - 1, r) <==> v == mode - 1;
    }
  }

  /** What a marked cell means, for rows 0 and 1 too. */
  lemma MarkedNames(keys: seq<int>, query: seq<Geometry>, dev: Device, mode: nat, r: nat)
    requires 2 <= |query| && mode <= |dev.modes| && r < |keys|
    requires forall i :: 0 <= i < |keys| ==> 0 <= keys[i] < |query|
    ensures var c := Marked(keys, query, dev.modes, mode)[r];
            || c == -1
            || (r == 1 && c == 1 && 1 < |dev.modes| && dev.modes[1].None?)
            || (0 <= c < mode && dev.Names(c, QueryAt(query, dev.modes, c)[keys[r]]))
  {
    MarkedIs(keys, query, dev.modes, mode, r);
  }

  /** A device's cell for mode 0: its own number for the geometry reported, or none when it does not support it. */
  ghost predicate Cell0(dev: Device, g0: Geometry, c: int) {
    if dev.Supports(g0) then dev.Names(c, g0) else c == -1
  }

  /** Row 0 is marked exactly when the device supports the geometry reported for it. */
  lemma MarkedRow0(keys: seq<int>, query: seq<Geometry>, dev: Device)
    requires 2 <= |query| && 0 < |keys| && keys[0] == 0
    requires forall i :: 0 <= i < |keys| ==> 0 <= keys[i] < |query|
    ensures Cell0(dev, query[0], Marked(keys, query, dev.modes, |dev.modes|)[0])
  {
    MarkedIs(keys, query, dev.modes, |dev.modes|, 0);
    MarkedNames(keys, query, dev, |dev.modes|, 0);
    if dev.Supports(query[0]) {
      var c :| 0 <= c < |dev.modes| && dev.modes[c] == Some(query[0]);
      assert LooksUpTo(keys, query, dev.modes, c, 0) && Marks(keys, query, dev.modes, c, 0);
    }
  }

  /**
   A device's cell for mode 1, reported as `before` when the device came and as `now` later: its number for the geometry
   reported, where that is neither cleared nor mode 0's; its own mode 1 when it lacks one; otherwise none, or a number
   for what was reported before or after clearing.
   */
  ghost predicate Cell1(dev: Device, g0: Geometry, before: Geometry, now: Geometry, c: int) {
    && (c == -1 || (c == 1 && dev.LacksMode1()) || dev.Names(c, ZERO) || dev.Names(c, before))
    && (dev.LacksMode1() ==> c != -1)
    && (now != ZERO && now != g0 ==> if dev.Supports(now) then dev.Names(c, now) else c == -1)
  }

  lemma MarkedRow1(keys: seq<int>, query: seq<Geometry>, dev: Device)
    requires 2 <= |query| && 1 < |keys| && keys[0] == 0 && keys[1] == 1
    requires forall i :: 0 <= i < |keys| ==> 0 <= keys[i] < |query|
    ensures Cell1(dev, query[0], query[1], QueryAt(query, dev.modes, |dev.modes|)[1],
              Marked(keys, query, dev.modes, |dev.modes|)[1])
  {
    var n := |dev.modes|;
    MarkedIs(keys, query, dev.modes, n, 1);
    MarkedNames(keys, query, dev, n, 1);
    if dev.LacksMode1() {
      assert Marks(keys, query, dev.modes, 1, 1);
    } else if query[1] != query[0] && dev.Supports(query[1]) {
      var c :| 0 <= c < n && dev.modes[c] == Some(query[1]);
      assert LooksUpTo(keys, query, dev.modes, c, 1) && Marks(keys, query, dev.modes, c, 1);
    }
  }

  // ---------- What holds of every table ----------

  /** Rows are in order of the first device's mode numbers, which index its query data. */
  ghost predicate Keyed(dev: Device, t: Table) {
    && WellKeyed(t)
    && |t.rows| <= |dev.modes| <= |t.query|
    && (forall m :: 0 <= m < |t.rows| ==> t.rows[m][0] < |dev.modes|)
    && (forall a, b :: 0 <= a < b < |t.rows| ==> t.rows[a][0] < t.rows[b][0])
    && (forall m :: 0 <= m < 2 && m < |t.rows| ==> t.rows[m][0] == m)
    && (forall m :: 0 <= m < |dev.modes| && m != 1 && dev.modes[m].Some? ==> t.query[m] == dev.modes[m].value)
  }

  /** Every published mode from 2 on is, on every later device, a mode of the geometry reported for it. */
  ghost predicate CellsName(devs: seq<Device>, t: Table)
    requires WellKeyed(t)
  {
    && (forall m :: 0 <= m < |t.rows| ==> |t.rows[m]| == |devs|)
    && (forall m, d :: 2 <= m < |t.rows| && 1 <= d < |devs| ==>
         devs[d].Names(t.rows[m][d], t.query[t.rows[m][0]]))
  }

  /** Entry 1 of the query data is what the first device said of mode 1, or cleared. */
  ghost predicate Entry1(dev: Device, t: Table) {
    2 <= |t.query| && (t.query[1] == ZERO || dev.Names(1, t.query[1]))
  }

  /** The cells of device `d` for modes 0 and 1. */
  ghost predicate FixedAt(devs: seq<Device>, t: Table, d: nat)
    requires WellKeyed(t) && 0 < d < |devs|
  {
    && (0 < |t.rows| ==> d < |t.rows[0]| && Cell0(devs[d], t.query[0], t.rows[0][d]))
    && (1 < |t.rows| ==> d < |t.rows[1]| && Cell1(devs[d], t.query[0], devs[0].Mode1(), t.query[1], t.rows[1][d]))
  }

  /** Modes 0 and 1, which stay published whatever the devices support. */
  ghost predicate FixedCells(devs: seq<Device>, t: Table)
    requires WellKeyed(t) && devs != []
  {
    && (1 < |devs[0].modes| ==> Entry1(devs[0], t))
    && forall d {:trigger FixedAt(devs, t, d)} :: 1 <= d < |devs| ==> FixedAt(devs, t, d)
  }

  ghost predicate Sound(devs: seq<Device>, t: Table) {
    devs != [] && Keyed(devs[0], t) && CellsName(devs, t) && FixedCells(devs, t)
  }

  lemma FirstTableIsSound(dev: Device, before: seq<Geometry>, query: seq<Geometry>)
    requires Loaded(before, query, dev.modes)
    ensures Sound([dev], Table(FirstRows(|dev.modes|), query))
  {
  }

  /** A marked cell from row 2 on names a mode of the device with the row's geometry. */
  lemma {:induction false} MarkedCellNamesMode(keys: seq<int>, query: seq<Geometry>, dev: Device, mode: nat, r: nat)
    requires 2 <= |query| && mode <= |dev.modes|
    requires forall i :: 0 <= i < |keys| ==> 0 <= keys[i] < |query|
    requires 2 <= r < |keys| && 2 <= keys[r]
    ensures var c := Marked(keys, query, dev.modes, mode)[r];
            c == -1 || (0 <= c < mode && dev.Names(c, query[keys[r]]))
  {
    if mode == 0 {
    } else {
      MarkedCellNamesMode(keys, query, dev, mode - 1, r);
    }
  }

  /** One look-up marks row `r` or leaves it alone. */
  lemma MarkedStep(keys: seq<int>, query: seq<Geometry>, modes: seq<Option<Geometry>>, mode: nat, r: nat)
    requires 2 <= |query| && 0 < mode <= |modes|
    requires forall i :: 0 <= i < |keys| ==> 0 <= keys[i] < |query|
    requires 2 <= r < |keys|
    ensures Marked(keys, query, modes, mode)[r] ==
            if LooksUpTo(keys, query, modes, mode - 1, r) then mode - 1 else Marked(keys, query, modes, mode - 1)[r]
  {
  }

  /** A row is marked exactly when some mode of the device has its geometry and no earlier row takes that mode. */
  lemma {:induction false} MarkedExactly(keys: seq<int>, query: seq<Geometry>, modes: seq<Option<Geometry>>, mode: nat, r: nat)
    requires 2 <= |query| && mode <= |modes|
    requires forall i :: 0 <= i < |keys| ==> 0 <= keys[i] < |query|
    requires 2 <= r < |keys|
    ensures Marked(keys, query, modes, mode)[r] != -1 <==>
            exists c :: c < mode && LooksUpTo(keys, query, modes, c, r)
  {
    if mode == 0 {
    } else {
      MarkedExactly(keys, query, modes, mode - 1, r);
      MarkedStep(keys, query, modes, mode, r);
      if !LooksUpTo(keys, query, modes, mode - 1, r) {
        if c :| c < mode && LooksUpTo(keys, query, modes, c, r) {
          assert c < mode - 1;
        }
      }
    }
  }

  /** Cells of the table after a device has been added. */
  lemma SyncRow(dev0: Device, t: Table, dev: Device, m: nat)
    requires Keyed(dev0, t) && m < |Sync(t, dev).rows|
    ensures var col := Marked(Keys(t.rows), t.query, dev.modes, |dev.modes|);
            var s := Survivors(Flags(col))[m];
            && Sync(t, dev).rows[m] == t.rows[s] + [col[s]]
            && (m < 2 <==> s < 2) && (m < 2 ==> s == m)
            && (2 <= m ==> 2 <= t.rows[s][0] && col[s] != -1)
  {
    var col := Marked(Keys(t.rows), t.query, dev.modes, |dev.modes|);
    SurvivorsExact(Flags(col));
    var s := Survivors(Flags(col));
    if 2 <= m {
      SurvivorFromTwo(Flags(col), m);
      assert t.rows[1][0] == 1 && t.rows[1][0] < t.rows[s[m]][0];
    }
  }

  ghost predicate SameKey(row: seq<int>, row': seq<int>) {
    row != [] && row' != [] && row'[0] == row[0]
  }

  /** Rows `s` of a table, in order, and entry 1 of the query data changed at most. */
  ghost predicate Selects(t: Table, t': Table, s: seq<nat>) {
    && |t'.rows| == |s| <= |t.rows| && |t'.query| == |t.query|
    && (forall m :: 0 <= m < |s| ==> s[m] < |t.rows| && SameKey(t.rows[s[m]], t'.rows[m]))
    && Ascending(s)
    && (forall m :: 0 <= m < 2 && m < |s| ==> s[m] == m)
    && (forall i :: 0 <= i < |t.query| && i != 1 ==> t'.query[i] == t.query[i])
  }

  lemma SelectionKeyed(dev0: Device, t: Table, t': Table, s: seq<nat>)
    requires Keyed(dev0, t) && Selects(t, t', s)
    ensures Keyed(dev0, t')
  {
    forall m | 0 <= m < |s| ensures 0 < |t'.rows[m]| && 0 <= t'.rows[m][0] < |dev0.modes| {
      assert 0 <= t.rows[s[m]][0] < |dev0.modes|;
    }
    forall a, b | 0 <= a < b < |s| ensures t'.rows[a][0] < t'.rows[b][0] {
      assert t.rows[s[a]][0] < t.rows[s[b]][0];
    }
  }

  lemma SyncKeepsKeyed(dev0: Device, t: Table, dev: Device)
    requires Keyed(dev0, t)
    ensures Keyed(dev0, Sync(t, dev))
  {
    var flags := Flags(Marked(Keys(t.rows), t.query, dev.modes, |dev.modes|));
    var s, t' := Survivors(flags), Sync(t, dev);
    SurvivorsExact(flags);
    forall m | 0 <= m < |s| ensures SameKey(t.rows[s[m]], t'.rows[m]) && (m < 2 ==> s[m] == m) {
      SyncRow(dev0, t, dev, m);
    }
    SelectionKeyed(dev0, t, t', s);
  }

  lemma SyncedCellNamesMode(devs: seq<Device>, t: Table, dev: Device, m: nat, d: nat)
    requires Sound(devs, t)
    requires 2 <= m < |Sync(t, dev).rows| && 1 <= d <= |devs|
    requires |Sync(t, dev).rows[m]| == |devs| + 1 && 0 <= Sync(t, dev).rows[m][0] < |t.query|
    ensures (devs + [dev])[d].Names(Sync(t, dev).rows[m][d], Sync(t, dev).query[Sync(t, dev).rows[m][0]])
  {
    SyncRow(devs[0], t, dev, m);
    var col := Marked(Keys(t.rows), t.query, dev.modes, |dev.modes|);
    var s := Survivors(Flags(col))[m];
    if d < |devs| {
      assert devs[d].Names(t.rows[s][d], t.query[t.rows[s][0]]);
    } else {
      MarkedCellNamesMode(Keys(t.rows), t.query, dev, |dev.modes|, s);
    }
  }

  lemma SyncedFixedCells(devs: seq<Device>, t: Table, dev: Device, d: nat)
    requires Sound(devs, t) && WellKeyed(Sync(t, dev)) && 1 <= d <= |devs|
    ensures FixedAt(devs + [dev], Sync(t, dev), d)
  {
    var t', keys := Sync(t, dev), Keys(t.rows);
    QueryAtExactly(t.query, dev.modes, |dev.modes|);
    if d < |devs| {
      assert FixedAt(devs, t, d);
    }
    if 0 < |t'.rows| {
      SyncRow(devs[0], t, dev, 0);
      MarkedRow0(keys, t.query, dev);
    }
    if 1 < |t'.rows| {
      SyncRow(devs[0], t, dev, 1);
      MarkedRow1(keys, t.query, dev);
    }
  }

  /** Adding a device keeps the table sound. */
  lemma SyncKeepsSound(devs: seq<Device>, t: Table, dev: Device)
    requires Sound(devs, t)
    ensures Sound(devs + [dev], Sync(t, dev))
  {
    SyncKeepsKeyed(devs[0], t, dev);
    forall m | 0 <= m < |Sync(t, dev).rows| ensures |Sync(t, dev).rows[m]| == |devs| + 1 {
      SyncRow(devs[0], t, dev, m);
    }
    forall m, d | 2 <= m < |Sync(t, dev).rows| && 1 <= d < |devs + [dev]|
      ensures (devs + [dev])[d].Names(Sync(t, dev).rows[m][d], Sync(t, dev).query[Sync(t, dev).rows[m][0]])
    {
      SyncedCellNamesMode(devs, t, dev, m, d);
    }
    forall d | 1 <= d < |devs + [dev]| ensures FixedAt(devs + [dev], Sync(t, dev), d) {
      SyncedFixedCells(devs, t, dev, d);
    }
  }

  /** From row 2 on, a row survives a new device exactly when one of that device's modes is looked up to it. */
  lemma RowSurvivesExactly(t: Table, dev: Device, r: nat)
    requires WellKeyed(t) && 2 <= r < |t.rows|
    ensures var col := Marked(Keys(t.rows), t.query, dev.modes, |dev.modes|);
            r in Survivors(Flags(col)) <==> exists c :: LooksUpTo(Keys(t.rows), t.query, dev.modes, c, r)
  {
    var col := Marked(Keys(t.rows), t.query, dev.modes, |dev.modes|);
    SurvivorsExact(Flags(col));
    MarkedExactly(Keys(t.rows), t.query, dev.modes, |dev.modes|, r);
    if r in Survivors(Flags(col)) {
      assert Kept(Flags(col), r);
    } else {
      assert !Kept(Flags(col), r);
    }
  }

  /** Dropping rows keeps the table sound. */
  lemma CompactKeepsSound(devs: seq<Device>, t: Table, flags: seq<bool>)
    requires Sound(devs, t) && |flags| == |t.rows|
    ensures Sound(devs, Table(Compact(t.rows, flags), t.query))
  {
    SurvivorsExact(flags);
    var s, t' := Survivors(flags), Table(Compact(t.rows, flags), t.query);
    forall m | 0 <= m < |s| ensures SameKey(t.rows[s[m]], t'.rows[m]) {
      assert 0 < |t.rows[s[m]]|;
    }
    SelectionKeyed(devs[0], t, t', s);
    forall m, d | 2 <= m < |s| && 1 <= d < |devs|
      ensures devs[d].Names(t'.rows[m][d], t'.query[t'.rows[m][0]])
    {
      SurvivorFromTwo(flags, m);
      assert devs[d].Names(t.rows[s[m]][d], t.query[t.rows[s[m]][0]]);
    }
    forall d | 1 <= d < |devs| ensures FixedAt(devs, t', d) {
      assert FixedAt(devs, t, d);
    }
  }

  // ---------- Independence from history ----------

  /** The query data of an otherwise empty splitter after its first device. */
  function FirstQuery(modes: seq<Option<Geometry>>): (q: seq<Geometry>)
    ensures 2 <= |q| && |modes| <= |q|
  {
    seq(if |modes| < 2 then 2 else |modes|, m => if 0 <= m < |modes| && modes[m].Some? then modes[m].value else ZERO)
  }

  lemma FirstOfIsSound(devs: seq<Device>)
    requires |devs| == 1
    ensures Sound(devs, Table(FirstRows(|devs[0].modes|), FirstQuery(devs[0].modes)))
  {
  }

  lemma SyncLastIsSound(devs: seq<Device>, t: Table)
    requires 1 < |devs| && Sound(devs[..|devs| - 1], t)
    ensures Sound(devs, Sync(t, devs[|devs| - 1]))
  {
    assert devs == devs[..|devs| - 1] + [devs[|devs| - 1]];
    SyncKeepsSound(devs[..|devs| - 1], t, devs[|devs| - 1]);
  }

  /** The table obtained by adding `devs` in order to an empty splitter. */
  function Rebuild(devs: seq<Device>): (t: Table)
    requires devs != []
    ensures Sound(devs, t)
  {
    if |devs| == 1 then
      FirstOfIsSound(devs);
      Table(FirstRows(|devs[0].modes|), FirstQuery(devs[0].modes))
    else
      var t := Rebuild(devs[..|devs| - 1]);
      SyncLastIsSound(devs, t);
      Sync(t, devs[|devs| - 1])
  }

  /** Same rows, and same query data at every mode the first device has. */
  ghost predicate Agree(t: Table, u: Table, modes: nat) {
    && t.rows == u.rows
    && modes <= |t.query| && modes <= |u.query|
    && t.query[..modes] == u.query[..modes]
  }

  /** The table is the one an empty splitter would have after `devs`. */
  ghost predicate Canonical(devs: seq<Device>, t: Table) {
    devs != [] && Agree(t, Rebuild(devs), |devs[0].modes|)
  }

  lemma FirstMatchAgrees(keys: seq<int>, q: seq<Geometry>, p: seq<Geometry>, g: Geometry)
    requires forall r :: 0 <= r < |keys| ==> 0 <= keys[r] < |q| && keys[r] < |p| && q[keys[r]] == p[keys[r]]
    ensures FirstMatch(keys, q, g) == FirstMatch(keys, p, g)
  {
  }

  lemma {:induction false} MarkedAgrees(keys: seq<int>, q: seq<Geometry>, p: seq<Geometry>,
                                        modes: seq<Option<Geometry>>, mode: nat)
    requires 2 <= |q| && 2 <= |p| && mode <= |modes|
    requires forall r :: 0 <= r < |keys| ==> 0 <= keys[r] < |q| && keys[r] < |p| && q[keys[r]] == p[keys[r]]
    ensures Marked(keys, q, modes, mode) == Marked(keys, p, modes, mode)
  {
    if mode == 0 {
    } else {
      MarkedAgrees(keys, q, p, modes, mode - 1);
      var q', p' := QueryAt(q, modes, mode - 1), QueryAt(p, modes, mode - 1);
      assert forall r :: 0 <= r < |keys| ==> q'[keys[r]] == p'[keys[r]];
      if modes[mode - 1].Some? {
        FirstMatchAgrees(keys, q', p', modes[mode - 1].value);
      }
    }
  }

  lemma SyncAgrees(devs: seq<Device>, t: Table, u: Table, dev: Device)
    requires Sound(devs, t) && Sound(devs, u) && Agree(t, u, |devs[0].modes|)
    ensures Agree(Sync(t, dev), Sync(u, dev), |devs[0].modes|)
  {
    var n := |devs[0].modes|;
    forall m | 0 <= m < n ensures t.query[m] == u.query[m] {
      assert t.query[..n][m] == u.query[..n][m];
    }
    MarkedAgrees(Keys(t.rows), t.query, u.query, dev.modes, |dev.modes|);
  }

  /** Adding a device to a canonical table gives a canonical table. */
  lemma SyncKeepsCanonical(devs: seq<Device>, t: Table, dev: Device)
    requires Sound(devs, t) && Canonical(devs, t)
    ensures Canonical(devs + [dev], Sync(t, dev))
  {
    SyncAgrees(devs, t, Rebuild(devs), dev);
    assert (devs + [dev])[..|devs|] == devs;
  }

  lemma SyncKeepsAll(devs: seq<Device>, t: Table, dev: Device)
    requires Sound(devs, t)
    ensures Sound(devs + [dev], Sync(t, dev))
    ensures Canonical(devs, t) ==> Canonical(devs + [dev], Sync(t, dev))
  {
    SyncKeepsSound(devs, t, dev);
    if Canonical(devs, t) {
      SyncKeepsCanonical(devs, t, dev);
    }
  }

  /** The first device gives a canonical table whatever the query data held before. */
  lemma FirstTableIsCanonical(dev: Device, before: seq<Geometry>, query: seq<Geometry>)
    requires Loaded(before, query, dev.modes) && dev.FailsAtMostMode1()
    ensures Canonical([dev], Table(FirstRows(|dev.modes|), query))
  {
  }

  // ---------- Which modes are published ----------

  ghost predicate Published(t: Table, key: nat)
    requires WellKeyed(t)
  {
    exists r :: 0 <= r < |t.rows| && t.rows[r][0] == key
  }

  lemma {:induction false} RebuildEntry1(devs: seq<Device>)
    requires devs != []
    ensures Entry1(devs[0], Rebuild(devs))
  {
    if |devs| == 1 {
    } else {
      RebuildEntry1(devs[..|devs| - 1]);
    }
  }

  /** From row 2 on, a row is keyed by a supported mode of the first device and reports its geometry. */
  lemma RowReports(dev0: Device, t: Table, r: nat)
    requires Keyed(dev0, t) && dev0.FailsAtMostMode1() && 2 <= r < |t.rows|
    ensures var k := t.rows[r][0]; 2 <= k && dev0.modes[k] == Some(t.query[k])
  {
    assert t.rows[1][0] == 1 < t.rows[r][0];
  }

  /** Every cell of a row from 2 on, the first device's too, names a mode of the geometry the row reports. */
  lemma RowNames(devs: seq<Device>, t: Table, m: nat, d: nat)
    requires Sound(devs, t) && devs[0].FailsAtMostMode1() && 2 <= m < |t.rows| && d < |devs|
    ensures |t.rows[m]| == |devs| && devs[d].Names(t.rows[m][d], t.query[t.rows[m][0]])
  {
    if d == 0 {
      RowReports(devs[0], t, m);
    }
  }

  /**
   Each device is told its own number for published mode `m`: a mode of the geometry reported for it, or, for modes 0 and
   1, which stay published whatever the devices support, none if it has none.
   */
  ghost predicate Tells(devs: seq<Device>, t: Table, m: nat, told: seq<int>)
    requires WellKeyed(t) && m < |t.rows| && devs != []
  {
    && |told| == |devs| && told[0] == t.rows[m][0] && (m < 2 ==> told[0] == m)
    && (2 <= m && devs[0].FailsAtMostMode1() ==>
         forall d :: 0 <= d < |devs| ==> devs[d].Names(told[d], t.query[told[0]]))
    && (m == 0 ==> forall d :: 1 <= d < |devs| ==> Cell0(devs[d], t.query[0], told[d]))
    && (m == 1 ==>
         forall d :: 1 <= d < |devs| ==> Cell1(devs[d], t.query[0], devs[0].Mode1(), t.query[1], told[d]))
  }

  /** A row of a sound table tells every device. */
  lemma RowTells(devs: seq<Device>, t: Table, m: nat)
    requires Sound(devs, t) && m < |t.rows|
    ensures Tells(devs, t, m, t.rows[m])
  {
    if 2 <= m && devs[0].FailsAtMostMode1() {
      forall d | 0 <= d < |devs| ensures devs[d].Names(t.rows[m][d], t.query[t.rows[m][0]]) {
        RowNames(devs, t, m, d);
      }
    }
    forall d | 1 <= d < |devs|
      ensures m == 0 ==> Cell0(devs[d], t.query[0], t.rows[m][d])
      ensures m == 1 ==> Cell1(devs[d], t.query[0], devs[0].Mode1(), t.query[1], t.rows[m][d])
    {
      assert FixedAt(devs, t, d);
    }
  }

  /** When geometries do not repeat, a look-up of the geometry a row reports ends at that row. */
  lemma LookUpFindsRow(dev0: Device, t: Table, dev: Device, r: nat, c: nat)
    requires Keyed(dev0, t) && Entry1(dev0, t) && dev0.FailsAtMostMode1() && dev0.KeysApart()
    requires 2 <= r < |t.rows| && c < |dev.modes| && dev.modes[c] == Some(t.query[t.rows[r][0]])
    ensures LooksUpTo(Keys(t.rows), t.query, dev.modes, c, r)
  {
    var k, q := t.rows[r][0], QueryAt(t.query, dev.modes, c);
    RowReports(dev0, t, r);
    assert q[k] == t.query[k];
    forall i | 0 <= i < r ensures q[t.rows[i][0]] != q[k] {
      var h := t.rows[i][0];
      assert h < k && dev0.modes[h] != dev0.modes[k];
      assert h != 1 ==> dev0.modes[h] == Some(q[h]);
    }
  }

  /** A published mode survives a further device exactly when that device supports its geometry. */
  lemma SurvivesIffSupported(dev0: Device, t: Table, dev: Device, r: nat)
    requires Keyed(dev0, t) && Entry1(dev0, t) && dev0.FailsAtMostMode1() && dev0.KeysApart()
    requires 2 <= r < |t.rows|
    ensures r in Survivors(Flags(Marked(Keys(t.rows), t.query, dev.modes, |dev.modes|)))
       <==> dev.Supports(t.query[t.rows[r][0]])
  {
    var g := t.query[t.rows[r][0]];
    RowSurvivesExactly(t, dev, r);
    RowReports(dev0, t, r);
    if dev.Supports(g) {
      var c :| 0 <= c < |dev.modes| && dev.modes[c] == Some(g);
      LookUpFindsRow(dev0, t, dev, r, c);
    }
    if c :| LooksUpTo(Keys(t.rows), t.query, dev.modes, c, r) {
      assert dev.modes[c] == Some(g);
    }
  }

  /** Rows after a further device are the surviving rows: same keys. */
  lemma PublishedAfterSync(dev0: Device, t: Table, dev: Device, key: nat)
    requires Keyed(dev0, t) && Keyed(dev0, Sync(t, dev))
    ensures var s := Survivors(Flags(Marked(Keys(t.rows), t.query, dev.modes, |dev.modes|)));
            Published(Sync(t, dev), key) <==> exists r :: r in s && t.rows[r][0] == key
  {
    var s := Survivors(Flags(Marked(Keys(t.rows), t.query, dev.modes, |dev.modes|)));
    forall k | 0 <= k < |s| ensures Sync(t, dev).rows[k][0] == t.rows[s[k]][0] {
      SyncRow(dev0, t, dev, k);
    }
    if r :| r in s && t.rows[r][0] == key {
      var k :| 0 <= k < |s| && s[k] == r;
      assert Sync(t, dev).rows[k][0] == key;
    }
    if k :| 0 <= k < |s| && Sync(t, dev).rows[k][0] == key {
      assert s[k] in s;
    }
  }

  /** A further device keeps exactly the published modes it supports. */
  lemma PublishedStep(dev0: Device, t: Table, dev: Device, key: nat)
    requires Keyed(dev0, t) && Entry1(dev0, t) && dev0.FailsAtMostMode1() && dev0.KeysApart()
    requires 2 <= key < |dev0.modes|
    ensures WellKeyed(Sync(t, dev))
    ensures Published(Sync(t, dev), key) <==> Published(t, key) && dev.Supports(dev0.modes[key].value)
  {
    SyncKeepsKeyed(dev0, t, dev);
    PublishedAfterSync(dev0, t, dev, key);
    forall r | 0 <= r < |t.rows| && t.rows[r][0] == key
      ensures r in Survivors(Flags(Marked(Keys(t.rows), t.query, dev.modes, |dev.modes|)))
         <==> dev.Supports(dev0.modes[key].value)
    {
      assert 2 <= r;
      SurvivesIffSupported(dev0, t, dev, r);
    }
  }

  /** Every device after the first supports this geometry. */
  ghost predicate OthersSupport(devs: seq<Device>, g: Geometry) {
    forall d :: 1 <= d < |devs| ==> devs[d].Supports(g)
  }

  lemma OthersSupportStep(devs: seq<Device>, g: Geometry)
    requires 1 < |devs|
    ensures OthersSupport(devs, g) <==> OthersSupport(devs[..|devs| - 1], g) && devs[|devs| - 1].Supports(g)
  {
  }

  /**
   When the first device's geometries do not repeat, the splitter publishes exactly the modes common to all devices:
   a mode of the first device from 2 on is published when and only when every other device supports its geometry.
   */
  lemma {:induction false} PublishedIffCommon(devs: seq<Device>, key: nat)
    requires devs != [] && devs[0].FailsAtMostMode1() && devs[0].KeysApart()
    requires 2 <= key < |devs[0].modes|
    ensures Published(Rebuild(devs), key) <==> OthersSupport(devs, devs[0].modes[key].value)
  {
    if |devs| == 1 {
      assert FirstRows(|devs[0].modes|)[key][0] == key;
    } else {
      var n := |devs| - 1;
      PublishedIffCommon(devs[..n], key);
      RebuildEntry1(devs[..n]);
      PublishedStep(devs[0], Rebuild(devs[..n]), devs[n], key);
      OthersSupportStep(devs, devs[0].modes[key].value);
    }
  }

  /** A row is dropped by a device of which no mode is looked up to it. */
  lemma RowIsLost(dev0: Device, dev: Device, j: nat)
    requires 2 <= j < |dev0.modes|
    requires var q := FirstQuery(dev0.modes); var keys := Keys(FirstRows(|dev0.modes|));
             forall c :: !LooksUpTo(keys, q, dev.modes, c, j)
    ensures !Published(Rebuild([dev0, dev]), j)
  {
    var t := Rebuild([dev0]);
    assert [dev0, dev][..1] == [dev0];
    SyncKeepsKeyed(dev0, t, dev);
    PublishedAfterSync(dev0, t, dev, j);
    RowSurvivesExactly(t, dev, j);
  }

  /** A repeated geometry is lost when the device is shown beside itself. */
  lemma RepeatIsLost(dev0: Device, i: nat, j: nat)
    requires dev0.FailsAtMostMode1() && 2 <= j < |dev0.modes| && i < j && dev0.modes[i] == dev0.modes[j]
    ensures OthersSupport([dev0, dev0], dev0.modes[j].value) && !Published(Rebuild([dev0, dev0]), j)
  {
    var q, keys := FirstQuery(dev0.modes), Keys(FirstRows(|dev0.modes|));
    forall c ensures !LooksUpTo(keys, q, dev0.modes, c, j) {
      if 0 <= c < |dev0.modes| {
        assert QueryAt(q, dev0.modes, c)[keys[i]] == q[keys[j]];
      }
    }
    RowIsLost(dev0, dev0, j);
  }

  /** A device without mode 1 that offers 0 x 0. */
  const BLIND: Device := Device(0, [Some(Geometry(1, 1)), None, Some(ZERO)])

  /** A 0 x 0 mode is lost beside it: looking 0 x 0 up ends at the cleared mode 1. */
  lemma ZeroIsLost(dev0: Device, j: nat)
    requires dev0.FailsAtMostMode1() && 2 <= j < |dev0.modes| && dev0.modes[j] == Some(ZERO)
    ensures OthersSupport([dev0, BLIND], ZERO) && !Published(Rebuild([dev0, BLIND]), j)
  {
    var q, keys := FirstQuery(dev0.modes), Keys(FirstRows(|dev0.modes|));
    forall c ensures !LooksUpTo(keys, q, BLIND.modes, c, j) {
      if 0 <= c < |BLIND.modes| {
        assert QueryAt(q, BLIND.modes, 2)[keys[1]] == ZERO;
      }
    }
    assert BLIND.modes[2] == Some(ZERO);
    RowIsLost(dev0, BLIND, j);
  }

  ghost predicate PublishesTheCommon(dev0: Device, rest: seq<Device>) {
    forall key :: 2 <= key < |dev0.modes| && dev0.modes[key].Some? ==>
      (Published(Rebuild([dev0] + rest), key) <==> OthersSupport([dev0] + rest, dev0.modes[key].value))
  }

  lemma CommonWhenApart(dev0: Device, rest: seq<Device>)
    requires dev0.FailsAtMostMode1() && dev0.KeysApart()
    ensures PublishesTheCommon(dev0, rest)
  {
    var devs := [dev0] + rest;
    forall key | 2 <= key < |dev0.modes|
      ensures Published(Rebuild(devs), key) <==> OthersSupport(devs, dev0.modes[key].value)
    {
      PublishedIffCommon(devs, key);
    }
  }

  /** One supported mode that is not published is enough. */
  lemma NotCommonBeside(dev0: Device, dev: Device, j: nat)
    requires 2 <= j < |dev0.modes| && dev0.modes[j].Some?
    requires OthersSupport([dev0, dev], dev0.modes[j].value) && !Published(Rebuild([dev0, dev]), j)
    ensures !PublishesTheCommon(dev0, [dev])
  {
    assert [dev0] + [dev] == [dev0, dev];
  }

  lemma NotCommonAt(dev0: Device, j: nat) returns (dev: Device)
    requires dev0.FailsAtMostMode1() && 2 <= j < |dev0.modes|
    requires dev0.modes[j] == Some(ZERO) || exists i :: 0 <= i < j && dev0.modes[i] == dev0.modes[j]
    ensures !PublishesTheCommon(dev0, [dev])
  {
    if dev0.modes[j] == Some(ZERO) {
      dev := BLIND;
      ZeroIsLost(dev0, j);
    } else {
      dev := dev0;
      var i :| 0 <= i < j && dev0.modes[i] == dev0.modes[j];
      RepeatIsLost(dev0, i, j);
    }
    NotCommonBeside(dev0, dev, j);
  }

  /**
   Exactly when the first device's modes from 2 on are neither 0 x 0 nor repeats, the splitter publishes the common
   modes whatever other devices are added.
   */
  lemma PublishesCommonIff(dev0: Device)
    requires dev0.FailsAtMostMode1()
    ensures (forall rest :: PublishesTheCommon(dev0, rest)) <==> dev0.KeysApart()
  {
    if dev0.KeysApart() {
      forall rest ensures PublishesTheCommon(dev0, rest) {
        CommonWhenApart(dev0, rest);
      }
    } else {
      var j :| 2 <= j < |dev0.modes|
               && (dev0.modes[j] == Some(ZERO) || exists i :: 0 <= i < j && dev0.modes[i] == dev0.modes[j]);
      var dev := NotCommonAt(dev0, j);
    }
  }

  /** A row that reports the geometry of an earlier one, not keyed by mode 1, is dropped by every further device. */
  lemma DuplicateRowIsDropped(t: Table, dev: Device, a: nat, b: nat)
    requires WellKeyed(t) && a < b < |t.rows| && 2 <= b
    requires t.rows[a][0] != 1 && t.rows[b][0] != 1 && t.query[t.rows[a][0]] == t.query[t.rows[b][0]]
    ensures b !in Survivors(Flags(Marked(Keys(t.rows), t.query, dev.modes, |dev.modes|)))
  {
    RowSurvivesExactly(t, dev, b);
    forall c ensures !LooksUpTo(Keys(t.rows), t.query, dev.modes, c, b) {
      if 0 <= c < |dev.modes| {
        var q := QueryAt(t.query, dev.modes, c);
        assert q[Keys(t.rows)[a]] == q[Keys(t.rows)[b]];
      }
    }
  }

  /** A repeat of mode 1 can stay: a device without mode 1 clears the entry it repeats. */
  lemma RepeatOfMode1CanStay(a: Geometry, g: Geometry)
    requires a != g && a != ZERO && g != ZERO
    ensures Published(Rebuild([Device(1, [Some(a), Some(g), Some(g)]), Device(2, [Some(a), None, Some(g)])]), 2)
  {
    var d, e := Device(1, [Some(a), Some(g), Some(g)]), Device(2, [Some(a), None, Some(g)]);
    var t := Rebuild([d]);
    assert [d, e][..1] == [d];
    SyncKeepsKeyed(d, t, e);
    PublishedAfterSync(d, t, e, 2);
    RowSurvivesExactly(t, e, 2);
    assert LooksUpTo(Keys(t.rows), t.query, e.modes, 2, 2);
    assert t.rows[2][0] == 2;
  }
}
