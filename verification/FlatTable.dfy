/**
 A two-dimensional table kept in one flat array: row `r` of a table with `step` columns occupies the cells
 from `r * step` on.  In-place row filtering and the cell and row updates the console splitter makes.
 */
module FlatTable {
  import opened ModeMap

  /** `i * step`, by repeated addition: the code only ever steps its pointers. */
  function Times(i: nat, step: nat): (p: nat) {
    if i == 0 then 0 else Times(i - 1, step) + step
  }

  lemma {:induction false} TimesIsProduct(i: nat, step: nat)
    ensures Times(i, step) == i * step
  {
    if i == 0 {
    } else {
      TimesIsProduct(i - 1, step);
      assert (i - 1) * step + step == i * step;
    }
  }

  /** Position of row `i` counted from `base` in steps of `step`. */
  function At(base: nat, step: nat, i: nat): nat {
    base + Times(i, step)
  }

  lemma AtNext(base: nat, step: nat, i: nat)
    ensures At(base, step, i + 1) == At(base, step, i) + step
  {
  }

  lemma {:induction false} RowInside(step: nat, n: nat, r: nat)
    requires r < n
    ensures At(0, step, r) + step == At(0, step, r + 1) <= At(0, step, n)
  {
    if r + 1 < n {
      RowInside(step, n - 1, r);
    }
  }

  lemma RowsApart(step: nat, a: nat, b: nat)
    requires a < b
    ensures At(0, step, a) + step <= At(0, step, b)
  {
    RowInside(step, b, a);
  }

  function Row(m: seq<int>, step: nat, n: nat, r: nat): (row: seq<int>)
    requires At(0, step, n) <= |m| && r < n
    ensures |row| == step
  {
    RowInside(step, n, r);
    m[At(0, step, r)..At(0, step, r) + step]
  }

  function Rows(m: seq<int>, step: nat, n: nat): (rows: seq<seq<int>>)
    requires At(0, step, n) <= |m|
    ensures |rows| == n && forall r :: 0 <= r < n ==> rows[r] == Row(m, step, n, r)
  {
    seq(n, r requires 0 <= r < n => Row(m, step, n, r))
  }

  /** Replacing a stretch of a sequence leaves every slice outside it alone. */
  lemma SliceAfterSplice(m: seq<int>, p: nat, x: seq<int>, a: nat, n: nat)
    requires p + |x| <= |m| && a + n <= |m|
    ensures var m' := m[..p] + x + m[p + |x|..];
            && |m'| == |m|
            && m'[p..p + |x|] == x
            && (a + n <= p || p + |x| <= a ==> m'[a..a + n] == m[a..a + n])
  {
    var m' := m[..p] + x + m[p + |x|..];
    assert m'[p..p + |x|] == x;
    if a + n <= p || p + |x| <= a {
      var now, was := m'[a..a + n], m[a..a + n];
      forall i | 0 <= i < n ensures now[i] == was[i] {
        assert now[i] == m'[a + i] && was[i] == m[a + i];
      }
    }
  }

  /** Writing one cell changes that cell of its row and no other row. */
  lemma RowAfterSet(m: seq<int>, step: nat, n: nat, i: nat, c: nat, v: int, r: nat)
    requires At(0, step, n) <= |m| && r < n && c < step && At(0, step, i) + c < |m|
    ensures Row(m[At(0, step, i) + c := v], step, n, r) ==
            if r == i then Row(m, step, n, r)[c := v] else Row(m, step, n, r)
  {
    RowInside(step, n, r);
    if r < i { RowsApart(step, r, i); }
    if i < r { RowsApart(step, i, r); }
  }

  /** Overwriting row `k` with row `i` leaves every other row alone. */
  lemma RowAfterCopy(m: seq<int>, m': seq<int>, step: nat, n: nat, k: nat, i: nat, r: nat)
    requires At(0, step, n) <= |m| && k < n && i < n && r < n
    requires At(0, step, k) + step <= |m|
    requires m' == m[..At(0, step, k)] + Row(m, step, n, i) + m[At(0, step, k) + step..]
    ensures Row(m', step, n, r) == if r == k then Row(m, step, n, i) else Row(m, step, n, r)
  {
    RowInside(step, n, r);
    SliceAfterSplice(m, At(0, step, k), Row(m, step, n, i), At(0, step, r), step);
    if r < k { RowsApart(step, r, k); }
    if k < r { RowsApart(step, k, r); }
  }

  /** Which rows the added map keeps: its entry for the row is not -1. */
  function AddedFlags(added: seq<int>, base: nat, step: nat, n: nat): (f: seq<bool>)
    requires forall i :: 0 <= i < n ==> At(base, step, i) < |added|
    ensures |f| == n && forall i :: 0 <= i < n ==> f[i] == (added[At(base, step, i)] != -1)
  {
    seq(n, i requires 0 <= i < n => added[At(base, step, i)] != -1)
  }

  /** Overlap-safe copy of `n` cells. */
  method CopyCells<T>(dst: array<T>, d: nat, src: array<T>, s: nat, n: nat)
    requires d + n <= dst.Length && s + n <= src.Length
    modifies dst
    ensures dst[..] == old(dst[..d] + src[s..s + n] + dst[d + n..])
  {
    forall i | 0 <= i < n {
      dst[d + i] := src[s + i];
    }
  }

  /** The rows below `done` have been filtered to the front, the rows from `done` on are untouched. */
  ghost predicate Filtered(m: seq<int>, was: seq<int>, step: nat, flags: seq<bool>, done: nat)
    requires done <= |flags|
  {
    && |m| == |was| && At(0, step, |flags|) <= |m|
    && (forall r :: 0 <= r < |Survivors(flags[..done])| ==>
         Row(m, step, |flags|, r) == Row(was, step, |flags|, Survivors(flags[..done])[r]))
    && (forall r :: done <= r < |flags| ==> Row(m, step, |flags|, r) == Row(was, step, |flags|, r))
  }

  /** Row `i` is dropped, or stays where it is. */
  lemma FilteredInPlace(m: seq<int>, was: seq<int>, step: nat, flags: seq<bool>, i: nat)
    requires i < |flags| && Filtered(m, was, step, flags, i)
    requires Kept(flags, i) ==> |Survivors(flags[..i])| == i
    ensures Filtered(m, was, step, flags, i + 1)
  {
    SurvivorsStep(flags, i, 0);
  }

  /** Row `i` is moved to the first free place. */
  lemma FilteredMove(m: seq<int>, m': seq<int>, was: seq<int>, step: nat, flags: seq<bool>, i: nat, k: nat)
    requires i < |flags| && Filtered(m, was, step, flags, i)
    requires Kept(flags, i) && k == |Survivors(flags[..i])| < i
    requires At(0, step, k) + step <= |m|
    requires m' == m[..At(0, step, k)] + Row(m, step, |flags|, i) + m[At(0, step, k) + step..]
    ensures Filtered(m', was, step, flags, i + 1)
  {
    SurvivorsStep(flags, i, 0);
    forall r | 0 <= r < |flags|
      ensures Row(m', step, |flags|, r) == Row(m, step, |flags|, if r == k then i else r)
    {
      RowAfterCopy(m, m', step, |flags|, k, i, r);
    }
  }

  /** State of the scan before row `index`, of which `done` rows exist. */
  ghost predicate Scanned(m: seq<int>, was: seq<int>, step: nat, flags: seq<bool>, currentMode: int,
                          index: nat, next: nat, newMax: int, mode: int)
  {
    var done := if |flags| < index then |flags| else index;
    && 2 <= index
    && Filtered(m, was, step, flags, done)
    && next == At(0, step, |Survivors(flags[..done])| + index - done)
    && newMax == |flags| - (done - |Survivors(flags[..done])|)
    && mode == NewCurrent(flags[..done], currentMode)
  }

  lemma ScanDropped(m: seq<int>, was: seq<int>, step: nat, flags: seq<bool>, currentMode: int,
                    index: nat, next: nat, newMax: int, mode: int)
    requires Scanned(m, was, step, flags, currentMode, index, next, newMax, mode)
    requires index < |flags| && !flags[index]
    ensures Scanned(m, was, step, flags, currentMode, index + 1, next, newMax - 1,
                    if index == currentMode then -1 else if index < currentMode then mode - 1 else mode)
  {
    SurvivorsStep(flags, index, currentMode);
    FilteredInPlace(m, was, step, flags, index);
  }

  /** A row that stays is moved to the first free place. */
  lemma ScanKept(m: seq<int>, m': seq<int>, was: seq<int>, step: nat, flags: seq<bool>, currentMode: int,
                 index: nat, next: nat, newMax: int, mode: int)
    requires Scanned(m, was, step, flags, currentMode, index, next, newMax, mode)
    requires index < |flags| && flags[index] && next + step <= |m| && 0 < step
    requires m' == if next == At(0, step, index) then m
                   else m[..next] + Row(m, step, |flags|, index) + m[next + step..]
    ensures Scanned(m', was, step, flags, currentMode, index + 1, next + step, newMax, mode)
  {
    var k := |Survivors(flags[..index])|;
    SurvivorsStep(flags, index, currentMode);
    if k < index {
      RowsApart(step, k, index);
      FilteredMove(m, m', was, step, flags, index, k);
    } else {
      FilteredInPlace(m, was, step, flags, index);
    }
  }

  /** One row further: the row is dropped, or moved to the first free place. */
  lemma ScanStep(m: seq<int>, m': seq<int>, was: seq<int>, step: nat, flags: seq<bool>, currentMode: int,
                 index: nat, next: nat, newMax: int, mode: int, next': nat, newMax': int, mode': int)
    requires Scanned(m, was, step, flags, currentMode, index, next, newMax, mode)
    requires index < |flags| && 0 < step && next + step <= |m|
    requires m' == if !flags[index] || next == At(0, step, index) then m
                   else m[..next] + Row(m, step, |flags|, index) + m[next + step..]
    requires next' == (if flags[index] then next + step else next)
    requires newMax' == (if flags[index] then newMax else newMax - 1)
    requires mode' == (if flags[index] || currentMode < index then mode else if index == currentMode then -1 else mode - 1)
    ensures Scanned(m', was, step, flags, currentMode, index + 1, next', newMax', mode')
  {
    if flags[index] {
      ScanKept(m, m', was, step, flags, currentMode, index, next, newMax, mode);
    } else {
      ScanDropped(m, was, step, flags, currentMode, index, next, newMax, mode);
    }
  }

  lemma ScanStart(was: seq<int>, step: nat, flags: seq<bool>, currentMode: int)
    requires At(0, step, |flags|) <= |was|
    ensures Scanned(was, was, step, flags, currentMode, 2, At(0, step, 2), |flags|, currentMode)
  {
    var done := if |flags| < 2 then |flags| else 2;
    SurvivorsExact(flags[..done]);
  }

  lemma ScanInside(m: seq<int>, was: seq<int>, step: nat, flags: seq<bool>, currentMode: int,
                   index: nat, next: nat, newMax: int, mode: int, c: nat)
    requires Scanned(m, was, step, flags, currentMode, index, next, newMax, mode)
    requires index < |flags|
    ensures next <= At(0, step, index) && At(0, step, index) + step <= |m|
    ensures c < step ==> m[At(c, step, index)] == was[At(c, step, index)]
    ensures Row(m, step, |flags|, index) == m[At(0, step, index)..At(0, step, index) + step]
  {
    RowInside(step, |flags|, index);
    var k := |Survivors(flags[..index])|;
    if k < index { RowsApart(step, k, index); }
    if c < step {
      assert Row(m, step, |flags|, index)[c] == Row(was, step, |flags|, index)[c];
    }
  }

  lemma RowOfFewer(m: seq<int>, step: nat, n: nat, k: nat, r: nat)
    requires r < k <= n && At(0, step, n) <= |m| && At(0, step, k) <= |m|
    ensures Row(m, step, k, r) == Row(m, step, n, r)
  {
    RowInside(step, k, r);
    RowInside(step, n, r);
  }

  /** When every row has been looked at, the table's front is the kept rows. */
  lemma FilteredAll(m: seq<int>, was: seq<int>, step: nat, flags: seq<bool>)
    requires Filtered(m, was, step, flags, |flags|) && flags[..|flags|] == flags
    ensures At(0, step, |Survivors(flags)|) <= |m|
    ensures Rows(m, step, |Survivors(flags)|) == Compact(Rows(was, step, |flags|), flags)
  {
    var n, k, s := |flags|, |Survivors(flags)|, Survivors(flags);
    if k < n { RowsApart(step, k, n); }
    var rows, kept := Rows(m, step, k), Compact(Rows(was, step, n), flags);
    forall r | 0 <= r < k ensures rows[r] == kept[r] {
      RowOfFewer(m, step, n, k, r);
      assert Row(m, step, n, r) == Row(was, step, n, s[r]);
    }
  }

  lemma ScanDone(m: seq<int>, was: seq<int>, step: nat, flags: seq<bool>, currentMode: int,
                 index: nat, next: nat, newMax: int, mode: int)
    requires Scanned(m, was, step, flags, currentMode, index, next, newMax, mode)
    requires |flags| <= index
    ensures newMax == |Survivors(flags)| && mode == NewCurrent(flags, currentMode)
    ensures At(0, step, |Survivors(flags)|) <= |m|
    ensures Rows(m, step, |Survivors(flags)|) == Compact(Rows(was, step, |flags|), flags)
  {
    assert flags[..|flags|] == flags;
    FilteredAll(m, was, step, flags);
  }

  /** One pass of the filter: looks at row `index`, and moves it to the first free place unless it is dropped. */
  method ScanRow(table: array<int>, added: array<int>, step: nat, index: nat, currentEntry: nat, nextEntry: nat,
                 newEntry: nat, currentMode: int, max: int, mode: int, ghost was: seq<int>, ghost flags: seq<bool>)
    returns (nextEntry': nat, max': int, mode': int)
    requires index < |flags| && 0 < step && currentEntry == At(0, step, index) && newEntry < added.Length
    requires (added[newEntry] != -1) == flags[index]
    requires Scanned(table[..], was, step, flags, currentMode, index, nextEntry, max, mode)
    modifies table
    ensures Scanned(table[..], was, step, flags, currentMode, index + 1, nextEntry', max', mode')
  {
    ghost var m := table[..];
    ScanInside(m, was, step, flags, currentMode, index, nextEntry, max, mode, 0);
    nextEntry', max', mode' := nextEntry, max, mode;
    if added[newEntry] == -1 {
      if index == currentMode {
        mode' := -1;
      } else if index < currentMode {
        mode' := mode - 1;
      }
      max' := max - 1;
    } else {
      if currentEntry != nextEntry {
        CopyCells(table, nextEntry, table, currentEntry, step);
      }
      nextEntry' := nextEntry + step;
    }
    ScanStep(m, table[..], was, step, flags, currentMode, index, nextEntry, max, mode, nextEntry', max', mode');
  }

  /** The rows of the filter one after the other; an entry of an aliased `added` is read before its row is written. */
  method ScanRows(table: array<int>, added: array<int>, base: nat, step: nat, addedStep: nat, maxMode: nat,
                  currentMode: int, ghost was: seq<int>, ghost entries: seq<int>, ghost flags: seq<bool>)
    returns (max: int, mode: int)
    requires 0 < step && |flags| == maxMode && was == table[..] && entries == added[..]
    requires Scanned(was, was, step, flags, currentMode, 2, At(0, step, 2), maxMode, currentMode)
    requires added == table ==> addedStep == step && base < step
    requires forall i :: 0 <= i < maxMode ==>
               At(base, addedStep, i) < added.Length && (entries[At(base, addedStep, i)] != -1) == flags[i]
    modifies table
    ensures exists index, next :: maxMode <= index && Scanned(table[..], was, step, flags, currentMode, index, next, max, mode)
  {
    max, mode := maxMode, currentMode;
    var index: nat := 2;
    var currentEntry: nat, nextEntry: nat, newEntry: nat := At(0, step, 2), At(0, step, 2), At(base, addedStep, 2);
    while index < maxMode
      invariant currentEntry == At(0, step, index) && newEntry == At(base, addedStep, index)
      invariant added != table ==> added[..] == entries
      invariant Scanned(table[..], was, step, flags, currentMode, index, nextEntry, max, mode)
    {
      ScanInside(table[..], was, step, flags, currentMode, index, nextEntry, max, mode, base);
      AtNext(0, step, index);
      AtNext(base, addedStep, index);
      assert added[newEntry] == entries[newEntry];
      nextEntry, max, mode := ScanRow(table, added, step, index, currentEntry, nextEntry, newEntry, currentMode, max,
        mode, was, flags);
      currentEntry := currentEntry + step;
      newEntry := newEntry + addedStep;
      index := index + 1;
    }
  }

  /**
   Filters the rows of `table` from row 2 on, in place, by the entries of `added`; `added` may be a column of `table`
   itself.
   */
  method GetIntersection(table: array<int>, added: array<int>, base: nat, step: nat, addedStep: nat,
                         maxMode: nat, currentMode: int)
    returns (newMax: nat, newCurrent: int)
    requires 0 < step && At(0, step, maxMode) <= table.Length
    requires added == table ==> addedStep == step && base < step
    requires forall i :: 0 <= i < maxMode ==> At(base, addedStep, i) < added.Length
    modifies table
    ensures var flags := AddedFlags(old(added[..]), base, addedStep, maxMode);
            && newMax == |Survivors(flags)|
            && newCurrent == NewCurrent(flags, currentMode)
            && At(0, step, newMax) <= table.Length
            && Rows(table[..], step, newMax) == Compact(Rows(old(table[..]), step, maxMode), flags)
  {
    ghost var was, entries := table[..], added[..];
    ghost var flags := AddedFlags(entries, base, addedStep, maxMode);
    ScanStart(was, step, flags, currentMode);
    var max, mode := ScanRows(table, added, base, step, addedStep, maxMode, currentMode, was, entries, flags);
    ghost var index, next :|
      maxMode <= index && Scanned(table[..], was, step, flags, currentMode, index, next, max, mode);
    ScanDone(table[..], was, step, flags, currentMode, index, next, max, mode);
    newMax, newCurrent := max, mode;
  }
}
