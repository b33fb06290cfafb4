/**
 ConOut and StdErr may drive the same device; both must then publish only modes the other can show.  The search for a
 shared device comes before this step and is not part of it.
 */
module CrossIntersection {
  import opened ModeMap
  import opened FlatTable
  import opened TextOutSplitter

  /** The geometry a published mode is reported with. */
  function Reported(t: Table, r: nat): Geometry
    requires WellKeyed(t) && r < |t.rows|
  {
    t.query[t.rows[r][0]]
  }

  /** The first mode of `b` with the geometry of mode `r` of `a`, or the number of modes of `b`. */
  function Partner(a: Table, b: Table, r: nat): (s: nat)
    requires WellKeyed(a) && WellKeyed(b) && r < |a.rows|
    ensures s <= |b.rows|
    ensures s < |b.rows| ==> Reported(b, s) == Reported(a, r)
    ensures forall i :: 0 <= i < s ==> Reported(b, i) != Reported(a, r)
  {
    FirstMatch(Keys(b.rows), b.query, Reported(a, r))
  }

  /** Modes of `a` that have a partner. */
  function HasPartner(a: Table, b: Table): (f: seq<bool>)
    requires WellKeyed(a) && WellKeyed(b)
    ensures |f| == |a.rows| && forall r :: 0 <= r < |f| ==> f[r] == (Partner(a, b, r) < |b.rows|)
  {
    seq(|a.rows|, r requires 0 <= r < |a.rows| => Partner(a, b, r) < |b.rows|)
  }

  /** Mode `s` of `b` is the partner of one of the first `n` modes of `a`. */
  ghost predicate IsHit(a: Table, b: Table, n: nat, s: nat)
    requires WellKeyed(a) && WellKeyed(b) && n <= |a.rows|
  {
    exists r :: 0 <= r < n && Partner(a, b, r) == s
  }

  /** Modes of `b` that are the partner of a mode of `a`. */
  ghost function IsPartner(a: Table, b: Table): (f: seq<bool>)
    requires WellKeyed(a) && WellKeyed(b)
    ensures |f| == |b.rows| && forall s :: 0 <= s < |f| ==> f[s] == IsHit(a, b, |a.rows|, s)
  {
    seq(|b.rows|, s requires 0 <= s < |b.rows| => IsHit(a, b, |a.rows|, s))
  }

  function Left(a: Table, b: Table): Table
    requires WellKeyed(a) && WellKeyed(b)
  {
    Table(Compact(a.rows, HasPartner(a, b)), a.query)
  }

  ghost function Right(a: Table, b: Table): Table
    requires WellKeyed(a) && WellKeyed(b)
  {
    Table(Compact(b.rows, IsPartner(a, b)), b.query)
  }

  lemma CompactKeepsReported(t: Table, flags: seq<bool>, k: nat)
    requires WellKeyed(t) && |flags| == |t.rows| && k < |Survivors(flags)|
    ensures WellKeyed(Table(Compact(t.rows, flags), t.query))
    ensures Reported(Table(Compact(t.rows, flags), t.query), k) == Reported(t, Survivors(flags)[k])
  {
  }

  /** Every mode of `a` that survives from 2 on is still matched by a surviving mode of `b`. */
  lemma LeftHasRight(a: Table, b: Table, k: nat)
    requires WellKeyed(a) && WellKeyed(b) && 2 <= k < |Left(a, b).rows|
    ensures WellKeyed(Left(a, b)) && WellKeyed(Right(a, b))
    ensures exists j :: 0 <= j < |Right(a, b).rows| && Reported(Right(a, b), j) == Reported(Left(a, b), k)
  {
    var f, g := HasPartner(a, b), IsPartner(a, b);
    SurvivorsExact(f);
    SurvivorsExact(g);
    var r := Survivors(f)[k];
    SurvivorFromTwo(f, k);
    var s := Partner(a, b, r);
    assert g[s] && Kept(g, s);
    var j :| 0 <= j < |Survivors(g)| && Survivors(g)[j] == s;
    CompactKeepsReported(a, f, k);
    CompactKeepsReported(b, g, j);
  }

  /** Every mode of `b` that survives from 2 on is matched by a surviving mode of `a`. */
  lemma RightHasLeft(a: Table, b: Table, j: nat)
    requires WellKeyed(a) && WellKeyed(b) && 2 <= j < |Right(a, b).rows|
    ensures WellKeyed(Left(a, b)) && WellKeyed(Right(a, b))
    ensures exists k :: 0 <= k < |Left(a, b).rows| && Reported(Left(a, b), k) == Reported(Right(a, b), j)
  {
    var f, g := HasPartner(a, b), IsPartner(a, b);
    SurvivorsExact(f);
    SurvivorsExact(g);
    var s := Survivors(g)[j];
    SurvivorFromTwo(g, j);
    var r :| 0 <= r < |a.rows| && Partner(a, b, r) == s;
    assert f[r] && Kept(f, r);
    var k :| 0 <= k < |Survivors(f)| && Survivors(f)[k] == r;
    CompactKeepsReported(a, f, k);
    CompactKeepsReported(b, g, j);
  }

  /** On the left, a mode survives when the right reports an equal one. */
  lemma LeftSurvives(a: Table, b: Table, r: nat)
    requires WellKeyed(a) && WellKeyed(b) && 2 <= r < |a.rows|
    ensures r in Survivors(HasPartner(a, b)) <==>
            exists s :: 0 <= s < |b.rows| && b.query[b.rows[s][0]] == a.query[a.rows[r][0]]
  {
    var f := HasPartner(a, b);
    SurvivorsExact(f);
    assert r in Survivors(f) <==> Kept(f, r);
  }

  /** On the right, only the first mode of its geometry survives, and only when the left reports an equal one. */
  lemma RightSurvives(a: Table, b: Table, s: nat)
    requires WellKeyed(a) && WellKeyed(b) && 2 <= s < |b.rows|
    ensures s in Survivors(IsPartner(a, b)) <==>
            && (exists r :: 0 <= r < |a.rows| && a.query[a.rows[r][0]] == b.query[b.rows[s][0]])
            && (forall i :: 0 <= i < s ==> b.query[b.rows[i][0]] != b.query[b.rows[s][0]])
  {
    var g := IsPartner(a, b);
    SurvivorsExact(g);
    assert s in Survivors(g) <==> Kept(g, s);
    assert forall i :: 0 <= i < |b.rows| ==> Reported(b, i) == b.query[b.rows[i][0]];
    if g[s] {
      var r :| 0 <= r < |a.rows| && Partner(a, b, r) == s;
      assert a.query[a.rows[r][0]] == b.query[b.rows[s][0]];
    }
    if forall i :: 0 <= i < s ==> b.query[b.rows[i][0]] != b.query[b.rows[s][0]] {
      if r :| 0 <= r < |a.rows| && a.query[a.rows[r][0]] == b.query[b.rows[s][0]] {
        assert Partner(a, b, r) == s;
      }
    }
  }

  /** Looks published mode `mode` of ConOut, whose map row starts at `entry`, up in StdErr. */
  method FindPartner(conOut: Splitter, stdErr: Splitter, mode: nat, entry: nat) returns (index: nat)
    requires conOut.Readable() && stdErr.Readable()
    requires mode < conOut.maxMode && entry == At(0, conOut.devices.Length, mode)
    ensures index == Partner(conOut.table, stdErr.table, mode)
  {
    LaidRow(conOut.modeMap[..], conOut.devices.Length, conOut.table.rows, mode);
    var conMode := conOut.modeMap[entry];
    assert conMode == conOut.table.rows[mode][0];
    index := stdErr.FindMode(conOut.queryData[conMode], stdErr.table.rows);
  }

  /** Entries set once the first `n` modes of `a` have been looked up in `b`. */
  ghost predicate MarkedUpTo(con: seq<int>, std: seq<int>, a: Table, b: Table, n: nat)
    requires WellKeyed(a) && WellKeyed(b)
  {
    && n <= |a.rows| == |con| && |std| == |b.rows|
    && (forall r :: 0 <= r < |con| ==> (con[r] != -1 <==> r < n && Partner(a, b, r) < |b.rows|))
    && (forall s :: 0 <= s < |std| ==> (std[s] != -1 <==> IsHit(a, b, n, s)))
  }

  lemma MarkedNext(con: seq<int>, std: seq<int>, a: Table, b: Table, n: nat)
    requires WellKeyed(a) && WellKeyed(b) && n < |a.rows| && MarkedUpTo(con, std, a, b, n)
    ensures var i := Partner(a, b, n);
            if i < |b.rows| then MarkedUpTo(con[n := 1], std[i := 1], a, b, n + 1) else MarkedUpTo(con, std, a, b, n + 1)
  {
  }

  lemma MarkedAll(con: seq<int>, std: seq<int>, a: Table, b: Table)
    requires WellKeyed(a) && WellKeyed(b) && MarkedUpTo(con, std, a, b, |a.rows|)
    ensures Flags(con) == HasPartner(a, b) && Flags(std) == IsPartner(a, b)
  {
  }

  /** Looks one ConOut mode up and marks both when it is found. */
  method MarkPartner(conOut: Splitter, stdErr: Splitter, conMap: array<int>, stdMap: array<int>, mode: nat, entry: nat)
    requires conOut.Readable() && stdErr.Readable()
    requires conMap != stdMap && {conMap, stdMap} !! {conOut.modeMap, stdErr.modeMap}
    requires mode < conOut.maxMode && entry == At(0, conOut.devices.Length, mode)
    requires MarkedUpTo(conMap[..], stdMap[..], conOut.table, stdErr.table, mode)
    modifies conMap, stdMap
    ensures MarkedUpTo(conMap[..], stdMap[..], conOut.table, stdErr.table, mode + 1)
  {
    ghost var con, std := conMap[..], stdMap[..];
    MarkedNext(con, std, conOut.table, stdErr.table, mode);
    var index := FindPartner(conOut, stdErr, mode, entry);
    if index < stdErr.maxMode {
      conMap[mode] := 1;
      stdMap[index] := 1;
      assert conMap[..] == con[mode := 1] && stdMap[..] == std[index := 1];
    }
  }

  /** Marks the common modes of two splitters; an entry stays -1 when its mode is not shared. */
  method MarkShared(conOut: Splitter, stdErr: Splitter, conMap: array<int>, stdMap: array<int>)
    requires conOut.Readable() && stdErr.Readable()
    requires conMap != stdMap && {conMap, stdMap} !! {conOut.modeMap, stdErr.modeMap}
    requires MarkedUpTo(conMap[..], stdMap[..], conOut.table, stdErr.table, 0)
    modifies conMap, stdMap
    ensures Flags(conMap[..]) == HasPartner(conOut.table, stdErr.table)
    ensures Flags(stdMap[..]) == IsPartner(conOut.table, stdErr.table)
  {
    ghost var a, b := conOut.table, stdErr.table;
    var mode, entry: nat := 0, 0;
    while mode < conOut.maxMode
      invariant mode <= conOut.maxMode && entry == At(0, conOut.devices.Length, mode)
      invariant MarkedUpTo(conMap[..], stdMap[..], a, b, mode)
    {
      AtNext(0, conOut.devices.Length, mode);
      MarkPartner(conOut, stdErr, conMap, stdMap, mode, entry);
      mode, entry := mode + 1, entry + conOut.devices.Length;
    }
    MarkedAll(conMap[..], stdMap[..], a, b);
  }

  method SharedMaps(conOut: Splitter, stdErr: Splitter) returns (conMap: array<int>, stdMap: array<int>)
    requires conOut.Readable() && stdErr.Readable()
    ensures fresh(conMap) && fresh(stdMap) && conMap.Length == conOut.maxMode && stdMap.Length == stdErr.maxMode
    ensures Flags(conMap[..]) == HasPartner(conOut.table, stdErr.table)
    ensures Flags(stdMap[..]) == IsPartner(conOut.table, stdErr.table)
  {
    conMap := new int[conOut.maxMode](_ => -1);
    stdMap := new int[stdErr.maxMode](_ => -1);
    MarkShared(conOut, stdErr, conMap, stdMap);
  }

  /** Cuts both splitters down to the modes they share. */
  method Intersect(conOut: Splitter, stdErr: Splitter)
    requires conOut.Valid() && stdErr.Valid() && 0 < conOut.consoles && 0 < stdErr.consoles
    requires conOut != stdErr && conOut.modeMap != stdErr.modeMap
    requires conOut.devices != stdErr.devices && conOut.queryData != stdErr.queryData
    modifies conOut`maxMode, conOut`mode, conOut`table, conOut.modeMap
    modifies stdErr`maxMode, stdErr`mode, stdErr`table, stdErr.modeMap
    ensures conOut.Valid() && stdErr.Valid()
    ensures conOut.table == Left(old(conOut.table), old(stdErr.table))
    ensures stdErr.table == Right(old(conOut.table), old(stdErr.table))
    ensures (var a, b := old(conOut.table), old(stdErr.table);
             && conOut.mode == ModeAfterCut(HasPartner(a, b), old(conOut.mode), |conOut.table.rows|)
             && stdErr.mode == ModeAfterCut(IsPartner(a, b), old(stdErr.mode), |stdErr.table.rows|))
  {
    var conMap, stdMap := SharedMaps(conOut, stdErr);
    conOut.FilterBy(conMap);
    stdErr.FilterBy(stdMap);
  }
}
