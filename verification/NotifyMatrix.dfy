/**
 Key notifications of the console-in splitter.  Every notification is registered on every physical keyboard; the
 handle each keyboard returned is kept at that keyboard's place in the notification's handle list.
 */
module NotifyMatrix {
  import opened Common
  import opened Keystrokes

  datatype Registration = Registration(key: KeyData, notify: nat)

  type Handle = int

  type Live = map<Handle, Registration>

  /** A zero shift or toggle state in a registered key matches any. */
  predicate IsKeyRegistered(registered: KeyData, input: KeyData) {
    && registered.scanCode == input.scanCode
    && registered.unicodeChar == input.unicodeChar
    && (registered.state.shift == {} || registered.state.shift == input.state.shift)
    && (registered.state.toggle == {} || registered.state.toggle == input.state.toggle)
  }

  predicate SameNotification(registered: Registration, r: Registration) {
    IsKeyRegistered(registered.key, r.key) && registered.notify == r.notify
  }

  /** Same function and key; a shift or toggle state of none in the registered key stands for any. */
  ghost predicate Covers(registered: Registration, r: Registration) {
    && registered.notify == r.notify
    && registered.key.scanCode == r.key.scanCode && registered.key.unicodeChar == r.key.unicodeChar
    && registered.key.state.shift in {{}, r.key.state.shift}
    && registered.key.state.toggle in {{}, r.key.state.toggle}
  }

  /** One registered notification; `id` is the handle its caller got, `handles[d]` the one keyboard `d` gave. */
  datatype Notify = Notify(id: nat, registration: Registration, handles: seq<Handle>)

  ghost predicate Covered(list: seq<Notify>, r: Registration) {
    exists k :: 0 <= k < |list| && Covers(list[k].registration, r)
  }

  /** The first notification already registered for this key and function, or the list's length. */
  function FirstSame(list: seq<Notify>, r: Registration, from: nat := 0): (k: nat)
    requires from <= |list|
    ensures from <= k <= |list| && (k < |list| ==> SameNotification(list[k].registration, r))
    ensures forall j :: from <= j < k ==> !SameNotification(list[j].registration, r)
    decreases |list| - from
  {
    if from == |list| || SameNotification(list[from].registration, r) then from else FirstSame(list, r, from + 1)
  }

  lemma FirstSameCovers(list: seq<Notify>, r: Registration)
    ensures FirstSame(list, r) < |list| <==> Covered(list, r)
    ensures FirstSame(list, r) < |list| ==> Covers(list[FirstSame(list, r)].registration, r)
  {
    forall k | 0 <= k < |list| ensures Covers(list[k].registration, r) <==> SameNotification(list[k].registration, r) {
    }
  }

  // ---------- One keyboard's column of the matrix ----------

  type Column = seq<(Handle, Registration)>

  /** The registrations `base` together with the first `n` of a column. */
  function Extend(base: Live, col: Column, n: nat): Live
    requires n <= |col|
  {
    if n == 0 then base else Extend(base, col, n - 1)[col[n - 1].0 := col[n - 1].1]
  }

  /** None of the first `n` handles of the column was in use when it was handed out. */
  ghost predicate Unused(base: Live, col: Column, n: nat)
    requires n <= |col|
  {
    n > 0 ==> Unused(base, col, n - 1) && col[n - 1].0 !in Extend(base, col, n - 1)
  }

  /** Only the first `n` entries matter. */
  lemma {:induction false} SameFirst(base: Live, a: Column, b: Column, n: nat)
    requires n <= |a| && n <= |b| && forall i :: 0 <= i < n ==> a[i] == b[i]
    ensures Extend(base, a, n) == Extend(base, b, n) && (Unused(base, a, n) <==> Unused(base, b, n))
  {
    if n == 0 {
    } else {
      SameFirst(base, a, b, n - 1);
    }
  }

  ghost predicate HandleIn(col: Column, n: nat, h: Handle)
    requires n <= |col|
  {
    exists k :: 0 <= k < n && col[k].0 == h
  }

  /** What a column holds, read directly: the base registrations ... */
  lemma {:induction false} ExtendKeepsBase(base: Live, col: Column, n: nat, h: Handle)
    requires n <= |col| && Unused(base, col, n) && h in base
    ensures h in Extend(base, col, n) && Extend(base, col, n)[h] == base[h] && !HandleIn(col, n, h)
  {
    if n == 0 {
    } else {
      ExtendKeepsBase(base, col, n - 1, h);
    }
  }

  /** ... one registration per entry, under handles of their own ... */
  lemma {:induction false} ExtendHoldsEntry(base: Live, col: Column, n: nat, k: nat)
    requires k < n <= |col| && Unused(base, col, n)
    ensures col[k].0 in Extend(base, col, n) && Extend(base, col, n)[col[k].0] == col[k].1
    ensures forall j :: 0 <= j < n && j != k ==> col[j].0 != col[k].0
  {
    if k < n - 1 {
      ExtendHoldsEntry(base, col, n - 1, k);
    } else {
      forall j | 0 <= j < n - 1 ensures col[j].0 != col[k].0 {
        ExtendHoldsEntry(base, col, n - 1, j);
      }
    }
  }

  /** ... and nothing else. */
  lemma {:induction false} ExtendOnly(base: Live, col: Column, n: nat, h: Handle)
    requires n <= |col| && h in Extend(base, col, n)
    ensures h in base || HandleIn(col, n, h)
  {
    if n == 0 {
    } else if h == col[n - 1].0 {
      assert HandleIn(col, n, h);
    } else {
      ExtendOnly(base, col, n - 1, h);
      if k :| 0 <= k < n - 1 && col[k].0 == h {
        assert HandleIn(col, n, h);
      }
    }
  }

  function Drop(col: Column, k: nat): (rest: Column)
    requires k < |col|
    ensures |rest| == |col| - 1 && forall i :: 0 <= i < |rest| ==> rest[i] == col[if i < k then i else i + 1]
  {
    col[..k] + col[k + 1..]
  }

  /** Unregistering one entry leaves the column without it. */
  lemma {:induction false} RemoveEntry(base: Live, col: Column, n: nat, k: nat)
    requires k < n <= |col| && Unused(base, col, n)
    ensures Unused(base, Drop(col, k), n - 1)
    ensures Extend(base, Drop(col, k), n - 1) == Extend(base, col, n) - {col[k].0}
  {
    var rest, front, x := Drop(col, k), Extend(base, col, n - 1), col[n - 1];
    if k == n - 1 {
      SameFirst(base, rest, col, n - 1);
      assert front[x.0 := x.1] - {x.0} == front;
    } else {
      RemoveEntry(base, col, n - 1, k);
      ExtendHoldsEntry(base, col, n - 1, k);
      assert rest[n - 2] == x;
      assert (front - {col[k].0})[x.0 := x.1] == front[x.0 := x.1] - {col[k].0};
    }
  }

  // ---------- The notification list ----------

  ghost predicate LongEnough(list: seq<Notify>, n: nat) {
    forall k :: 0 <= k < |list| ==> n <= |list[k].handles|
  }

  /** What the list says keyboard `d` holds. */
  function ColumnOf(list: seq<Notify>, d: nat): (col: Column)
    requires LongEnough(list, d + 1)
    ensures |col| == |list| && forall k :: 0 <= k < |col| ==> col[k] == (list[k].handles[d], list[k].registration)
  {
    seq(|list|, k requires 0 <= k < |list| => (list[k].handles[d], list[k].registration))
  }

  ghost predicate SameFirstHandles(a: Notify, b: Notify, n: nat) {
    && b.(handles := a.handles) == a && n <= |a.handles| && n <= |b.handles|
    && forall d :: 0 <= d < n ==> b.handles[d] == a.handles[d]
  }

  /** The same notifications, with the same first `n` handles. */
  ghost predicate KeepsFirst(a: seq<Notify>, b: seq<Notify>, n: nat) {
    && |a| == |b| && LongEnough(a, n) && LongEnough(b, n)
    && forall k :: 0 <= k < |a| ==> SameFirstHandles(a[k], b[k], n)
  }

  function Removed(list: seq<Notify>, k: nat): (rest: seq<Notify>)
    requires k <= |list|
    ensures k == |list| ==> rest == list
  {
    if k == |list| then list else list[..k] + list[k + 1..]
  }

  /** Every handle list has `n` places; the handles given to callers are old and differ. */
  ghost predicate Listed(list: seq<Notify>, n: nat, nextId: nat) {
    && LongEnough(list, n)
    && (forall k :: 0 <= k < |list| ==> list[k].id < nextId)
    && forall j, k :: 0 <= j < k < |list| ==> list[j].id != list[k].id
  }

  lemma ListedAppend(list: seq<Notify>, e: Notify, n: nat)
    requires Listed(list, n, e.id) && n <= |e.handles|
    ensures Listed(list + [e], n, e.id + 1)
  {
  }

  lemma ListedRemove(list: seq<Notify>, k: nat, n: nat, nextId: nat)
    requires Listed(list, n, nextId) && k < |list|
    ensures Listed(Removed(list, k), n, nextId)
    ensures forall j :: 0 <= j < |Removed(list, k)| ==> Removed(list, k)[j].id != list[k].id
  {
  }

  lemma ListedKept(a: seq<Notify>, b: seq<Notify>, n: nat, m: nat, nextId: nat)
    requires Listed(a, n, nextId) && KeepsFirst(a, b, n) && LongEnough(b, m)
    ensures Listed(b, m, nextId)
  {
    forall k | 0 <= k < |b| ensures b[k].id == a[k].id {
      assert SameFirstHandles(a[k], b[k], n);
    }
  }

  lemma KeptChain(a: seq<Notify>, b: seq<Notify>, c: seq<Notify>, n: nat)
    requires KeepsFirst(a, b, n) && KeepsFirst(b, c, n)
    ensures KeepsFirst(a, c, n)
  {
    forall k | 0 <= k < |a| ensures SameFirstHandles(a[k], c[k], n) {
      assert SameFirstHandles(a[k], b[k], n) && SameFirstHandles(b[k], c[k], n);
    }
  }

  lemma KeptColumn(a: seq<Notify>, b: seq<Notify>, n: nat, d: nat)
    requires KeepsFirst(a, b, n) && d < n
    ensures LongEnough(a, d + 1) && LongEnough(b, d + 1) && ColumnOf(a, d) == ColumnOf(b, d)
  {
    forall k | 0 <= k < |a| ensures ColumnOf(a, d)[k] == ColumnOf(b, d)[k] {
      assert SameFirstHandles(a[k], b[k], n);
    }
  }

  ghost predicate Mirrors(list: seq<Notify>, d: nat, live: Live, base: Live) {
    && LongEnough(list, d + 1)
    && Unused(base, ColumnOf(list, d), |list|) && live == Extend(base, ColumnOf(list, d), |list|)
  }

  /** The live registrations of each keyboard are its own and exactly the notification list. */
  ghost predicate AllMirror(list: seq<Notify>, devs: seq<nat>, live: map<nat, Live>, base: seq<Live>) {
    && |base| == |devs| && LongEnough(list, |devs|)
    && forall d :: 0 <= d < |devs| ==> devs[d] in live && Mirrors(list, d, live[devs[d]], base[d])
  }

  /** Keyboards left alone keep mirroring the list when only later handles change. */
  lemma StillMirror(a: seq<Notify>, b: seq<Notify>, devs: seq<nat>, live: map<nat, Live>, live': map<nat, Live>, base: seq<Live>)
    requires AllMirror(a, devs, live, base) && KeepsFirst(a, b, |devs|)
    requires forall d :: 0 <= d < |devs| ==> devs[d] in live' && live'[devs[d]] == live[devs[d]]
    ensures AllMirror(b, devs, live', base)
  {
    forall d | 0 <= d < |devs| ensures devs[d] in live' && Mirrors(b, d, live'[devs[d]], base[d]) {
      assert Mirrors(a, d, live[devs[d]], base[d]);
      KeptColumn(a, b, |devs|, d);
    }
  }

  ghost predicate GivenFor(list: seq<Notify>, d: nat, h: Handle, r: Registration) {
    exists k :: 0 <= k < |list| && d < |list[k].handles| && list[k].handles[d] == h && list[k].registration == r
  }

  /** What mirroring means for one keyboard: beyond its own, a registration is live exactly when the list names it. */
  lemma LiveIffListed(list: seq<Notify>, d: nat, live: Live, base: Live, h: Handle, r: Registration)
    requires Mirrors(list, d, live, base) && h !in base
    ensures (h in live && live[h] == r) <==> GivenFor(list, d, h, r)
    ensures forall b :: b in base ==> b in live && live[b] == base[b]
  {
    var col, n := ColumnOf(list, d), |list|;
    forall b | b in base ensures b in live && live[b] == base[b] { ExtendKeepsBase(base, col, n, b); }
    forall k | 0 <= k < n ensures col[k].0 in live && live[col[k].0] == col[k].1 { ExtendHoldsEntry(base, col, n, k); }
    if h in live {
      ExtendOnly(base, col, n, h);
      var k :| 0 <= k < n && col[k].0 == h;
      assert list[k].handles[d] == h;
    }
    if GivenFor(list, d, h, r) {
      var k :| 0 <= k < |list| && d < |list[k].handles| && list[k].handles[d] == h && list[k].registration == r;
      assert col[k] == (h, r);
    }
  }

  lemma MirrorOneMore(list: seq<Notify>, devs: seq<nat>, live: map<nat, Live>, base: seq<Live>, dev: nat, was: Live)
    requires AllMirror(list, devs, live, base) && dev in live && Mirrors(list, |devs|, live[dev], was)
    ensures AllMirror(list, devs + [dev], live, base + [was])
  {
    var devs', base' := devs + [dev], base + [was];
    forall d | 0 <= d < |devs'| ensures devs'[d] in live && Mirrors(list, d, live[devs'[d]], base'[d]) {
      if d < |devs| {
        assert Mirrors(list, d, live[devs[d]], base[d]);
      }
    }
  }

  // ---------- A keyboard being attached ----------

  /** Keyboard `dev`, to be number `n`, holds the first `k` notifications; the others hold what they held. */
  ghost predicate Attaching(list: seq<Notify>, n: nat, k: nat, held: map<nat, Live>, dev: nat, live: map<nat, Live>) {
    && k <= |list| && LongEnough(list, n + 1) && dev in held
    && Unused(held[dev], ColumnOf(list, n), k)
    && live == held[dev := Extend(held[dev], ColumnOf(list, n), k)]
  }

  function Stored(list: seq<Notify>, k: nat, n: nat, h: Handle): (list': seq<Notify>)
    requires k < |list| && n < |list[k].handles|
    ensures |list'| == |list|
  {
    list[k := list[k].(handles := list[k].handles[n := h])]
  }

  lemma StoredKeeps(list: seq<Notify>, k: nat, n: nat, m: nat, h: Handle)
    requires LongEnough(list, m) && n < m && k < |list|
    ensures KeepsFirst(list, Stored(list, k, n, h), n) && LongEnough(Stored(list, k, n, h), m)
  {
    var list' := Stored(list, k, n, h);
    forall j | 0 <= j < |list| ensures SameFirstHandles(list[j], list'[j], n) && m <= |list'[j].handles| {
    }
  }

  /** The next notification, registered under a new handle that is then stored. */
  lemma AttachingNext(list: seq<Notify>, n: nat, k: nat, held: map<nat, Live>, dev: nat, live: map<nat, Live>, h: Handle)
    requires Attaching(list, n, k, held, dev, live) && k < |list| && h !in live[dev]
    ensures var list' := Stored(list, k, n, h);
            Attaching(list', n, k + 1, held, dev, live[dev := live[dev][h := list[k].registration]])
  {
    var list' := Stored(list, k, n, h);
    assert LongEnough(list', n + 1);
    var col, col' := ColumnOf(list, n), ColumnOf(list', n);
    forall i | 0 <= i < k ensures col[i] == col'[i] { }
    SameFirst(held[dev], col, col', k);
    assert col'[k] == (h, list[k].registration);
  }

  /** Taking the last one back. */
  lemma AttachingBack(list: seq<Notify>, n: nat, k: nat, held: map<nat, Live>, dev: nat, live: map<nat, Live>)
    requires Attaching(list, n, k + 1, held, dev, live)
    ensures Attaching(list, n, k, held, dev, live[dev := live[dev] - {list[k].handles[n]}])
  {
    var front, x := Extend(held[dev], ColumnOf(list, n), k), ColumnOf(list, n)[k];
    assert front[x.0 := x.1] - {x.0} == front;
  }

  /** A keyboard that holds all notifications joins the others. */
  lemma Attached(a: seq<Notify>, list: seq<Notify>, devs: seq<nat>, held: map<nat, Live>, base: seq<Live>, dev: nat,
      live: map<nat, Live>)
    requires AllMirror(a, devs, held, base) && KeepsFirst(a, list, |devs|) && dev !in devs
    requires Attaching(list, |devs|, |list|, held, dev, live)
    ensures AllMirror(list, devs + [dev], live, base + [held[dev]])
  {
    StillMirror(a, list, devs, held, live, base);
    MirrorOneMore(list, devs, live, base, dev, held[dev]);
  }

  // ---------- All keyboards at once ----------

  ghost predicate Distinct(devs: seq<nat>) {
    forall c, d :: 0 <= c < d < |devs| ==> devs[c] != devs[d]
  }

  ghost predicate Known(devs: seq<nat>, live: map<nat, Live>) {
    forall d :: 0 <= d < |devs| ==> devs[d] in live
  }

  /** The keyboards after `r` has been registered on the first `n` of `devs`. */
  function Registered(live: map<nat, Live>, devs: seq<nat>, hs: seq<Handle>, r: Registration, n: nat): map<nat, Live>
    requires n <= |devs| <= |hs| && Known(devs, live)
  {
    if n == 0 then live else
      Registered(live, devs, hs, r, n - 1)[devs[n - 1] := live[devs[n - 1]][hs[n - 1] := r]]
  }

  /** The keyboards after one handle has been released on the first `n` of `devs`. */
  function Released(live: map<nat, Live>, devs: seq<nat>, hs: seq<Handle>, n: nat): map<nat, Live>
    requires n <= |devs| <= |hs| && Known(devs, live)
  {
    if n == 0 then live else
      Released(live, devs, hs, n - 1)[devs[n - 1] := live[devs[n - 1]] - {hs[n - 1]}]
  }

  /** Only these keyboards have been touched. */
  ghost predicate OthersKept(before: map<nat, Live>, after: map<nat, Live>, devs: seq<nat>) {
    after.Keys == before.Keys && forall c :: c in before && c !in devs ==> after[c] == before[c]
  }

  lemma {:induction false} RegisteredAt(live: map<nat, Live>, devs: seq<nat>, hs: seq<Handle>, r: Registration, n: nat)
    requires n <= |devs| <= |hs| && Known(devs, live) && Distinct(devs)
    ensures var m := Registered(live, devs, hs, r, n);
            && OthersKept(live, m, devs)
            && (forall d :: 0 <= d < n ==> m[devs[d]] == live[devs[d]][hs[d] := r])
            && (forall d :: n <= d < |devs| ==> m[devs[d]] == live[devs[d]])
  {
    if n == 0 {
    } else {
      RegisteredAt(live, devs, hs, r, n - 1);
    }
  }

  lemma {:induction false} ReleasedAt(live: map<nat, Live>, devs: seq<nat>, hs: seq<Handle>, n: nat)
    requires n <= |devs| <= |hs| && Known(devs, live) && Distinct(devs)
    ensures var m := Released(live, devs, hs, n);
            && OthersKept(live, m, devs)
            && (forall d :: 0 <= d < n ==> m[devs[d]] == live[devs[d]] - {hs[d]})
            && (forall d :: n <= d < |devs| ==> m[devs[d]] == live[devs[d]])
  {
    if n == 0 {
    } else {
      ReleasedAt(live, devs, hs, n - 1);
    }
  }

  /** Only the first `n` handles matter. */
  lemma {:induction false} RegisteredSame(live: map<nat, Live>, devs: seq<nat>, hs: seq<Handle>, hs': seq<Handle>,
      r: Registration, n: nat)
    requires n <= |devs| <= |hs| == |hs'| && Known(devs, live) && forall i :: 0 <= i < n ==> hs[i] == hs'[i]
    ensures Registered(live, devs, hs, r, n) == Registered(live, devs, hs', r, n)
  {
    if n == 0 {
    } else {
      RegisteredSame(live, devs, hs, hs', r, n - 1);
    }
  }

  /** Releasing the last registration takes it back exactly. */
  lemma RegisteredUndo(live: map<nat, Live>, devs: seq<nat>, hs: seq<Handle>, r: Registration, j: nat)
    requires j < |devs| <= |hs| && Known(devs, live) && Distinct(devs) && hs[j] !in live[devs[j]]
    ensures var m := Registered(live, devs, hs, r, j + 1);
            && devs[j] in m
            && m[devs[j] := m[devs[j]] - {hs[j]}] == Registered(live, devs, hs, r, j)
  {
    RegisteredAt(live, devs, hs, r, j);
    var m := Registered(live, devs, hs, r, j + 1);
    assert m[devs[j]] - {hs[j]} == live[devs[j]];
  }

  /** The first `n` of `devs` have `r` under handles new to them. */
  ghost predicate Spreading(held: map<nat, Live>, devs: seq<nat>, hs: seq<Handle>, r: Registration, n: nat, live: map<nat, Live>) {
    && n <= |devs| <= |hs| && Known(devs, held)
    && live == Registered(held, devs, hs, r, n)
    && forall d :: 0 <= d < n ==> hs[d] !in held[devs[d]]
  }

  lemma SpreadingNext(held: map<nat, Live>, devs: seq<nat>, hs: seq<Handle>, r: Registration, n: nat,
      live: map<nat, Live>, h: Handle)
    requires Spreading(held, devs, hs, r, n, live) && n < |devs| && Distinct(devs)
    ensures devs[n] in live && live[devs[n]] == held[devs[n]]
    ensures (h !in held[devs[n]] ==>
              Spreading(held, devs, hs[n := h], r, n + 1, live[devs[n] := live[devs[n]][h := r]]))
  {
    RegisteredAt(held, devs, hs, r, n);
    RegisteredSame(held, devs, hs, hs[n := h], r, n);
  }

  lemma MirrorsAppend(list: seq<Notify>, e: Notify, d: nat, live: Live, base: Live)
    requires Mirrors(list, d, live, base) && d < |e.handles| && e.handles[d] !in live
    ensures Mirrors(list + [e], d, live[e.handles[d] := e.registration], base)
  {
    var more, n := list + [e], |list|;
    assert LongEnough(more, d + 1);
    var col, col' := ColumnOf(list, d), ColumnOf(more, d);
    forall i | 0 <= i < n ensures col[i] == col'[i] { }
    SameFirst(base, col, col', n);
    assert col'[n] == (e.handles[d], e.registration);
  }

  /** A notification registered on every keyboard under new handles extends the list. */
  lemma MirrorAppend(list: seq<Notify>, e: Notify, devs: seq<nat>, held: map<nat, Live>, live: map<nat, Live>, base: seq<Live>)
    requires AllMirror(list, devs, held, base) && Distinct(devs)
    requires Spreading(held, devs, e.handles, e.registration, |devs|, live)
    ensures AllMirror(list + [e], devs, live, base)
  {
    RegisteredAt(held, devs, e.handles, e.registration, |devs|);
    forall d | 0 <= d < |devs| ensures devs[d] in live && Mirrors(list + [e], d, live[devs[d]], base[d]) {
      assert Mirrors(list, d, held[devs[d]], base[d]);
      MirrorsAppend(list, e, d, held[devs[d]], base[d]);
    }
  }

  lemma RemovedColumn(list: seq<Notify>, k: nat, d: nat)
    requires k < |list| && LongEnough(list, d + 1)
    ensures LongEnough(Removed(list, k), d + 1) && ColumnOf(Removed(list, k), d) == Drop(ColumnOf(list, d), k)
  {
  }

  lemma MirrorsRemove(list: seq<Notify>, k: nat, d: nat, live: Live, base: Live)
    requires k < |list| && Mirrors(list, d, live, base)
    ensures Mirrors(Removed(list, k), d, live - {list[k].handles[d]}, base)
  {
    RemovedColumn(list, k, d);
    RemoveEntry(base, ColumnOf(list, d), |list|, k);
  }

  /** A notification released on every keyboard leaves the list. */
  lemma MirrorRemove(list: seq<Notify>, k: nat, devs: seq<nat>, live: map<nat, Live>, base: seq<Live>)
    requires k < |list| && AllMirror(list, devs, live, base) && Distinct(devs)
    ensures AllMirror(Removed(list, k), devs, Released(live, devs, list[k].handles, |devs|), base)
  {
    var rest, after := Removed(list, k), Released(live, devs, list[k].handles, |devs|);
    ReleasedAt(live, devs, list[k].handles, |devs|);
    forall d | 0 <= d < |devs| ensures devs[d] in after && Mirrors(rest, d, after[devs[d]], base[d]) {
      assert Mirrors(list, d, live[devs[d]], base[d]);
      MirrorsRemove(list, k, d, live[devs[d]], base[d]);
    }
    assert LongEnough(rest, |devs|);
  }

  /** The notification with this handle, or the list's length. */
  function FirstWithId(list: seq<Notify>, id: nat, from: nat := 0): (k: nat)
    requires from <= |list|
    ensures from <= k <= |list| && (k < |list| ==> list[k].id == id)
    ensures forall j :: from <= j < k ==> list[j].id != id
    decreases |list| - from
  {
    if from == |list| || list[from].id == id then from else FirstWithId(list, id, from + 1)
  }

  ghost predicate HasId(list: seq<Notify>, id: nat) {
    exists k :: 0 <= k < |list| && list[k].id == id
  }

  /** Handles differ, so a handle names at most one notification. */
  lemma OnlyOneId(list: seq<Notify>, id: nat, n: nat, nextId: nat)
    requires Listed(list, n, nextId)
    ensures FirstWithId(list, id) < |list| <==> HasId(list, id)
    ensures forall k :: 0 <= k < |list| && list[k].id == id ==>
              FirstWithId(list, id) == k && Removed(list, k) == list[..k] + list[k + 1..]
  {
  }

  // ---------- The physical keyboards ----------

  lemma UnusedHandleExists(used: set<int>) returns (bound: int)
    ensures forall h :: h in used ==> h < bound
  {
    if u :| u in used {
      var rest := used - {u};
      bound := UnusedHandleExists(rest);
      bound := if bound <= u then u + 1 else bound;
      assert used == rest + {u};
    } else {
      bound := 0;
    }
  }

  /** Every physical keyboard, and the registrations it currently holds. */
  class Keyboards {
    var live: map<nat, Live>

    constructor (live: map<nat, Live>)
      ensures this.live == live
    {
      this.live := live;
    }

    /** Registers a notification under a handle not in use, or fails and changes nothing. */
    method Register(dev: nat, r: Registration, works: bool) returns (ok: bool, handle: Handle)
      requires dev in live
      modifies this
      ensures ok == works
      ensures !ok ==> live == old(live)
      ensures ok ==> handle !in old(live)[dev] && live == old(live)[dev := old(live)[dev][handle := r]]
    {
      ok, handle := works, 0;
      if works {
        ghost var bound := UnusedHandleExists(live[dev].Keys);
        assert bound !in live[dev];
        handle :| handle !in live[dev];
        live := live[dev := live[dev][handle := r]];
      }
    }

    method Unregister(dev: nat, handle: Handle)
      requires dev in live
      modifies this
      ensures live == old(live)[dev := old(live)[dev] - {handle}]
    {
      live := live[dev := live[dev] - {handle}];
    }
  }

  // ---------- The splitter ----------

  predicate All(bs: seq<bool>) {
    forall k :: 0 <= k < |bs| ==> bs[k]
  }

  class Splitter {
    const boards: Keyboards
    var consoles: seq<nat>            // TextInExList[..CurrentNumberOfExConsoles]
    var listCount: nat                // TextInExListCount
    var list: seq<Notify>             // NotifyList
    var nextId: nat                   // memory for notifications not yet handed out
    ghost var base: seq<Live>         // what each keyboard held when it was attached

    ghost predicate Valid()
      reads this, boards
    {
      && |consoles| <= listCount && Distinct(consoles)
      && Listed(list, listCount, nextId)
      && AllMirror(list, consoles, boards.live, base)
    }

    constructor (boards: Keyboards)
      ensures Valid() && consoles == [] && list == [] && this.boards == boards
    {
      this.boards := boards;
      consoles, listCount, list, nextId := [], ALLOC_UNIT, [], 0;
      base := [];
    }

    /** Reallocates the handle lists one by one, keeping `listCount` entries; stops where memory runs out. */
    method GrowHandleLists(grow: seq<bool>) returns (ok: bool)
      requires LongEnough(list, listCount) && |grow| == |list|
      modifies this`list
      ensures KeepsFirst(old(list), list, listCount)
      ensures ok == All(grow) && (ok ==> LongEnough(list, listCount + ALLOC_UNIT))
    {
      var k := 0;
      while k < |list|
        invariant k <= |list| && KeepsFirst(old(list), list, listCount)
        invariant forall j :: 0 <= j < k ==> grow[j] && listCount + ALLOC_UNIT <= |list[j].handles|
      {
        if !grow[k] {
          return false;
        }
        var grown := list[k].handles[..listCount] + seq(ALLOC_UNIT, _ => 0);
        list := list[k := list[k].(handles := grown)];
        k := k + 1;
      }
      ok := true;
    }

    /** Unregisters the first `k` notifications from the keyboard being added. */
    method Rollback(dev: nat, k: nat, n: nat, ghost held: map<nat, Live>)
      requires Attaching(list, n, k, held, dev, boards.live)
      modifies boards
      ensures boards.live == held
    {
      var j: nat := k;
      while j > 0
        invariant Attaching(list, n, j, held, dev, boards.live)
      {
        j := j - 1;
        AttachingBack(list, n, j, held, dev, boards.live);
        boards.Unregister(dev, list[j].handles[n]);
      }
    }

    /** Registers notification `k` on the keyboard being added and notes the handle. */
    method RegisterOne(dev: nat, k: nat, works: bool, ghost held: map<nat, Live>) returns (ok: bool)
      requires |consoles| < listCount && LongEnough(list, listCount) && k < |list|
      requires Attaching(list, |consoles|, k, held, dev, boards.live)
      modifies this`list, boards
      ensures ok == works && KeepsFirst(old(list), list, |consoles|) && LongEnough(list, listCount)
      ensures Attaching(list, |consoles|, if ok then k + 1 else k, held, dev, boards.live)
    {
      ghost var live := boards.live;
      var handle;
      ok, handle := boards.Register(dev, list[k].registration, works);
      if ok {
        AttachingNext(list, |consoles|, k, held, dev, live, handle);
        StoredKeeps(list, k, |consoles|, listCount, handle);
        list := Stored(list, k, |consoles|, handle);
      }
    }

    /** Registers every notification on the keyboard being added, or none. */
    method RegisterAll(dev: nat, works: seq<bool>) returns (ok: bool)
      requires |consoles| < listCount && LongEnough(list, listCount) && |works| == |list| && dev in boards.live
      modifies this`list, boards
      ensures KeepsFirst(old(list), list, |consoles|) && LongEnough(list, listCount) && ok == All(works)
      ensures ok ==> Attaching(list, |consoles|, |list|, old(boards.live), dev, boards.live)
      ensures !ok ==> boards.live == old(boards.live)
    {
      var k: nat, n := 0, |consoles|;
      ghost var held, given := boards.live, list;
      ok := true;
      while ok && k < |list|
        invariant KeepsFirst(given, list, n) && LongEnough(list, listCount)
        invariant k <= |list| == |works| && ok == (forall j :: 0 <= j < k ==> works[j])
        invariant if ok then Attaching(list, n, k, held, dev, boards.live) else boards.live == held
      {
        ghost var before := list;
        ok := RegisterOne(dev, k, works[k], held);
        KeptChain(given, before, list, n);
        if !ok {
          Rollback(dev, k, n, held);
        }
        k := k + 1;
      }
    }

    /** Enlarges the handle lists, the key queue and the device list when the latter is full. */
    method MakeRoom(grow: seq<bool>, queueGrows: bool, listGrows: bool) returns (ok: bool)
      requires Valid() && |grow| == |list|
      modifies this`list, this`listCount
      ensures Valid() && KeepsFirst(old(list), list, |consoles|)
      ensures ok == (|consoles| < old(listCount) || (All(grow) && queueGrows && listGrows))
      ensures ok ==> |consoles| < listCount
    {
      ok := true;
      if |consoles| >= listCount {
        ok := GrowHandleLists(grow);
        StillMirror(old(list), list, consoles, boards.live, boards.live, base);
        ok := ok && queueGrows && listGrows;
        if ok {
          ListedKept(old(list), list, listCount, listCount + ALLOC_UNIT, nextId);
          listCount := listCount + ALLOC_UNIT;
        } else {
          ListedKept(old(list), list, listCount, listCount, nextId);
        }
      }
    }

    /** Attaches a keyboard; when anything fails, it holds what it held before. */
    method AddExDevice(dev: nat, grow: seq<bool>, queueGrows: bool, listGrows: bool, works: seq<bool>) returns (ok: bool)
      requires Valid() && dev in boards.live && dev !in consoles
      requires |grow| == |list| && |works| == |list|
      modifies this, boards
      ensures Valid() && KeepsFirst(old(list), list, |old(consoles)|) && OthersKept(old(boards.live), boards.live, [dev])
      ensures (ok <==>
                && (old(|consoles| < listCount)
                    || ((forall k :: 0 <= k < |grow| ==> grow[k]) && queueGrows && listGrows))
                && forall k :: 0 <= k < |works| ==> works[k])
      ensures ok ==> consoles == old(consoles) + [dev] && base == old(base) + [old(boards.live[dev])]
      ensures !ok ==> consoles == old(consoles) && base == old(base) && boards.live == old(boards.live)
    {
      ghost var given := list;
      ok := MakeRoom(grow, queueGrows, listGrows);
      if ok {
        ghost var before := list;
        ok := Attach(dev, works);
        KeptChain(given, before, list, |old(consoles)|);
      }
    }

    /** There is room for the keyboard. */
    method Attach(dev: nat, works: seq<bool>) returns (ok: bool)
      requires Valid() && dev in boards.live && dev !in consoles && |consoles| < listCount && |works| == |list|
      modifies this`list, this`consoles, this`base, boards
      ensures Valid() && KeepsFirst(old(list), list, |old(consoles)|) && OthersKept(old(boards.live), boards.live, [dev])
      ensures ok == All(works)
      ensures ok ==> consoles == old(consoles) + [dev] && base == old(base) + [old(boards.live[dev])]
      ensures !ok ==> consoles == old(consoles) && base == old(base) && boards.live == old(boards.live)
    {
      ghost var before, held := list, boards.live;
      ok := RegisterAll(dev, works);
      ListedKept(before, list, |consoles|, listCount, nextId);
      if ok {
        Attached(before, list, consoles, held, base, dev, boards.live);
        consoles, base := consoles + [dev], base + [held[dev]];
      } else {
        StillMirror(before, list, consoles, held, held, base);
      }
    }

    /** Registers `r` on keyboard `index`. */
    method RegisterOnNext(index: nat, r: Registration, handles: seq<Handle>, works: bool, ghost held: map<nat, Live>)
      returns (ok: bool, more: seq<Handle>)
      requires index < |consoles| && Distinct(consoles) && Spreading(held, consoles, handles, r, index, boards.live)
      modifies boards
      ensures ok == works && |more| == |handles|
      ensures Spreading(held, consoles, more, r, if ok then index + 1 else index, boards.live)
    {
      ghost var live := boards.live;
      SpreadingNext(held, consoles, handles, r, index, live, 0);
      var handle;
      more := handles;
      ok, handle := boards.Register(consoles[index], r, works);
      if ok {
        SpreadingNext(held, consoles, handles, r, index, live, handle);
        more := handles[index := handle];
      }
    }

    /** Releases `r` on the first `count` keyboards. */
    method UnregisterFirst(count: nat, handles: seq<Handle>, ghost held: map<nat, Live>, ghost r: Registration)
      requires Distinct(consoles) && Spreading(held, consoles, handles, r, count, boards.live)
      modifies boards
      ensures boards.live == held
    {
      var index: nat := count;
      while index != 0
        invariant index <= count && Spreading(held, consoles, handles, r, index, boards.live)
      {
        index := index - 1;
        RegisteredUndo(held, consoles, handles, r, index);
        boards.Unregister(consoles[index], handles[index]);
      }
    }

    /** Registers `r` on every keyboard, or on none. */
    method RegisterOnBoards(r: Registration, works: seq<bool>) returns (ok: bool, handles: seq<Handle>)
      requires |consoles| <= listCount && Distinct(consoles) && Known(consoles, boards.live) && |works| == |consoles|
      modifies boards
      ensures |handles| == listCount && ok == All(works)
      ensures !ok ==> boards.live == old(boards.live)
      ensures ok ==> Spreading(old(boards.live), consoles, handles, r, |consoles|, boards.live)
    {
      handles := seq(listCount, _ => 0);
      ghost var held := boards.live;
      var index: nat := 0;
      ok := true;
      while ok && index < |consoles|
        invariant index <= |consoles| && |handles| == listCount && ok == (forall j :: 0 <= j < index ==> works[j])
        invariant if ok then Spreading(held, consoles, handles, r, index, boards.live) else boards.live == held
      {
        ok, handles := RegisterOnNext(index, r, handles, works[index], held);
        if !ok {
          UnregisterFirst(index, handles, held, r);
        }
        index := index + 1;
      }
    }

    /** Looks for a notification registered already. */
    method FindSame(r: Registration) returns (k: nat)
      ensures k == FirstSame(list, r)
    {
      k := 0;
      while k < |list| && !SameNotification(list[k].registration, r)
        invariant k <= |list| && FirstSame(list, r) == FirstSame(list, r, k)
      {
        k := k + 1;
      }
    }

    /** A notification that is new to the list. */
    method RegisterNew(r: Registration, works: seq<bool>) returns (ok: bool, id: nat)
      requires Valid() && |works| == |consoles|
      modifies this`list, this`nextId, boards
      ensures Valid() && OthersKept(old(boards.live), boards.live, consoles) && ok == All(works)
      ensures (ok ==> |list| == |old(list)| + 1 && list[..|old(list)|] == old(list)
                      && list[|old(list)|].(handles := []) == Notify(id, r, []))
      ensures !ok ==> list == old(list) && boards.live == old(boards.live)
    {
      ghost var held := boards.live;
      id := nextId;
      var handles;
      ok, handles := RegisterOnBoards(r, works);
      if ok {
        var e := Notify(id, r, handles);
        RegisteredAt(held, consoles, handles, r, |consoles|);
        MirrorAppend(list, e, consoles, held, boards.live, base);
        ListedAppend(list, e, listCount);
        list, nextId := list + [e], nextId + 1;
      }
    }

    /**
     Registers a notification on every keyboard, unless it is there already; when a keyboard or memory fails, nothing
     has changed.
     */
    method RegisterKeyNotify(r: Registration, memory: bool, works: seq<bool>) returns (ok: bool, id: nat)
      requires Valid() && |works| == |consoles|
      modifies this`list, this`nextId, boards
      ensures Valid() && OthersKept(old(boards.live), boards.live, consoles)
      ensures ok <==> Covered(old(list), r) || (memory && forall d :: 0 <= d < |works| ==> works[d])
      ensures var k := FirstSame(old(list), r);
              if k < |old(list)| then id == old(list)[k].id && list == old(list) && boards.live == old(boards.live)
              else if ok then |list| == k + 1 && list[..k] == old(list) && list[k].(handles := []) == Notify(id, r, [])
              else list == old(list) && boards.live == old(boards.live)
      ensures ok ==> exists k :: 0 <= k < |list| && list[k].id == id && Covers(list[k].registration, r)
      ensures list == old(list) <==> Covered(old(list), r) || !ok
    {
      FirstSameCovers(list, r);
      var k := FindSame(r);
      if k < |list| {
        return true, list[k].id;
      }
      if !memory {
        return false, 0;
      }
      ok, id := RegisterNew(r, works);
    }

    /** Looks for the notification with this handle. */
    method FindId(id: nat) returns (k: nat)
      ensures k == FirstWithId(list, id)
    {
      k := 0;
      while k < |list| && list[k].id != id
        invariant k <= |list| && FirstWithId(list, id) == FirstWithId(list, id, k)
      {
        k := k + 1;
      }
    }

    /** Releases a notification everywhere; false when the handle is unknown. */
    method UnregisterKeyNotify(id: nat) returns (found: bool)
      requires Valid()
      modifies this`list, boards
      ensures Valid() && OthersKept(old(boards.live), boards.live, consoles)
      ensures found == HasId(old(list), id) && !HasId(list, id)
      ensures list == if found then Removed(old(list), FirstWithId(old(list), id)) else old(list)
      ensures forall k :: 0 <= k < |old(list)| && old(list)[k].id == id ==> list == old(list)[..k] + old(list)[k + 1..]
      ensures !found ==> boards.live == old(boards.live)
    {
      OnlyOneId(list, id, listCount, nextId);
      var k := FindId(id);
      found := k < |list|;
      if found {
        Release(k);
      }
    }

    /** Releases notification `k` on every keyboard and takes it from the list. */
    method Release(k: nat)
      requires Valid() && k < |list|
      modifies this`list, boards
      ensures Valid() && list == Removed(old(list), k) && OthersKept(old(boards.live), boards.live, consoles)
      ensures !HasId(list, old(list)[k].id)
    {
      ghost var held := boards.live;
      ReleasedAt(held, consoles, list[k].handles, |consoles|);
      MirrorRemove(list, k, consoles, held, base);
      ListedRemove(list, k, listCount, nextId);
      ReleaseOnBoards(list[k].handles);
      list := list[..k] + list[k + 1..];
    }

    method ReleaseOnBoards(handles: seq<Handle>)
      requires |consoles| <= |handles| && Distinct(consoles) && Known(consoles, boards.live)
      modifies boards
      ensures boards.live == Released(old(boards.live), consoles, handles, |consoles|)
    {
      ghost var held := boards.live;
      var index: nat := 0;
      while index < |consoles|
        invariant index <= |consoles| && boards.live == Released(held, consoles, handles, index)
      {
        ReleasedAt(held, consoles, handles, index);
        boards.Unregister(consoles[index], handles[index]);
        index := index + 1;
      }
    }
  }
}
