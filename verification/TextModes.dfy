/**
 The text modes a graphics console offers on a screen: mode 0 fixed at 90x80, mode 1 for 80x50, then every predefined
 mode that fits, the full-screen mode last, none of them twice.
 */
module TextModes {
  import opened Common
  import opened ModeMap

  const GLYPH_WIDTH: nat := 8
  const GLYPH_HEIGHT: nat := 19

  /** The screen; resolutions are 32 bits wide. */
  datatype Screen = Screen(width: nat, height: nat, gopMode: nat) {
    ghost predicate Valid() { width < UINT32 && height < UINT32 }
    function MaxColumns(): nat { width / GLYPH_WIDTH }
    function MaxRows(): nat { height / GLYPH_HEIGHT }
    function FullScreen(): Geometry { Geometry(MaxColumns(), MaxRows()) }

    predicate Fits(g: Geometry) {
      g.columns != 0 && g.rows != 0 && g.columns <= MaxColumns() && g.rows <= MaxRows()
    }
  }

  datatype ModeData = ModeData(geometry: Geometry, screen: Screen, deltaX: nat, deltaY: nat)

  const CLEARED: ModeData := ModeData(ZERO, Screen(0, 0, 0), 0, 0)

  /** The margin in pixels; the subtraction is unsigned and 32 bits wide, the only machine word of the package. */
  function Margin(resolution: nat, cells: nat, glyph: nat): nat {
    ((resolution - cells * glyph) % UINT32) / 2
  }

  function Laid(g: Geometry, screen: Screen): ModeData {
    ModeData(g, screen, Margin(screen.width, g.columns, GLYPH_WIDTH), Margin(screen.height, g.rows, GLYPH_HEIGHT))
  }

  const MODE0: Geometry := Geometry(90, 80)
  const MODE1: Geometry := Geometry(80, 50)
  const PREDEFINED: seq<Geometry> := [Geometry(100, 31), Geometry(128, 40), Geometry(160, 42), Geometry(240, 56)]
  const COUNT: nat := |PREDEFINED| + 1

  function Candidates(screen: Screen): (cs: seq<Geometry>)
    ensures |cs| == COUNT
  {
    PREDEFINED + [screen.FullScreen()]
  }

  predicate Shows(modes: seq<ModeData>, g: Geometry) {
    exists k :: 0 <= k < |modes| && modes[k].geometry == g
  }

  function Fixed(screen: Screen): seq<ModeData> {
    [Laid(MODE0, screen),
     if screen.Fits(MODE1) then Laid(MODE1, screen) else CLEARED.(screen := screen)]
  }

  /** The table once the first `n` candidates have been considered. */
  function Offered(screen: Screen, n: nat): (modes: seq<ModeData>)
    requires n <= COUNT
    ensures 2 <= |modes| <= n + 2
  {
    if n == 0 then Fixed(screen) else
      var modes := Offered(screen, n - 1);
      var g := Candidates(screen)[n - 1];
      if screen.Fits(g) && !Shows(modes, g) then modes + [Laid(g, screen)] else modes
  }

  // ---------- What the table holds ----------

  ghost predicate DistinctModes(modes: seq<ModeData>) {
    forall j, k :: 0 <= j < k < |modes| ==> modes[j].geometry != modes[k].geometry
  }

  lemma {:induction false} ModesDistinct(screen: Screen, n: nat)
    requires n <= COUNT
    ensures DistinctModes(Offered(screen, n))
  {
    if n == 0 {
    } else {
      ModesDistinct(screen, n - 1);
    }
  }

  ghost predicate AmongFirst(screen: Screen, n: nat, g: Geometry)
    requires n <= COUNT
  {
    exists i :: 0 <= i < n && Candidates(screen)[i] == g
  }

  lemma ShowsAppend(a: seq<ModeData>, b: seq<ModeData>, g: Geometry)
    ensures Shows(a + b, g) <==> Shows(a, g) || Shows(b, g)
  {
    if Shows(a, g) {
      var k :| 0 <= k < |a| && a[k].geometry == g;
      assert (a + b)[k] == a[k];
    }
    if Shows(b, g) {
      var k :| 0 <= k < |b| && b[k].geometry == g;
      assert (a + b)[|a| + k] == b[k];
    }
  }

  /** From entry 2 on the table shows the fitting candidates that are not modes 0 and 1, and only those. */
  lemma {:induction false} ShownExactly(screen: Screen, n: nat, g: Geometry)
    requires n <= COUNT
    ensures Offered(screen, n)[..2] == Fixed(screen)
    ensures Shows(Offered(screen, n)[2..], g) <==> AmongFirst(screen, n, g) && screen.Fits(g) && !Shows(Fixed(screen), g)
  {
    if n == 0 {
    } else {
      ShownExactly(screen, n - 1, g);
      var before, now := Offered(screen, n - 1), Offered(screen, n);
      var c := Candidates(screen)[n - 1];
      assert before == Fixed(screen) + before[2..];
      ShowsAppend(Fixed(screen), before[2..], c);
      if AmongFirst(screen, n, g) && g != c {
        var i :| 0 <= i < n && Candidates(screen)[i] == g;
        assert i < n - 1;
      }
      if now != before {
        assert now[2..] == before[2..] + [Laid(c, screen)];
        ShowsAppend(before[2..], [Laid(c, screen)], g);
        assert Shows([Laid(c, screen)], g) <==> [Laid(c, screen)][0].geometry == g;
      } else if g == c {
        ShownExactly(screen, n - 1, c);
      }
    }
  }

  /** Cells of 8 x 19 pixels, at least one and none outside the screen. */
  ghost predicate OnScreen(g: Geometry, screen: Screen) {
    g.columns >= 1 && g.rows >= 1 && 8 * g.columns <= screen.width && 19 * g.rows <= screen.height
  }

  /** A geometry can be chosen exactly when it is mode 0 or fits and is 80x50, predefined or the full screen. */
  lemma OfferedIff(screen: Screen, g: Geometry)
    requires g != ZERO
    ensures (exists k :: 0 <= k < |Offered(screen, 5)| && Offered(screen, 5)[k].geometry == g) <==>
            || g == Geometry(90, 80)
            || (OnScreen(g, screen)
                && (g == Geometry(80, 50) || g == Geometry(100, 31) || g == Geometry(128, 40) || g == Geometry(160, 42)
                    || g == Geometry(240, 56) || g == Geometry(screen.width / 8, screen.height / 19)))
  {
    var modes := Offered(screen, COUNT);
    ShownExactly(screen, COUNT, g);
    assert modes == modes[..2] + modes[2..];
    ShowsAppend(modes[..2], modes[2..], g);
    var cs := Candidates(screen);
    assert AmongFirst(screen, COUNT, g) <==> g in cs;
    var fixed := Fixed(screen);
    assert Shows(fixed, g) <==> fixed[0].geometry == g || fixed[1].geometry == g;
  }

  /** Later candidates only add to the end: the table keeps the candidates' order. */
  lemma {:induction false} OnlyAppended(screen: Screen, n: nat, m: nat)
    requires n <= m <= COUNT
    ensures Offered(screen, n) <= Offered(screen, m)
  {
    if n < m {
      OnlyAppended(screen, n, m - 1);
    }
  }

  /** The modes from the third on come from these places of the candidate list. */
  ghost predicate From(screen: Screen, modes: seq<ModeData>, places: seq<nat>) {
    && |modes| == 2 + |places|
    && (forall j, k :: 0 <= j < k < |places| ==> places[j] < places[k])
    && forall k :: 0 <= k < |places| ==>
         && places[k] < 5
         && modes[2 + k].geometry ==
            [Geometry(100, 31), Geometry(128, 40), Geometry(160, 42), Geometry(240, 56),
             Geometry(screen.width / 8, screen.height / 19)][places[k]]
  }

  /** The table follows the list of candidates, the full screen last. */
  lemma {:induction false} InOrder(screen: Screen, n: nat) returns (places: seq<nat>)
    requires n <= COUNT
    ensures From(screen, Offered(screen, n), places) && forall k :: 0 <= k < |places| ==> places[k] < n
  {
    if n == 0 {
      places := [];
    } else {
      places := InOrder(screen, n - 1);
      if Offered(screen, n) != Offered(screen, n - 1) {
        places := places + [n - 1];
      }
    }
  }

  // ---------- Where the text is put ----------

  /** The text lies inside the screen with equal space on both sides, give or take a pixel. */
  ghost predicate Centred(resolution: nat, margin: nat, extent: nat) {
    margin <= resolution - (margin + extent) <= margin + 1
  }

  lemma MarginCentres(resolution: nat, cells: nat, glyph: nat)
    requires resolution < UINT32 && cells * glyph < UINT32
    ensures Centred(resolution, Margin(resolution, cells, glyph), cells * glyph) <==> cells * glyph <= resolution
  {
  }

  ghost predicate ModeCentred(m: ModeData) {
    && Centred(m.screen.width, m.deltaX, m.geometry.columns * GLYPH_WIDTH)
    && Centred(m.screen.height, m.deltaY, m.geometry.rows * GLYPH_HEIGHT)
  }

  lemma LaidCentred(g: Geometry, screen: Screen)
    requires screen.Valid() && g.columns * GLYPH_WIDTH < UINT32 && g.rows * GLYPH_HEIGHT < UINT32
    ensures ModeCentred(Laid(g, screen)) <==> g.columns <= screen.MaxColumns() && g.rows <= screen.MaxRows()
  {
    MarginCentres(screen.width, g.columns, GLYPH_WIDTH);
    MarginCentres(screen.height, g.rows, GLYPH_HEIGHT);
  }

  /** Every mode but the first is centred, an unsupported mode 1 aside. */
  lemma {:induction false} AllCentred(screen: Screen, n: nat, k: nat)
    requires screen.Valid() && n <= COUNT && 1 <= k < |Offered(screen, n)|
    ensures var m := Offered(screen, n)[k];
            m.screen == screen && ((k == 1 && m.geometry == ZERO) || (screen.Fits(m.geometry) && ModeCentred(m)))
  {
    if n == 0 {
      LaidCentred(MODE1, screen);
    } else if k < |Offered(screen, n - 1)| {
      AllCentred(screen, n - 1, k);
    } else {
      LaidCentred(Candidates(screen)[n - 1], screen);
    }
  }

  /** Mode 0 is 90x80 whatever the screen; it is inside the screen only on one at least 720 x 1520. */
  lemma Mode0Centred(screen: Screen)
    requires screen.Valid()
    ensures ModeCentred(Offered(screen, COUNT)[0]) <==> 720 <= screen.width && 1520 <= screen.height
  {
    OnlyAppended(screen, 0, COUNT);
    LaidCentred(MODE0, screen);
  }

  /** Half of what is left; on too small a screen the difference wraps around. */
  lemma MarginIs(resolution: nat, cells: nat, glyph: nat, extent: nat)
    requires resolution < UINT32 && extent < UINT32 && cells * glyph == extent
    ensures Margin(resolution, cells, glyph) ==
            if resolution < extent then (resolution - extent + 0x1_0000_0000) / 2 else (resolution - extent) / 2
  {
  }

  /** Mode 0 is 90x80 whatever the screen. */
  lemma FirstEntry(screen: Screen)
    requires screen.Valid()
    ensures Offered(screen, 5)[0] == ModeData(Geometry(90, 80), screen,
              if screen.width < 720 then (screen.width - 720 + 0x1_0000_0000) / 2 else (screen.width - 720) / 2,
              if screen.height < 1520 then (screen.height - 1520 + 0x1_0000_0000) / 2 else (screen.height - 1520) / 2)
  {
    OnlyAppended(screen, 0, COUNT);
    MarginIs(screen.width, 90, GLYPH_WIDTH, 720);
    MarginIs(screen.height, 80, GLYPH_HEIGHT, 1520);
  }

  /** Mode 1 is 80x50, or 0x0 on a screen too small for that. */
  lemma SecondEntry(screen: Screen)
    requires screen.Valid()
    ensures Offered(screen, 5)[1] ==
            if screen.width < 640 || screen.height < 950 then ModeData(Geometry(0, 0), screen, 0, 0)
            else ModeData(Geometry(80, 50), screen, (screen.width - 640) / 2, (screen.height - 950) / 2)
  {
    OnlyAppended(screen, 0, COUNT);
    if screen.width >= 640 && screen.height >= 950 {
      MarginIs(screen.width, 80, GLYPH_WIDTH, 640);
      MarginIs(screen.height, 50, GLYPH_HEIGHT, 950);
    }
  }

  // ---------- Filling the table ----------

  /** Where among the first `count` modes `g` is shown, or `count`. */
  method FindGeometry(modes: array<ModeData>, count: nat, g: Geometry) returns (at: nat)
    requires count <= modes.Length
    ensures at <= count && (at < count <==> Shows(modes[..count], g))
    ensures at < count ==> modes[at].geometry == g
  {
    at := 0;
    while at < count
      invariant at <= count && !Shows(modes[..at], g)
    {
      if modes[at].geometry == g {
        assert modes[..count][at].geometry == g;
        return;
      }
      at := at + 1;
    }
  }

  method InitializeTextModes(screen: Screen) returns (modes: array<ModeData>, count: nat)
    ensures modes.Length == COUNT + 2 && count <= COUNT + 2 && modes[..count] == Offered(screen, COUNT)
  {
    var candidates := Candidates(screen);
    modes := new ModeData[COUNT + 2](_ => CLEARED);
    modes[0] := Laid(MODE0, screen);
    modes[1] := modes[1].(screen := screen);
    if screen.MaxColumns() >= 80 && screen.MaxRows() >= 50 {
      modes[1] := Laid(MODE1, screen);
    }
    count := 2;
    var index := 0;
    while index < COUNT
      invariant index <= COUNT && 2 <= count <= index + 2 && modes.Length == COUNT + 2
      invariant modes[..count] == Offered(screen, index)
    {
      var g := candidates[index];
      if screen.Fits(g) {
        var at := FindGeometry(modes, count, g);
        if at == count {
          modes[count] := Laid(g, screen);
          count := count + 1;
        }
      }
      index := index + 1;
    }
  }
}
