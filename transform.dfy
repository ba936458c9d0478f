/**
 * The transform engine: turning a window into a borderless window covering
 * its monitor (`MakeBorderlessFullscreen`) and putting its chrome back
 * (`RestoreWindowed`), with the capture-once bookkeeping kept in a favourite.
 *
 * `Apply` and `Restore` are the two operations on values, written as the same
 * sequence of API calls the engine issues; the methods perform those calls on
 * a `WindowTable` and a `FavoriteAppInfo` and are proved to agree with them.
 */
module Transform {
  import opened Wrappers
  import opened Int32Arith
  import opened Win32
  import opened Windowing
  import opened Favorites

  /** The desktop and the favourite after one engine operation. */
  datatype Outcome = Outcome(desktop: Desktop, fav: Option<Favorite>)

  /** The flags of the SetWindowPos that stretches the window over its monitor. */
  const FullscreenFlags: bv32 := SWP_NOZORDER | SWP_FRAMECHANGED | SWP_SHOWWINDOW
  /** The flags of the SetWindowPos that only forces a frame change. */
  const RedrawFlags: bv32 := SWP_NOMOVE | SWP_NOSIZE | SWP_NOZORDER | SWP_FRAMECHANGED

  /** The favourite with the window's current placement, style and extended style saved into it. */
  function Capture(f: Favorite, d: Desktop, h: Handle): (r: Favorite)
    ensures r.SameRule(f) && r.isFullscreen == f.isFullscreen
    ensures h in d.windows ==>
      r.lastStyle == d.windows[h].style && r.lastExStyle == d.windows[h].exStyle && r.lastPlacement == d.windows[h].placement
    ensures h !in d.windows ==> r.lastStyle == 0 && r.lastExStyle == 0 && r.lastPlacement == ZeroPlacement
  {
    f.(lastPlacement := d.GetPlacement(h), lastStyle := d.GetLong(h, Style), lastExStyle := d.GetLong(h, ExStyle))
  }

  /** Whether the favourite must take a fresh snapshot: there is one and it is not already fullscreen. */
  predicate MustCapture(fav: Option<Favorite>) {
    fav.Some? && !fav.value.isFullscreen
  }

  /** The calls that stretch window `h` over monitor rectangle `m`. */
  function CoverCall(h: Handle, m: Rect): Call {
    SetWindowPosCall(h, HWND_TOP, m.left, m.top, Sub32(m.right, m.left), Sub32(m.bottom, m.top), FullscreenFlags)
  }

  /**
   * `MakeBorderlessFullscreen(h, fav)` on values.
   *
   * Nothing happens for the zero handle. Otherwise: the favourite saves the
   * window's placement and both style words only when it is not already
   * fullscreen; the chrome bits are cleared from the style and the edge bits
   * from the extended style; and only when the monitor's bounds can be read is
   * the window moved and sized to exactly the monitor rectangle and made
   * visible, and the favourite marked fullscreen. When they cannot be read the
   * stripped styles stay and neither the rectangle nor the flag changes.
   */
  function Apply(d: Desktop, h: Handle, fav: Option<Favorite>): (r: Outcome)
    ensures h == Zero ==> r == Outcome(d, fav)
    ensures r.desktop.SameEnvironment(d) && r.desktop.windows.Keys == d.windows.Keys
    ensures forall g :: g in d.windows && g != h ==> r.desktop.windows[g] == d.windows[g]
    ensures r.fav.Some? <==> fav.Some?
    ensures fav.Some? ==> r.fav.value.SameRule(fav.value)
    ensures h != Zero && MustCapture(fav) ==>
      && r.fav.value.lastStyle == d.GetLong(h, Style)
      && r.fav.value.lastExStyle == d.GetLong(h, ExStyle)
      && r.fav.value.lastPlacement == d.GetPlacement(h)
    ensures fav.Some? && !MustCapture(fav) ==>
      && r.fav.value.lastStyle == fav.value.lastStyle
      && r.fav.value.lastExStyle == fav.value.lastExStyle
      && r.fav.value.lastPlacement == fav.value.lastPlacement
    ensures h != Zero && fav.Some? ==>
      r.fav.value.isFullscreen == (fav.value.isFullscreen || d.MonitorBounds(h).Some?)
  {
    if h == Zero then Outcome(d, fav)
    else
      var saved := if MustCapture(fav) then Some(Capture(fav.value, d, h)) else fav;
      var d1 := d.SetLong(h, Style, StripStyle(d.GetLong(h, Style)));
      var d2 := d1.SetLong(h, ExStyle, StripExStyle(d1.GetLong(h, ExStyle)));
      match d2.MonitorBounds(h)
      case None => Outcome(d2, saved)
      case Some(m) =>
        var d3 := d2.SetPos(h, HWND_TOP, m.left, m.top, Sub32(m.right, m.left), Sub32(m.bottom, m.top), FullscreenFlags);
        Outcome(d3, if saved.Some? then Some(saved.value.(isFullscreen := true)) else saved)
  }

  /**
   * What Apply does to the window: the chrome bits are cleared from the style
   * and the edge bits from the extended style; when the monitor's bounds can be
   * read the rectangle becomes exactly the monitor rectangle, the window
   * visible, and a normal window's reported normal position that rectangle too;
   * otherwise rectangle, visibility and placement are untouched.
   */
  lemma ApplyWindow(d: Desktop, h: Handle, fav: Option<Favorite>)
    requires h != Zero && h in d.windows
    ensures var w, w' := d.windows[h], Apply(d, h, fav).desktop.windows[h];
      && w'.style == StripStyle(w.style) && w'.exStyle == StripExStyle(w.exStyle)
      && w'.title == w.title && w'.pid == w.pid
      && (d.MonitorBounds(h).Some? ==>
            w'.rect == d.MonitorBounds(h).value && w'.visible && w'.placement == Tracked(w.placement, w'.rect))
      && (d.MonitorBounds(h).None? ==> w'.rect == w.rect && w'.visible == w.visible && w'.placement == w.placement)
  {
    if d.MonitorBounds(h).Some? {
      var m := d.MonitorBounds(h).value;
      var d1 := d.SetLong(h, Style, StripStyle(d.GetLong(h, Style)));
      var d2 := d1.SetLong(h, ExStyle, StripExStyle(d1.GetLong(h, ExStyle)));
      MoveToRectCoversIt(d2, h, HWND_TOP, m, FullscreenFlags);
    }
  }

  /**
   * The calls Apply issues on a non-zero handle: the two SetWindowLong calls
   * with the stripped words, then, only when the monitor's bounds can be read,
   * one SetWindowPos to the monitor's origin and extent with SWP_NOZORDER, so
   * HWND_TOP has no effect.
   */
  lemma ApplyCalls(d: Desktop, h: Handle, fav: Option<Favorite>)
    requires h != Zero
    ensures Apply(d, h, fav).desktop.calls == d.calls
      + [SetWindowLongCall(h, Style, StripStyle(d.GetLong(h, Style))),
         SetWindowLongCall(h, ExStyle, StripExStyle(d.GetLong(h, ExStyle)))]
      + (if d.MonitorBounds(h).Some? then [CoverCall(h, d.MonitorBounds(h).value)] else [])
    ensures CoverCall(h, ZeroRect).flags & SWP_NOZORDER != 0
  {
  }

  /** Whether `RestoreWindowed` returns without doing anything. */
  predicate RestoreSkips(h: Handle, fav: Option<Favorite>) {
    h == Zero || fav.None? || !fav.value.isFullscreen
  }

  /**
   * `RestoreWindowed(h, fav)` on values.
   *
   * Nothing happens for the zero handle, a missing favourite, or a favourite
   * that is not fullscreen. Otherwise the saved style and extended style are
   * written back verbatim and the favourite is no longer fullscreen. The
   * placement written back is the window's CURRENT one, read just before, not
   * the saved one: the placement is unchanged, and a normal window goes to the
   * normal position it already reports; the SWP_NOMOVE | SWP_NOSIZE call
   * changes no geometry; and SW_RESTORE is issued exactly when the saved
   * placement was minimized.
   */
  function Restore(d: Desktop, h: Handle, fav: Option<Favorite>): (r: Outcome)
    ensures RestoreSkips(h, fav) ==> r == Outcome(d, fav)
    ensures r.desktop.SameEnvironment(d) && r.desktop.windows.Keys == d.windows.Keys
    ensures forall g :: g in d.windows && g != h ==> r.desktop.windows[g] == d.windows[g]
    ensures !RestoreSkips(h, fav) ==> r.fav == Some(fav.value.(isFullscreen := false))
    ensures !RestoreSkips(h, fav) && h in d.windows ==>
      var w, w' := d.windows[h], r.desktop.windows[h];
      && w'.style == fav.value.lastStyle && w'.exStyle == fav.value.lastExStyle
      && w'.placement == w.placement && w'.rect == PlacedRect(w.placement, w.rect) && w'.visible == w.visible
      && w'.title == w.title && w'.pid == w.pid
  {
    if RestoreSkips(h, fav) then Outcome(d, fav)
    else
      var f := fav.value;
      var d1 := d.SetLong(h, Style, f.lastStyle);
      var d2 := d1.SetLong(h, ExStyle, f.lastExStyle);
      var placement := d2.GetPlacement(h);
      var d3 := d2.SetPlacement(h, placement);
      var d4 := d3.SetPos(h, Zero, 0, 0, 0, 0, RedrawFlags);
      NoMoveNoSizeKeepsWindows(d3, h, Zero, 0, 0, 0, 0, RedrawFlags);
      var d5 := if f.lastPlacement.showCmd == SW_SHOWMINIMIZED then d4.Show(h, SW_RESTORE) else d4;
      Outcome(d5, Some(f.(isFullscreen := false)))
  }

  /** A restore changes nothing the enumeration callback sees: visibility, title and process stay. */
  lemma RestoreKeepsEnumeration(d: Desktop, h: Handle, fav: Option<Favorite>)
    ensures Restore(d, h, fav).desktop.Enumerate() == d.Enumerate()
  {
    var d1 := Restore(d, h, fav).desktop;
    forall k | 0 <= k < |d.order| ensures d1.RawOf(d.order[k]) == d.RawOf(d.order[k]) {
    }
  }

  /**
   * The calls Restore issues when it does not skip: the two saved words, the
   * window's current placement, the redraw-only SetWindowPos, and SW_RESTORE
   * exactly when the saved placement was minimized.
   */
  lemma RestoreCalls(d: Desktop, h: Handle, fav: Option<Favorite>)
    requires !RestoreSkips(h, fav)
    ensures var f := fav.value;
      Restore(d, h, fav).desktop.calls == d.calls
        + [SetWindowLongCall(h, Style, f.lastStyle), SetWindowLongCall(h, ExStyle, f.lastExStyle),
           SetWindowPlacementCall(h, d.GetPlacement(h)), SetWindowPosCall(h, Zero, 0, 0, 0, 0, RedrawFlags)]
        + (if f.lastPlacement.showCmd == SW_SHOWMINIMIZED then [ShowWindowCall(h, SW_RESTORE)] else [])
  {
  }

  /** Restore writes back the placement it has just read, and issues SW_RESTORE if and only if the saved placement was minimized. */
  lemma RestoreRestoresMinimizedOnly(d: Desktop, h: Handle, fav: Option<Favorite>)
    requires !RestoreSkips(h, fav)
    ensures var issued := Restore(d, h, fav).desktop.calls[|d.calls|..];
      && d.calls <= Restore(d, h, fav).desktop.calls
      && SetWindowPlacementCall(h, d.GetPlacement(h)) in issued
      && (ShowWindowCall(h, SW_RESTORE) in issued <==> fav.value.lastPlacement.showCmd == SW_SHOWMINIMIZED)
  {
    RestoreCalls(d, h, fav);
    var f := fav.value;
    var issued := Restore(d, h, fav).desktop.calls[|d.calls|..];
    assert issued == [SetWindowLongCall(h, Style, f.lastStyle), SetWindowLongCall(h, ExStyle, f.lastExStyle),
           SetWindowPlacementCall(h, d.GetPlacement(h)), SetWindowPosCall(h, Zero, 0, 0, 0, 0, RedrawFlags)]
        + (if f.lastPlacement.showCmd == SW_SHOWMINIMIZED then [ShowWindowCall(h, SW_RESTORE)] else []);
    assert issued[2] == SetWindowPlacementCall(h, d.GetPlacement(h));
  }

  /**
   * `MakeBorderlessFullscreen`: capture once, strip the chrome, then cover the
   * monitor if its bounds can be read.
   */
  method MakeBorderlessFullscreen(os: WindowTable, hWnd: Handle, fav: FavoriteAppInfo?)
    modifies os, fav
    ensures os.Value() == Apply(old(os.Value()), hWnd, old(ValueOf(fav))).desktop
    ensures ValueOf(fav) == Apply(old(os.Value()), hWnd, old(ValueOf(fav))).fav
  {
    if hWnd == Zero {
      return;
    }
    if fav != null && !fav.isFullscreen {
      var placement := os.GetWindowPlacement(hWnd);
      fav.lastPlacement := placement;
      fav.lastStyle := os.GetWindowLong(hWnd, Style);
      fav.lastExStyle := os.GetWindowLong(hWnd, ExStyle);
    }
    var style := os.GetWindowLong(hWnd, Style);
    os.SetWindowLong(hWnd, Style, StripStyle(style));
    var exStyle := os.GetWindowLong(hWnd, ExStyle);
    os.SetWindowLong(hWnd, ExStyle, StripExStyle(exStyle));
    var monitor := os.GetMonitorInfo(hWnd);
    if monitor.Some? {
      var m := monitor.value;
      var x, y := m.left, m.top;
      var width, height := Sub32(m.right, m.left), Sub32(m.bottom, m.top);
      os.SetWindowPos(hWnd, HWND_TOP, x, y, width, height, FullscreenFlags);
      if fav != null {
        fav.isFullscreen := true;
      }
    }
  }

  /**
   * `RestoreWindowed`: write the saved styles back, re-set the current
   * placement, force a frame change, and re-issue SW_RESTORE for a window that
   * was minimized.
   */
  method RestoreWindowed(os: WindowTable, hWnd: Handle, fav: FavoriteAppInfo?)
    modifies os, fav
    ensures os.Value() == Restore(old(os.Value()), hWnd, old(ValueOf(fav))).desktop
    ensures ValueOf(fav) == Restore(old(os.Value()), hWnd, old(ValueOf(fav))).fav
  {
    if hWnd == Zero || fav == null || !fav.isFullscreen {
      return;
    }
    os.SetWindowLong(hWnd, Style, fav.lastStyle);
    os.SetWindowLong(hWnd, ExStyle, fav.lastExStyle);
    var placement := os.GetWindowPlacement(hWnd);
    os.SetWindowPlacement(hWnd, placement);
    os.SetWindowPos(hWnd, Zero, 0, 0, 0, 0, RedrawFlags);
    if fav.lastPlacement.showCmd == SW_SHOWMINIMIZED {
      os.ShowWindow(hWnd, SW_RESTORE);
    }
    fav.isFullscreen := false;
  }

  /**
   * A successful Apply followed by Restore gives the window back both style
   * words bit for bit, but not its geometry: the original placement is saved
   * in the favourite and never written back, so the window keeps the monitor
   * rectangle and the placement the OS reports after covering the monitor.
   */
  lemma ApplyThenRestore(d: Desktop, h: Handle, f: Favorite)
    requires h != Zero && h in d.windows && !f.isFullscreen && d.MonitorBounds(h).Some?
    ensures var a := Apply(d, h, Some(f));
      var r := Restore(a.desktop, h, a.fav);
      var w, m := d.windows[h], d.MonitorBounds(h).value;
      && r.desktop.windows[h].style == w.style
      && r.desktop.windows[h].exStyle == w.exStyle
      && r.desktop.windows[h].rect == m
      && r.desktop.windows[h].placement == Tracked(w.placement, m)
      && r.fav.Some? && !r.fav.value.isFullscreen
      && r.fav.value.lastStyle == w.style && r.fav.value.lastPlacement == w.placement
  {
    ApplyWindow(d, h, Some(f));
  }

  /**
   * A normal window at (100, 100)-(900, 700) on a 1920 x 1080 monitor ends an
   * apply and a restore still covering the monitor, and reporting the monitor
   * as its normal position, although the favourite holds the original placement.
   */
  lemma RestoreKeepsMonitorGeometry()
    ensures var frame, monitor := Rect(100, 100, 900, 700), Rect(0, 0, 1920, 1080);
      var p := Placement(0, SW_SHOWNORMAL, Point(0, 0), Point(0, 0), frame);
      var d := Desktop(map[1 := Window(0x00CF_0000, 0, p, frame, true, "Game", 4)], map[1 := monitor], [1], 0, map[], []);
      var a := Apply(d, 1, Some(NewFavorite("Game", "game.exe", ByTitle)));
      var r := Restore(a.desktop, 1, a.fav);
      && r.fav.value.lastPlacement == p
      && r.desktop.windows[1].rect == monitor && r.desktop.windows[1].rect != frame
      && r.desktop.windows[1].placement.normalPosition == monitor
  {
    var frame, monitor := Rect(100, 100, 900, 700), Rect(0, 0, 1920, 1080);
    var p := Placement(0, SW_SHOWNORMAL, Point(0, 0), Point(0, 0), frame);
    var d := Desktop(map[1 := Window(0x00CF_0000, 0, p, frame, true, "Game", 4)], map[1 := monitor], [1], 0, map[], []);
    ApplyThenRestore(d, 1, NewFavorite("Game", "game.exe", ByTitle));
  }

  /**
   * `RestoreWindowed` as its comment describes it: the same calls, except that
   * the placement written back is the one saved in the favourite.
   */
  function RestoreIntended(d: Desktop, h: Handle, fav: Option<Favorite>): (r: Outcome)
    ensures RestoreSkips(h, fav) ==> r == Outcome(d, fav)
    ensures r.desktop.SameEnvironment(d) && r.desktop.windows.Keys == d.windows.Keys
    ensures forall g :: g in d.windows && g != h ==> r.desktop.windows[g] == d.windows[g]
    ensures !RestoreSkips(h, fav) ==> r.fav == Some(fav.value.(isFullscreen := false))
    ensures !RestoreSkips(h, fav) && h in d.windows ==>
      var w, w', f := d.windows[h], r.desktop.windows[h], fav.value;
      && w'.style == f.lastStyle && w'.exStyle == f.lastExStyle
      && w'.placement == f.lastPlacement && w'.rect == PlacedRect(f.lastPlacement, w.rect)
      && w'.visible == w.visible && w'.title == w.title && w'.pid == w.pid
  {
    if RestoreSkips(h, fav) then Outcome(d, fav)
    else
      var f := fav.value;
      var d1 := d.SetLong(h, Style, f.lastStyle);
      var d2 := d1.SetLong(h, ExStyle, f.lastExStyle);
      var d3 := d2.SetPlacement(h, f.lastPlacement);
      var d4 := d3.SetPos(h, Zero, 0, 0, 0, 0, RedrawFlags);
      NoMoveNoSizeKeepsWindows(d3, h, Zero, 0, 0, 0, 0, RedrawFlags);
      var d5 := if f.lastPlacement.showCmd == SW_SHOWMINIMIZED then d4.Show(h, SW_RESTORE) else d4;
      Outcome(d5, Some(f.(isFullscreen := false)))
  }

  /**
   * With the saved placement written back, an apply followed by a restore is
   * a round trip: both style words and the placement come back, and a normal
   * window whose rectangle is its normal position returns to that rectangle.
   */
  lemma ApplyThenRestoreIntended(d: Desktop, h: Handle, f: Favorite)
    requires h != Zero && h in d.windows && !f.isFullscreen && d.MonitorBounds(h).Some?
    ensures var a := Apply(d, h, Some(f));
      var r := RestoreIntended(a.desktop, h, a.fav);
      var w := d.windows[h];
      && r.desktop.windows[h].style == w.style
      && r.desktop.windows[h].exStyle == w.exStyle
      && r.desktop.windows[h].placement == w.placement
      && (w.placement.showCmd == SW_SHOWNORMAL && w.placement.normalPosition == w.rect ==> r.desktop.windows[h].rect == w.rect)
      && r.fav.Some? && !r.fav.value.isFullscreen
  {
  }

  /**
   * Once Apply has succeeded, applying again with the favourite it returned
   * keeps the originally captured state and leaves the window as it is: the
   * second call strips nothing new and covers the same monitor.
   */
  lemma ApplyIdempotent(d: Desktop, h: Handle, f: Favorite)
    requires d.MonitorBounds(h).Some?
    ensures var a := Apply(d, h, Some(f));
      var b := Apply(a.desktop, h, a.fav);
      b.fav == a.fav && b.desktop.windows == a.desktop.windows
  {
    var a := Apply(d, h, Some(f));
    var b := Apply(a.desktop, h, a.fav);
    if h != Zero && h in d.windows {
      ApplyWindow(d, h, Some(f));
      ApplyWindow(a.desktop, h, a.fav);
      StripIdempotent(d.windows[h].style, d.windows[h].exStyle);
      assert b.desktop.windows[h] == a.desktop.windows[h];
    }
  }

  /**
   * When the monitor's bounds cannot be read, the favourite stays windowed, so
   * the next Apply captures again and saves the already stripped style.
   */
  lemma FailedApplyRecaptures(d: Desktop, h: Handle, f: Favorite)
    requires h != Zero && h in d.windows && !f.isFullscreen && d.MonitorBounds(h).None?
    ensures var a := Apply(d, h, Some(f));
      var b := Apply(a.desktop, h, a.fav);
      && !a.fav.value.isFullscreen
      && a.fav.value.lastStyle == d.windows[h].style
      && b.fav.value.lastStyle == StripStyle(d.windows[h].style)
      && b.fav.value.lastExStyle == StripExStyle(d.windows[h].exStyle)
  {
  }

  /**
   * A fresh favourite applied to a window that is already borderless captures
   * the stripped styles: the manual Fullscreen button recaptures on every click.
   */
  lemma FreshFavoriteRecaptures(d: Desktop, h: Handle, f: Favorite, g: Favorite)
    requires h != Zero && h in d.windows && !g.isFullscreen
    ensures var a := Apply(d, h, Some(f));
      var b := Apply(a.desktop, h, Some(g));
      && b.fav.value.lastStyle == StripStyle(d.windows[h].style)
      && b.fav.value.lastExStyle == StripExStyle(d.windows[h].exStyle)
      && b.fav.value.lastPlacement == a.desktop.windows[h].placement
      && b.fav.value.lastPlacement == if d.MonitorBounds(h).Some? then Tracked(d.windows[h].placement, d.MonitorBounds(h).value) else d.windows[h].placement
  {
    ApplyWindow(d, h, Some(f));
  }
}
