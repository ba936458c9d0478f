/**
 * The reconciliation loop (`ApplyBorderlessToFavorites`): every favourite in
 * turn looks for the first discovered window that matches its rule and applies
 * the borderless transform to it, or, when none matches, is marked windowed
 * without any call to the windowing API.
 */
module Reconcile {
  import opened Wrappers
  import opened Win32
  import opened Windowing
  import opened Discovery
  import opened Favorites
  import opened Transform

  /** The desktop and the favourites after a reconciliation pass. */
  datatype Reconciled = Reconciled(desktop: Desktop, favs: seq<Favorite>)

  /** The window a favourite's rule selects among the discovered windows. */
  function Target(apps: seq<WindowInfo>, f: Favorite): Option<WindowInfo> {
    FirstOrDefault(apps, RulePredicate(f))
  }

  /**
   * One iteration of the loop: apply to the first matching window, or clear
   * the flag and touch nothing when no window matches.
   */
  function ReconcileOne(d: Desktop, apps: seq<WindowInfo>, f: Favorite): (r: Outcome)
    ensures r.fav.Some? && r.fav.value.SameRule(f)
    ensures Target(apps, f).None? ==> r == Outcome(d, Some(f.(isFullscreen := false)))
    ensures Target(apps, f).Some? ==> r == Apply(d, Target(apps, f).value.hwnd, Some(f))
  {
    match Target(apps, f)
    case Some(a) => Apply(d, a.hwnd, Some(f))
    case None => Outcome(d, Some(f.(isFullscreen := false)))
  }

  /** The whole loop over the favourites, in list order, threading the desktop through. */
  function ReconcileAll(d: Desktop, apps: seq<WindowInfo>, favs: seq<Favorite>): (r: Reconciled)
    ensures |r.favs| == |favs|
    ensures forall i :: 0 <= i < |favs| ==> r.favs[i].SameRule(favs[i])
    ensures r.desktop.SameEnvironment(d) && r.desktop.windows.Keys == d.windows.Keys
    decreases |favs|
  {
    if favs == [] then Reconciled(d, [])
    else
      var prev := ReconcileAll(d, apps, favs[..|favs| - 1]);
      var o := ReconcileOne(prev.desktop, apps, favs[|favs| - 1]);
      Reconciled(o.desktop, prev.favs + [o.fav.value])
  }

  /** Favourite `i` is handled by one iteration on the desktop the earlier favourites left behind. */
  lemma {:induction false} ReconcileAt(d: Desktop, apps: seq<WindowInfo>, favs: seq<Favorite>, i: nat)
    requires i < |favs|
    ensures ReconcileAll(d, apps, favs).favs[i] == ReconcileOne(ReconcileAll(d, apps, favs[..i]).desktop, apps, favs[i]).fav.value
    decreases |favs|
  {
    var n := |favs| - 1;
    var prev := ReconcileAll(d, apps, favs[..n]);
    var o := ReconcileOne(prev.desktop, apps, favs[n]);
    assert ReconcileAll(d, apps, favs) == Reconciled(o.desktop, prev.favs + [o.fav.value]);
    if i < n {
      ReconcileAt(d, apps, favs[..n], i);
      assert favs[..n][..i] == favs[..i];
      assert favs[..n][i] == favs[i];
      assert (prev.favs + [o.fav.value])[i] == prev.favs[i];
    } else {
      assert favs[..i] == favs[..n];
    }
  }

  /** One more favourite is one more iteration on the desktop the earlier ones left behind. */
  lemma ReconcileSnoc(d: Desktop, apps: seq<WindowInfo>, favs: seq<Favorite>, i: nat)
    requires i < |favs|
    ensures var prev := ReconcileAll(d, apps, favs[..i]);
      var o := ReconcileOne(prev.desktop, apps, favs[i]);
      ReconcileAll(d, apps, favs[..i + 1]) == Reconciled(o.desktop, prev.favs + [o.fav.value])
  {
    assert favs[..i + 1][..i] == favs[..i];
  }

  /** A favourite with no matching window leaves every window and the call log alone, so a pass in which no favourite matches changes no window, issues no call, and leaves every favourite windowed. */
  lemma {:induction false} UnmatchedPassIsSilent(d: Desktop, apps: seq<WindowInfo>, favs: seq<Favorite>)
    requires forall i :: 0 <= i < |favs| ==> Target(apps, favs[i]).None?
    ensures ReconcileAll(d, apps, favs).desktop == d
    ensures forall i :: 0 <= i < |favs| ==> ReconcileAll(d, apps, favs).favs[i] == favs[i].(isFullscreen := false)
    decreases |favs|
  {
    if favs != [] {
      var n := |favs| - 1;
      UnmatchedPassIsSilent(d, apps, favs[..n]);
      var prev := ReconcileAll(d, apps, favs[..n]);
      assert forall i :: 0 <= i < n ==> prev.favs[i] == favs[..n][i].(isFullscreen := false);
    }
  }

  /**
   * The borderless transform of one window on its own: stripped styles, and,
   * when there is a monitor rectangle, that rectangle, visibility and the
   * placement the OS reports after the move.
   */
  function Borderless(w: Window, monitor: Option<Rect>): Window {
    w.(style := StripStyle(w.style), exStyle := StripExStyle(w.exStyle),
       rect := if monitor.Some? then monitor.value else w.rect,
       visible := w.visible || monitor.Some?,
       placement := if monitor.Some? then Tracked(w.placement, monitor.value) else w.placement)
  }

  /** The handle a favourite's rule selects, when it selects a window with a non-zero handle. */
  function Picked(apps: seq<WindowInfo>, f: Favorite): set<Handle> {
    match Target(apps, f)
    case Some(a) => if a.hwnd != Zero then {a.hwnd} else {}
    case None => {}
  }

  /** The non-zero handles of the windows the favourites' rules select. */
  ghost function Targets(apps: seq<WindowInfo>, favs: seq<Favorite>): set<Handle> {
    set i, h | 0 <= i < |favs| && h in Picked(apps, favs[i]) :: h
  }

  /** The windows of `d` with the transform applied once to every handle in `hs`. */
  ghost function Covered(d: Desktop, hs: set<Handle>): map<Handle, Window> {
    map h | h in d.windows :: if h in hs then Borderless(d.windows[h], d.MonitorBounds(h)) else d.windows[h]
  }

  /** One Apply is the windows' transform at that handle. */
  lemma ApplyIsBorderless(d: Desktop, h: Handle, fav: Option<Favorite>)
    requires h != Zero
    ensures Apply(d, h, fav).desktop.windows == if h in d.windows then d.windows[h := Borderless(d.windows[h], d.MonitorBounds(h))] else d.windows
  {
    if h in d.windows {
      ApplyIsBorderlessAt(d, h, fav);
    } else {
      var r := Apply(d, h, fav).desktop.windows;
      assert forall g :: g in r ==> r[g] == d.windows[g];
    }
  }

  /** `ApplyIsBorderless` for a handle that names a window. */
  lemma ApplyIsBorderlessAt(d: Desktop, h: Handle, fav: Option<Favorite>)
    requires h != Zero && h in d.windows
    ensures Apply(d, h, fav).desktop.windows == d.windows[h := Borderless(d.windows[h], d.MonitorBounds(h))]
  {
    var r := Apply(d, h, fav).desktop.windows;
    assert r[h] == Borderless(d.windows[h], d.MonitorBounds(h)) by {
      ApplyWindow(d, h, fav);
      BorderlessRecord(d.windows[h], r[h], d.MonitorBounds(h));
    }
    ChangedOnlyAt(d.windows, r, h);
  }

  /** A map with the same keys that agrees everywhere except at `h` is the update at `h`. */
  lemma ChangedOnlyAt(m: map<Handle, Window>, r: map<Handle, Window>, h: Handle)
    requires h in m && r.Keys == m.Keys
    requires forall g :: g in m && g != h ==> r[g] == m[g]
    ensures r == m[h := r[h]]
  {
    assert forall g :: g in r ==> r[g] == m[h := r[h]][g];
  }

  /** A window record with the fields the transform produces is the transformed window. */
  lemma BorderlessRecord(w: Window, w': Window, monitor: Option<Rect>)
    requires w'.style == StripStyle(w.style) && w'.exStyle == StripExStyle(w.exStyle)
    requires w'.title == w.title && w'.pid == w.pid
    requires monitor.Some? ==> w'.rect == monitor.value && w'.visible && w'.placement == Tracked(w.placement, w'.rect)
    requires monitor.None? ==> w'.rect == w.rect && w'.visible == w.visible && w'.placement == w.placement
    ensures w' == Borderless(w, monitor)
  {
  }

  /** The targets of a list of favourites grow by the last favourite's target. */
  lemma TargetsSnoc(apps: seq<WindowInfo>, favs: seq<Favorite>)
    requires favs != []
    ensures Targets(apps, favs) == Targets(apps, favs[..|favs| - 1]) + Picked(apps, favs[|favs| - 1])
  {
    var n := |favs| - 1;
    forall x | x in Targets(apps, favs) ensures x in Targets(apps, favs[..n]) + Picked(apps, favs[n]) {
      var i :| 0 <= i < |favs| && x in Picked(apps, favs[i]);
      if i < n {
        assert favs[..n][i] == favs[i];
      }
    }
    forall x | x in Targets(apps, favs[..n]) ensures x in Targets(apps, favs) {
      var i :| 0 <= i < n && x in Picked(apps, favs[..n][i]);
      assert favs[..n][i] == favs[i];
    }
  }

  /** Transforming one more window of an already covered desktop covers one more handle. */
  lemma CoverOneMore(d: Desktop, e: Desktop, hs: set<Handle>, t: Handle)
    requires e.SameEnvironment(d) && e.windows == Covered(d, hs)
    ensures (if t in e.windows then e.windows[t := Borderless(e.windows[t], e.MonitorBounds(t))] else e.windows)
      == Covered(d, hs + {t})
  {
    if t in d.windows {
      var w := d.windows[t];
      StripIdempotent(w.style, w.exStyle);
      var lhs := e.windows[t := Borderless(e.windows[t], e.MonitorBounds(t))];
      assert lhs.Keys == Covered(d, hs + {t}).Keys;
      assert forall g :: g in lhs ==> lhs[g] == Covered(d, hs + {t})[g];
    }
  }

  /**
   * After a pass every window a rule selects has been transformed exactly as
   * if once, and every other window is untouched, however many rules select
   * the same window.
   */
  lemma {:induction false} ReconcileWindows(d: Desktop, apps: seq<WindowInfo>, favs: seq<Favorite>)
    ensures ReconcileAll(d, apps, favs).desktop.windows == Covered(d, Targets(apps, favs))
    decreases |favs|
  {
    if favs == [] {
      assert Targets(apps, favs) == {};
      assert Covered(d, {}) == d.windows;
    } else {
      var n := |favs| - 1;
      var prev := ReconcileAll(d, apps, favs[..n]);
      ReconcileWindows(d, apps, favs[..n]);
      TargetsSnoc(apps, favs);
      OneMoreCovered(d, prev.desktop, apps, favs[n], Targets(apps, favs[..n]));
      ReconcileSnoc(d, apps, favs, n);
      assert favs[..n + 1] == favs;
    }
  }

  /** One iteration on a covered desktop covers the handle its favourite selects, if any. */
  lemma OneMoreCovered(d: Desktop, e: Desktop, apps: seq<WindowInfo>, f: Favorite, hs: set<Handle>)
    requires e.SameEnvironment(d) && e.windows == Covered(d, hs)
    ensures ReconcileOne(e, apps, f).desktop.windows == Covered(d, hs + Picked(apps, f))
  {
    var t := Target(apps, f);
    if t.Some? && t.value.hwnd != Zero {
      var h := t.value.hwnd;
      ApplyIsBorderless(e, h, Some(f));
      CoverOneMore(d, e, hs, h);
    } else {
      assert hs + {} == hs;
    }
  }

  /** The flag a favourite ends a pass with: false without a match, unchanged for a zero handle, otherwise set when the monitor's bounds can be read. */
  function FlagAfter(d: Desktop, apps: seq<WindowInfo>, f: Favorite): bool {
    match Target(apps, f)
    case None => false
    case Some(a) => if a.hwnd == Zero then f.isFullscreen else f.isFullscreen || d.MonitorBounds(a.hwnd).Some?
  }

  /** Each favourite's flag after a pass depends only on its own match and the monitors. */
  lemma ReconcileFlags(d: Desktop, apps: seq<WindowInfo>, favs: seq<Favorite>, i: nat)
    requires i < |favs|
    ensures ReconcileAll(d, apps, favs).favs[i].isFullscreen == FlagAfter(d, apps, favs[i])
  {
    ReconcileAt(d, apps, favs, i);
    OneFlag(ReconcileAll(d, apps, favs[..i]).desktop, apps, favs[i]);
  }

  /** The flag one iteration leaves on its favourite. */
  lemma OneFlag(d: Desktop, apps: seq<WindowInfo>, f: Favorite)
    ensures ReconcileOne(d, apps, f).fav.value.isFullscreen == FlagAfter(d, apps, f)
  {
  }

  /** The rule of a favourite selects the same window before and after a pass. */
  lemma SameRuleSameTarget(apps: seq<WindowInfo>, f: Favorite, g: Favorite)
    requires f.SameRule(g)
    ensures Target(apps, f) == Target(apps, g)
  {
    assert RulePredicate(f) == RulePredicate(g);
  }

  /** Covering an already covered desktop again changes nothing. */
  lemma CoverTwice(d: Desktop, e: Desktop, hs: set<Handle>)
    requires e.SameEnvironment(d) && e.windows == Covered(d, hs)
    ensures Covered(e, hs) == e.windows
  {
    forall h | h in e.windows ensures Covered(e, hs)[h] == e.windows[h] {
      if h in hs {
        var w := d.windows[h];
        StripIdempotent(w.style, w.exStyle);
      }
    }
  }

  /** A second iteration keeps the flag the first one produced. */
  lemma FlagAfterTwice(d: Desktop, e: Desktop, apps: seq<WindowInfo>, f: Favorite, g: Favorite)
    requires e.SameEnvironment(d) && g.SameRule(f) && g.isFullscreen == FlagAfter(d, apps, f)
    ensures FlagAfter(e, apps, g) == g.isFullscreen
  {
    SameRuleSameTarget(apps, g, f);
  }

  /**
   * Reconciliation is level-triggered: a second pass over the same discovered
   * windows leaves every window and every favourite's flag as the first pass
   * left them.
   */
  lemma ReconcileFixedPoint(d: Desktop, apps: seq<WindowInfo>, favs: seq<Favorite>)
    ensures var r1 := ReconcileAll(d, apps, favs);
      var r2 := ReconcileAll(r1.desktop, apps, r1.favs);
      && r2.desktop.windows == r1.desktop.windows
      && forall i :: 0 <= i < |favs| ==> r2.favs[i].isFullscreen == r1.favs[i].isFullscreen
  {
    var r1 := ReconcileAll(d, apps, favs);
    var r2 := ReconcileAll(r1.desktop, apps, r1.favs);
    var T := Targets(apps, favs);
    assert Targets(apps, r1.favs) == T by {
      forall i | 0 <= i < |favs| ensures Picked(apps, r1.favs[i]) == Picked(apps, favs[i]) {
        SameRuleSameTarget(apps, r1.favs[i], favs[i]);
      }
    }
    assert r1.desktop.windows == Covered(d, T) by {
      ReconcileWindows(d, apps, favs);
    }
    assert r2.desktop.windows == Covered(r1.desktop, T) by {
      ReconcileWindows(r1.desktop, apps, r1.favs);
    }
    CoverTwice(d, r1.desktop, T);
    forall i | 0 <= i < |favs| ensures r2.favs[i].isFullscreen == r1.favs[i].isFullscreen {
      ReconcileFlags(d, apps, favs, i);
      ReconcileFlags(r1.desktop, apps, r1.favs, i);
      FlagAfterTwice(d, r1.desktop, apps, favs[i], r1.favs[i]);
    }
  }

  /** A favourite that the next Apply or reset leaves exactly as it is. */
  predicate Settled(d: Desktop, apps: seq<WindowInfo>, f: Favorite) {
    match Target(apps, f)
    case None => !f.isFullscreen
    case Some(a) => a.hwnd == Zero || (f.isFullscreen && d.MonitorBounds(a.hwnd).Some?)
  }

  /** A settled favourite comes out of an iteration unchanged, on any desktop with the same monitors. */
  lemma SettledStaysPut(d: Desktop, e: Desktop, apps: seq<WindowInfo>, f: Favorite)
    requires Settled(d, apps, f) && e.SameEnvironment(d)
    ensures ReconcileOne(e, apps, f).fav == Some(f)
  {
  }

  /** A pass over settled favourites changes none of them. */
  lemma {:induction false} SettledPassKeepsFavorites(d: Desktop, e: Desktop, apps: seq<WindowInfo>, favs: seq<Favorite>)
    requires e.SameEnvironment(d)
    requires forall i :: 0 <= i < |favs| ==> Settled(d, apps, favs[i])
    ensures ReconcileAll(e, apps, favs).favs == favs
    decreases |favs|
  {
    if favs != [] {
      var n := |favs| - 1;
      SettledPassKeepsFavorites(d, e, apps, favs[..n]);
      var prev := ReconcileAll(e, apps, favs[..n]);
      SettledStaysPut(d, prev.desktop, apps, favs[n]);
      assert favs == favs[..n] + [favs[n]];
    }
  }

  /**
   * When every matched window's monitor bounds can be read, the second pass
   * also keeps every favourite's saved style, extended style and placement.
   * (When a monitor lookup fails the favourite stays windowed and the next pass
   * recaptures the stripped styles; see `Transform.FailedApplyRecaptures`.)
   */
  lemma ReconcileFixedPointSaved(d: Desktop, apps: seq<WindowInfo>, favs: seq<Favorite>)
    requires forall i, a :: 0 <= i < |favs| && Target(apps, favs[i]) == Some(a) && a.hwnd != Zero ==> d.MonitorBounds(a.hwnd).Some?
    ensures var r1 := ReconcileAll(d, apps, favs);
      ReconcileAll(r1.desktop, apps, r1.favs).favs == r1.favs
  {
    var r1 := ReconcileAll(d, apps, favs);
    forall i | 0 <= i < |favs| ensures Settled(d, apps, r1.favs[i]) {
      SameRuleSameTarget(apps, r1.favs[i], favs[i]);
      ReconcileFlags(d, apps, favs, i);
    }
    SettledPassKeepsFavorites(d, r1.desktop, apps, r1.favs);
  }

  /** A transform applied only to visible windows changes nothing the enumeration callback sees. */
  lemma CoverKeepsEnumeration(d: Desktop, e: Desktop, hs: set<Handle>)
    requires e.SameEnvironment(d) && e.windows == Covered(d, hs)
    requires forall h :: h in hs && h in d.windows ==> d.windows[h].visible
    ensures e.Enumerate() == d.Enumerate()
  {
    forall k | 0 <= k < |d.order| ensures e.RawOf(d.order[k]) == d.RawOf(d.order[k]) {
    }
  }

  /** Every handle the favourites select among the discovered windows names a visible window. */
  lemma DiscoveredTargetsVisible(d: Desktop, favs: seq<Favorite>, le: (string, string) -> bool, h: Handle)
    requires h in Targets(Discover(d, le), favs) && h in d.windows
    ensures d.windows[h].visible
  {
    var apps := Discover(d, le);
    var i :| 0 <= i < |favs| && h in Picked(apps, favs[i]);
    var a := Target(apps, favs[i]).value;
    assert a in apps;
    var raw := d.Enumerate();
    DiscoveredWindows(raw, d.shell, d.processNames, le, a);
    var j :| 0 <= j < |raw| && Accepts(raw[j], d.shell) && a == InfoOf(raw[j], d.processNames);
    var w := raw[j];
    assert w.visible && w.hwnd == h;
    assert w == d.RawOf(d.order[j]);
  }

  /**
   * A pass over the windows discovered on a desktop leaves the enumeration of
   * that desktop unchanged, so the next refresh discovers the same list.
   */
  lemma PassKeepsEnumeration(d: Desktop, favs: seq<Favorite>, le: (string, string) -> bool)
    ensures ReconcileAll(d, Discover(d, le), favs).desktop.Enumerate() == d.Enumerate()
  {
    var apps := Discover(d, le);
    ReconcileWindows(d, apps, favs);
    forall h | h in Targets(apps, favs) && h in d.windows ensures d.windows[h].visible {
      DiscoveredTargetsVisible(d, favs, le, h);
    }
    CoverKeepsEnumeration(d, ReconcileAll(d, apps, favs).desktop, Targets(apps, favs));
  }

  /**
   * Two consecutive refreshes, each rediscovering the windows before its pass:
   * the second changes no window and no favourite's flag.
   */
  lemma RefreshFixedPoint(d: Desktop, favs: seq<Favorite>, le: (string, string) -> bool)
    ensures var r1 := ReconcileAll(d, Discover(d, le), favs);
      var r2 := ReconcileAll(r1.desktop, Discover(r1.desktop, le), r1.favs);
      && r2.desktop.windows == r1.desktop.windows
      && forall i :: 0 <= i < |favs| ==> r2.favs[i].isFullscreen == r1.favs[i].isFullscreen
  {
    var r1 := ReconcileAll(d, Discover(d, le), favs);
    PassKeepsEnumeration(d, favs, le);
    assert Discover(r1.desktop, le) == Discover(d, le);
    ReconcileFixedPoint(d, Discover(d, le), favs);
  }
}
