/**
 * The main form: the discovered windows, the favourites list, the table of
 * manually fullscreened windows, and the button handlers that change them.
 * The list-view selections the handlers read are passed in as parameters.
 */
module App {
  import opened Wrappers
  import opened Int32Arith
  import opened Win32
  import opened Windowing
  import opened Discovery
  import opened Favorites
  import opened Transform
  import opened Reconcile

  /** No two favourites in the list have both the same title and the same executable name. */
  predicate DistinctRules(fs: seq<FavoriteAppInfo>) {
    forall i, j :: 0 <= i < j < |fs| ==> !(fs[i].title == fs[j].title && fs[i].exeName == fs[j].exeName)
  }

  /** `_favoriteApplications.Any(f => f.Title == title && f.ExeName == exeName)`. */
  predicate HasRule(fs: seq<FavoriteAppInfo>, title: string, exeName: string) {
    exists i :: 0 <= i < |fs| && fs[i].title == title && fs[i].exeName == exeName
  }

  /** A list without repeated rules holds every favourite object once. */
  lemma DistinctRulesDistinctObjects(fs: seq<FavoriteAppInfo>)
    requires DistinctRules(fs)
    ensures forall i, j :: 0 <= i < j < |fs| ==> fs[i] != fs[j]
  {
  }

  /** Adding a favourite whose rule is not yet in the list keeps the rules distinct, and only such an add does. */
  lemma AddKeepsDistinct(fs: seq<FavoriteAppInfo>, n: FavoriteAppInfo)
    requires DistinctRules(fs)
    ensures DistinctRules(fs + [n]) <==> !HasRule(fs, n.title, n.exeName)
  {
    if HasRule(fs, n.title, n.exeName) {
      var i :| 0 <= i < |fs| && fs[i].title == n.title && fs[i].exeName == n.exeName;
      assert (fs + [n])[i] == fs[i] && (fs + [n])[|fs|] == n;
    }
  }

  /** The position of the first occurrence of `x`, or `|fs|` when there is none. */
  function IndexOf(fs: seq<FavoriteAppInfo>, x: FavoriteAppInfo): (k: nat)
    ensures k <= |fs| && (k < |fs| <==> x in fs)
    ensures k < |fs| ==> fs[k] == x
    ensures forall j :: 0 <= j < k ==> fs[j] != x
  {
    if fs == [] then 0
    else if fs[0] == x then 0
    else 1 + IndexOf(fs[1..], x)
  }

  /** `List.Remove`: drop the first occurrence of the object, if there is one, keeping the order of the rest. */
  function RemoveFirst(fs: seq<FavoriteAppInfo>, x: FavoriteAppInfo): (r: seq<FavoriteAppInfo>)
    ensures x !in fs ==> r == fs
    ensures multiset(r) == multiset(fs) - multiset{x}
    ensures x in fs ==> var k := IndexOf(fs, x);
      |r| == |fs| - 1 && r[..k] == fs[..k] && r[k..] == fs[k + 1..]
  {
    var k := IndexOf(fs, x);
    if k < |fs| then
      Splice(fs, fs[..k], x, fs[k + 1..]);
      fs[..k] + fs[k + 1..]
    else fs
  }

  /** Taking `x` out of `a + [x] + b` leaves `a + b`: `x` once fewer, `a` and `b` in place. */
  lemma Splice<T>(fs: seq<T>, a: seq<T>, x: T, b: seq<T>)
    requires fs == a + [x] + b
    ensures multiset(a + b) == multiset(fs) - multiset{x}
    ensures (a + b)[..|a|] == a && (a + b)[|a|..] == b
  {
    assert fs == a + ([x] + b);
  }

  /** A list that keeps the prefix before `k` and shifts the rest down by one has, at `i`, the original element at `i` or at `i + 1`. */
  lemma ShiftedAt<T>(fs: seq<T>, r: seq<T>, k: nat, i: nat)
    requires k < |fs| && |r| == |fs| - 1 && r[..k] == fs[..k] && r[k..] == fs[k + 1..] && i < |r|
    ensures r[i] == if i < k then fs[i] else fs[i + 1]
  {
    if i < k {
      assert r[i] == r[..k][i];
    } else {
      assert r[i] == r[k..][i - k];
    }
  }

  /** Removing keeps the remaining rules distinct, and the removed favourite is no longer in the list. */
  lemma RemoveKeepsDistinct(fs: seq<FavoriteAppInfo>, x: FavoriteAppInfo)
    requires DistinctRules(fs)
    ensures DistinctRules(RemoveFirst(fs, x)) && x !in RemoveFirst(fs, x)
  {
    var r := RemoveFirst(fs, x);
    if x in fs {
      var k := IndexOf(fs, x);
      forall i, j | 0 <= i < j < |r| ensures !(r[i].title == r[j].title && r[i].exeName == r[j].exeName) {
        var i', j' := if i < k then i else i + 1, if j < k then j else j + 1;
        ShiftedAt(fs, r, k, i);
        ShiftedAt(fs, r, k, j);
        assert r[i] == fs[i'] && r[j] == fs[j'] && i' < j';
      }
      forall i | 0 <= i < |r| ensures r[i] != x {
        var i' := if i < k then i else i + 1;
        ShiftedAt(fs, r, k, i);
        assert r[i] == fs[i'] && i' != k;
        assert !(fs[i'].title == fs[k].title && fs[i'].exeName == fs[k].exeName);
      }
    }
  }

  /** Removing adds nothing to the list. */
  lemma RemovedFromList(fs: seq<FavoriteAppInfo>, x: FavoriteAppInfo)
    ensures forall o :: o in RemoveFirst(fs, x) ==> o in fs
  {
  }

  /** The values of a list of favourites. */
  function Values(fs: seq<FavoriteAppInfo>): (r: seq<Favorite>)
    reads fs
    ensures |r| == |fs| && forall i :: 0 <= i < |fs| ==> r[i] == fs[i].Value()
  {
    seq(|fs|, i requires 0 <= i < |fs| reads fs => fs[i].Value())
  }

  /** The values `vs` of the list `fs` after the favourite `x` alone took the value `v`. */
  function Overwrite(fs: seq<FavoriteAppInfo>, vs: seq<Favorite>, x: FavoriteAppInfo, v: Favorite): (r: seq<Favorite>)
    requires |fs| == |vs|
    ensures |r| == |vs|
    ensures forall i :: 0 <= i < |fs| ==> r[i] == if fs[i] == x then v else vs[i]
  {
    seq(|fs|, i requires 0 <= i < |fs| => if fs[i] == x then v else vs[i])
  }

  /**
   * The loop step of `ApplyBorderlessToFavorites`: when favourite `i` of the
   * list went through one iteration on the desktop the first `i` iterations
   * left behind, the state is the reconciliation of the first `i + 1`.
   */
  lemma ReconcileStep(d0: Desktop, apps: seq<WindowInfo>, fs0: seq<Favorite>, i: nat,
                      dBefore: Desktop, dNow: Desktop, before: seq<Favorite>, now: seq<Favorite>)
    requires i < |fs0|
    requires dBefore == ReconcileAll(d0, apps, fs0[..i]).desktop
    requires before == ReconcileAll(d0, apps, fs0[..i]).favs + fs0[i..]
    requires |now| == |before| && forall j :: 0 <= j < |now| && j != i ==> now[j] == before[j]
    requires dNow == ReconcileOne(dBefore, apps, before[i]).desktop
    requires Some(now[i]) == ReconcileOne(dBefore, apps, before[i]).fav
    ensures dNow == ReconcileAll(d0, apps, fs0[..i + 1]).desktop
    ensures now == ReconcileAll(d0, apps, fs0[..i + 1]).favs + fs0[i + 1..]
  {
    var prev := ReconcileAll(d0, apps, fs0[..i]);
    assert before[i] == fs0[i];
    ReconcileSnoc(d0, apps, fs0, i);
    OneReplaced(prev.favs, fs0, i, now[i], before, now);
  }

  /** The favourites list after the loop replaced entry `i` of `done + rest[i..]` by `v`. */
  lemma OneReplaced(done: seq<Favorite>, rest: seq<Favorite>, i: nat, v: Favorite, before: seq<Favorite>, now: seq<Favorite>)
    requires |done| == i < |rest| && before == done + rest[i..]
    requires |now| == |before| && now[i] == v
    requires forall j :: 0 <= j < |now| && j != i ==> now[j] == before[j]
    ensures now == (done + [v]) + rest[i + 1..]
  {
    assert forall j :: i < j < |now| ==> before[j] == rest[j];
  }

  /** Two predicates that agree on every window find the same first window. */
  lemma {:induction false} SameFirstIndex(apps: seq<WindowInfo>, p: WindowInfo -> bool, q: WindowInfo -> bool)
    requires forall j :: 0 <= j < |apps| ==> p(apps[j]) == q(apps[j])
    ensures FirstIndex(apps, p) == FirstIndex(apps, q)
    decreases |apps|
  {
    if apps != [] && !p(apps[0]) {
      SameFirstIndex(apps[1..], p, q);
    }
  }

  /** The Fullscreen and Windowed buttons find, for a selected favourite, the window reconciliation targets. */
  lemma SelectionFindsRuleTarget(apps: seq<WindowInfo>, f: Favorite)
    ensures FirstOrDefault(apps, SelectionPredicate(f)) == Target(apps, f)
  {
    forall j | 0 <= j < |apps| ensures SelectionPredicate(f)(apps[j]) == RulePredicate(f)(apps[j]) {
      SelectionAgreesWithRule(f, apps[j]);
    }
    SameFirstIndex(apps, SelectionPredicate(f), RulePredicate(f));
  }

  /** `targetWindow?.Hwnd ?? IntPtr.Zero` for the window a selected favourite matches. */
  function SelectedHandle(apps: seq<WindowInfo>, f: Favorite): (h: Handle)
    ensures Target(apps, f).None? ==> h == Zero
    ensures Target(apps, f).Some? ==> h == Target(apps, f).value.hwnd
  {
    SelectionFindsRuleTarget(apps, f);
    match FirstOrDefault(apps, SelectionPredicate(f))
    case Some(a) => a.hwnd
    case None => Zero
  }

  /** The chrome bits the fallback of the Windowed button puts back. */
  const RestoredChrome: bv32 := WS_CAPTION | WS_SYSMENU | WS_MINIMIZEBOX | WS_MAXIMIZEBOX

  /**
   * The best-effort restore for a window without stored state: the standard
   * chrome bits are added to the style and the window is moved to (100, 100)
   * with size 800 x 600.
   */
  function Fallback(d: Desktop, h: Handle): (r: Desktop)
    ensures r.SameEnvironment(d) && r.windows.Keys == d.windows.Keys
    ensures forall g :: g in d.windows && g != h ==> r.windows[g] == d.windows[g]
    ensures r.calls == d.calls + [SetWindowLongCall(h, Style, d.GetLong(h, Style) | RestoredChrome),
                                  SetWindowPosCall(h, HWND_TOP, 100, 100, 800, 600, SWP_FRAMECHANGED)]
  {
    var d1 := d.SetLong(h, Style, d.GetLong(h, Style) | RestoredChrome);
    d1.SetPos(h, HWND_TOP, 100, 100, 800, 600, SWP_FRAMECHANGED)
  }

  /** Or-ing in a mask sets the mask's bits and leaves every other bit. */
  lemma SetBitsOnly(x: bv32, m: bv32)
    ensures (x | m) & m == m && (x | m) & !m == x & !m
  {
  }

  /**
   * The fallback sets exactly the caption, system-menu, minimise and maximise
   * bits, keeps every other style bit and the extended style, and places the
   * window at (100, 100)-(900, 700) without changing its visibility; the
   * placement the OS reports follows the move.
   */
  lemma FallbackWindow(d: Desktop, h: Handle)
    requires h in d.windows
    ensures var w, w' := d.windows[h], Fallback(d, h).windows[h];
      && w'.style & RestoredChrome == RestoredChrome
      && w'.style & !RestoredChrome == w.style & !RestoredChrome
      && w'.exStyle == w.exStyle && w'.visible == w.visible
      && w'.rect == Rect(100, 100, 900, 700)
      && w'.placement == Tracked(w.placement, Rect(100, 100, 900, 700))
  {
    FallbackRecord(d, h);
    SetBitsOnly(d.windows[h].style, RestoredChrome);
  }

  /** The window record the fallback leaves behind. */
  lemma FallbackRecord(d: Desktop, h: Handle)
    requires h in d.windows
    ensures var w := d.windows[h];
      Fallback(d, h).windows[h] == w.(style := w.style | RestoredChrome, rect := Rect(100, 100, 900, 700),
                                      placement := Tracked(w.placement, Rect(100, 100, 900, 700)))
  {
    StyleThenFrame(d, h, d.GetLong(h, Style) | RestoredChrome);
  }

  /** Setting the style and then the fixed frame of the fallback changes those two fields of the window and no other. */
  lemma StyleThenFrame(d: Desktop, h: Handle, style: bv32)
    requires h in d.windows
    ensures d.SetLong(h, Style, style).SetPos(h, HWND_TOP, 100, 100, 800, 600, SWP_FRAMECHANGED).windows[h]
         == d.windows[h].(style := style, rect := Rect(100, 100, 900, 700),
                          placement := Tracked(d.windows[h].placement, Rect(100, 100, 900, 700)))
  {
    var d1 := d.SetLong(h, Style, style);
    MoveAndSizePlaces(d1, h, HWND_TOP, 100, 100, 800, 600, SWP_FRAMECHANGED);
    assert Add32(100, 800) == 900 && Add32(100, 600) == 700;
  }

  /**
   * After a borderless apply, the fallback does not bring the window back to
   * its original frame: the thick frame stays cleared and so do the edge bits
   * of the extended style.
   */
  lemma FallbackAfterApplyKeepsFrameStripped(d: Desktop, h: Handle, fav: Option<Favorite>)
    requires h != Zero && h in d.windows
    ensures var w := Fallback(Apply(d, h, fav).desktop, h).windows[h];
      && w.style & WS_THICKFRAME == 0
      && w.exStyle == StripExStyle(d.windows[h].exStyle)
  {
    var d1 := Apply(d, h, fav).desktop;
    ApplyWindow(d, h, fav);
    FallbackWindow(d1, h);
    var s := d1.windows[h].style;
    assert s & ChromeMask == 0;
    assert Fallback(d1, h).windows[h].style & WS_THICKFRAME == (s & !RestoredChrome) & WS_THICKFRAME;
  }

  /**
   * The Windowed button does not leave an open favourite windowed: the refresh
   * that follows `RestoreWindowed` discovers the same windows, the favourite's
   * rule selects the restored window again, and the pass strips its saved
   * styles and puts it back on its monitor.
   */
  lemma RefreshUndoesRestore(d: Desktop, h: Handle, f: Favorite, favs: seq<Favorite>, i: nat, le: (string, string) -> bool)
    requires h != Zero && h in d.windows && f.isFullscreen
    requires i < |favs| && h in Picked(Discover(d, le), favs[i])
    ensures var d1 := Restore(d, h, Some(f)).desktop;
      var w := ReconcileAll(d1, Discover(d1, le), favs).desktop.windows[h];
      && w.style == StripStyle(f.lastStyle) && w.exStyle == StripExStyle(f.lastExStyle)
      && (d.MonitorBounds(h).Some? ==> w.rect == d.MonitorBounds(h).value)
  {
    var d1 := Restore(d, h, Some(f)).desktop;
    RestoreKeepsEnumeration(d, h, Some(f));
    PassRestrips(d, d1, h, f, favs, i, le);
  }

  /** The pass after a restore, on the restored desktop `d1`: a selected window gets its restored styles stripped again. */
  lemma PassRestrips(d: Desktop, d1: Desktop, h: Handle, f: Favorite, favs: seq<Favorite>, i: nat, le: (string, string) -> bool)
    requires d1.SameEnvironment(d) && d1.Enumerate() == d.Enumerate() && h in d1.windows
    requires d1.windows[h].style == f.lastStyle && d1.windows[h].exStyle == f.lastExStyle
    requires i < |favs| && h in Picked(Discover(d, le), favs[i])
    ensures var w := ReconcileAll(d1, Discover(d1, le), favs).desktop.windows[h];
      && w.style == StripStyle(f.lastStyle) && w.exStyle == StripExStyle(f.lastExStyle)
      && (d.MonitorBounds(h).Some? ==> w.rect == d.MonitorBounds(h).value)
  {
    var apps := Discover(d, le);
    assert Discover(d1, le) == apps;
    ReconcileWindows(d1, apps, favs);
    assert h in Targets(apps, favs);
  }

  /** `Form1`: the state behind the two list views. */
  class Form {
    const os: WindowTable
    /** The culture-sensitive ordering `OrderBy(w => w.Title)` uses. */
    const titleOrder: (string, string) -> bool
    var openApplications: seq<WindowInfo>
    var favorites: seq<FavoriteAppInfo>
    var manualStates: map<Handle, FavoriteAppInfo>

    /** The favourites list never holds two entries with the same title and executable name. */
    predicate Valid()
      reads this
    {
      DistinctRules(favorites)
    }

    /** The form starts with no favourites and runs one refresh. */
    constructor (os: WindowTable, titleOrder: (string, string) -> bool)
      modifies os
      ensures Valid() && this.os == os && this.titleOrder == titleOrder
      ensures favorites == [] && manualStates == map[]
      ensures openApplications == Discover(old(os.Value()), titleOrder)
      ensures os.Value() == old(os.Value())
    {
      this.os := os;
      this.titleOrder := titleOrder;
      openApplications, favorites, manualStates := [], [], map[];
      new;
      Refresh();
    }

    /** `RefreshWindowListsAndApplyFavorites`: rediscover the windows, then reconcile every favourite. */
    method Refresh()
      requires Valid()
      modifies this, os, favorites
      ensures Valid() && favorites == old(favorites) && manualStates == old(manualStates)
      ensures openApplications == Discover(old(os.Value()), titleOrder)
      ensures os.Value() == ReconcileAll(old(os.Value()), openApplications, old(Values(favorites))).desktop
      ensures Values(favorites) == ReconcileAll(old(os.Value()), openApplications, old(Values(favorites))).favs
    {
      Rediscover();
      ApplyBorderlessToFavorites();
    }

    /** The first step of a refresh: the open-applications list becomes what discovery finds on the desktop now. */
    method Rediscover()
      modifies this
      ensures openApplications == Discover(os.Value(), titleOrder)
      ensures favorites == old(favorites) && manualStates == old(manualStates)
    {
      var d := os.Value();
      openApplications := FindOpenApplications(d.Enumerate(), d.shell, d.processNames, titleOrder);
    }

    /** `ApplyBorderlessToFavorites`: the reconciliation loop over the favourites list, in order. */
    method ApplyBorderlessToFavorites()
      requires Valid()
      modifies os, favorites
      ensures os.Value() == ReconcileAll(old(os.Value()), openApplications, old(Values(favorites))).desktop
      ensures Values(favorites) == ReconcileAll(old(os.Value()), openApplications, old(Values(favorites))).favs
    {
      ghost var d0 := os.Value();
      var favs := favorites;
      ghost var fs0 := Values(favs);
      DistinctRulesDistinctObjects(favs);
      var i := 0;
      while i < |favs|
        invariant 0 <= i <= |favs| == |fs0| && favs == favorites
        invariant forall j, k :: 0 <= j < k < |favs| ==> favs[j] != favs[k]
        invariant os.Value() == ReconcileAll(d0, openApplications, fs0[..i]).desktop
        invariant Values(favs) == ReconcileAll(d0, openApplications, fs0[..i]).favs + fs0[i..]
      {
        ReconcileNext(favs, i, d0, fs0);
        i := i + 1;
      }
      assert fs0[..i] == fs0;
      assert fs0[i..] == [];
    }

    /** Iteration `i` of the loop in `ApplyBorderlessToFavorites` extends the reconciled prefix by one favourite. */
    method ReconcileNext(favs: seq<FavoriteAppInfo>, i: nat, ghost d0: Desktop, ghost fs0: seq<Favorite>)
      requires i < |favs| == |fs0| && forall j, k :: 0 <= j < k < |favs| ==> favs[j] != favs[k]
      requires os.Value() == ReconcileAll(d0, openApplications, fs0[..i]).desktop
      requires Values(favs) == ReconcileAll(d0, openApplications, fs0[..i]).favs + fs0[i..]
      modifies os, favs[i]
      ensures os.Value() == ReconcileAll(d0, openApplications, fs0[..i + 1]).desktop
      ensures Values(favs) == ReconcileAll(d0, openApplications, fs0[..i + 1]).favs + fs0[i + 1..]
    {
      var fav := favs[i];
      label Before:
      ReconcileFavorite(favs, fav);
      forall j | 0 <= j < |favs| && j != i ensures Values(favs)[j] == old@Before(Values(favs))[j] {
        assert favs[j] != fav;
      }
      ReconcileStep(d0, openApplications, fs0, i, old@Before(os.Value()), os.Value(), old@Before(Values(favs)), Values(favs));
    }

    /** One iteration of the reconciliation loop, for the favourite `fav`. */
    method ReconcileFavorite(favs: seq<FavoriteAppInfo>, fav: FavoriteAppInfo)
      modifies os, fav
      ensures os.Value() == ReconcileOne(old(os.Value()), openApplications, old(fav.Value())).desktop
      ensures Some(fav.Value()) == ReconcileOne(old(os.Value()), openApplications, old(fav.Value())).fav
      ensures forall j :: 0 <= j < |favs| && favs[j] != fav ==> favs[j].Value() == old(favs[j].Value())
    {
      var targetWindow := Target(openApplications, fav.Value());
      if targetWindow.Some? {
        MakeBorderlessFullscreen(os, targetWindow.value.hwnd, fav);
      } else {
        fav.isFullscreen := false;
      }
    }

    /**
     * `AddToFavorites`: with no selection, or when a favourite with the same
     * title and executable name exists, nothing changes; otherwise a new
     * favourite matching by title is appended and the form refreshes.
     */
    method AddToFavorites(selected: Option<WindowInfo>)
      requires Valid()
      modifies this, os, favorites
      ensures Valid() && manualStates == old(manualStates)
      ensures selected.None? || HasRule(old(favorites), selected.value.title, selected.value.exeName) ==>
        && favorites == old(favorites) && openApplications == old(openApplications)
        && os.Value() == old(os.Value()) && Values(favorites) == old(Values(favorites))
      ensures selected.Some? && !HasRule(old(favorites), selected.value.title, selected.value.exeName) ==>
        var a := selected.value;
        var r := ReconcileAll(old(os.Value()), openApplications, old(Values(favorites)) + [NewFavorite(a.title, a.exeName, ByTitle)]);
        && |favorites| == |old(favorites)| + 1 && favorites[..|old(favorites)|] == old(favorites)
        && fresh(favorites[|old(favorites)|])
        && openApplications == Discover(old(os.Value()), titleOrder)
        && os.Value() == r.desktop && Values(favorites) == r.favs
    {
      if selected.None? {
        return;
      }
      var appInfo := selected.value;
      if HasRule(favorites, appInfo.title, appInfo.exeName) {
        return;
      }
      var newFav := new FavoriteAppInfo(appInfo.title, appInfo.exeName, ByTitle);
      AddKeepsDistinct(favorites, newFav);
      favorites := favorites + [newFav];
      assert Values(favorites) == old(Values(favorites)) + [NewFavorite(appInfo.title, appInfo.exeName, ByTitle)];
      Refresh();
    }

    /**
     * `RemoveFromFavorites`: the first window with the favourite's title or its
     * executable name is restored when the favourite is fullscreen, the
     * favourite leaves the list, and the form refreshes.
     */
    method RemoveFromFavorites(selected: FavoriteAppInfo?)
      requires Valid()
      modifies this, os, favorites, selected
      ensures Valid() && manualStates == old(manualStates)
      ensures selected == null ==>
        && favorites == old(favorites) && openApplications == old(openApplications)
        && os.Value() == old(os.Value()) && Values(favorites) == old(Values(favorites))
      ensures selected != null ==>
        var t := FirstOrDefault(old(openApplications), RemovalPredicate(old(selected.Value())));
        var d1 := if t.Some? && old(selected.isFullscreen)
          then Restore(old(os.Value()), t.value.hwnd, Some(old(selected.Value()))).desktop
          else old(os.Value());
        var r := ReconcileAll(d1, openApplications, old(Values(RemoveFirst(favorites, selected))));
        && favorites == RemoveFirst(old(favorites), selected) && selected !in favorites
        && openApplications == Discover(d1, titleOrder)
        && os.Value() == r.desktop && Values(favorites) == r.favs
    {
      if selected == null {
        return;
      }
      RestoreBeforeRemoval(selected);
      RemoveAndRefresh(selected);
    }

    /** The list loses the favourite, then the form refreshes. */
    method RemoveAndRefresh(selected: FavoriteAppInfo)
      requires Valid()
      modifies this, os, favorites
      ensures Valid() && manualStates == old(manualStates)
      ensures favorites == RemoveFirst(old(favorites), selected) && selected !in favorites
      ensures openApplications == Discover(old(os.Value()), titleOrder)
      ensures var r := ReconcileAll(old(os.Value()), openApplications, old(Values(RemoveFirst(favorites, selected))));
        os.Value() == r.desktop && Values(favorites) == r.favs
    {
      RemoveKeepsDistinct(favorites, selected);
      Forget(selected);
      Refresh();
    }

    /** `favorites.Remove(selected)`: the list loses the favourite's first occurrence, and the rest keep their values. */
    method Forget(selected: FavoriteAppInfo)
      modifies this
      ensures favorites == RemoveFirst(old(favorites), selected)
      ensures forall o :: o in favorites ==> o in old(favorites)
      ensures Values(favorites) == old(Values(RemoveFirst(favorites, selected)))
      ensures openApplications == old(openApplications) && manualStates == old(manualStates)
    {
      var rest := RemoveFirst(favorites, selected);
      ghost var values := Values(rest);
      RemovedFromList(favorites, selected);
      favorites := rest;
      assert Values(favorites) == values;
    }

    /** The restore step of `RemoveFromFavorites`; the favourites that stay in the list keep their values. */
    method RestoreBeforeRemoval(selected: FavoriteAppInfo)
      requires Valid()
      modifies os, selected
      ensures var t := FirstOrDefault(openApplications, RemovalPredicate(old(selected.Value())));
        os.Value() == if t.Some? && old(selected.isFullscreen)
          then Restore(old(os.Value()), t.value.hwnd, Some(old(selected.Value()))).desktop
          else old(os.Value())
      ensures Values(RemoveFirst(favorites, selected)) == old(Values(RemoveFirst(favorites, selected)))
    {
      RemoveKeepsDistinct(favorites, selected);
      ghost var rest := RemoveFirst(favorites, selected);
      ghost var before := Values(rest);
      var targetWindow := FirstOrDefault(openApplications, RemovalPredicate(selected.Value()));
      if targetWindow.Some? && selected.isFullscreen {
        RestoreWindowed(os, targetWindow.value.hwnd, selected);
      }
      assert Values(rest) == before;
    }

    /**
     * `FullscreenClicked`: a selected favourite is applied to the window its
     * rule matches; otherwise a selected open window is applied with a fresh
     * favourite; either way the favourite is stored in the manual table under
     * the handle, replacing any earlier entry. Nothing happens for the zero
     * handle. The favourites selection wins over the open-apps selection.
     */
    method FullscreenClicked(favSel: FavoriteAppInfo?, appSel: Option<WindowInfo>)
      requires Valid()
      modifies this, os, favSel
      ensures Valid() && favorites == old(favorites) && openApplications == old(openApplications)
      ensures favSel != null ==>
        var h := SelectedHandle(old(openApplications), old(favSel.Value()));
        var o := Apply(old(os.Value()), h, Some(old(favSel.Value())));
        && os.Value() == o.desktop && Some(favSel.Value()) == o.fav
        && Values(favorites) == Overwrite(favorites, old(Values(favorites)), favSel, o.fav.value)
        && manualStates == if h == Zero then old(manualStates) else old(manualStates)[h := favSel]
      ensures favSel == null && appSel.Some? && appSel.value.hwnd != Zero ==>
        var a := appSel.value;
        var o := Apply(old(os.Value()), a.hwnd, Some(NewFavorite(a.title, a.exeName, ByTitle)));
        && a.hwnd in manualStates && fresh(manualStates[a.hwnd])
        && manualStates == old(manualStates)[a.hwnd := manualStates[a.hwnd]]
        && Some(manualStates[a.hwnd].Value()) == o.fav
        && os.Value() == o.desktop && Values(favorites) == old(Values(favorites))
      ensures favSel == null && (appSel.None? || appSel.value.hwnd == Zero) ==>
        && os.Value() == old(os.Value()) && manualStates == old(manualStates)
        && Values(favorites) == old(Values(favorites))
    {
      if favSel == null && appSel.None? {
        return;
      }
      var hWnd := Zero;
      var favInfo: FavoriteAppInfo;
      if favSel != null {
        favInfo := favSel;
        hWnd := SelectedHandle(openApplications, favInfo.Value());
      } else {
        var appInfo := appSel.value;
        hWnd := appInfo.hwnd;
        favInfo := new FavoriteAppInfo(appInfo.title, appInfo.exeName, ByTitle);
      }
      if hWnd != Zero {
        MakeBorderlessFullscreen(os, hWnd, favInfo);
        manualStates := manualStates[hWnd := favInfo];
      }
      assert Values(favorites) == Overwrite(favorites, old(Values(favorites)), favInfo, favInfo.Value());
    }

    /**
     * `WindowedClicked` as written: a selected favourite whose rule matches a
     * window is restored and the form refreshes. In every other case nothing
     * changes, whatever the open-apps selection and the manual table hold,
     * because the open-apps branch tests a handle that is still zero.
     */
    method WindowedClicked(favSel: FavoriteAppInfo?, appSel: Option<WindowInfo>)
      requires Valid()
      modifies this, os, favorites, favSel
      ensures Valid() && favorites == old(favorites) && manualStates == old(manualStates)
      ensures favSel != null && SelectedHandle(old(openApplications), old(favSel.Value())) != Zero ==>
        var h := SelectedHandle(old(openApplications), old(favSel.Value()));
        var o := Restore(old(os.Value()), h, Some(old(favSel.Value())));
        var r := ReconcileAll(o.desktop, openApplications, Overwrite(favorites, old(Values(favorites)), favSel, o.fav.value));
        && openApplications == Discover(o.desktop, titleOrder)
        && os.Value() == r.desktop && Values(favorites) == r.favs
      ensures favSel == null || SelectedHandle(old(openApplications), old(favSel.Value())) == Zero ==>
        && os.Value() == old(os.Value()) && openApplications == old(openApplications)
        && Values(favorites) == old(Values(favorites))
    {
      var hWnd := Zero;
      if favSel != null {
        hWnd := SelectedHandle(openApplications, favSel.Value());
        if hWnd != Zero {
          RestoreEntry(hWnd, favSel);
          Refresh();
          return;
        }
      }
      if appSel.Some? {
        var appInfo := appSel.value;
        if hWnd != Zero {
          assert false;
        }
      }
    }

    /**
     * `WindowedClicked` as evidently intended: the open-apps branch uses the
     * selected window's own handle. A window in the manual table is restored
     * from its stored favourite, which then leaves the table; any other window
     * gets the fallback. Either way the form refreshes.
     */
    method WindowedClickedIntended(favSel: FavoriteAppInfo?, appSel: Option<WindowInfo>)
      requires Valid()
      modifies this, os, favorites, favSel, manualStates.Values
      ensures Valid() && favorites == old(favorites)
      ensures favSel != null && SelectedHandle(old(openApplications), old(favSel.Value())) != Zero ==>
        var h := SelectedHandle(old(openApplications), old(favSel.Value()));
        var o := Restore(old(os.Value()), h, Some(old(favSel.Value())));
        var r := ReconcileAll(o.desktop, openApplications, Overwrite(favorites, old(Values(favorites)), favSel, o.fav.value));
        && manualStates == old(manualStates)
        && openApplications == Discover(o.desktop, titleOrder)
        && os.Value() == r.desktop && Values(favorites) == r.favs
      ensures ((favSel == null || SelectedHandle(old(openApplications), old(favSel.Value())) == Zero)
          && appSel.Some? && appSel.value.hwnd != Zero && appSel.value.hwnd in old(manualStates)) ==>
        var h := appSel.value.hwnd;
        var stored := old(manualStates[h]);
        var o := Restore(old(os.Value()), h, Some(old(stored.Value())));
        var r := ReconcileAll(o.desktop, openApplications, Overwrite(favorites, old(Values(favorites)), stored, o.fav.value));
        && manualStates == old(manualStates) - {h}
        && openApplications == Discover(o.desktop, titleOrder)
        && os.Value() == r.desktop && Values(favorites) == r.favs
      ensures ((favSel == null || SelectedHandle(old(openApplications), old(favSel.Value())) == Zero)
          && appSel.Some? && appSel.value.hwnd != Zero && appSel.value.hwnd !in old(manualStates)) ==>
        var d1 := Fallback(old(os.Value()), appSel.value.hwnd);
        var r := ReconcileAll(d1, openApplications, old(Values(favorites)));
        && manualStates == old(manualStates)
        && openApplications == Discover(d1, titleOrder)
        && os.Value() == r.desktop && Values(favorites) == r.favs
      ensures ((favSel == null || SelectedHandle(old(openApplications), old(favSel.Value())) == Zero)
          && (appSel.None? || appSel.value.hwnd == Zero)) ==>
        && os.Value() == old(os.Value()) && openApplications == old(openApplications)
        && manualStates == old(manualStates) && Values(favorites) == old(Values(favorites))
    {
      var hWnd := Zero;
      if favSel != null {
        hWnd := SelectedHandle(openApplications, favSel.Value());
        if hWnd != Zero {
          RestoreEntry(hWnd, favSel);
          Refresh();
          return;
        }
      }
      if appSel.Some? {
        hWnd := appSel.value.hwnd;
        if hWnd != Zero {
          if hWnd in manualStates {
            assert manualStates[hWnd] in manualStates.Values;
            RestoreManual(hWnd);
            return;
          }
          WindowedFallback(hWnd);
          return;
        }
      }
    }

    /** The fallback branch of the Windowed button, followed by the refresh. */
    method WindowedFallback(hWnd: Handle)
      requires Valid()
      modifies this, os, favorites
      ensures Valid() && favorites == old(favorites) && manualStates == old(manualStates)
      ensures
        var d1 := Fallback(old(os.Value()), hWnd);
        var r := ReconcileAll(d1, openApplications, old(Values(favorites)));
        && openApplications == Discover(d1, titleOrder)
        && os.Value() == r.desktop && Values(favorites) == r.favs
    {
      RestoreFallback(hWnd);
      ghost var vs := Values(favorites);
      assert vs == old(Values(favorites));
      Refresh();
    }

    /** The manual branch of the Windowed button: restore from the stored favourite, forget it, refresh. */
    method RestoreManual(hWnd: Handle)
      requires Valid() && hWnd in manualStates
      modifies this, os, favorites, manualStates[hWnd]
      ensures Valid() && favorites == old(favorites)
      ensures
        var stored := old(manualStates[hWnd]);
        var o := Restore(old(os.Value()), hWnd, Some(old(stored.Value())));
        var r := ReconcileAll(o.desktop, openApplications, Overwrite(favorites, old(Values(favorites)), stored, o.fav.value));
        && manualStates == old(manualStates) - {hWnd}
        && openApplications == Discover(o.desktop, titleOrder)
        && os.Value() == r.desktop && Values(favorites) == r.favs
    {
      var storedFav := manualStates[hWnd];
      RestoreEntry(hWnd, storedFav);
      ghost var vs := Values(favorites);
      manualStates := manualStates - {hWnd};
      assert Values(favorites) == vs;
      Refresh();
    }

    /** `RestoreWindowed` for the favourite `fav`, seen through the values of the favourites list. */
    method RestoreEntry(hWnd: Handle, fav: FavoriteAppInfo)
      modifies os, fav
      ensures os.Value() == Restore(old(os.Value()), hWnd, Some(old(fav.Value()))).desktop
      ensures Restore(old(os.Value()), hWnd, Some(old(fav.Value()))).fav == Some(fav.Value())
      ensures Values(favorites) == Overwrite(favorites, old(Values(favorites)), fav, fav.Value())
    {
      RestoreWindowed(os, hWnd, fav);
    }

    /** The fallback branch of the Windowed button: standard chrome back on, and a fixed 800 x 600 frame at (100, 100). */
    method RestoreFallback(hWnd: Handle)
      modifies os
      ensures os.Value() == Fallback(old(os.Value()), hWnd)
    {
      var style := os.GetWindowLong(hWnd, Style);
      style := style | WS_CAPTION | WS_SYSMENU | WS_MINIMIZEBOX | WS_MAXIMIZEBOX;
      os.SetWindowLong(hWnd, Style, style);
      os.SetWindowPos(hWnd, HWND_TOP, 100, 100, 800, 600, SWP_FRAMECHANGED);
    }

    /**
     * `SetMatchBy`: only a favourite's matching mode can be set; the form then
     * refreshes, so the favourite is reconciled under its new rule.
     */
    method SetMatchBy(target: FavoriteAppInfo?, mode: MatchMode)
      requires Valid()
      modifies this, os, favorites, target
      ensures Valid() && favorites == old(favorites) && manualStates == old(manualStates)
      ensures target == null ==>
        && os.Value() == old(os.Value()) && openApplications == old(openApplications)
        && Values(favorites) == old(Values(favorites))
      ensures target != null ==>
        var r := ReconcileAll(old(os.Value()), openApplications, Overwrite(favorites, old(Values(favorites)), target, old(target.Value()).(matchBy := mode)));
        && openApplications == Discover(old(os.Value()), titleOrder)
        && os.Value() == r.desktop && Values(favorites) == r.favs
    {
      if target == null {
        return;
      }
      target.matchBy := mode;
      assert Values(favorites) == Overwrite(favorites, old(Values(favorites)), target, target.Value());
      Refresh();
    }
  }
}
