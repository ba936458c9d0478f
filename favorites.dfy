/**
 * Favourites: the saved matching rules with the chrome and placement each one
 * captured, and the first-match searches over the discovered windows.
 */
module Favorites {
  import opened Wrappers
  import opened Win32
  import opened Windowing
  import opened Discovery

  /** `MatchBy`: the source only ever assigns "Title" or "Exe". */
  datatype MatchMode = ByTitle | ByExe

  /** The state of one favourite (`FavoriteAppInfo`) as a value. */
  datatype Favorite = Favorite(
    title: string,
    exeName: string,
    matchBy: MatchMode,
    lastStyle: bv32,
    lastExStyle: bv32,
    lastPlacement: Placement,
    isFullscreen: bool)
  {
    /** `GetMatchString`: the string a window must carry to match this favourite. */
    function MatchString(): (r: string)
      ensures matchBy == ByTitle ==> r == title
      ensures matchBy == ByExe ==> r == exeName
    {
      if matchBy == ByTitle then title else exeName
    }

    /** The two favourites are the same rule: only the saved state and the flag may differ. */
    predicate SameRule(other: Favorite) {
      title == other.title && exeName == other.exeName && matchBy == other.matchBy
    }
  }

  /** A favourite as `new FavoriteAppInfo { Title, ExeName, MatchBy }` creates it: nothing saved, not fullscreen. */
  function NewFavorite(title: string, exeName: string, matchBy: MatchMode): (f: Favorite)
    ensures f.title == title && f.exeName == exeName && f.matchBy == matchBy && !f.isFullscreen
  {
    Favorite(title, exeName, matchBy, 0, 0, ZeroPlacement, false)
  }

  /** `FavoriteAppInfo`: a favourite whose saved state the engine updates in place. */
  class FavoriteAppInfo {
    // Set only by the object initialiser, never afterwards.
    const title: string
    const exeName: string
    var matchBy: MatchMode
    var lastStyle: bv32
    var lastExStyle: bv32
    var lastPlacement: Placement
    var isFullscreen: bool

    function Value(): Favorite
      reads this
    {
      Favorite(title, exeName, matchBy, lastStyle, lastExStyle, lastPlacement, isFullscreen)
    }

    constructor (title: string, exeName: string, matchBy: MatchMode)
      ensures Value() == NewFavorite(title, exeName, matchBy)
    {
      this.title, this.exeName, this.matchBy := title, exeName, matchBy;
      lastStyle, lastExStyle, lastPlacement, isFullscreen := 0, 0, ZeroPlacement, false;
    }
  }

  /** The value of a possibly-null favourite reference. */
  function ValueOf(fav: FavoriteAppInfo?): (r: Option<Favorite>)
    reads fav
    ensures r.Some? <==> fav != null
    ensures fav != null ==> r.value == fav.Value()
  {
    if fav == null then None else Some(fav.Value())
  }

  /** The index of the first window satisfying `p`, or `|apps|` when there is none. */
  function FirstIndex(apps: seq<WindowInfo>, p: WindowInfo -> bool): (k: nat)
    ensures k <= |apps|
    ensures forall j :: 0 <= j < k ==> !p(apps[j])
    ensures k < |apps| ==> p(apps[k])
  {
    if apps == [] then 0
    else if p(apps[0]) then 0
    else 1 + FirstIndex(apps[1..], p)
  }

  /** `FirstOrDefault(p)`: the first window satisfying `p`, or nothing when no window does. */
  function FirstOrDefault(apps: seq<WindowInfo>, p: WindowInfo -> bool): (r: Option<WindowInfo>)
    ensures r.None? <==> forall j :: 0 <= j < |apps| ==> !p(apps[j])
    ensures r.Some? ==> exists k :: 0 <= k < |apps| && apps[k] == r.value && p(r.value) && forall j :: 0 <= j < k ==> !p(apps[j])
  {
    var k := FirstIndex(apps, p);
    if k < |apps| then Some(apps[k]) else None
  }

  /** The window test of a rule with the given mode, title and executable name. */
  function MatchPredicate(matchBy: MatchMode, title: string, exeName: string): WindowInfo -> bool {
    (a: WindowInfo) => if matchBy == ByTitle then a.title == title else a.exeName == exeName
  }

  /** The reconciliation predicate: equal title when matching by title, otherwise equal executable name. */
  function RulePredicate(f: Favorite): WindowInfo -> bool {
    MatchPredicate(f.matchBy, f.title, f.exeName)
  }

  /** The predicate the Fullscreen and Windowed buttons use for a selected favourite. */
  function SelectionPredicate(f: Favorite): WindowInfo -> bool {
    (a: WindowInfo) => (f.matchBy == ByTitle && a.title == f.title) || (f.matchBy == ByExe && a.exeName == f.exeName)
  }

  /** The predicate the Remove button uses: equal title or equal executable name, whatever the mode. */
  function RemovalPredicate(f: Favorite): WindowInfo -> bool {
    (a: WindowInfo) => a.title == f.title || a.exeName == f.exeName
  }

  /** A window matches a favourite's rule exactly when its title (by title) or executable name (by executable) equals `GetMatchString()`. */
  lemma RuleIsMatchString(f: Favorite, a: WindowInfo)
    ensures RulePredicate(f)(a) <==> (if f.matchBy == ByTitle then a.title else a.exeName) == f.MatchString()
  {
  }

  /** The button predicate agrees with the reconciliation predicate, because `MatchBy` holds only the two modes. */
  lemma SelectionAgreesWithRule(f: Favorite, a: WindowInfo)
    ensures SelectionPredicate(f)(a) <==> RulePredicate(f)(a)
  {
  }

  /** The removal predicate accepts a title match or an executable match, whatever the mode, so every rule match. */
  lemma RemovalCoversRule(f: Favorite, a: WindowInfo)
    ensures RemovalPredicate(f)(a) <==> MatchPredicate(ByTitle, f.title, f.exeName)(a) || MatchPredicate(ByExe, f.title, f.exeName)(a)
    ensures RulePredicate(f)(a) ==> RemovalPredicate(f)(a)
  {
  }

  /**
   * The removal search can pick a different window from the one the rule
   * targets: a title-matched favourite whose executable also runs an earlier
   * window with another title.
   */
  lemma RemovalMayPickAnotherWindow()
    ensures var f := NewFavorite("Game", "game.exe", ByTitle);
      var launcher := WindowInfo(7, "Launcher", "game.exe", 1);
      var game := WindowInfo(8, "Game", "game.exe", 1);
      FirstOrDefault([launcher, game], RemovalPredicate(f)) == Some(launcher)
      && FirstOrDefault([launcher, game], RulePredicate(f)) == Some(game)
  {
    var f := NewFavorite("Game", "game.exe", ByTitle);
    var launcher := WindowInfo(7, "Launcher", "game.exe", 1);
    var game := WindowInfo(8, "Game", "game.exe", 1);
    assert RemovalPredicate(f)(launcher);
    assert !RulePredicate(f)(launcher) && RulePredicate(f)(game);
    assert FirstIndex([launcher, game], RulePredicate(f)) == 1 by {
      assert [launcher, game][1..] == [game];
    }
  }
}
