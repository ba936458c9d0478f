/**
 * Window discovery: the enumeration callback that keeps only visible,
 * titled application windows, and the ordering of the result by title.
 */
module Discovery {
  import opened Wrappers
  import opened Windowing

  /** One discovered application window. Never changed after it is built. */
  datatype WindowInfo = WindowInfo(hwnd: Handle, title: string, exeName: string, processId: nat)

  /** The capacity of the title buffer handed to `GetWindowText`, which copies at most one character less. */
  const TitleCapacity: nat := 256
  /** The least length of a trimmed title that is kept. */
  const MinTitleLength: nat := 3
  /** The executable name used when the owning process cannot be looked up. */
  const UnknownExe: string := "Unknown"

  /** `char.IsWhiteSpace`: the Unicode space, line and paragraph separators plus U+0009..U+000D and U+0085. */
  predicate IsWhiteSpace(c: char)
    ensures c == ' ' || c == '\t' || c == '\n' || c == '\r' ==> IsWhiteSpace(c)
    ensures 'a' <= c <= 'z' || 'A' <= c <= 'Z' || '0' <= c <= '9' || c == '-' || c == '_' || c == '.' ==> !IsWhiteSpace(c)
  {
    var n := c as int;
    (0x09 <= n <= 0x0D) || n == 0x20 || n == 0x85 || n == 0xA0 || n == 0x1680
    || (0x2000 <= n <= 0x200A) || n == 0x2028 || n == 0x2029 || n == 0x202F || n == 0x205F || n == 0x3000
  }

  /** `string.TrimStart()`: drops the leading white space and nothing else. */
  function TrimStart(s: string): (r: string)
    ensures |r| <= |s| && r == s[|s| - |r|..]
    ensures forall i :: 0 <= i < |s| - |r| ==> IsWhiteSpace(s[i])
    ensures r != [] ==> !IsWhiteSpace(r[0])
  {
    if s != [] && IsWhiteSpace(s[0]) then TrimStart(s[1..]) else s
  }

  /** `string.TrimEnd()`: drops the trailing white space and nothing else. */
  function TrimEnd(s: string): (r: string)
    ensures |r| <= |s| && r == s[..|r|]
    ensures forall i :: |r| <= i < |s| ==> IsWhiteSpace(s[i])
    ensures r != [] ==> !IsWhiteSpace(r[|r| - 1])
  {
    if s != [] && IsWhiteSpace(s[|s| - 1]) then TrimEnd(s[..|s| - 1]) else s
  }

  /** `string.Trim()`: the input with its leading and trailing white space removed, and nothing else. */
  function Trim(s: string): (r: string)
    ensures |r| <= |s|
    ensures exists a, b :: 0 <= a <= b <= |s| && r == s[a..b] && forall i :: 0 <= i < |s| && !(a <= i < b) ==> IsWhiteSpace(s[i])
    ensures r != [] ==> !IsWhiteSpace(r[0]) && !IsWhiteSpace(r[|r| - 1])
    ensures (forall i :: 0 <= i < |s| ==> !IsWhiteSpace(s[i])) ==> r == s
  {
    var t := TrimStart(s);
    var r := TrimEnd(t);
    TrimSlice(s, t, r);
    r
  }

  /**
   * Where the trimmed text sits in its input: `t` is `s` without its leading
   * white space and `r` is `t` without its trailing white space, so `r` is the
   * slice of `s` after the leading and before the trailing white space.
   */
  lemma TrimSlice(s: string, t: string, r: string)
    requires |t| <= |s| && t == s[|s| - |t|..] && forall i :: 0 <= i < |s| - |t| ==> IsWhiteSpace(s[i])
    requires t != [] ==> !IsWhiteSpace(t[0])
    requires |r| <= |t| && r == t[..|r|] && forall i :: |r| <= i < |t| ==> IsWhiteSpace(t[i])
    requires r != [] ==> !IsWhiteSpace(r[|r| - 1])
    ensures var a := |s| - |t|;
      && r == s[a..a + |r|]
      && (forall i :: 0 <= i < |s| && !(a <= i < a + |r|) ==> IsWhiteSpace(s[i]))
      && (r != [] ==> !IsWhiteSpace(r[0]) && !IsWhiteSpace(r[|r| - 1]))
  {
    var a := |s| - |t|;
    if r != [] {
      assert r[0] == t[0];
    }
    forall i | a + |r| <= i < |s| ensures IsWhiteSpace(s[i]) {
      assert s[i] == t[i - a];
    }
  }

  /** The text `GetWindowText` leaves in a buffer of `TitleCapacity` characters. */
  function WindowText(text: string): (r: string)
    ensures |r| < TitleCapacity
    ensures |text| < TitleCapacity ==> r == text
    ensures r == text[..|r|]
    ensures |text| >= TitleCapacity ==> r == text[..TitleCapacity - 1]
  {
    if |text| < TitleCapacity then text else text[..TitleCapacity - 1]
  }

  /** Ordinal `string.StartsWith`. */
  predicate StartsWith(s: string, prefix: string) {
    |prefix| <= |s| && s[..|prefix|] == prefix
  }

  /** The trimmed title of a window, as the callback reads it. */
  function TitleOf(w: RawWindow): string {
    Trim(WindowText(w.text))
  }

  /** `Process.GetProcessById(pid).ProcessName + ".exe"`, or "Unknown" when the lookup fails. */
  function ExeName(pid: nat, processNames: map<nat, string>): (r: string)
    ensures r == UnknownExe <==> pid !in processNames
  {
    if pid in processNames then
      var r := processNames[pid] + ".exe";
      assert r[|r| - 1] == 'e' != UnknownExe[|UnknownExe| - 1];
      r
    else UnknownExe
  }

  /** The callback's filter: not the shell, visible, a trimmed title of at least 3 characters, not an input-method helper. */
  predicate Accepts(w: RawWindow, shell: Handle)
    ensures Accepts(w, shell) ==> w.hwnd != shell && w.visible && MinTitleLength <= |TitleOf(w)| < TitleCapacity
    ensures |w.text| < MinTitleLength ==> !Accepts(w, shell)
  {
    var title := TitleOf(w);
    w.hwnd != shell && w.visible && |title| >= MinTitleLength
    && !StartsWith(title, "Default IME") && !StartsWith(title, "MSCTFIME UI")
  }

  /** The record the callback adds for an accepted window. */
  function InfoOf(w: RawWindow, processNames: map<nat, string>): WindowInfo {
    WindowInfo(w.hwnd, TitleOf(w), ExeName(w.pid, processNames), w.pid)
  }

  /** The images under `f` of the elements of `s` that satisfy `keep`, in order. */
  function FilterMap<T, U>(s: seq<T>, keep: T -> bool, f: T -> U): (r: seq<U>)
    ensures |r| <= |s|
  {
    if s == [] then []
    else FilterMap(s[..|s| - 1], keep, f) + if keep(s[|s| - 1]) then [f(s[|s| - 1])] else []
  }

  /** An element is in `FilterMap(s, keep, f)` exactly when it is the image of a kept element of `s`. */
  lemma {:induction false} FilterMapMembers<T, U>(s: seq<T>, keep: T -> bool, f: T -> U, u: U)
    ensures u in FilterMap(s, keep, f) <==> exists j :: 0 <= j < |s| && keep(s[j]) && u == f(s[j])
  {
    if s != [] {
      var n := |s| - 1;
      var front := s[..n];
      FilterMapMembers(front, keep, f, u);
      if u in FilterMap(s, keep, f) {
        if u in FilterMap(front, keep, f) {
          var j :| 0 <= j < |front| && keep(front[j]) && u == f(front[j]);
          assert s[j] == front[j];
        } else {
          assert keep(s[n]) && u == f(s[n]);
        }
      } else {
        forall j | 0 <= j < |s| && keep(s[j]) ensures u != f(s[j]) {
          if j < n {
            assert s[j] == front[j];
          }
        }
      }
    }
  }

  /** The list the callback builds, in enumeration order. */
  function Collected(raw: seq<RawWindow>, shell: Handle, processNames: map<nat, string>): seq<WindowInfo> {
    FilterMap(raw, w => Accepts(w, shell), w => InfoOf(w, processNames))
  }

  /** A total preorder on titles: the ordering `OrderBy(w => w.Title)` sorts by. */
  ghost predicate TotalPreorder(le: (string, string) -> bool) {
    && (forall a, b :: le(a, b) || le(b, a))
    && (forall a, b, c :: le(a, b) && le(b, c) ==> le(a, c))
  }

  ghost predicate SortedByTitle(s: seq<WindowInfo>, le: (string, string) -> bool) {
    forall i, j :: 0 <= i < j < |s| ==> le(s[i].title, s[j].title)
  }

  /** Inserts `x` before the first element whose title it precedes, so equal titles keep their order. */
  function Insert(x: WindowInfo, s: seq<WindowInfo>, le: (string, string) -> bool): (r: seq<WindowInfo>)
    ensures multiset(r) == multiset(s) + multiset{x}
  {
    if s == [] then [x]
    else if le(x.title, s[0].title) then
      assert s == [s[0]] + s[1..];
      [x] + s
    else
      assert s == [s[0]] + s[1..];
      [s[0]] + Insert(x, s[1..], le)
  }

  /** Insertion into a sorted list keeps it sorted. */
  lemma {:induction false} InsertKeepsSorted(x: WindowInfo, s: seq<WindowInfo>, le: (string, string) -> bool)
    ensures TotalPreorder(le) && SortedByTitle(s, le) ==> SortedByTitle(Insert(x, s, le), le)
  {
    if s != [] && TotalPreorder(le) && SortedByTitle(s, le) && !le(x.title, s[0].title) {
      var rest := Insert(x, s[1..], le);
      assert SortedByTitle(s[1..], le);
      InsertKeepsSorted(x, s[1..], le);
      assert s == [s[0]] + s[1..];
      forall k | 0 <= k < |rest| ensures le(s[0].title, rest[k].title) {
        assert rest[k] in multiset(rest);
        if rest[k] != x {
          assert rest[k] in multiset(s[1..]);
          var m :| 0 <= m < |s[1..]| && s[1..][m] == rest[k];
          assert s[m + 1] == rest[k];
        }
      }
      assert Insert(x, s, le) == [s[0]] + rest;
    }
  }

  /** `OrderBy(w => w.Title)` as an insertion sort (stable, like `OrderBy`). */
  function SortByTitle(s: seq<WindowInfo>, le: (string, string) -> bool): (r: seq<WindowInfo>)
    ensures multiset(r) == multiset(s)
    ensures TotalPreorder(le) ==> SortedByTitle(r, le)
  {
    if s == [] then []
    else
      assert s == [s[0]] + s[1..];
      var sorted := SortByTitle(s[1..], le);
      InsertKeepsSorted(s[0], sorted, le);
      Insert(s[0], sorted, le)
  }

  /** The windows of `s` whose titles are equivalent to `t` under `le`, in their order in `s`. */
  function TitleClass(s: seq<WindowInfo>, t: string, le: (string, string) -> bool): seq<WindowInfo> {
    if s == [] then []
    else (if le(s[0].title, t) && le(t, s[0].title) then [s[0]] else []) + TitleClass(s[1..], t, le)
  }

  /** The class of a one-element list. */
  lemma TitleClassOne(y: WindowInfo, t: string, le: (string, string) -> bool)
    ensures TitleClass([y], t, le) == if le(y.title, t) && le(t, y.title) then [y] else []
  {
    assert [y][1..] == [];
  }

  /** The class of a list with one element in front. */
  lemma TitleClassCons(y: WindowInfo, s: seq<WindowInfo>, t: string, le: (string, string) -> bool)
    ensures TitleClass([y] + s, t, le) == TitleClass([y], t, le) + TitleClass(s, t, le)
  {
    assert ([y] + s)[0] == y && ([y] + s)[1..] == s;
    TitleClassOne(y, t, le);
  }

  /** Two sequences of which one is empty can be put in front of a third in either order. */
  lemma SwapEmpty<T>(a: seq<T>, b: seq<T>, c: seq<T>)
    requires a == [] || b == []
    ensures a + (b + c) == b + (a + c)
  {
    if a == [] {
      assert a + (b + c) == b + c;
    } else {
      assert b + c == c;
    }
  }

  /** Inserting `x` puts it before every element of `s` with an equivalent title. */
  lemma {:induction false} InsertStable(x: WindowInfo, s: seq<WindowInfo>, t: string, le: (string, string) -> bool)
    requires forall b :: le(x.title, t) && le(t, b) ==> le(x.title, b)
    ensures TitleClass(Insert(x, s, le), t, le) == TitleClass([x], t, le) + TitleClass(s, t, le)
  {
    if s == [] {
      assert Insert(x, s, le) == [x];
    } else if le(x.title, s[0].title) {
      assert Insert(x, s, le) == [x] + s;
      TitleClassCons(x, s, t, le);
    } else {
      var rest := Insert(x, s[1..], le);
      assert Insert(x, s, le) == [s[0]] + rest;
      TitleClassCons(s[0], rest, t, le);
      InsertStable(x, s[1..], t, le);
      assert s == [s[0]] + s[1..];
      TitleClassCons(s[0], s[1..], t, le);
      TitleClassOne(x, t, le);
      TitleClassOne(s[0], t, le);
      assert !(le(x.title, t) && le(t, s[0].title));
      var cx, c0, tail := TitleClass([x], t, le), TitleClass([s[0]], t, le), TitleClass(s[1..], t, le);
      assert TitleClass(Insert(x, s, le), t, le) == c0 + (cx + tail);
      assert TitleClass(s, t, le) == c0 + tail;
      SwapEmpty(c0, cx, tail);
    }
  }

  /**
   * The sort is stable: for every title, the windows with an equivalent title
   * come out in the order they went in, so `FirstOrDefault` on a title picks
   * the earliest enumerated of them.
   */
  lemma {:induction false} SortByTitleStable(s: seq<WindowInfo>, t: string, le: (string, string) -> bool)
    requires TotalPreorder(le)
    ensures TitleClass(SortByTitle(s, le), t, le) == TitleClass(s, t, le)
  {
    if s != [] {
      var sorted := SortByTitle(s[1..], le);
      calc {
        TitleClass(SortByTitle(s, le), t, le);
        { assert SortByTitle(s, le) == Insert(s[0], sorted, le); }
        TitleClass(Insert(s[0], sorted, le), t, le);
        { assert forall b :: le(s[0].title, t) && le(t, b) ==> le(s[0].title, b);
          InsertStable(s[0], sorted, t, le); }
        TitleClass([s[0]], t, le) + TitleClass(sorted, t, le);
        { SortByTitleStable(s[1..], t, le); }
        TitleClass([s[0]], t, le) + TitleClass(s[1..], t, le);
        { assert [s[0]][1..] == []; }
        TitleClass(s, t, le);
      }
    }
  }

  /**
   * `FindOpenApplications`: walk the enumerated windows, keep the accepted
   * ones with their executable names, and sort the result by title.
   */
  method FindOpenApplications(raw: seq<RawWindow>, shell: Handle, processNames: map<nat, string>, le: (string, string) -> bool)
    returns (apps: seq<WindowInfo>)
    ensures apps == SortByTitle(Collected(raw, shell, processNames), le)
    ensures multiset(apps) == multiset(Collected(raw, shell, processNames))
    ensures TotalPreorder(le) ==> SortedByTitle(apps, le)
  {
    var windows: seq<WindowInfo> := [];
    var i := 0;
    while i < |raw|
      invariant 0 <= i <= |raw|
      invariant windows == Collected(raw[..i], shell, processNames)
    {
      var w := raw[i];
      assert raw[..i + 1][..i] == raw[..i];
      if w.hwnd != shell && w.visible {
        var title := Trim(WindowText(w.text));
        if |title| >= MinTitleLength {
          var exeName := ExeName(w.pid, processNames);
          if |title| > 0 && !StartsWith(title, "Default IME") && !StartsWith(title, "MSCTFIME UI") {
            windows := windows + [WindowInfo(w.hwnd, title, exeName, w.pid)];
          }
        }
      }
      i := i + 1;
    }
    assert raw[..i] == raw;
    apps := SortByTitle(windows, le);
  }

  /** The window list discovered on a desktop: what `FindOpenApplications` returns for its enumeration. */
  function Discover(d: Desktop, le: (string, string) -> bool): (r: seq<WindowInfo>)
    ensures multiset(r) == multiset(Collected(d.Enumerate(), d.shell, d.processNames))
    ensures TotalPreorder(le) ==> SortedByTitle(r, le)
  {
    SortByTitle(Collected(d.Enumerate(), d.shell, d.processNames), le)
  }

  /**
   * The record built for an accepted window: not the shell; its title is
   * trimmed, shorter than the title buffer, at least 3 characters, and does not
   * begin with an input-method helper prefix; its executable name is "Unknown"
   * exactly when the process lookup fails.
   */
  lemma AcceptedQualifies(w: RawWindow, shell: Handle, processNames: map<nat, string>)
    requires Accepts(w, shell)
    ensures var a := InfoOf(w, processNames);
      && a.hwnd == w.hwnd && a.hwnd != shell && w.visible && a.processId == w.pid
      && MinTitleLength <= |a.title| < TitleCapacity
      && !IsWhiteSpace(a.title[0]) && !IsWhiteSpace(a.title[|a.title| - 1])
      && !StartsWith(a.title, "Default IME") && !StartsWith(a.title, "MSCTFIME UI")
      && (a.exeName == UnknownExe <==> a.processId !in processNames)
  {
  }

  /**
   * A window is discovered iff some enumerated window is accepted by the
   * filter and yields it; each discovered window therefore meets
   * `AcceptedQualifies`.
   */
  lemma DiscoveredWindows(raw: seq<RawWindow>, shell: Handle, processNames: map<nat, string>, le: (string, string) -> bool, a: WindowInfo)
    ensures a in SortByTitle(Collected(raw, shell, processNames), le)
        <==> exists j :: 0 <= j < |raw| && Accepts(raw[j], shell) && a == InfoOf(raw[j], processNames)
  {
    var c := Collected(raw, shell, processNames);
    assert a in SortByTitle(c, le) <==> a in multiset(SortByTitle(c, le));
    assert a in c <==> a in multiset(c);
    FilterMapMembers(raw, w => Accepts(w, shell), w => InfoOf(w, processNames), a);
  }
}
