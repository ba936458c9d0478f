# Borderless window engine of windowed-gamer, in Dafny

This project models the window-state transformation engine of the
`Form1` utility in `Program.cs`. The engine turns a running application's
window into a borderless window that covers its monitor, and puts the
window's chrome back later. It also keeps a list of favourites, which are
title or executable-name rules that are re-applied on every refresh.

The operating system is replaced by a simulated desktop:

- a map from window handle to window record (style word, extended style
  word, placement, rectangle, visibility, title, process id);
- a map from handle to the rectangle of its nearest monitor (a missing
  entry means `GetMonitorInfo` fails);
- the enumeration order, the shell window and the process-name table;
- a log of every mutating API call.

`Windowing.Desktop` is that state as a value. `Windowing.WindowTable` is
the same state as an object, with one method per API call, and each method
is proved to produce `Desktop`'s function of the old state.

Modules, one file each:

- `Wrappers`: `Option`.
- `Int32Arith`: C# `int` wrap-around and truncating division, and `RoundUpToHundred`.
- `Win32`: the constants and structures, and the chrome-stripping bit arithmetic on `bv32` words.
- `Windowing`: the simulated desktop.
- `Discovery`: `FindOpenApplications`, its filter and its sort by title.
- `Favorites`: `FavoriteAppInfo`, `GetMatchString` and the `FirstOrDefault` predicates.
- `Transform`: `MakeBorderlessFullscreen` and `RestoreWindowed`.
  - `Apply` and `Restore` are these two operations on values.
  - Two methods perform the same calls on a `WindowTable` and a `FavoriteAppInfo`, and are proved equal to them.
- `Reconcile`: the `ApplyBorderlessToFavorites` loop on values, and what it guarantees.
- `App`: the `Form1` object. It holds the open-applications list, the favourites list and the manual tracking dictionary. Its button handlers are methods proved against the value-level functions.

Where a comment or a tooltip in the source promises more than the code does, the model follows the code:

- The comment at Program.cs:568-569 says the second step of `RestoreWindowed` restores the original placement. The code reads the window's current placement and writes that same value back (Program.cs:576-578); the placement saved in the favourite is only used to decide on `SW_RESTORE`. So an apply followed by a restore returns both style words bit for bit, but the window keeps covering its monitor (`Transform.ApplyThenRestore`, and Findings).
- The comment at Program.cs:484 limits saving the state to a window that is "transitioning to fullscreen". The test is on the favourite's flag only. With a favourite selected, the Fullscreen button reuses the list's own object (Program.cs:664-672); once an apply has set its flag, a second click captures nothing (`Transform.ApplyIdempotent`). A click with only an open application selected creates a fresh `FavoriteAppInfo` (Program.cs:674-682), so a second such click captures the already stripped styles (`Transform.FreshFavoriteRecaptures`). A failed monitor lookup leaves the flag clear, so the next apply recaptures as well (`Transform.FailedApplyRecaptures`).
- The Windowed button's tooltip (Program.cs:284) promises to restore the selected app to its original windowed state. For a selected favourite, the code restores the window and then refreshes (Program.cs:716-720), and that refresh applies the favourite's rule again: the window loses its restored styles and covers its monitor once more (`App.RefreshUndoesRestore`).
- `_manualFullscreenStates.Remove(hWnd)` at Program.cs:734 would drop a restored window from the manual table, but the branch holding it can never run (see Findings), so no entry ever leaves the table.

## Model

| member | source | states |
|---|---|---|
| Win32.CaptionIsBorderAndDialogFrame | Program.cs:65-67 | `WS_CAPTION` is 0x00C00000 and contains both the `WS_BORDER` and the `WS_DLGFRAME` bit |
| Win32.MasksAreTheClearedBits | Program.cs:508-523 | the style mask is the union of the six bits cleared from the style; the edge mask is the union of the four bits cleared from the extended style |
| Win32.StripStyle | Program.cs:505-516 | the stripped style has every chrome bit clear and every other bit as before |
| Win32.StripExStyle | Program.cs:519-524 | the stripped extended style has the client, window, static and dialog-modal edge bits clear and every other bit as before |
| Win32.StripIdempotent | Program.cs:505-524 | stripping twice is stripping once, for both words |
| Win32.StripStyleDeterminedOutsideMask | Program.cs:505-516 | two style words strip to the same word iff they agree outside the chrome bits |
| Int32Arith.Wrap32 | Program.cs:537-538 | unchecked C# `int` arithmetic: the result is the mathematical value shifted by at most 2^32, and equal to it when that value fits |
| Int32Arith.AddSubCancel | Program.cs:535-538 | adding back a wrapped difference gives the other operand, so `left + (right - left) == right` in 32-bit arithmetic |
| Int32Arith.TruncDiv | Program.cs:478 | C# division truncates toward zero: the remainder has the sign of the dividend and is smaller than the divisor |
| Int32Arith.RoundUpToHundred | Program.cs:476-479 | the helper as written always returns a multiple of 100 |
| Int32Arith.RoundUpToHundredCorrect | Program.cs:476-479 | for -99 <= value <= int.MaxValue - 99, the result is the least multiple of 100 not below value |
| Int32Arith.RoundUpToHundredNegative | Program.cs:476-479 | the helper as written maps -200 to -100 |
| Int32Arith.RoundUpToHundredWraps | Program.cs:476-479 | the helper as written maps int.MaxValue to -2147483500 |
| Int32Arith.CeilToHundred | Program.cs:476-479 | the intended rounding: None iff the least multiple of 100 not below value exceeds int.MaxValue, otherwise that multiple |
| Int32Arith.CeilToHundredAgrees | Program.cs:476-479 | where the helper as written is right, it agrees with the intended rounding |
| Windowing.Desktop.GetLong | Program.cs:41-42 | `GetWindowLong` reads the chosen word of the window, and 0 for a handle that names no window |
| Windowing.Desktop.SetLong | Program.cs:44-45 | `SetWindowLong` changes only the chosen word of window h (nothing for an unknown handle), keeps the keys and the environment, and logs the call |
| Windowing.Desktop.GetPlacement | Program.cs:488-494 | `GetWindowPlacement` into a fresh struct yields the window's placement, and the all-zero struct when the handle names no window |
| Windowing.Desktop.SetPlacement | Program.cs:95-96 | `SetWindowPlacement` stores the placement of window h, moves a normal-state window to the placement's normal position and leaves the rectangle of any other, changes no other window and logs the call |
| Windowing.Desktop.MonitorBounds | Program.cs:527-532 | `GetMonitorInfo` on the nearest monitor succeeds exactly for a window with a known monitor, and then yields that monitor's rectangle |
| Windowing.Desktop.SetPos | Program.cs:47-49 | `SetWindowPos` keeps every other window, and the styles, title and process of window h; the window moves to (x, y) unless NOMOVE keeps its corner, and takes the 32-bit width and height cx and cy unless NOSIZE keeps its own; SHOWWINDOW makes it visible and nothing hides it; a call that moves or sizes a normal-state window makes its reported normal position follow the new rectangle, while one with NOMOVE and NOSIZE keeps the placement; the call is logged |
| Windowing.Desktop.Show | Program.cs:104-105 | `ShowWindow` changes no window and logs the call |
| Windowing.Desktop.Enumerate | Program.cs:437-443 | `EnumWindows` shows the callback every window in enumeration order, with its visibility, text and process id |
| Windowing.NoMoveNoSizeKeepsWindows | Program.cs:581-589 | a SetWindowPos with NOMOVE and NOSIZE and without SHOWWINDOW changes no window, only the log |
| Windowing.MoveToRectCoversIt | Program.cs:535-551 | moving to a rectangle's origin with its unchecked width and height leaves the window's rectangle equal to it |
| Windowing.MoveAndSizePlaces | Program.cs:744 | a SetWindowPos without NOMOVE, NOSIZE or SHOWWINDOW gives the window exactly the requested rectangle, lets a normal window's reported normal position follow it, and changes nothing else |
| Windowing.WindowTable.constructor | Program.cs:20-153 | the simulated API starts in the given desktop state |
| Windowing.WindowTable.SetWindowLong | Program.cs:44-45 | the object's new state is `Desktop.SetLong` of its old state |
| Windowing.WindowTable.SetWindowPlacement | Program.cs:95-96 | the object's new state is `Desktop.SetPlacement` of its old state |
| Windowing.WindowTable.SetWindowPos | Program.cs:47-49 | the object's new state is `Desktop.SetPos` of its old state |
| Windowing.WindowTable.ShowWindow | Program.cs:104-105 | the object's new state is `Desktop.Show` of its old state |
| Discovery.IsWhiteSpace | Program.cs:444 | `char.IsWhiteSpace` holds for space, tab, line feed and carriage return, and not for letters, digits, '-', '_' or '.' |
| Discovery.TrimStart | Program.cs:444 | the result is a suffix of the input, every dropped character is white space, and the result does not start with white space |
| Discovery.TrimEnd | Program.cs:444 | the result is a prefix of the input, every dropped character is white space, and the result does not end with white space |
| Discovery.Trim | Program.cs:444 | `string.Trim` returns a contiguous slice of its input outside which every character is white space; the slice neither starts nor ends with white space, and a title with no white space is unchanged |
| Discovery.WindowText | Program.cs:442-443 | `GetWindowText` with a 256-character buffer yields the whole text when it has at most 255 characters, and exactly its first 255 characters otherwise |
| Discovery.Accepts | Program.cs:439-465 | a window the callback keeps is not the shell and is visible, and its trimmed title has 3 to 255 characters; a window whose text is shorter than 3 characters is never kept |
| Discovery.ExeName | Program.cs:450-459 | the executable name is "Unknown" exactly when the process lookup fails |
| Discovery.FilterMap | Program.cs:437-468 | the collected list is never longer than the enumeration |
| Discovery.FilterMapMembers | Program.cs:437-468 | an element is collected iff it is the image of an accepted enumerated element |
| Discovery.Insert | Program.cs:470 | inserting adds exactly one element: the multiset grows by it |
| Discovery.InsertKeepsSorted | Program.cs:470 | under a total preorder, inserting into a title-sorted list keeps it sorted |
| Discovery.SortByTitle | Program.cs:470 | `OrderBy(w => w.Title)` returns a permutation of its input that is sorted by title under any total preorder |
| Discovery.InsertStable | Program.cs:470 | inserting a window into a list puts it ahead of the windows whose titles are equivalent to its own, and those keep their order |
| Discovery.SortByTitleStable | Program.cs:470 | `OrderBy` is stable: for every title, the windows whose titles are equivalent to it come out in the order they went in |
| Discovery.FindOpenApplications | Program.cs:432-471 | the loop collects exactly the accepted windows in enumeration order; the result is their sort by title, a permutation of them, and sorted |
| Discovery.Discover | Program.cs:347 | the list a refresh discovers is a permutation of the windows the callback keeps, and sorted by title under any total preorder |
| Discovery.AcceptedQualifies | Program.cs:439-465 | an accepted window is not the shell and is visible; its trimmed title has 3 to 255 characters, no surrounding white space and neither IME prefix; its executable name is "Unknown" iff the lookup fails |
| Discovery.DiscoveredWindows | Program.cs:437-470 | a window is discovered iff some enumerated window passes the filter and yields it |
| Favorites.Favorite.MatchString | Program.cs:183 | `GetMatchString` is the title for a rule matching by title and the executable name for one matching by executable |
| Favorites.NewFavorite | Program.cs:169-186 | a new favourite carries the given title, executable and mode, and is not fullscreen |
| Favorites.FavoriteAppInfo.constructor | Program.cs:625 | the object initialiser gives the value `NewFavorite` describes |
| Favorites.ValueOf | Program.cs:480 | a null favourite reference has no value, and any other one has exactly the object's current value |
| Favorites.FirstIndex | Program.cs:412 | the index of the first window satisfying the predicate: no earlier window satisfies it, and it lies in the list iff some window does |
| Favorites.FirstOrDefault | Program.cs:412-416 | None iff no window satisfies the predicate, otherwise the first window that does |
| Favorites.RuleIsMatchString | Program.cs:410-417 | a window passes the reconciliation test exactly when its title (by title) or executable name (by executable) equals `GetMatchString` (Program.cs:183) |
| Favorites.SelectionAgreesWithRule | Program.cs:668-671 | the buttons' MatchBy-aware test accepts exactly the windows the reconciliation test accepts |
| Favorites.RemovalCoversRule | Program.cs:643 | the Remove button's test accepts a window exactly when its title or its executable name matches, whatever the mode, so it accepts every window the rule accepts |
| Favorites.RemovalMayPickAnotherWindow | Program.cs:643 | for a title rule, the Remove button's Title-or-Exe search can find an earlier window with the same executable but another title, instead of the rule's window |
| Transform.Capture | Program.cs:485-502 | the favourite keeps its rule and flag and saves the window's placement, style and extended style, or zeros when the handle names no window |
| Transform.Apply | Program.cs:480-558 | no-op for the zero handle; captures only when `fav != null && !fav.IsFullscreen`, otherwise keeps the saved state; other windows unchanged; fullscreen afterwards iff it was, or the monitor bounds can be read |
| Transform.ApplyWindow | Program.cs:505-557 | after Apply, the window's style and extended style are stripped; with monitor bounds its rectangle is the monitor rectangle, it is visible, and a normal window reports that rectangle as its normal position; without them rectangle, visibility and placement are unchanged |
| Transform.ApplyCalls | Program.cs:505-551 | Apply issues the two SetWindowLong calls with the stripped words, then a SetWindowPos to the monitor rectangle only when the bounds can be read; its flags contain SWP_NOZORDER |
| Transform.Restore | Program.cs:560-598 | no-op for the zero handle, a null favourite or one that is not fullscreen; otherwise the saved words come back verbatim, the current placement is written back unchanged, a normal window goes to the normal position it already reports, visibility is kept, and the favourite is windowed |
| Transform.RestoreCalls | Program.cs:564-595 | Restore issues the two saved words, the just-read placement, the redraw-only SetWindowPos, and SW_RESTORE only for a saved minimized placement |
| Transform.RestoreRestoresMinimizedOnly | Program.cs:576-595 | Restore writes back the placement it has just read, and issues SW_RESTORE iff the saved showCmd is SW_SHOWMINIMIZED |
| Transform.RestoreKeepsEnumeration | Program.cs:560-598 | a restore changes no window's visibility, title or process, so the windows discovered afterwards are the ones discovered before |
| Transform.MakeBorderlessFullscreen | Program.cs:480-558 | the calls on the window table and the updates of the favourite give exactly Apply's desktop and favourite |
| Transform.RestoreWindowed | Program.cs:560-598 | the calls on the window table and the updates of the favourite give exactly Restore's desktop and favourite |
| Transform.ApplyThenRestore | Program.cs:480-598 | after a successful apply and a restore, both style words are as they were and the favourite holds the original placement, while the rectangle stays the monitor's and a normal window reports the monitor as its normal position |
| Transform.RestoreKeepsMonitorGeometry | Program.cs:568-578 | a normal window at (100, 100)-(900, 700) on a 1920 x 1080 monitor still covers the monitor after Fullscreen then Windowed, although the favourite holds its original placement |
| Transform.RestoreIntended | Program.cs:560-598 | as intended by the comment at 568-569: the same calls, but the placement saved in the favourite is written back, so the window takes that placement and, when it is a normal one, its normal position |
| Transform.ApplyThenRestoreIntended | Program.cs:480-598 | with the saved placement written back, apply then restore returns both style words and the placement, and a normal window whose rectangle was its normal position gets that rectangle back |
| Transform.ApplyIdempotent | Program.cs:485-557 | once an apply succeeded, a second apply keeps the captured state and changes no window |
| Transform.FailedApplyRecaptures | Program.cs:485-557 | when the monitor bounds cannot be read, the favourite stays windowed and the next apply saves the already stripped words |
| Transform.FreshFavoriteRecaptures | Program.cs:679-686 | applying with a fresh favourite to an already stripped window saves the stripped words and the placement the first apply left, which for a normal window on a known monitor has the monitor as its normal position |
| Reconcile.ReconcileOne | Program.cs:407-428 | one iteration keeps the favourite's rule; with no matching window it only clears the flag and leaves the desktop unchanged; otherwise it is Apply on the first matching window |
| Reconcile.ReconcileAll | Program.cs:405-429 | the pass keeps the number of favourites, every rule, the environment and the set of windows |
| Reconcile.ReconcileAt | Program.cs:405-429 | favourite i is handled by one iteration on the desktop the earlier favourites left behind |
| Reconcile.UnmatchedPassIsSilent | Program.cs:424-428 | when no favourite matches, the desktop, windows and call log are unchanged, and every favourite ends windowed |
| Reconcile.ApplyIsBorderless | Program.cs:420-423 | one apply replaces the target window by its borderless form and keeps every other window |
| Reconcile.ReconcileWindows | Program.cs:405-429 | after a pass every selected window is transformed exactly once, however many rules select it, and every other window is untouched |
| Reconcile.ReconcileFlags | Program.cs:405-429 | each favourite's flag after a pass: false without a match, unchanged for a zero handle, otherwise set iff it was or the monitor bounds can be read |
| Reconcile.ReconcileFixedPoint | Program.cs:405-429 | a second pass over the same windows leaves every window and every flag as the first pass left them |
| Reconcile.SettledPassKeepsFavorites | Program.cs:405-429 | a pass over favourites that are already in their final state changes none of them |
| Reconcile.ReconcileFixedPointSaved | Program.cs:405-429 | when every matched window's monitor bounds can be read, a second pass also leaves every favourite's saved state unchanged |
| Reconcile.PassKeepsEnumeration | Program.cs:344-353 | a pass over the windows just discovered changes no window's visibility, title or process, so the next refresh's `FindOpenApplications` sees the same enumeration |
| Reconcile.RefreshFixedPoint | Program.cs:344-357 | two consecutive refreshes, each rediscovering before its pass: the second changes no window and no favourite's flag |
| App.DistinctRulesDistinctObjects | Program.cs:618 | a list without two equal (Title, ExeName) pairs holds no object twice |
| App.AddKeepsDistinct | Program.cs:618-626 | appending keeps the pairs distinct iff the new pair is not already present |
| App.IndexOf | Program.cs:649 | the index of the first occurrence, or the length when the object is absent |
| App.RemoveFirst | Program.cs:649 | `List.Remove` removes the first occurrence: the list is unchanged when the object is absent; otherwise it is one shorter, loses that object once, keeps everything before the first occurrence and shifts everything after it down by one |
| App.RemoveKeepsDistinct | Program.cs:649 | removing from a list with distinct pairs keeps them distinct, and the removed object is gone |
| App.SelectionFindsRuleTarget | Program.cs:668-671 | the buttons' MatchBy-aware search finds the same window as the reconciliation loop |
| App.SelectedHandle | Program.cs:668-672 | the handle the buttons act on: the rule target's handle, or zero when nothing matches |
| App.Fallback | Program.cs:739-744 | the fallback changes only window h and issues exactly the SetWindowLong with the chrome bits or-ed in and the SetWindowPos to (100, 100), 800 x 600 |
| App.FallbackWindow | Program.cs:739-744 | the Windowed fallback sets exactly the caption, system-menu, minimise and maximise bits, keeps every other style bit, the extended style and visibility, and places the window at (100, 100)-(900, 700), which a normal window also reports as its normal position |
| App.FallbackAfterApplyKeepsFrameStripped | Program.cs:739-744 | after a borderless apply the fallback leaves the sizing frame and the extended edge bits cleared |
| App.Form.constructor | Program.cs:206-217 | the form starts with no favourites and an empty manual table, and its open-applications list is what discovery finds |
| App.Form.Refresh | Program.cs:344-357 | rediscovers the windows, then the desktop and the favourites' values are the reconciliation pass over the new list; the favourites list and the manual table are unchanged |
| App.Form.Rediscover | Program.cs:347 | the open-applications list becomes what discovery finds on the current desktop |
| App.Form.ApplyBorderlessToFavorites | Program.cs:397-430 | the loop over the favourites leaves the desktop and the favourites' values equal to the reconciliation pass |
| App.Form.ReconcileNext | Program.cs:405-429 | one loop iteration extends the reconciled prefix by one favourite and leaves the later favourites untouched |
| App.Form.ReconcileFavorite | Program.cs:407-428 | one iteration on the objects equals `ReconcileOne`, and no other favourite changes |
| App.Form.AddToFavorites | Program.cs:607-629 | nothing changes without a selection or for a duplicate (Title, ExeName); otherwise one new favourite matching by title is appended and the form refreshes; the pairs stay distinct |
| App.Form.RemoveFromFavorites | Program.cs:631-651 | restores first only when a Title-or-Exe target is found and the favourite is fullscreen, then removes the favourite and refreshes |
| App.Form.RemoveAndRefresh | Program.cs:649-650 | the favourite leaves the list, the pairs stay distinct, and the refresh reconciles the remaining favourites |
| App.Form.Forget | Program.cs:649 | the list becomes `RemoveFirst` of the old list, and the favourites that stay keep their values |
| App.Form.RestoreBeforeRemoval | Program.cs:642-647 | the restore step of Remove, and the favourites staying in the list keep their values |
| App.Form.FullscreenClicked | Program.cs:653-698 | applies the selected favourite to its rule target, or a fresh favourite to the selected window, and stores it in the manual table under the handle, replacing any earlier entry; nothing for the zero handle |
| App.Form.WindowedClicked | Program.cs:700-749 | as written: restores and refreshes only for a selected favourite whose rule matches; in every other case nothing changes, whatever the open-apps selection and the manual table hold |
| App.RefreshUndoesRestore | Program.cs:716-720 | when a favourite's rule selects window h, restoring h and then refreshing strips the restored styles again and puts the window back on its monitor, although the button's tooltip (Program.cs:284) promises the original windowed state |
| App.Form.WindowedClickedIntended | Program.cs:700-749 | as intended: a manually tracked window is restored from its stored favourite and leaves the table; any other selected window gets the fallback; then the form refreshes |
| App.Form.WindowedFallback | Program.cs:737-744 | the fallback branch followed by a refresh |
| App.Form.RestoreManual | Program.cs:729-735 | restores from the stored favourite, removes the handle from the manual table and refreshes |
| App.Form.RestoreEntry | Program.cs:718 | `RestoreWindowed` on one favourite; only that favourite's value changes in the list |
| App.Form.RestoreFallback | Program.cs:739-744 | the object's new state is the fallback of its old state |
| App.Form.SetMatchBy | Program.cs:794-808 | with no favourite nothing changes; otherwise only its mode changes and the form refreshes under the new rule |

## Left out

- The WinForms user interface: list views, buttons, tooltips, message boxes, the timer and `Main`. The handlers receive the current selections as parameters instead.
- `UpdateOpenAppsListView`, `UpdateFavoritesListView` and `ShowContextMenu`. They only draw. `SetMatchBy`, which the menus call, is modelled.
- The P/Invoke declarations. They are replaced by the simulated desktop.
- `GetWindowRect`, `GetSystemMetrics`, `QueryFullProcessImageName` and `GetModuleFileNameEx` are never called and are not modelled.
- The `length` and `cbSize` struct-size fields. The placement record has no `length`.
- Z-order and frame redraw. These calls are logged only.
- `ShowWindow`: the call is logged, and what it does to the window's state is not simulated.
- What `SetWindowPlacement` does with a minimized or maximized placement. Only a normal-state placement moves the window, to its normal position.
- `MonitorFromWindow(…, MONITOR_DEFAULTTONEAREST)` (Program.cs:527) follows the window's current rectangle. In the model every handle has a fixed nearest monitor that no move changes. This differs only when a window is moved onto another monitor, as the intended Windowed fallback does before its refresh.
- `rcNormalPosition` is in workspace coordinates and the window rectangle in screen coordinates. The simulation treats them as the same, as they are on a monitor without a taskbar at the top or left.
- The minimized and maximized positions of a placement are stored and written back, but never simulated.
- `Process.GetProcessById` and its exceptions become a partial map from process id to name.
- `OrderBy` uses culture-sensitive string comparison. It is an abstract relation on titles, and sortedness is proved for any total preorder. The sort is a stable insertion sort, as `OrderBy` is stable.
- `StartsWith` is culture-sensitive in the source and ordinal in the model.
- UTF-16: a Dafny `char` is a Unicode scalar value, while a C# `char` is a UTF-16 code unit. A title with a character outside the Basic Multilingual Plane has a different length in the model: "🎮a" has C# `Length` 3 and is kept, but has length 2 in the model and is dropped. The 256-unit `GetWindowText` buffer (Program.cs:442-443) and the 3-character minimum (Program.cs:446) are counted in scalar values, not code units, and no surrogate pair is split.
- The dictionary built at Program.cs:399-403 is never read, so it is not modelled.
- `FavoriteAppInfo.LastRect` is never written by the engine, so it is not modelled.
- `FavoriteAppInfo.title` and `exeName` are `const` fields: the source sets them only in object initialisers.
- Handle reuse, and handles that become invalid between calls. A call on an unknown handle fails silently, as the code does.
- App.Form.WindowedClicked: the open-applications branch is written as the dead branch it is. Its body after the zero-handle test is modelled only in `WindowedClickedIntended`.

## Findings

| source | as written | input that shows it | evidently intended | confidence | as-written member | corrected member |
|---|---|---|---|---|---|---|
| Program.cs:476-479 | `((value + 99) / 100) * 100` with truncating division and unchecked addition | value -200 gives -100; value 2147483647 gives -2147483500 | the least multiple of 100 not below value, and no result when that does not fit an `int` | medium, not executed (the helper has no caller) | Int32Arith.RoundUpToHundredNegative | Int32Arith.CeilToHundred |
| Program.cs:568-578 | `RestoreWindowed` reads the current placement and writes it back; `fav.LastPlacement` is never written | a normal window at (100, 100)-(900, 700) on a 1920 x 1080 monitor, Fullscreen then Windowed: the window keeps covering the monitor | write back `fav.LastPlacement`, as the comment at 568-569 says, so the window returns to its previous position and state | high, not executed | Transform.RestoreKeepsMonitorGeometry | Transform.ApplyThenRestoreIntended |
| Program.cs:700-749 | the open-apps branch tests `hWnd`, which is still `IntPtr.Zero` whenever control reaches it | no favourite selected; open-apps selection is a window h with an entry in the manual table: nothing is restored | restore window h from its stored favourite and drop the entry, or apply the fallback when there is none | high, not executed | App.Form.WindowedClicked | App.Form.WindowedClickedIntended |
