/**
 * A simulated desktop standing in for the Win32 windowing API: a table from
 * window handle to window record, a table from window handle to the bounds of
 * the monitor nearest to it, the enumeration order of top-level windows, the
 * shell window, the process-name table, and a log of every mutating call.
 *
 * `Desktop` is that state as a value; `WindowTable` is the same state as an
 * object whose methods are the P/Invoke calls the engine makes.
 */
module Windowing {
  import opened Wrappers
  import opened Int32Arith
  import opened Win32

  /** An `HWND` / `IntPtr` value; `Zero` is `IntPtr.Zero`. */
  type Handle = int
  const Zero: Handle := 0
  /** `HWND_TOP` is `new IntPtr(0)`. */
  const HWND_TOP: Handle := 0

  /** Everything the engine can observe or change about one top-level window. */
  datatype Window = Window(
    style: bv32,
    exStyle: bv32,
    placement: Placement,
    rect: Rect,
    visible: bool,
    title: string,
    pid: nat)

  /** The two `GetWindowLong` / `SetWindowLong` indices the engine uses. */
  datatype LongIndex = Style | ExStyle

  /** A mutating call issued to the windowing API, with its arguments. */
  datatype Call =
    | SetWindowLongCall(hwnd: Handle, index: LongIndex, value: bv32)
    | SetWindowPlacementCall(hwnd: Handle, placement: Placement)
    | SetWindowPosCall(hwnd: Handle, insertAfter: Handle, x: int32, y: int32, cx: int32, cy: int32, flags: bv32)
    | ShowWindowCall(hwnd: Handle, cmd: int32)

  /** What one step of `EnumWindows` lets the enumerator ask about a window. */
  datatype RawWindow = RawWindow(hwnd: Handle, visible: bool, text: string, pid: nat)

  datatype Desktop = Desktop(
    windows: map<Handle, Window>,
    monitors: map<Handle, Rect>,
    order: seq<Handle>,
    shell: Handle,
    processNames: map<nat, string>,
    calls: seq<Call>)
  {
    /** `GetWindowLong`; a handle that names no window reads as 0. */
    function GetLong(h: Handle, index: LongIndex): (r: bv32)
      ensures h !in windows ==> r == 0
      ensures h in windows && index.Style? ==> r == windows[h].style
      ensures h in windows && index.ExStyle? ==> r == windows[h].exStyle
    {
      if h !in windows then 0
      else if index.Style? then windows[h].style
      else windows[h].exStyle
    }

    /** `SetWindowLong`; on a handle that names no window the call fails silently. */
    function SetLong(h: Handle, index: LongIndex, value: bv32): (r: Desktop)
      ensures r.SameEnvironment(this) && r.windows.Keys == windows.Keys
      ensures forall g :: g in windows && g != h ==> r.windows[g] == windows[g]
      ensures h in windows ==> r.windows[h] == if index.Style? then windows[h].(style := value) else windows[h].(exStyle := value)
      ensures r.calls == calls + [SetWindowLongCall(h, index, value)]
    {
      var logged := this.(calls := calls + [SetWindowLongCall(h, index, value)]);
      if h !in windows then logged
      else if index.Style? then logged.(windows := windows[h := windows[h].(style := value)])
      else logged.(windows := windows[h := windows[h].(exStyle := value)])
    }

    /** `GetWindowPlacement` into a zero-initialised struct: on failure the struct stays zero. */
    function GetPlacement(h: Handle): (p: Placement)
      ensures h in windows ==> p == windows[h].placement
      ensures h !in windows ==> p == ZeroPlacement
    {
      if h in windows then windows[h].placement else ZeroPlacement
    }

    /**
     * `SetWindowPlacement`. The simulation stores the placement and, for a
     * normal-state placement, moves the window to its normal position; what a
     * minimized or maximized placement does to the window is not simulated.
     */
    function SetPlacement(h: Handle, p: Placement): (r: Desktop)
      ensures r.SameEnvironment(this) && r.windows.Keys == windows.Keys
      ensures forall g :: g in windows && g != h ==> r.windows[g] == windows[g]
      ensures h in windows ==> r.windows[h] == windows[h].(placement := p, rect := PlacedRect(p, windows[h].rect))
      ensures h in windows && p.showCmd == SW_SHOWNORMAL ==> r.windows[h].rect == p.normalPosition
      ensures h in windows && p.showCmd != SW_SHOWNORMAL ==> r.windows[h].rect == windows[h].rect
      ensures r.calls == calls + [SetWindowPlacementCall(h, p)]
    {
      var logged := this.(calls := calls + [SetWindowPlacementCall(h, p)]);
      if h !in windows then logged
      else logged.(windows := windows[h := windows[h].(placement := p, rect := PlacedRect(p, windows[h].rect))])
    }

    /** `GetMonitorInfo(MonitorFromWindow(h, MONITOR_DEFAULTTONEAREST))`: the full monitor rectangle, or failure. */
    function MonitorBounds(h: Handle): (r: Option<Rect>)
      ensures r.Some? <==> h in monitors
      ensures r.Some? ==> r.value == monitors[h]
    {
      if h in monitors then Some(monitors[h]) else None
    }

    /**
     * `SetWindowPos`. The simulation honours SWP_NOMOVE, SWP_NOSIZE and
     * SWP_SHOWWINDOW; z-order and frame recalculation are only logged. The
     * new right and bottom edges are computed in 32-bit arithmetic.
     */
    function SetPos(h: Handle, insertAfter: Handle, x: int32, y: int32, cx: int32, cy: int32, flags: bv32): (r: Desktop)
      ensures r.SameEnvironment(this) && r.windows.Keys == windows.Keys
      ensures forall g :: g in windows && g != h ==> r.windows[g] == windows[g]
      ensures h in windows ==> var w, w' := windows[h], r.windows[h];
        && w'.style == w.style && w'.exStyle == w.exStyle && w'.title == w.title && w'.pid == w.pid
        && w'.placement == (if flags & SWP_NOMOVE != 0 && flags & SWP_NOSIZE != 0 then w.placement else Tracked(w.placement, w'.rect))
        && (if flags & SWP_NOMOVE != 0 then w'.rect.left == w.rect.left && w'.rect.top == w.rect.top
            else w'.rect.left == x && w'.rect.top == y)
        && Sub32(w'.rect.right, w'.rect.left) == (if flags & SWP_NOSIZE != 0 then Sub32(w.rect.right, w.rect.left) else cx)
        && Sub32(w'.rect.bottom, w'.rect.top) == (if flags & SWP_NOSIZE != 0 then Sub32(w.rect.bottom, w.rect.top) else cy)
        && w'.visible == (w.visible || flags & SWP_SHOWWINDOW != 0)
      ensures r.calls == calls + [SetWindowPosCall(h, insertAfter, x, y, cx, cy, flags)]
    {
      var logged := this.(calls := calls + [SetWindowPosCall(h, insertAfter, x, y, cx, cy, flags)]);
      if h !in windows then logged
      else
        var w := windows[h];
        var noMove := flags & SWP_NOMOVE != 0;
        var noSize := flags & SWP_NOSIZE != 0;
        var left := if noMove then w.rect.left else x;
        var top := if noMove then w.rect.top else y;
        var width := if noSize then Sub32(w.rect.right, w.rect.left) else cx;
        var height := if noSize then Sub32(w.rect.bottom, w.rect.top) else cy;
        var rect := Rect(left, top, Add32(left, width), Add32(top, height));
        SubAddCancel(left, width);
        SubAddCancel(top, height);
        var visible := w.visible || flags & SWP_SHOWWINDOW != 0;
        var placement := if noMove && noSize then w.placement else Tracked(w.placement, rect);
        logged.(windows := windows[h := w.(rect := rect, visible := visible, placement := placement)])
    }

    /** `ShowWindow`: logged only; how the OS changes the window in response is not simulated. */
    function Show(h: Handle, cmd: int32): (r: Desktop)
      ensures r.SameEnvironment(this) && r.windows == windows
      ensures r.calls == calls + [ShowWindowCall(h, cmd)]
    {
      this.(calls := calls + [ShowWindowCall(h, cmd)])
    }

    /** `IsWindowVisible`, `GetWindowText` and `GetWindowThreadProcessId` for one handle. */
    function RawOf(h: Handle): RawWindow {
      if h in windows then RawWindow(h, windows[h].visible, windows[h].title, windows[h].pid)
      else RawWindow(h, false, "", 0)
    }

    /** What `EnumWindows` shows the enumeration callback, window by window. */
    function Enumerate(): (raw: seq<RawWindow>)
      ensures |raw| == |order|
      ensures forall i :: 0 <= i < |order| ==> raw[i] == RawOf(order[i])
    {
      seq(|order|, i requires 0 <= i < |order| => RawOf(order[i]))
    }

    /** The parts of the desktop no engine call changes. */
    ghost predicate SameEnvironment(other: Desktop) {
      monitors == other.monitors && order == other.order && shell == other.shell && processNames == other.processNames
    }
  }

  /**
   * The placement the OS reports after a window is moved or sized to `r`: a
   * window in its normal state has its normal position follow its rectangle;
   * a minimized or maximized window keeps the normal position it will return to.
   */
  function Tracked(p: Placement, r: Rect): (q: Placement)
    ensures q.showCmd == p.showCmd && q.minPosition == p.minPosition && q.maxPosition == p.maxPosition
    ensures q.normalPosition == if p.showCmd == SW_SHOWNORMAL then r else p.normalPosition
  {
    if p.showCmd == SW_SHOWNORMAL then p.(normalPosition := r) else p
  }

  /** Where `SetWindowPlacement` leaves a window whose rectangle was `rect` in the simulation. */
  function PlacedRect(p: Placement, rect: Rect): Rect {
    if p.showCmd == SW_SHOWNORMAL then p.normalPosition else rect
  }

  /**
   * A SetWindowPos with SWP_NOMOVE | SWP_NOSIZE and without SWP_SHOWWINDOW
   * changes nothing about any window: it only appears in the call log.
   */
  lemma NoMoveNoSizeKeepsWindows(d: Desktop, h: Handle, after: Handle, x: int32, y: int32, cx: int32, cy: int32, flags: bv32)
    requires flags & SWP_NOMOVE != 0 && flags & SWP_NOSIZE != 0 && flags & SWP_SHOWWINDOW == 0
    ensures d.SetPos(h, after, x, y, cx, cy, flags).windows == d.windows
    ensures d.SetPos(h, after, x, y, cx, cy, flags).calls == d.calls + [SetWindowPosCall(h, after, x, y, cx, cy, flags)]
  {
    if h in d.windows {
      var r := d.windows[h].rect;
      AddSubCancel(r.left, r.right);
      AddSubCancel(r.top, r.bottom);
      assert d.windows[h].(rect := r) == d.windows[h];
    }
  }

  /**
   * A SetWindowPos that moves and sizes the window to the origin and extent of
   * `m` (width and height computed with C#'s unchecked subtraction) leaves the
   * window's rectangle equal to `m`.
   */
  lemma MoveToRectCoversIt(d: Desktop, h: Handle, after: Handle, m: Rect, flags: bv32)
    requires flags & SWP_NOMOVE == 0 && flags & SWP_NOSIZE == 0
    ensures h in d.windows ==> d.SetPos(h, after, m.left, m.top, Sub32(m.right, m.left), Sub32(m.bottom, m.top), flags).windows[h].rect == m
  {
    AddSubCancel(m.left, m.right);
    AddSubCancel(m.top, m.bottom);
  }

  /**
   * A SetWindowPos that neither keeps the position nor the size nor shows the
   * window replaces the window's rectangle by the requested one and nothing else.
   */
  lemma MoveAndSizePlaces(d: Desktop, h: Handle, after: Handle, x: int32, y: int32, cx: int32, cy: int32, flags: bv32)
    requires flags & SWP_NOMOVE == 0 && flags & SWP_NOSIZE == 0 && flags & SWP_SHOWWINDOW == 0
    requires h in d.windows
    ensures var rect := Rect(x, y, Add32(x, cx), Add32(y, cy));
      d.SetPos(h, after, x, y, cx, cy, flags).windows[h] == d.windows[h].(rect := rect, placement := Tracked(d.windows[h].placement, rect))
  {
  }

  /** The windowing API as an object: each method is one API call on the simulated desktop. */
  class WindowTable {
    var windows: map<Handle, Window>
    var monitors: map<Handle, Rect>
    var order: seq<Handle>
    var shell: Handle
    var processNames: map<nat, string>
    var calls: seq<Call>

    /** The current state of the desktop. */
    function Value(): Desktop
      reads this
    {
      Desktop(windows, monitors, order, shell, processNames, calls)
    }

    constructor (d: Desktop)
      ensures Value() == d
    {
      windows, monitors, order, shell, processNames, calls := d.windows, d.monitors, d.order, d.shell, d.processNames, d.calls;
    }

    function GetWindowLong(h: Handle, index: LongIndex): bv32
      reads this
    {
      Value().GetLong(h, index)
    }

    function GetWindowPlacement(h: Handle): Placement
      reads this
    {
      Value().GetPlacement(h)
    }

    function GetMonitorInfo(h: Handle): Option<Rect>
      reads this
    {
      Value().MonitorBounds(h)
    }

    method SetWindowLong(h: Handle, index: LongIndex, value: bv32)
      modifies this
      ensures Value() == old(Value()).SetLong(h, index, value)
    {
      calls := calls + [SetWindowLongCall(h, index, value)];
      if h in windows {
        var w := windows[h];
        windows := windows[h := if index.Style? then w.(style := value) else w.(exStyle := value)];
      }
    }

    method SetWindowPlacement(h: Handle, p: Placement)
      modifies this
      ensures Value() == old(Value()).SetPlacement(h, p)
    {
      calls := calls + [SetWindowPlacementCall(h, p)];
      if h in windows {
        windows := windows[h := windows[h].(placement := p, rect := PlacedRect(p, windows[h].rect))];
      }
    }

    method SetWindowPos(h: Handle, insertAfter: Handle, x: int32, y: int32, cx: int32, cy: int32, flags: bv32)
      modifies this
      ensures Value() == old(Value()).SetPos(h, insertAfter, x, y, cx, cy, flags)
    {
      var d := Value().SetPos(h, insertAfter, x, y, cx, cy, flags);
      windows, calls := d.windows, d.calls;
    }

    method ShowWindow(h: Handle, cmd: int32)
      modifies this
      ensures Value() == old(Value()).Show(h, cmd)
    {
      calls := calls + [ShowWindowCall(h, cmd)];
    }
  }
}
