/**
 * The Win32 constants and structures the window-state engine uses, and the
 * chrome-stripping bit arithmetic done on the style words.
 *
 * A C# `int` style word is represented by its bit pattern, a `bv32`.
 */
module Win32 {
  import opened Int32Arith

  // GetWindowLong / SetWindowLong indices.
  const GWL_STYLE: int := -16
  const GWL_EXSTYLE: int := -20

  // Window styles.
  const WS_BORDER: bv32 := 0x0080_0000
  const WS_DLGFRAME: bv32 := 0x0040_0000
  const WS_CAPTION: bv32 := WS_BORDER | WS_DLGFRAME
  const WS_SYSMENU: bv32 := 0x0008_0000
  const WS_THICKFRAME: bv32 := 0x0004_0000
  const WS_MINIMIZEBOX: bv32 := 0x0002_0000
  const WS_MAXIMIZEBOX: bv32 := 0x0001_0000

  // Extended window styles.
  const WS_EX_CLIENTEDGE: bv32 := 0x0000_0200
  const WS_EX_WINDOWEDGE: bv32 := 0x0000_0100
  const WS_EX_STATICEDGE: bv32 := 0x0002_0000
  const WS_EX_DLGMODALFRAME: bv32 := 0x0000_0001

  // SetWindowPos flags.
  const SWP_NOSIZE: bv32 := 0x0001
  const SWP_NOMOVE: bv32 := 0x0002
  const SWP_NOZORDER: bv32 := 0x0004
  const SWP_FRAMECHANGED: bv32 := 0x0020
  const SWP_SHOWWINDOW: bv32 := 0x0040

  // ShowWindow commands (also the values of WINDOWPLACEMENT.showCmd).
  /** The `showCmd` of a window in its normal (restored) state; the program itself never names it. */
  const SW_SHOWNORMAL: int32 := 1
  const SW_SHOWMINIMIZED: int32 := 2
  const SW_RESTORE: int32 := 9

  /** Every style bit the engine removes. */
  const ChromeMask: bv32 := 0x00CF_0000
  /** Every extended-style bit the engine removes. */
  const EdgeMask: bv32 := 0x0002_0301

  /** The caption is exactly the border and the dialog frame. */
  lemma CaptionIsBorderAndDialogFrame()
    ensures WS_CAPTION == 0x00C0_0000
    ensures WS_CAPTION & WS_BORDER == WS_BORDER && WS_CAPTION & WS_DLGFRAME == WS_DLGFRAME
  {
  }

  /** The two masks are the unions of the bits the engine clears one by one. */
  lemma MasksAreTheClearedBits()
    ensures ChromeMask == WS_BORDER | WS_DLGFRAME | WS_SYSMENU | WS_MINIMIZEBOX | WS_MAXIMIZEBOX | WS_THICKFRAME
    ensures EdgeMask == WS_EX_CLIENTEDGE | WS_EX_WINDOWEDGE | WS_EX_STATICEDGE | WS_EX_DLGMODALFRAME
  {
  }

  datatype Point = Point(x: int32, y: int32)

  datatype Rect = Rect(left: int32, top: int32, right: int32, bottom: int32)

  /** WINDOWPLACEMENT without its `length` field (which only carries the struct size). */
  datatype Placement = Placement(flags: int32, showCmd: int32, minPosition: Point, maxPosition: Point, normalPosition: Rect)

  /** A freshly constructed C# struct: every field zero. */
  const ZeroRect: Rect := Rect(0, 0, 0, 0)
  const ZeroPlacement: Placement := Placement(0, 0, Point(0, 0), Point(0, 0), ZeroRect)

  /**
   * The style word with the title bar, system menu, minimize and maximize
   * boxes, border, dialog frame and sizing frame removed, one `&= ~` at a
   * time as the engine does it.
   */
  function StripStyle(style: bv32): (r: bv32)
    ensures r & ChromeMask == 0
    ensures r & !ChromeMask == style & !ChromeMask
  {
    var s0 := style & !WS_CAPTION;
    var s1 := s0 & !WS_SYSMENU;
    var s2 := s1 & !WS_MINIMIZEBOX;
    var s3 := s2 & !WS_MAXIMIZEBOX;
    var s4 := s3 & !WS_BORDER;
    var s5 := s4 & !WS_DLGFRAME;
    s5 & !WS_THICKFRAME
  }

  /** The extended style with the client, window, static and dialog-modal edges removed. */
  function StripExStyle(exStyle: bv32): (r: bv32)
    ensures r & EdgeMask == 0
    ensures r & !EdgeMask == exStyle & !EdgeMask
  {
    var e0 := exStyle & !WS_EX_CLIENTEDGE;
    var e1 := e0 & !WS_EX_WINDOWEDGE;
    var e2 := e1 & !WS_EX_STATICEDGE;
    e2 & !WS_EX_DLGMODALFRAME
  }

  /** Stripping is determined by the bits outside the masks, so a second strip changes nothing. */
  lemma StripIdempotent(style: bv32, exStyle: bv32)
    ensures StripStyle(StripStyle(style)) == StripStyle(style)
    ensures StripExStyle(StripExStyle(exStyle)) == StripExStyle(exStyle)
  {
  }

  /** Stripping keeps exactly the bits outside the mask: two words agree after stripping iff they agree outside it. */
  lemma StripStyleDeterminedOutsideMask(a: bv32, b: bv32)
    ensures StripStyle(a) == StripStyle(b) <==> a & !ChromeMask == b & !ChromeMask
  {
  }
}
