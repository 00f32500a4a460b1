// The part of the Windows API the window managers call, modelled as a
// table of top-level windows. A call on a handle that is not in the table
// fails the way the Python bindings do: `GetWindowRect` and `SetWindowPos`
// raise, `GetWindowLong` answers 0, `GetWindowText` answers "", and
// `SetWindowLong` changes nothing. Z-order is reduced to the
// `WS_EX_TOPMOST` bit of the extended style.

module Win32 {
  import opened Common
  import opened Text

  type Hwnd = int

  const WS_CAPTION: bv32 := 0x00C0_0000
  const WS_BORDER: bv32 := 0x0080_0000
  const WS_THICKFRAME: bv32 := 0x0004_0000
  /** The bits `make_borderless` clears and `restore_window_frame` sets. */
  const FRAME_BITS: bv32 := WS_CAPTION | WS_BORDER | WS_THICKFRAME
  const WS_EX_TOPMOST: bv32 := 0x0000_0008

  /** The `uFlags` argument of `SetWindowPos`, one field per `SWP_*` bit
      the program passes. */
  datatype SwpFlags = SwpFlags(noSize: bool, noMove: bool, noZOrder: bool, noOwnerZOrder: bool,
                               frameChanged: bool, showWindow: bool)

  /** `SWP_NOMOVE | SWP_NOSIZE | SWP_NOOWNERZORDER`, used to change z-order. */
  const Z_ONLY := SwpFlags(true, true, false, true, false, false)
  /** `SWP_NOZORDER | SWP_NOSIZE`, used to move. */
  const MOVE_ONLY := SwpFlags(true, false, true, false, false, false)
  /** `SWP_NOZORDER | SWP_NOMOVE`, used to resize. */
  const SIZE_ONLY := SwpFlags(false, true, true, false, false, false)
  /** `SWP_NOMOVE | SWP_NOSIZE | SWP_FRAMECHANGED`. */
  const FRAME_CHANGED := SwpFlags(true, true, false, false, true, false)
  /** `SWP_NOMOVE | SWP_NOSIZE | SWP_FRAMECHANGED | SWP_SHOWWINDOW`. */
  const FRAME_SHOWN := SwpFlags(true, true, false, false, true, true)

  /** A top-level window: its rectangle, its two style words, whether it is
      minimized and visible, and its title. */
  datatype Win = Win(x: int, y: int, width: int, height: int, style: bv32, exstyle: bv32,
                     minimized: bool, visible: bool, title: string)

  type Windows = map<Hwnd, Win>

  /** The `hWndInsertAfter` argument: `0`, `HWND_TOPMOST`, `HWND_NOTOPMOST`. */
  datatype ZOrder = InsertTop | InsertTopMost | InsertNoTopMost

  /** The `nIndex` argument of `Get/SetWindowLong`. */
  datatype LongIndex = GwlStyle | GwlExStyle

  predicate IsTopmost(w: Win)
  {
    w.exstyle & WS_EX_TOPMOST != 0
  }

  /** The extended style with the topmost bit flipped. */
  function Flipped(ex: bv32): bv32
  {
    if ex & WS_EX_TOPMOST != 0 then ex & !WS_EX_TOPMOST else ex | WS_EX_TOPMOST
  }

  lemma FlipTwice(ex: bv32)
    ensures Flipped(Flipped(ex)) == ex
  {
    if ex & WS_EX_TOPMOST != 0 {
      BitCleared(ex);
      BitBack(ex);
    } else {
      BitSet(ex);
    }
  }

  lemma BitCleared(ex: bv32)
    ensures (ex & !WS_EX_TOPMOST) & WS_EX_TOPMOST == 0
  {
  }

  lemma BitBack(ex: bv32)
    requires ex & WS_EX_TOPMOST != 0
    ensures (ex & !WS_EX_TOPMOST) | WS_EX_TOPMOST == ex
  {
  }

  lemma BitSet(ex: bv32)
    ensures (ex | WS_EX_TOPMOST) & WS_EX_TOPMOST != 0
    ensures ex & WS_EX_TOPMOST == 0 ==> (ex | WS_EX_TOPMOST) & !WS_EX_TOPMOST == ex
  {
  }

  /** The extended style after a z-order change. */
  function Reordered(exstyle: bv32, after: ZOrder, noZOrder: bool): bv32
  {
    if noZOrder then exstyle
    else match after
      case InsertTop => exstyle
      case InsertTopMost => exstyle | WS_EX_TOPMOST
      case InsertNoTopMost => exstyle & !WS_EX_TOPMOST
  }

  /** What `SetWindowPos` does to a window. */
  function Positioned(w: Win, after: ZOrder, x: int, y: int, cx: int, cy: int, flags: SwpFlags): (r: Win)
    ensures r.style == w.style && r.minimized == w.minimized && r.title == w.title
    ensures (r.x, r.y) == if flags.noMove then (w.x, w.y) else (x, y)
    ensures (r.width, r.height) == if flags.noSize then (w.width, w.height) else (cx, cy)
    ensures r.exstyle == Reordered(w.exstyle, after, flags.noZOrder)
    ensures r.visible == (w.visible || flags.showWindow)
  {
    Win(if flags.noMove then w.x else x,
        if flags.noMove then w.y else y,
        if flags.noSize then w.width else cx,
        if flags.noSize then w.height else cy,
        w.style,
        Reordered(w.exstyle, after, flags.noZOrder),
        w.minimized,
        w.visible || flags.showWindow,
        w.title)
  }

  /** `win32gui.SetWindowPos`; `None` where the call raises. */
  function SetWindowPos(ws: Windows, h: Hwnd, after: ZOrder, x: int, y: int, cx: int, cy: int, flags: SwpFlags): (r: Option<Windows>)
    ensures r.Some? <==> h in ws
    ensures r.Some? ==> r.value == ws[h := Positioned(ws[h], after, x, y, cx, cy, flags)]
  {
    if h in ws then Some(ws[h := Positioned(ws[h], after, x, y, cx, cy, flags)]) else None
  }

  /** `win32gui.GetWindowLong`. */
  function GetWindowLong(ws: Windows, h: Hwnd, index: LongIndex): (r: bv32)
    ensures h !in ws ==> r == 0
  {
    if h !in ws then 0
    else match index
      case GwlStyle => ws[h].style
      case GwlExStyle => ws[h].exstyle
  }

  /** `win32gui.SetWindowLong`. */
  function SetWindowLong(ws: Windows, h: Hwnd, index: LongIndex, v: bv32): (r: Windows)
    ensures r.Keys == ws.Keys
    ensures forall g :: g in ws && g != h ==> r[g] == ws[g]
    ensures h in ws ==> GetWindowLong(r, h, index) == v
  {
    if h !in ws then ws
    else match index
      case GwlStyle => ws[h := ws[h].(style := v)]
      case GwlExStyle => ws[h := ws[h].(exstyle := v)]
  }

  /** `win32gui.GetWindowRect`: `(left, top, right, bottom)`, `None` where
      the call raises. */
  function GetWindowRect(ws: Windows, h: Hwnd): (r: Option<(int, int, int, int)>)
    ensures r.Some? <==> h in ws
    ensures r.Some? ==> r.value.2 - r.value.0 == ws[h].width && r.value.3 - r.value.1 == ws[h].height
  {
    if h in ws then
      var w := ws[h];
      Some((w.x, w.y, w.x + w.width, w.y + w.height))
    else None
  }

  /** `win32gui.GetWindowText`. */
  function GetWindowText(ws: Windows, h: Hwnd): string
  {
    if h in ws then ws[h].title else ""
  }

  /** `win32gui.IsWindowVisible`. */
  predicate IsWindowVisible(ws: Windows, h: Hwnd)
  {
    h in ws && ws[h].visible
  }

  /** `gw.Window(hwnd).isMinimized`, that is `IsIconic`. */
  predicate IsIconic(ws: Windows, h: Hwnd)
  {
    h in ws && ws[h].minimized
  }

  /** `win32gui.ShowWindow(hwnd, SW_RESTORE)`. */
  function ShowRestored(ws: Windows, h: Hwnd): (r: Windows)
    ensures r.Keys == ws.Keys
    ensures h in ws ==> r[h] == ws[h].(minimized := false)
    ensures forall g :: g in ws && g != h ==> r[g] == ws[g]
  {
    if h in ws then ws[h := ws[h].(minimized := false)] else ws
  }

  /** The visible windows in enumeration order, as `pygetwindow` lists them. */
  function VisibleOf(ws: Windows, order: seq<Hwnd>): (r: seq<Hwnd>)
    ensures forall i :: 0 <= i < |r| ==> r[i] in order && IsWindowVisible(ws, r[i])
    ensures forall h :: h in order && IsWindowVisible(ws, h) ==> h in r
    decreases |order|
  {
    if order == [] then []
    else
      var rest := VisibleOf(ws, order[..|order| - 1]);
      if IsWindowVisible(ws, order[|order| - 1]) then rest + [order[|order| - 1]] else rest
  }

  /** `gw.getAllTitles()`: the titles of the visible windows, in order. */
  function AllTitles(ws: Windows, order: seq<Hwnd>): (r: seq<string>)
    ensures |r| == |VisibleOf(ws, order)|
    ensures forall i :: 0 <= i < |r| ==> r[i] == GetWindowText(ws, VisibleOf(ws, order)[i])
  {
    var vis := VisibleOf(ws, order);
    seq(|vis|, i requires 0 <= i < |vis| => GetWindowText(ws, vis[i]))
  }

  /** `gw.getWindowsWithTitle(title)[0]`: the first visible window whose
      title contains `title`, ignoring case. */
  function FirstWithTitle(ws: Windows, vis: seq<Hwnd>, title: string): (r: Option<Hwnd>)
    ensures r.Some? ==> r.value in vis && Contains(Upper(GetWindowText(ws, r.value)), Upper(title))
    ensures r.None? ==> forall i :: 0 <= i < |vis| ==> !Contains(Upper(GetWindowText(ws, vis[i])), Upper(title))
    decreases |vis|
  {
    if vis == [] then None
    else if Contains(Upper(GetWindowText(ws, vis[0])), Upper(title)) then Some(vis[0])
    else FirstWithTitle(ws, vis[1..], title)
  }

  /** The desktop: the window table, changed by the calls below, and the
      order in which `EnumWindows` reports the windows. */
  class Desktop {
    var windows: Windows
    const order: seq<Hwnd>

    ghost predicate Valid()
      reads this
    {
      NoDup(order) && forall h :: h in windows <==> h in order
    }

    constructor (ws: Windows, order: seq<Hwnd>)
      requires NoDup(order) && forall h :: h in ws <==> h in order
      ensures Valid() && windows == ws && this.order == order
    {
      windows := ws;
      this.order := order;
    }

    /** `win32gui.SetWindowPos`; `ok` is false where it raises. */
    method SetPos(h: Hwnd, after: ZOrder, x: int, y: int, cx: int, cy: int, flags: SwpFlags) returns (ok: bool)
      modifies this
      ensures ok <==> h in old(windows)
      ensures windows.Keys == old(windows).Keys
      ensures windows == if ok then SetWindowPos(old(windows), h, after, x, y, cx, cy, flags).value else old(windows)
    {
      var r := SetWindowPos(windows, h, after, x, y, cx, cy, flags);
      ok := r.Some?;
      if ok {
        windows := r.value;
      }
    }

    /** `win32gui.SetWindowLong`. */
    method SetLong(h: Hwnd, index: LongIndex, v: bv32)
      modifies this
      ensures windows.Keys == old(windows).Keys
      ensures windows == SetWindowLong(old(windows), h, index, v)
    {
      windows := SetWindowLong(windows, h, index, v);
    }

    /** `win32gui.ShowWindow(hwnd, SW_RESTORE)` followed by
        `SetForegroundWindow`, which the model does not track. */
    method Restore(h: Hwnd)
      modifies this
      ensures windows.Keys == old(windows).Keys
      ensures windows == ShowRestored(old(windows), h)
    {
      windows := ShowRestored(windows, h);
    }
  }
}
