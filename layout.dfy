/** The data handling of the configuration window and of the layout preview
    in lib/layout.py: the bounding box of the previewed windows, the
    selection check, the integer-pair reader, the order in which selected
    windows are listed and the data the save button hands on. The widgets
    themselves are not modelled. */
module Layout {
  import opened Common
  import opened Text
  import opened Sorting
  import opened TitleCleaner
  import CS = ConfigStore

  /** `UIConstants.MAX_WINDOWS`. */
  const MAX_WINDOWS := 4

  /** `WindowInfo(name, pos_x, pos_y, width, height, always_on_top, exists)`:
      one rectangle of the layout preview. */
  datatype WindowInfo = WindowInfo(name: string, posX: int, posY: int, width: int, height: int,
                                   alwaysOnTop: bool, present: bool)

  // ----- _compute_bounds -----

  /** Python's `min(xs)`. */
  function MinOf(xs: seq<int>): (m: int)
    requires xs != []
    ensures m in xs
    ensures forall i :: 0 <= i < |xs| ==> m <= xs[i]
  {
    if |xs| == 1 then xs[0]
    else
      var m := MinOf(xs[1..]);
      assert forall i :: 1 <= i < |xs| ==> xs[i] == xs[1..][i - 1];
      if xs[0] <= m then xs[0] else m
  }

  /** Python's `max(xs)`. */
  function MaxOf(xs: seq<int>): (m: int)
    requires xs != []
    ensures m in xs
    ensures forall i :: 0 <= i < |xs| ==> xs[i] <= m
  {
    if |xs| == 1 then xs[0]
    else
      var m := MaxOf(xs[1..]);
      assert forall i :: 1 <= i < |xs| ==> xs[i] == xs[1..][i - 1];
      if xs[0] >= m then xs[0] else m
  }

  function Lefts(ws: seq<WindowInfo>): (r: seq<int>)
    ensures |r| == |ws| && forall i :: 0 <= i < |ws| ==> r[i] == ws[i].posX
  {
    seq(|ws|, i requires 0 <= i < |ws| => ws[i].posX)
  }

  function Tops(ws: seq<WindowInfo>): (r: seq<int>)
    ensures |r| == |ws| && forall i :: 0 <= i < |ws| ==> r[i] == ws[i].posY
  {
    seq(|ws|, i requires 0 <= i < |ws| => ws[i].posY)
  }

  function Rights(ws: seq<WindowInfo>): (r: seq<int>)
    ensures |r| == |ws| && forall i :: 0 <= i < |ws| ==> r[i] == ws[i].posX + ws[i].width
  {
    seq(|ws|, i requires 0 <= i < |ws| => ws[i].posX + ws[i].width)
  }

  function Bottoms(ws: seq<WindowInfo>): (r: seq<int>)
    ensures |r| == |ws| && forall i :: 0 <= i < |ws| ==> r[i] == ws[i].posY + ws[i].height
  {
    seq(|ws|, i requires 0 <= i < |ws| => ws[i].posY + ws[i].height)
  }

  /** The box `(min_x, min_y, max_x, max_y)` that `_compute_bounds` sets. */
  function BoundsOf(ws: seq<WindowInfo>, screenWidth: int, screenHeight: int): (int, int, int, int)
  {
    if ws == [] then (0, 0, screenWidth, screenHeight)
    else (MinOf(Lefts(ws)), MinOf(Tops(ws)), MaxOf(Rights(ws)), MaxOf(Bottoms(ws)))
  }

  /** With no windows the box is the screen; otherwise every window lies
      inside the box and each side of the box touches some window. */
  lemma BoundsTight(ws: seq<WindowInfo>, screenWidth: int, screenHeight: int)
    ensures ws == [] ==> BoundsOf(ws, screenWidth, screenHeight) == (0, 0, screenWidth, screenHeight)
    ensures var (minX, minY, maxX, maxY) := BoundsOf(ws, screenWidth, screenHeight);
      && (forall i :: 0 <= i < |ws| ==>
            minX <= ws[i].posX && minY <= ws[i].posY
            && ws[i].posX + ws[i].width <= maxX && ws[i].posY + ws[i].height <= maxY)
      && (ws != [] ==>
            && (exists i :: 0 <= i < |ws| && ws[i].posX == minX)
            && (exists i :: 0 <= i < |ws| && ws[i].posY == minY)
            && (exists i :: 0 <= i < |ws| && ws[i].posX + ws[i].width == maxX)
            && (exists i :: 0 <= i < |ws| && ws[i].posY + ws[i].height == maxY))
  {
    if ws != [] {
      var (minX, minY, maxX, maxY) := BoundsOf(ws, screenWidth, screenHeight);
      var a :| 0 <= a < |ws| && Lefts(ws)[a] == minX;
      var b :| 0 <= b < |ws| && Tops(ws)[b] == minY;
      var c :| 0 <= c < |ws| && Rights(ws)[c] == maxX;
      var d :| 0 <= d < |ws| && Bottoms(ws)[d] == maxY;
      assert ws[a].posX == minX && ws[b].posY == minY;
      assert ws[c].posX + ws[c].width == maxX && ws[d].posY + ws[d].height == maxY;
    }
  }

  /** `ScreenLayoutFrame`: the preview of a layout on a scaled-down screen. */
  class ScreenLayoutFrame {
    const windows: seq<WindowInfo>
    const screenWidth: int
    const screenHeight: int
    var minX: int
    var minY: int
    var maxX: int
    var maxY: int

    function Bounds(): (int, int, int, int)
      reads this
    {
      (minX, minY, maxX, maxY)
    }

    /** `__init__`, which ends by computing the bounds. */
    constructor (screenWidth: int, screenHeight: int, windows: seq<WindowInfo>)
      ensures this.windows == windows && this.screenWidth == screenWidth && this.screenHeight == screenHeight
      ensures Bounds() == BoundsOf(windows, screenWidth, screenHeight)
    {
      this.windows := windows;
      this.screenWidth := screenWidth;
      this.screenHeight := screenHeight;
      new;
      ComputeBounds();
    }

    /** `_compute_bounds()`: the screen when there are no windows, else the
        extremes of the four lists it collects. */
    method ComputeBounds()
      modifies this
      ensures Bounds() == BoundsOf(windows, screenWidth, screenHeight)
    {
      if windows == [] {
        minX, minY := 0, 0;
        maxX, maxY := screenWidth, screenHeight;
        return;
      }
      var xs: seq<int> := [];
      var ys: seq<int> := [];
      var xsEnd: seq<int> := [];
      var ysEnd: seq<int> := [];
      for i := 0 to |windows|
        invariant xs == Lefts(windows[..i]) && ys == Tops(windows[..i])
        invariant xsEnd == Rights(windows[..i]) && ysEnd == Bottoms(windows[..i])
      {
        var w := windows[i];
        xs := xs + [w.posX];
        ys := ys + [w.posY];
        xsEnd := xsEnd + [w.posX + w.width];
        ysEnd := ysEnd + [w.posY + w.height];
      }
      assert windows[..|windows|] == windows;
      minX := MinOf(xs);
      minY := MinOf(ys);
      maxX := MaxOf(xsEnd);
      maxY := MaxOf(ysEnd);
    }
  }

  // ----- confirm_selection -----

  /** `[title for title, var in switches.items() if var.get()]`. */
  function Checked(switches: seq<(string, bool)>): (r: seq<string>)
    ensures |r| <= |switches|
    ensures forall t :: t in r <==> exists i :: 0 <= i < |switches| && switches[i] == (t, true)
  {
    if switches == [] then []
    else
      var n := |switches| - 1;
      var init := Checked(switches[..n]);
      assert forall i :: 0 <= i < n ==> switches[..n][i] == switches[i];
      init + (if switches[n].1 then [switches[n].0] else [])
  }

  /** What `confirm_selection` does: an error for an empty selection or for
      more than `MAX_WINDOWS` windows, otherwise the settings step with the
      selected titles. */
  datatype Confirmation = NoWindowsSelected | TooManyWindows | ShowSettings(selected: seq<string>)

  function ConfirmSelection(switches: seq<(string, bool)>): (r: Confirmation)
  {
    var selected := Checked(switches);
    if selected == [] then NoWindowsSelected
    else if |selected| > MAX_WINDOWS then TooManyWindows
    else ShowSettings(selected)
  }

  /** The settings step is reached exactly with one to `MAX_WINDOWS`
      switched-on windows, which it receives in order. */
  lemma ConfirmSelectionSpec(switches: seq<(string, bool)>)
    ensures ConfirmSelection(switches) == NoWindowsSelected <==> forall i :: 0 <= i < |switches| ==> !switches[i].1
    ensures ConfirmSelection(switches) == TooManyWindows <==> |Checked(switches)| > MAX_WINDOWS
    ensures ConfirmSelection(switches).ShowSettings? ==>
      && 1 <= |ConfirmSelection(switches).selected| <= MAX_WINDOWS
      && ConfirmSelection(switches).selected == Checked(switches)
  {
    if Checked(switches) != [] {
      assert Checked(switches)[0] in Checked(switches);
    } else {
      forall i | 0 <= i < |switches| ensures !switches[i].1 {
        assert switches[i].0 !in Checked(switches);
      }
    }
  }

  // ----- validate_int_pair -----

  /** `validate_int_pair(value, default)`: the pair the text spells, or the
      default where `int` or the unpacking raises. */
  function ValidateIntPair(value: string, default: (int, int)): (int, int)
  {
    match ParseIntPair(value)
    case Some(p) => p
    case None => default
  }

  /** The reader never fails, falls back to the default only on text that
      is not a pair, and reads back what `"x,y"` formatting wrote. */
  lemma ValidateIntPairSpec(value: string, default: (int, int), x: int, y: int)
    ensures ParseIntPair(value).Some? ==> ValidateIntPair(value, default) == ParseIntPair(value).value
    ensures ParseIntPair(value).None? ==> ValidateIntPair(value, default) == default
    ensures ValidateIntPair(PairToString(x, y), default) == (x, y)
  {
    PairRoundTrip(x, y);
  }

  // ----- the order of the selected windows -----

  /** The sort key of one window: the first comma field of the `position`
      its settings report, `"0,0"` when there are none; `int` raises on
      anything else. */
  function PositionKey(values: Option<map<string, string>>): Result<int>
  {
    var pos := if values.Some? && "position" in values.value then values.value["position"] else "0,0";
    match ParseInt(Split(pos, ',')[0])
    case Some(x) => Ok(x)
    case None => Err(ValueError)
  }

  function KeyValue(settingsOf: string -> Option<map<string, string>>, title: string): int
  {
    match PositionKey(settingsOf(title))
    case Ok(x) => x
    case Err(_) => 0
  }

  /** The key `sorted` is given, with 0 standing in where `int` raises. */
  function SelectionKey(settingsOf: string -> Option<map<string, string>>): string -> int
  {
    t => KeyValue(settingsOf, t)
  }

  /** `sorted(selected_windows, key=...)`: Python computes every key before
      sorting, so one unreadable position aborts the whole step. */
  function SortSelection(selected: seq<string>, settingsOf: string -> Option<map<string, string>>): Result<seq<string>>
  {
    if exists i :: 0 <= i < |selected| && PositionKey(settingsOf(selected[i])).Err? then Err(ValueError)
    else Ok(SortByKey(selected, SelectionKey(settingsOf)))
  }

  /** The selection is sorted left to right by the reported x, stably, and
      loses no window; it fails exactly when some position is unreadable. */
  lemma SortSelectionSpec(selected: seq<string>, settingsOf: string -> Option<map<string, string>>, k: int)
    ensures SortSelection(selected, settingsOf).Err? <==>
      exists i :: 0 <= i < |selected| && PositionKey(settingsOf(selected[i])).Err?
    ensures SortSelection(selected, settingsOf).Ok? ==>
      var r := SortSelection(selected, settingsOf).value;
      && |r| == |selected|
      && SortedByKey(r, SelectionKey(settingsOf))
      && WithKey(r, SelectionKey(settingsOf), k) == WithKey(selected, SelectionKey(settingsOf), k)
  {
    if SortSelection(selected, settingsOf).Ok? {
      SortByKeyStable(selected, SelectionKey(settingsOf), k);
    }
  }

  /** A window without settings sorts as if at x = 0. */
  lemma DefaultKey()
    ensures PositionKey(None) == Ok(0)
  {
    assert IndexOfChar("0,0", ',') == Some(1);
    assert Split("0,0", ',')[0] == "0";
    IntRoundTrip(0);
    assert IntToString(0) == "0";
  }

  /** With no settings to read, every window gets key 0 and the selection
      keeps its order. */
  lemma UnknownWindowsKeepOrder(selected: seq<string>)
    ensures SortSelection(selected, t => None) == Ok(selected)
  {
    var settingsOf: string -> Option<map<string, string>> := t => None;
    DefaultKey();
    var key := SelectionKey(settingsOf);
    assert forall i :: 0 <= i < |selected| ==> key(selected[i]) == 0;
    var r := SortByKey(selected, key);
    SortByKeyStable(selected, key, 0);
    WithKeyAll(r, key, 0);
    WithKeyAll(selected, key, 0);
  }

  lemma {:induction false} WithKeyAll<T>(s: seq<T>, key: T -> int, k: int)
    requires forall i :: 0 <= i < |s| ==> key(s[i]) == k
    ensures WithKey(s, key, k) == s
  {
    if s != [] { WithKeyAll(s[1..], key, k); }
  }

  // ----- on_save -----

  /** The variables of one row of the settings step. */
  datatype Row = Row(title: string, position: string, size: string, alwaysOnTop: bool, titlebar: bool, name: string)

  function RowSettings(row: Row): CS.Settings
  {
    map["position" := PStr(row.position), "size" := PStr(row.size),
        "always_on_top" := PBool(row.alwaysOnTop), "titlebar" := PBool(row.titlebar),
        "name" := PStr(Strip(row.name))]
  }

  /** `config_data`: one entry per row, keyed by the window title. */
  function ConfigData(rows: seq<Row>): (data: CS.WindowData)
  {
    seq(|rows|, i requires 0 <= i < |rows| => (rows[i].title, RowSettings(rows[i])))
  }

  /** `on_save()` up to the call of `save_callback`: `None` where the
      cleaned configuration name is empty and an error is shown instead. */
  function SaveRequest(rows: seq<Row>, configName: string): Option<(string, CS.WindowData)>
  {
    var name := CleanWindowTitle(configName, false);
    if name == [] then None else Some((name, ConfigData(rows)))
  }

  /** Nothing is saved without a name, and a saved name is already in
      cleaned form. */
  lemma SaveRequestName(rows: seq<Row>, configName: string)
    ensures SaveRequest(rows, configName).None? <==> CleanWindowTitle(configName, false) == []
    ensures configName == [] ==> SaveRequest(rows, configName).None?
    ensures SaveRequest(rows, configName).Some? ==>
      && SaveRequest(rows, configName).value.1 == ConfigData(rows)
      && CleanWindowTitle(SaveRequest(rows, configName).value.0, false) == SaveRequest(rows, configName).value.0
  {
    CleanIdempotent(configName);
  }

  /** The entry of one row holds exactly the five settings of the row,
      the name trimmed. */
  lemma RowSettingsSpec(row: Row)
    ensures var settings := RowSettings(row);
      && settings.Keys == {"position", "size", "always_on_top", "titlebar", "name"}
      && settings["position"] == PStr(row.position) && settings["size"] == PStr(row.size)
      && settings["always_on_top"] == PBool(row.alwaysOnTop)
      && settings["titlebar"] == PBool(row.titlebar)
      && settings["name"] == PStr(Strip(row.name))
  {
  }
}
