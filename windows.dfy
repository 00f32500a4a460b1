/** `WindowManager` of window_manager.py and lib/window_manager.py as a
    class: the three collections it updates in place, over a `Desktop`
    that holds the windows. `legacy` selects the behaviour of
    window_manager.py. Every method is proved to leave the state the
    functions of `WindowRules`, `WindowQueries` and `WindowApply` describe,
    and to keep the manager's invariant. */
module WindowManagers {
  import opened Common
  import opened Text
  import opened Sorting
  import opened Ini
  import opened TitleCleaner
  import opened Win32
  import opened WindowRules
  import opened WindowQueries
  import opened WindowApply

  /** The handles of `hs` whose window has the topmost bit, as
      `get_always_on_top_status` tests it. */
  function LiveAmong(ws: Windows, hs: set<Hwnd>): set<Hwnd>
  {
    set h | h in hs && GetWindowLong(ws, h, GwlExStyle) & WS_EX_TOPMOST != 0
  }

  lemma LiveAmongAdd(ws: Windows, done: set<Hwnd>, h: Hwnd)
    requires h !in done
    ensures GetWindowLong(ws, h, GwlExStyle) & WS_EX_TOPMOST != 0 ==>
      |LiveAmong(ws, done + {h})| == |LiveAmong(ws, done)| + 1
    ensures GetWindowLong(ws, h, GwlExStyle) & WS_EX_TOPMOST == 0 ==>
      |LiveAmong(ws, done + {h})| == |LiveAmong(ws, done)|
  {
    if GetWindowLong(ws, h, GwlExStyle) & WS_EX_TOPMOST != 0 {
      assert LiveAmong(ws, done + {h}) == LiveAmong(ws, done) + {h};
    } else {
      assert LiveAmong(ws, done + {h}) == LiveAmong(ws, done);
    }
  }

  /** A set is empty or has a member. */
  lemma EmptyOrHas(s: set<Hwnd>)
    ensures s == {} || exists h :: h in s
  {
    if forall h :: h !in s {
      assert s == {};
    }
  }

  class WindowManager {
    /** `managed_windows`. */
    var managed: seq<Hwnd>
    /** `topmost_windows`. */
    var topmost: set<Hwnd>
    /** `_window_states`. */
    var states: map<Hwnd, Option<Metrics>>
    /** The windows the Windows API calls act on. */
    const desk: Desktop
    /** Whether this is window_manager.py rather than lib/window_manager.py. */
    const legacy: bool

    /** The manager's state as a value. */
    function Model(): Wm
      reads this, desk
    {
      Wm(managed, topmost, states, desk.windows)
    }

    ghost predicate Valid()
      reads this, desk
    {
      desk.Valid() && Inv(Model())
    }

    /** `__init__`: nothing managed yet. */
    constructor (desk: Desktop, legacy: bool)
      requires desk.Valid()
      ensures Valid() && this.desk == desk && this.legacy == legacy
      ensures managed == [] && topmost == {} && states == map[]
    {
      managed := [];
      topmost := {};
      states := map[];
      this.desk := desk;
      this.legacy := legacy;
    }

    /** `set_always_on_top(hwnd, enable)`. */
    method SetAlwaysOnTop(h: Hwnd, enable: bool)
      requires Valid()
      modifies this, desk
      ensures Valid() && Model() == WindowRules.SetAlwaysOnTop(old(Model()), h, enable)
    {
      ghost var s := Model();
      var ok := desk.SetPos(h, if enable then InsertTopMost else InsertNoTopMost, 0, 0, 0, 0, Z_ONLY);
      if ok {
        if enable && h !in topmost {
          topmost := topmost + {h};
        } else if !enable && h in topmost {
          topmost := topmost - {h};
        }
      }
      InvSetAlwaysOnTop(s, h, enable);
    }

    /** `add_managed_window(hwnd)`. */
    method AddManagedWindow(h: Hwnd)
      requires Valid()
      modifies this
      ensures Valid() && Model() == AddManaged(old(Model()), h)
    {
      ghost var s := Model();
      if h !in managed {
        managed := managed + [h];
        states := states[h := WindowMetrics(desk.windows, h)];
      }
      InvAdd(s, h);
    }

    /** `set_window_position(hwnd, x, y)`. */
    method SetWindowPosition(h: Hwnd, x: int, y: int) returns (ok: bool)
      requires Valid()
      modifies desk
      ensures Valid() && (ok, desk.windows) == MoveWindow(old(desk.windows), h, x, y)
    {
      ghost var s := Model();
      var rect := GetWindowRect(desk.windows, h);
      if rect.None? {
        return false;
      }
      var (left, top, right, bottom) := rect.value;
      ok := desk.SetPos(h, InsertTop, x, y, right - left, bottom - top, MOVE_ONLY);
      InvWindows(s, desk.windows);
    }

    /** `set_window_size(hwnd, width, height)`. */
    method SetWindowSize(h: Hwnd, width: int, height: int) returns (ok: bool)
      requires Valid()
      modifies desk
      ensures Valid() && (ok, desk.windows) == ResizeWindow(old(desk.windows), h, width, height)
    {
      ghost var s := Model();
      var rect := GetWindowRect(desk.windows, h);
      if rect.None? {
        return false;
      }
      var (left, top, _, _) := rect.value;
      ok := desk.SetPos(h, InsertTop, left, top, width, height, SIZE_ONLY);
      InvWindows(s, desk.windows);
    }

    /** `make_borderless(hwnd)`. */
    method MakeBorderless(h: Hwnd) returns (ok: bool)
      requires Valid()
      modifies desk
      ensures Valid() && (ok, desk.windows) == WindowRules.MakeBorderless(old(desk.windows), h)
    {
      ghost var s := Model();
      var style := GetWindowLong(desk.windows, h, GwlStyle);
      style := Unframed(style);
      desk.SetLong(h, GwlStyle, style);
      ok := desk.SetPos(h, InsertTop, 0, 0, 0, 0, FRAME_CHANGED);
      InvWindows(s, desk.windows);
    }

    /** `restore_window_frame(hwnd)`. */
    method RestoreWindowFrame(h: Hwnd) returns (ok: bool)
      requires Valid()
      modifies desk
      ensures Valid() && (ok, desk.windows) == RestoreFrame(old(desk.windows), h)
    {
      ghost var s := Model();
      var style := GetWindowLong(desk.windows, h, GwlStyle);
      style := Framed(style);
      desk.SetLong(h, GwlStyle, style);
      ok := desk.SetPos(h, InsertTop, 0, 0, 0, 0, FRAME_SHOWN);
      InvWindows(s, desk.windows);
    }

    /** `remove_managed_window(hwnd)`: a `None` snapshot raises on its first
        subscript, which the method catches, so nothing changes then. */
    method RemoveManagedWindow(h: Hwnd)
      requires Valid()
      modifies this, desk
      ensures Valid() && Model() == RemoveManaged(old(Model()), h)
    {
      ghost var s := Model();
      if h !in managed {
        return;
      }
      if h in states {
        var original := states[h];
        if original.None? {
          return;
        }
        var m := original.value;
        var _ := SetWindowPosition(h, m.x, m.y);
        var _ := SetWindowSize(h, m.width, m.height);
        desk.SetLong(h, GwlStyle, m.style);
        desk.SetLong(h, GwlExStyle, m.exstyle);
        assert desk.windows == RemoveManaged(s, h).windows;
        states := states - {h};
      }
      managed := RemoveFirst(managed, h);
      if h in topmost {
        topmost := topmost - {h};
      }
      InvRemove(s, h);
    }

    /** `reset_all_windows()`, over a copy of the managed handles. */
    method ResetAllWindows()
      requires Valid()
      modifies this, desk
      ensures Valid() && Model() == ResetAll(old(Model()), legacy)
    {
      var windowsToReset := managed;
      ghost var s := Model();
      for i := 0 to |windowsToReset|
        invariant Valid()
        invariant Model() == ResetSeq(s, windowsToReset[..i], legacy)
      {
        var h := windowsToReset[i];
        ghost var before := Model();
        if !legacy {
          SetAlwaysOnTop(h, false);
          var _ := RestoreWindowFrame(h);
        }
        RemoveManagedWindow(h);
        assert windowsToReset[..i + 1][..i] == windowsToReset[..i];
        assert Model() == ResetStep(before, h, legacy);
      }
      assert windowsToReset[..|windowsToReset|] == windowsToReset;
    }

    /** `get_always_on_top_status()`: count the tracked handles whose
        window has the topmost bit. */
    method GetAlwaysOnTopStatus() returns (status: string)
      ensures status == Status(Model())
    {
      if |topmost| == 0 {
        return "AOT: None";
      }
      var count := 0;
      var rest := topmost;
      ghost var done: set<Hwnd> := {};
      while rest != {}
        invariant rest + done == topmost && rest !! done
        invariant count == |LiveAmong(desk.windows, done)|
        decreases |rest|
      {
        EmptyOrHas(rest);
        var h :| h in rest;
        LiveAmongAdd(desk.windows, done, h);
        if GetWindowLong(desk.windows, h, GwlExStyle) & WS_EX_TOPMOST != 0 {
          count := count + 1;
        }
        rest := rest - {h};
        done := done + {h};
      }
      assert LiveAmong(desk.windows, topmost) == LiveTopmost(Model());
      return StatusText(count);
    }

    /** `check_window_valid(hwnd)`, that is `IsWindow`. */
    function CheckWindowValid(h: Hwnd): (r: bool)
      reads desk
      ensures r <==> h in desk.windows
    {
      h in desk.windows
    }

    /** The list comprehension of `cleanup_invalid_windows`: the managed
        handles without a window, in order. */
    method InvalidWindows() returns (invalid: seq<Hwnd>)
      ensures invalid == Stale(desk.windows, managed)
    {
      invalid := [];
      for i := 0 to |managed|
        invariant invalid == Stale(desk.windows, managed[..i])
      {
        assert managed[..i + 1][..i] == managed[..i];
        if !CheckWindowValid(managed[i]) {
          invalid := invalid + [managed[i]];
        }
      }
      assert managed[..|managed|] == managed;
    }

    /** The loop of `cleanup_invalid_windows` over the collected handles. */
    method ForgetHandles(invalid: seq<Hwnd>)
      modifies this
      ensures Model() == ForgetAll(old(Model()), invalid)
    {
      ghost var s := Model();
      for j := 0 to |invalid|
        invariant Model() == ForgetAll(s, invalid[..j])
      {
        var h := invalid[j];
        ghost var before := Model();
        if h in states {
          states := states - {h};
        } else {
          assert states == before.states - {h};
        }
        if h in topmost {
          topmost := topmost - {h};
        }
        managed := RemoveFirst(managed, h);
        assert Model() == Forget(before, h);
        ForgetAllStep(s, invalid, j);
      }
      assert invalid[..|invalid|] == invalid;
    }

    /** `cleanup_invalid_windows()` of window_manager.py: forget every
        managed handle without a window, and count them. */
    method CleanupInvalidWindows() returns (count: nat)
      requires Valid() && legacy
      modifies this
      ensures Valid()
      ensures (count, Model()) == Cleanup(old(Model()))
    {
      ghost var s := Model();
      var invalid := InvalidWindows();
      ForgetHandles(invalid);
      CleanupSpec(s);
      count := |invalid|;
    }

    /** `manage_selected_window(hwnd)` of window_manager.py. */
    method ManageSelectedWindow(h: Hwnd) returns (ok: bool)
      requires Valid() && legacy
      modifies this, desk
      ensures Valid()
      ensures (ok, Model()) == ManageSelected(old(Model()), h)
    {
      if h == 0 || !CheckWindowValid(h) {
        return false;
      }
      AddManagedWindow(h);
      SetAlwaysOnTop(h, true);
      var _ := MakeBorderless(h);
      return true;
    }

    /** `toggle_always_on_top(hwnd)`; `raised` is whether the call failed
        (the method then returns `False`, otherwise `None`). */
    method ToggleAlwaysOnTop(h: Hwnd) returns (raised: bool)
      requires Valid()
      modifies desk
      ensures Valid()
      ensures Model() == Toggle(old(Model()), h)
      ensures raised <==> h in topmost && h !in old(desk.windows)
    {
      ghost var s := Model();
      raised := false;
      if h in topmost {
        var isTopmost := GetWindowLong(desk.windows, h, GwlExStyle) & WS_EX_TOPMOST != 0;
        var ok := desk.SetPos(h, if isTopmost then InsertNoTopMost else InsertTopMost, 0, 0, 0, 0, Z_ONLY);
        raised := !ok;
      }
      ToggleFlips(s, h);
      InvWindows(s, desk.windows);
    }

    /** `get_all_window_titles()`: the enumeration callback keeps the
        titles of visible windows that are not empty and name no system
        window; the result is sorted. */
    method GetAllWindowTitles() returns (titles: seq<string>)
      ensures titles == WindowTitles(desk.windows, desk.order, legacy)
    {
      var deny := SystemWindows(legacy);
      var windows: seq<string> := [];
      for i := 0 to |desk.order|
        invariant windows == ListedTitles(desk.windows, desk.order[..i], deny)
      {
        var h := desk.order[i];
        assert desk.order[..i + 1][..i] == desk.order[..i];
        if IsWindowVisible(desk.windows, h) {
          var title := GetWindowText(desk.windows, h);
          if title != "" && !IsSystemWindow(title, deny) {
            windows := windows + [title];
          }
        }
      }
      assert desk.order[..|desk.order|] == desk.order;
      return SortStrings(windows);
    }

    // -------------------------------------------------------------------
    // find_matching_windows

    /** The inner loop of `find_matching_windows` for one section: the
        first listed title whose cleaned form contains the cleaned section
        name gives the window. */
    method FindWindowFor(allTitles: seq<string>, section: string) returns (found: Option<Hwnd>)
      requires allTitles == AllTitles(desk.windows, desk.order)
      ensures found == SectionMatch(desk.windows, desk.order, section)
    {
      var cleanedSection := CleanWindowTitle(section, false);
      var j := 0;
      while j < |allTitles|
        invariant 0 <= j <= |allTitles|
        invariant FirstMatchFrom(allTitles, MatchesKey(cleanedSection), 0) == FirstMatchFrom(allTitles, MatchesKey(cleanedSection), j)
      {
        assert MatchesKey(cleanedSection)(allTitles[j]) == TitleMatches(allTitles[j], cleanedSection);
        if TitleMatches(allTitles[j], cleanedSection) {
          return Some(WindowWithTitle(desk.windows, desk.order, j));
        }
        j := j + 1;
      }
      return None;
    }

    /** `find_matching_windows(config)`; `None` stands for a missing
        parser. */
    method FindMatchingWindows(config: Option<Config>) returns (matching: seq<Match>, missing: seq<string>)
      ensures (matching, missing) == FindMatching(desk.windows, desk.order, config)
    {
      if config.None? || |config.value.sections| == 0 {
        return [], [];
      }
      var allTitles := AllTitles(desk.windows, desk.order);
      var names := Names(config.value);
      ghost var picks := Picks(desk.windows, desk.order, names);
      matching, missing := [], [];
      for i := 0 to |names|
        invariant (matching, missing) == Sift(names[..i], picks[..i])
      {
        var found := FindWindowFor(allTitles, names[i]);
        SiftStep(names, picks, i);
        if found.Some? {
          matching := matching + [Match(names[i], found.value)];
        } else {
          missing := missing + [names[i]];
        }
      }
      assert names[..|names|] == names;
      assert picks[..|picks|] == picks;
    }

    // -------------------------------------------------------------------
    // apply_window_config: the dictionary branch

    /** The `position` step, whose own `try` catches a value that cannot
        be read as a pair. */
    method ApplyPosition(h: Hwnd, d: map<string, PyVal>)
      requires Valid()
      modifies desk
      ensures Valid() && Model() == DictMove(old(Model()), h, d)
    {
      if "position" in d && Truthy(d["position"]) {
        var pos := PairOf(d["position"]);
        if pos.Some? {
          var _ := SetWindowPosition(h, pos.value.0, pos.value.1);
        }
      }
    }

    /** The `size` step. */
    method ApplySize(h: Hwnd, d: map<string, PyVal>)
      requires Valid()
      modifies desk
      ensures Valid() && Model() == DictResize(old(Model()), h, d)
    {
      if "size" in d && Truthy(d["size"]) {
        var size := PairOf(d["size"]);
        if size.Some? {
          var _ := SetWindowSize(h, size.value.0, size.value.1);
        }
      }
    }

    /** The `always_on_top` step. */
    method ApplyTopmost(h: Hwnd, d: map<string, PyVal>)
      requires Valid()
      modifies this, desk
      ensures Valid() && Model() == DictTopmost(old(Model()), h, d)
    {
      if "always_on_top" in d {
        SetAlwaysOnTop(h, Truthy(d["always_on_top"]));
      }
    }

    /** The `has_titlebar` step. */
    method ApplyTitlebar(h: Hwnd, d: map<string, PyVal>)
      requires Valid()
      modifies desk
      ensures Valid() && Model() == DictFrame(old(Model()), h, d)
    {
      if "has_titlebar" in d {
        if !Truthy(d["has_titlebar"]) {
          var _ := MakeBorderless(h);
        } else {
          var _ := RestoreWindowFrame(h);
        }
      }
    }

    /** The dictionary branch, in the order of the variant. */
    method ApplyDictConfig(h: Hwnd, d: map<string, PyVal>)
      requires Valid()
      modifies this, desk
      ensures Valid() && Model() == ApplyDict(old(Model()), h, d, legacy)
    {
      if legacy {
        ApplyPosition(h, d);
        ApplySize(h, d);
        ApplyTopmost(h, d);
        ApplyTitlebar(h, d);
      } else {
        ApplyTitlebar(h, d);
        ApplyPosition(h, d);
        ApplySize(h, d);
        ApplyTopmost(h, d);
      }
    }

    // -------------------------------------------------------------------
    // apply_window_config: the parser branch

    /** `if position: pos = eval(position); self.set_window_position(...)`;
        a value that is not a pair ends the whole call. */
    method ParserPosition(h: Hwnd, v: Option<string>) returns (ok: bool)
      requires Valid()
      modifies desk
      ensures Valid() && (ok, Model()) == ParserMove(old(Model()), h, v)
    {
      if v.Some? && v.value != "" {
        var pos := ParseIntPair(v.value);
        if pos.None? {
          return false;
        }
        var _ := SetWindowPosition(h, pos.value.0, pos.value.1);
      }
      return true;
    }

    /** `if size: dimensions = eval(size); self.set_window_size(...)`. */
    method ParserSize(h: Hwnd, v: Option<string>) returns (ok: bool)
      requires Valid()
      modifies desk
      ensures Valid() && (ok, Model()) == ParserResize(old(Model()), h, v)
    {
      if v.Some? && v.value != "" {
        var size := ParseIntPair(v.value);
        if size.None? {
          return false;
        }
        var _ := SetWindowSize(h, size.value.0, size.value.1);
      }
      return true;
    }

    /** The body of the section loop for the section that matched. */
    method ApplySectionSettings(h: Hwnd, c: Config, i: nat) returns (ok: bool)
      requires Valid() && i < |c.sections|
      modifies this, desk
      ensures Valid()
      ensures (ok, Model()) == if legacy then LegacySection(old(Model()), h, c, i) else LaterSection(old(Model()), h, c, i)
    {
      var position := OptionValue(c, i, "position");
      var size := OptionValue(c, i, "size");
      var alwaysOnTop := GetBoolean(c, i, "always_on_top", false);
      if alwaysOnTop.Err? {
        return false;
      }
      var hasTitlebar := GetBoolean(c, i, "has_titlebar", true);
      if hasTitlebar.Err? {
        return false;
      }
      if legacy {
        ok := ParserPosition(h, position);
        if !ok {
          return;
        }
        ok := ParserSize(h, size);
        if !ok {
          return;
        }
        SetAlwaysOnTop(h, alwaysOnTop.value);
        if !hasTitlebar.value {
          var _ := MakeBorderless(h);
        }
      } else {
        SetAlwaysOnTop(h, alwaysOnTop.value);
        if !hasTitlebar.value {
          var _ := MakeBorderless(h);
        } else {
          var _ := RestoreWindowFrame(h);
        }
        ok := ParserPosition(h, position);
        if !ok {
          return;
        }
        ok := ParserSize(h, size);
      }
    }

    /** The parser branch: the loop over the sections, applying the first
        whose name matches the window title and then breaking. */
    method ApplyParserConfig(h: Hwnd, c: Config) returns (ok: bool)
      requires Valid()
      modifies this, desk
      ensures Valid() && (ok, Model()) == ApplyParser(old(Model()), h, c, legacy)
    {
      var windowTitle := GetWindowText(desk.windows, h);
      var names := Names(c);
      ghost var hits := SectionHits(names, windowTitle);
      for i := 0 to |names|
        invariant FirstTrue(hits, 0) == FirstTrue(hits, i)
      {
        if MatchWindowTitle(names[i], windowTitle) {
          ok := ApplySectionSettings(h, c, i);
          return;
        }
      }
      return true;
    }

    /** `apply_window_config(config, hwnd)`. */
    method ApplyWindowConfig(config: WindowConfig, h: Hwnd) returns (ok: bool)
      requires Valid()
      modifies this, desk
      ensures Valid()
      ensures (ok, Model()) == ApplyConfig(old(Model()), config, h, legacy)
    {
      if Falsy(config) {
        return false;
      }
      AddManagedWindow(h);
      if h !in desk.windows {
        return false;
      }
      if IsIconic(desk.windows, h) {
        if legacy {
          return false;
        }
        ghost var s := Model();
        desk.Restore(h);
        InvWindows(s, desk.windows);
      }
      match config
      case DictConfig(d) =>
        ApplyDictConfig(h, d);
        return true;
      case ParserConfig(c) =>
        ok := ApplyParserConfig(h, c);
    }
  }
}
