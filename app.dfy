/** `ApplicationState` of main.py: the state the main window's handlers
    share, over the window manager of window_manager.py and the
    configuration directory of config_manager.py. Each handler is proved to
    leave the state that `AppRules` describes. */
module App {
  import opened Common
  import opened Ini
  import opened Win32
  import opened WindowRules
  import opened WindowQueries
  import opened WindowApply
  import opened WindowManagers
  import opened Layout
  import opened Widgets
  import opened AppRules
  import CF = ConfigFiles

  class ApplicationState {
    /** The configuration directory the manager lists and loads. */
    const dir: CF.Dir
    /** `window_manager`: window_manager.py's manager. */
    const wm: WindowManager
    /** `app.combo_box`, whose callback is `on_config_select`. */
    const combo: CustomDropdown
    const screenWidth: int
    const screenHeight: int
    /** `app.compact_mode`. */
    var compactMode: bool
    var configFiles: seq<string>
    var configNames: seq<string>
    /** `config`: the configuration last selected. */
    var config: Option<Config>
    /** The text of `app.aot_label`. */
    var aotLabel: string
    /** What `update_managed_text` last received. */
    var managedLines: seq<string>
    var aotLines: seq<bool>
    /** The preview `set_layout_frame` last built. */
    var layoutFrame: ScreenLayoutFrame?

    ghost predicate Valid()
      reads this, wm, wm.desk
    {
      wm.Valid() && wm.legacy && |configFiles| == |configNames|
    }

    /** The state once `load_tk_GUI` has built the window: nothing listed
        or selected yet. */
    constructor (desk: Desktop, dir: CF.Dir, screenWidth: int, screenHeight: int, compact: bool)
      requires desk.Valid()
      ensures Valid() && fresh(wm) && fresh(combo) && wm.desk == desk
      ensures this.dir == dir && this.screenWidth == screenWidth && this.screenHeight == screenHeight
      ensures compactMode == compact && configFiles == [] && configNames == [] && config.None?
      ensures managedLines == [] && aotLines == [] && layoutFrame == null
      ensures wm.managed == [] && wm.topmost == {} && combo.values == [] && combo.hasCommand
    {
      this.dir := dir;
      this.screenWidth := screenWidth;
      this.screenHeight := screenHeight;
      wm := new WindowManager(desk, true);
      combo := new CustomDropdown([], true);
      compactMode := compact;
      configFiles := [];
      configNames := [];
      config := None;
      aotLabel := "";
      managedLines := [];
      aotLines := [];
      layoutFrame := null;
    }

    /** `update_always_on_top_status()`. */
    method UpdateAlwaysOnTopStatus()
      modifies this
      ensures aotLabel == Status(wm.Model())
      ensures configFiles == old(configFiles) && configNames == old(configNames) && config == old(config)
      ensures managedLines == old(managedLines) && aotLines == old(aotLines) && layoutFrame == old(layoutFrame)
      ensures compactMode == old(compactMode)
    {
      aotLabel := wm.GetAlwaysOnTopStatus();
    }

    /** `apply_settings()`: `list.index` raises `ValueError` for a name
        that is not listed; a file that does not load changes nothing;
        otherwise the manager is left as `Applied` describes and the label
        shows the new status. */
    method ApplySettings() returns (err: Option<PyError>)
      requires Valid()
      modifies this, wm, wm.desk
      ensures Valid()
      ensures configFiles == old(configFiles) && configNames == old(configNames) && config == old(config)
      ensures managedLines == old(managedLines) && aotLines == old(aotLines) && layoutFrame == old(layoutFrame)
      ensures compactMode == old(compactMode)
      ensures combo.value !in configNames ==>
        err == Some(ValueError) && wm.Model() == old(wm.Model()) && aotLabel == old(aotLabel)
      ensures combo.value in configNames ==>
        var loaded := CF.LoadConfig(dir, configFiles[IndexOrZero(configNames, combo.value)]);
        && err.None?
        && (loaded.None? ==> wm.Model() == old(wm.Model()) && aotLabel == old(aotLabel))
        && (loaded.Some? ==>
              && wm.Model() == Applied(old(wm.Model()), wm.desk.order, loaded.value, true)
              && aotLabel == Status(wm.Model()))
    {
      if combo.value !in configNames {
        return Some(ValueError);
      }
      err := None;
      var selectedConfig := configFiles[IndexOrZero(configNames, combo.value)];
      var loaded := CF.LoadConfig(dir, selectedConfig);
      if loaded.None? {
        return;
      }
      var c := loaded.value;
      var matching, missing := wm.FindMatchingWindows(Some(c));
      wm.ResetAllWindows();
      ApplyEach(c, matching);
      UpdateAlwaysOnTopStatus();
    }

    /** The loop of `apply_settings` over the matching windows. */
    method ApplyEach(c: Config, matching: seq<Match>)
      requires Valid()
      modifies wm, wm.desk
      ensures Valid()
      ensures wm.Model() == ApplyMatches(old(wm.Model()), c, matching, true)
    {
      ghost var s := wm.Model();
      for i := 0 to |matching|
        invariant Valid()
        invariant wm.Model() == ApplyMatches(s, c, matching[..i], true)
      {
        var m := matching[i];
        var settings := MatchSettings(c, m.configName);
        assert matching[..i + 1][..i] == matching[..i];
        if settings.Ok? {
          var _ := wm.ApplyWindowConfig(DictConfig(settings.value), m.hwnd);
        }
      }
      assert matching[..|matching|] == matching;
    }

    /** `reset_settings()`. */
    method ResetSettings()
      requires Valid()
      modifies wm, wm.desk
      ensures Valid() && wm.Model() == ResetAll(old(wm.Model()), true)
    {
      wm.ResetAllWindows();
    }

    /** `toggle_always_on_top()`: every tracked window toggled once, then
        the label updated. */
    method ToggleAlwaysOnTop()
      requires Valid()
      modifies this, wm.desk
      ensures Valid()
      ensures wm.Model() == FlipTracked(old(wm.Model()))
      ensures aotLabel == Status(wm.Model())
      ensures configFiles == old(configFiles) && configNames == old(configNames) && config == old(config)
      ensures managedLines == old(managedLines) && aotLines == old(aotLines) && layoutFrame == old(layoutFrame)
      ensures compactMode == old(compactMode)
    {
      ToggleEach();
      UpdateAlwaysOnTopStatus();
    }

    /** The loop over `topmost_windows`; the toggle leaves the set alone,
        so iterating over it while toggling is safe. */
    method ToggleEach()
      requires Valid()
      modifies wm.desk
      ensures Valid()
      ensures wm.Model() == FlipTracked(old(wm.Model()))
    {
      ghost var s := wm.Model();
      var rest := wm.topmost;
      ghost var done: set<Hwnd> := {};
      while rest != {}
        invariant Valid()
        invariant rest + done == s.topmost && rest !! done
        invariant wm.Model() == s.(windows := FlipAll(s.windows, done))
        decreases |rest|
      {
        EmptyOrHas(rest);
        var h :| h in rest;
        var _ := wm.ToggleAlwaysOnTop(h);
        ToggleStep(s, done, h);
        rest := rest - {h};
        done := done + {h};
      }
    }

    /** `update_managed_windows_list(config)`: the lines go to the compact
        view unless a flag cannot be read, which raises. */
    method UpdateManagedWindowsList(cfg: Option<Config>) returns (err: Option<PyError>)
      modifies this
      ensures cfg.None? ==> err.None? && managedLines == [] && aotLines == []
      ensures cfg.Some? ==>
        var r := ManagedList(cfg.value, |cfg.value.sections|);
        && (err.Some? <==> r.Err?)
        && (r.Err? ==> managedLines == old(managedLines) && aotLines == old(aotLines))
        && (r.Ok? ==> (managedLines, aotLines) == r.value)
      ensures configFiles == old(configFiles) && configNames == old(configNames) && config == old(config)
      ensures layoutFrame == old(layoutFrame) && aotLabel == old(aotLabel) && compactMode == old(compactMode)
    {
      if cfg.None? {
        managedLines, aotLines := [], [];
        return None;
      }
      var r := CollectManaged(cfg.value);
      if r.Err? {
        return Some(r.error);
      }
      managedLines, aotLines := r.value.0, r.value.1;
      return None;
    }

    /** The loop over the sections building `lines` and `aot_lines`. */
    static method CollectManaged(c: Config) returns (r: Result<(seq<string>, seq<bool>)>)
      ensures r == ManagedList(c, |c.sections|)
    {
      var lines: seq<string> := [];
      var aots: seq<bool> := [];
      for i := 0 to |c.sections|
        invariant ManagedList(c, i) == Ok((lines, aots))
      {
        var isAot := GetBoolean(c, i, AOT_OPTION, false);
        if isAot.Err? {
          ManagedListStops(c, i, |c.sections|);
          return Err(isAot.error);
        }
        lines := lines + [ManagedLine(c.sections[i].name, isAot.value)];
        aots := aots + [isAot.value];
      }
      return Ok((lines, aots));
    }

    /** `compute_window_layout(config, missing_windows)`: with a
        configuration, a new preview of the rectangles, unless a setting
        cannot be read, which raises. */
    method ComputeWindowLayout(cfg: Option<Config>, missing: seq<string>) returns (err: Option<PyError>)
      modifies this
      ensures cfg.None? ==> err.None? && layoutFrame == old(layoutFrame)
      ensures cfg.Some? ==>
        var r := ComputeLayout(cfg.value, missing);
        && (err.Some? <==> r.Err?)
        && (r.Err? ==> layoutFrame == old(layoutFrame))
        && (r.Ok? ==>
              && layoutFrame != null && fresh(layoutFrame)
              && layoutFrame.windows == r.value
              && (layoutFrame.screenWidth, layoutFrame.screenHeight) == (screenWidth, screenHeight)
              && layoutFrame.Bounds() == BoundsOf(r.value, screenWidth, screenHeight))
      ensures configFiles == old(configFiles) && configNames == old(configNames) && config == old(config)
      ensures managedLines == old(managedLines) && aotLines == old(aotLines)
      ensures aotLabel == old(aotLabel) && compactMode == old(compactMode)
    {
      if cfg.None? {
        return None;
      }
      var r := CollectPositioned(cfg.value, missing);
      if r.Err? {
        return Some(r.error);
      }
      layoutFrame := new ScreenLayoutFrame(screenWidth, screenHeight, r.value);
      return None;
    }

    /** The loop over the sections building `positioned_windows`. */
    static method CollectPositioned(c: Config, missing: seq<string>) returns (r: Result<seq<WindowInfo>>)
      ensures r == ComputeLayout(c, missing)
    {
      ghost var rs := LayoutEntries(c, missing);
      var positioned: seq<WindowInfo> := [];
      for i := 0 to |c.sections|
        invariant CollectSomes(rs[..i]) == Ok(positioned)
      {
        var entry := LayoutEntry(c, i, missing);
        if entry.Err? {
          CollectSomesStopsAt(rs, i, |rs|);
          assert rs[..|rs|] == rs;
          return Err(entry.error);
        }
        CollectSomesStep(rs, i, positioned);
        if entry.value.Some? {
          positioned := positioned + [entry.value.value];
        }
      }
      assert rs[..|rs|] == rs;
      return Ok(positioned);
    }

    /** `on_config_select(selected_value)` with the repair it means to call
        (see `SelectedConfig`): a listed name loads its file, stores the
        repaired configuration and redraws the current view. */
    method OnConfigSelect(value: string) returns (err: Option<PyError>)
      requires Valid()
      modifies this
      ensures Valid()
      ensures configFiles == old(configFiles) && configNames == old(configNames)
      ensures aotLabel == old(aotLabel) && compactMode == old(compactMode)
      ensures value !in configNames ==>
        && err.None? && config == old(config) && layoutFrame == old(layoutFrame)
        && managedLines == old(managedLines) && aotLines == old(aotLines)
      ensures value in configNames ==>
        var selected := SelectedConfig(true, CF.LoadConfig(dir, configFiles[IndexOrZero(configNames, value)]));
        && (selected.Err? ==>
              && err == Some(selected.error) && config == old(config) && layoutFrame == old(layoutFrame)
              && managedLines == old(managedLines) && aotLines == old(aotLines))
        && (selected.Ok? ==>
              var c := selected.value;
              && err.None? && config == Some(c)
              && (compactMode ==>
                    ManagedList(c, |c.sections|) == Ok((managedLines, aotLines)) && layoutFrame == old(layoutFrame))
              && (!compactMode ==>
                    && layoutFrame != null
                    && ComputeLayout(c, FindMatching(wm.desk.windows, wm.desk.order, Some(c)).1) == Ok(layoutFrame.windows)
                    && (layoutFrame.screenWidth, layoutFrame.screenHeight) == (screenWidth, screenHeight)
                    && layoutFrame.Bounds() == BoundsOf(layoutFrame.windows, screenWidth, screenHeight)
                    && managedLines == old(managedLines) && aotLines == old(aotLines)))
    {
      if value !in configNames {
        return None;
      }
      var idx := IndexOrZero(configNames, value);
      var selectedConfig := configFiles[idx];
      var loaded := CF.LoadConfig(dir, selectedConfig);
      var selected := SelectedConfig(true, loaded);
      if selected.Err? {
        return Some(selected.error);
      }
      config := Some(selected.value);
      var existing, missing := wm.FindMatchingWindows(config);
      RepairedSelectTotal(loaded.value, missing);
      if !compactMode {
        err := ComputeWindowLayout(config, missing);
      } else {
        err := UpdateManagedWindowsList(config);
      }
    }

    /** `update_config_list(config)`: list the directory again and, when
        it holds configurations, show and select the requested one (the
        first one when none is requested). */
    method UpdateConfigList(requested: string) returns (err: Option<PyError>)
      requires Valid()
      modifies this, combo
      ensures Valid()
      ensures compactMode == old(compactMode) && aotLabel == old(aotLabel)
      ensures (configFiles, configNames) == CF.ListConfigFiles(CF.Listing(dir))
      ensures configNames == [] ==>
        && err.None? && combo.values == old(combo.values) && combo.value == old(combo.value) && config == old(config)
        && layoutFrame == old(layoutFrame) && managedLines == old(managedLines) && aotLines == old(aotLines)
      ensures configNames != [] ==>
        && combo.values == configNames
        && combo.value == (if requested != "" then requested else configNames[0])
        && (combo.value !in configNames ==>
              && err.None? && config == old(config)
              && layoutFrame == old(layoutFrame) && managedLines == old(managedLines) && aotLines == old(aotLines))
        && (combo.value in configNames ==>
              var loaded := CF.LoadConfig(dir, configFiles[IndexOrZero(configNames, combo.value)]);
              loaded.Some? ==>
                var c := ConfigRepair.Repair(loaded.value);
                && err.None? && config == Some(c)
                && (compactMode ==>
                      ManagedList(c, |c.sections|) == Ok((managedLines, aotLines)) && layoutFrame == old(layoutFrame))
                && (!compactMode ==>
                      && layoutFrame != null
                      && ComputeLayout(c, FindMatching(wm.desk.windows, wm.desk.order, Some(c)).1) == Ok(layoutFrame.windows)
                      && managedLines == old(managedLines) && aotLines == old(aotLines)))
    {
      var listed := CF.ListConfigFiles(CF.Listing(dir));
      configFiles, configNames := listed.0, listed.1;
      err := None;
      if configFiles != [] && configNames != [] {
        combo.values := configNames;
        var value := if requested != "" then requested else configNames[0];
        combo.value := value;
        err := OnConfigSelect(value);
      }
    }

    /** `on_mode_toggle()`: switch between the compact list and the
        preview, and redraw the one now shown from the stored
        configuration. */
    method OnModeToggle() returns (err: Option<PyError>)
      requires Valid()
      modifies this
      ensures Valid()
      ensures compactMode == !old(compactMode) && config == old(config)
      ensures configFiles == old(configFiles) && configNames == old(configNames)
      ensures compactMode && config.Some? ==>
        var r := ManagedList(config.value, |config.value.sections|);
        (err.Some? <==> r.Err?) && (r.Ok? ==> (managedLines, aotLines) == r.value)
      ensures !compactMode && config.Some? ==>
        var r := ComputeLayout(config.value, FindMatching(wm.desk.windows, wm.desk.order, config).1);
        && (err.Some? <==> r.Err?)
        && (r.Err? ==> layoutFrame == old(layoutFrame))
        && (r.Ok? ==>
              && layoutFrame != null && layoutFrame.windows == r.value
              && (layoutFrame.screenWidth, layoutFrame.screenHeight) == (screenWidth, screenHeight)
              && layoutFrame.Bounds() == BoundsOf(r.value, screenWidth, screenHeight))
      ensures compactMode && config.Some? && ManagedList(config.value, |config.value.sections|).Err? ==>
        managedLines == old(managedLines) && aotLines == old(aotLines)
      ensures compactMode && config.None? ==> err.None? && managedLines == [] && aotLines == []
      ensures !compactMode && config.None? ==> err.None? && layoutFrame == old(layoutFrame)
      ensures compactMode ==> layoutFrame == old(layoutFrame)
      ensures !compactMode ==> managedLines == old(managedLines) && aotLines == old(aotLines)
      ensures aotLabel == old(aotLabel)
    {
      compactMode := !compactMode;
      if compactMode {
        err := UpdateManagedWindowsList(config);
      } else {
        var existing, missing := wm.FindMatchingWindows(config);
        err := ComputeWindowLayout(config, missing);
      }
    }
  }
}
