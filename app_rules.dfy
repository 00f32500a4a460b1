/** What the handlers of `ApplicationState` in main.py compute, as functions
    of the loaded configuration and of the window manager's state: the
    compact list of managed windows, the rectangles of the layout preview,
    the settings applied to each matching window, and the always-on-top
    toggle over every tracked window. The class in `App` is proved to do
    what these functions say. */
module AppRules {
  import opened Common
  import opened Text
  import opened Ini
  import opened ConfigRepair
  import opened Win32
  import opened WindowRules
  import opened WindowQueries
  import opened WindowApply
  import opened Layout

  /** `UIConstants.WINDOW_TITLE_MAX_LENGTH`. */
  const WINDOW_TITLE_MAX_LENGTH := 20

  const AOT_OPTION := "always_on_top"

  // ----- update_managed_windows_list -----

  /** The title of a managed window, starred when it is kept on top. */
  function ManagedTitle(section: string, aot: bool): string
  {
    if aot then "* " + section + " *" else section
  }

  /** One line of the compact list: the title, cut to the maximum length
      with `...` appended when it is longer. */
  function ManagedLine(section: string, aot: bool): (line: string)
  {
    var title := ManagedTitle(section, aot);
    if |title| > WINDOW_TITLE_MAX_LENGTH then title[..WINDOW_TITLE_MAX_LENGTH] + "..." else title
  }

  /** A line never exceeds the maximum by more than the ellipsis, an
      always-on-top line keeps its star, and a short plain name is shown as
      it is. */
  lemma ManagedLineShape(section: string, aot: bool)
    ensures |ManagedLine(section, aot)| <= WINDOW_TITLE_MAX_LENGTH + 3
    ensures aot ==> ManagedLine(section, aot)[..2] == "* "
    ensures !aot && |section| <= WINDOW_TITLE_MAX_LENGTH ==> ManagedLine(section, aot) == section
    ensures |ManagedTitle(section, aot)| > WINDOW_TITLE_MAX_LENGTH ==>
      ManagedLine(section, aot)[..WINDOW_TITLE_MAX_LENGTH] == ManagedTitle(section, aot)[..WINDOW_TITLE_MAX_LENGTH]
  {
    var title := ManagedTitle(section, aot);
    if aot {
      assert title[..2] == "* ";
    }
  }

  /** The lines and flags the loop has built after the first `n` sections;
      `getboolean` raises on a value outside its table, and the exception
      leaves the handler. */
  function ManagedList(c: Config, n: nat): (r: Result<(seq<string>, seq<bool>)>)
    requires n <= |c.sections|
  {
    if n == 0 then Ok(([], []))
    else match ManagedList(c, n - 1)
      case Err(e) => Err(e)
      case Ok((lines, aots)) =>
        match GetBoolean(c, n - 1, AOT_OPTION, false)
        case Err(e) => Err(e)
        case Ok(aot) => Ok((lines + [ManagedLine(c.sections[n - 1].name, aot)], aots + [aot]))
  }

  /** The list has one line per section, in order, with that section's
      always-on-top flag; it fails exactly when some flag is unreadable. */
  lemma {:induction false} ManagedListSpec(c: Config, n: nat)
    requires n <= |c.sections|
    ensures ManagedList(c, n).Ok? <==> forall i :: 0 <= i < n ==> GetBoolean(c, i, AOT_OPTION, false).Ok?
    ensures ManagedList(c, n).Ok? ==>
      var (lines, aots) := ManagedList(c, n).value;
      && |lines| == n && |aots| == n
      && forall i :: 0 <= i < n ==>
           aots[i] == GetBoolean(c, i, AOT_OPTION, false).value
           && lines[i] == ManagedLine(c.sections[i].name, aots[i])
  {
    if n > 0 {
      ManagedListSpec(c, n - 1);
      var flag := GetBoolean(c, n - 1, AOT_OPTION, false);
      if ManagedList(c, n - 1).Ok? && flag.Ok? {
        var (lines, aots) := ManagedList(c, n - 1).value;
        var line := ManagedLine(c.sections[n - 1].name, flag.value);
        assert ManagedList(c, n) == Ok((lines + [line], aots + [flag.value]));
        assert forall i :: 0 <= i < n - 1 ==> (lines + [line])[i] == lines[i] && (aots + [flag.value])[i] == aots[i];
      }
    }
  }

  /** Once a flag is unreadable, the loop's outcome stays an exception. */
  lemma {:induction false} ManagedListStops(c: Config, i: nat, k: nat)
    requires i < k <= |c.sections| && ManagedList(c, i).Ok? && GetBoolean(c, i, AOT_OPTION, false).Err?
    ensures ManagedList(c, k) == Err(GetBoolean(c, i, AOT_OPTION, false).error)
    decreases k
  {
    if k > i + 1 {
      ManagedListStops(c, i, k - 1);
    }
  }

  // ----- compute_window_layout -----

  predicate Filled(v: Option<string>)
  {
    v.Some? && v.value != []
  }

  /** What one section adds to the preview: nothing unless both position
      and size are set, a rectangle when both read as pairs, and the
      `ValueError` of `int` or of the unpacking otherwise. */
  function LayoutEntry(c: Config, i: nat, missing: seq<string>): (r: Result<Option<WindowInfo>>)
    requires i < |c.sections|
  {
    var name := c.sections[i].name;
    var pos := OptionValue(c, i, "position");
    var size := OptionValue(c, i, "size");
    if !(Filled(pos) && Filled(size)) then Ok(None)
    else match (ParseIntPair(pos.value), ParseIntPair(size.value))
      case (Some((x, y)), Some((w, h))) =>
        var flag := OptionValue(c, i, AOT_OPTION);
        var aot := Lower(if flag.Some? then flag.value else "false") == "true";
        Ok(Some(WindowInfo(name, x, y, w, h, aot, name !in missing)))
      case _ => Err(ValueError)
  }

  function LayoutEntries(c: Config, missing: seq<string>): (r: seq<Result<Option<WindowInfo>>>)
    ensures |r| == |c.sections|
    ensures forall i :: 0 <= i < |r| ==> r[i] == LayoutEntry(c, i, missing)
  {
    seq(|c.sections|, i requires 0 <= i < |c.sections| => LayoutEntry(c, i, missing))
  }

  /** The rectangles of the preview, or the exception that ends the loop. */
  function ComputeLayout(c: Config, missing: seq<string>): Result<seq<WindowInfo>>
  {
    CollectSomes(LayoutEntries(c, missing))
  }

  /** A section holding what the configuration window writes (`"x,y"` and
      `"w,h"`) is drawn at that place and size, marked missing or present,
      and with the flag it stores. */
  lemma LayoutOfWritten(c: Config, i: nat, missing: seq<string>, x: int, y: int, w: int, h: int)
    requires i < |c.sections|
    requires OptionValue(c, i, "position") == Some(PairToString(x, y))
    requires OptionValue(c, i, "size") == Some(PairToString(w, h))
    ensures LayoutEntry(c, i, missing).Ok?
    ensures var r := LayoutEntry(c, i, missing).value;
      && r.Some?
      && r.value.name == c.sections[i].name
      && (r.value.posX, r.value.posY, r.value.width, r.value.height) == (x, y, w, h)
      && r.value.present == (c.sections[i].name !in missing)
  {
    PairRoundTrip(x, y);
    PairRoundTrip(w, h);
  }

  /** The preview fails exactly when some section with both settings holds
      one that is not a pair; otherwise it shows, in section order, exactly
      the sections with both settings, each marked present unless missing. */
  lemma ComputeLayoutSpec(c: Config, missing: seq<string>)
    ensures ComputeLayout(c, missing).Err? <==>
      exists i :: 0 <= i < |c.sections| && LayoutEntry(c, i, missing).Err?
    ensures ComputeLayout(c, missing).Ok? ==>
      var ws := ComputeLayout(c, missing).value;
      var idx := SomeIndices(OkValues(LayoutEntries(c, missing)));
      && |ws| == |idx|
      && (forall j, k :: 0 <= j < k < |idx| ==> idx[j] < idx[k])
      && (forall j :: 0 <= j < |ws| ==>
            idx[j] < |c.sections| && LayoutEntry(c, idx[j], missing) == Ok(Some(ws[j]))
            && ws[j].name == c.sections[idx[j]].name
            && ws[j].present == (ws[j].name !in missing))
      && (forall i :: (0 <= i < |c.sections| && Filled(OptionValue(c, i, "position"))
                         && Filled(OptionValue(c, i, "size"))) ==> i in idx)
  {
    var rs := LayoutEntries(c, missing);
    CollectSomesSpec(rs);
    if ComputeLayout(c, missing).Ok? {
      var opts := OkValues(rs);
      SomesAt(opts);
      var idx := SomeIndices(opts);
      forall i | 0 <= i < |c.sections| && Filled(OptionValue(c, i, "position")) && Filled(OptionValue(c, i, "size"))
        ensures i in idx
      {
        assert rs[i].Ok?;
        assert opts[i].Some?;
      }
    }
  }

  // ----- after validate_and_repair_config -----

  /** An option of a repaired section is in the form the repair enforces. */
  lemma RepairedOption(s: Section, key: string)
    requires RepairedSection(s)
    ensures Get(s.items, key).Some? ==> ValidOption(key, Get(s.items, key).value)
  {
    if Get(s.items, key).Some? {
      var j :| 0 <= j < |s.items| && s.items[j].0 == key;
      GetAt(s.items, j);
    }
  }

  /** Every section of a repaired configuration reads cleanly. */
  lemma RepairedSectionReads(c: Config, i: nat, missing: seq<string>)
    requires i < |Repair(c).sections|
    ensures GetBoolean(Repair(c), i, AOT_OPTION, false).Ok?
    ensures LayoutEntry(Repair(c), i, missing).Ok?
  {
    RepairValid0(c, i);
    RepairedFlagReads(Repair(c), i);
    RepairedPairsRead(Repair(c), i, missing);
  }

  lemma RepairedFlagReads(r: Config, i: nat)
    requires i < |r.sections| && r.defaults == [] && RepairedSection(r.sections[i])
    ensures GetBoolean(r, i, AOT_OPTION, false).Ok?
  {
    RepairedOption(r.sections[i], AOT_OPTION);
    FlagWordsLower();
  }

  lemma RepairedPairsRead(r: Config, i: nat, missing: seq<string>)
    requires i < |r.sections| && r.defaults == [] && RepairedSection(r.sections[i])
    ensures LayoutEntry(r, i, missing).Ok?
  {
    var s := r.sections[i];
    RepairedOption(s, "position");
    RepairedOption(s, "size");
    if Get(s.items, "size").Some? {
      SizeIsPair(Get(s.items, "size").value);
    }
  }

  lemma RepairValid0(c: Config, i: nat)
    requires i < |Repair(c).sections|
    ensures Repair(c).defaults == [] && RepairedSection(Repair(c).sections[i])
  {
    RepairKeepsOrder(c);
    var idx := SomeIndices(RepairedSections(c.defaults, c.sections));
    assert Some(Repair(c).sections[i]) == RepairSection(c.defaults, c.sections[idx[i]]);
  }

  lemma SizeIsPair(v: string)
    requires IsSize(v)
    ensures ParseIntPair(v).Some?
  {
    var p := Split(v, ',');
    assert IsIntLiteral(p[0]) && IsIntLiteral(p[1]);
  }

  /** With the repair in place, neither the compact list nor the preview
      can fail: every flag is a boolean word and every position and size a
      pair. */
  lemma RepairedSelectTotal(c: Config, missing: seq<string>)
    ensures ManagedList(Repair(c), |Repair(c).sections|).Ok?
    ensures ComputeLayout(Repair(c), missing).Ok?
  {
    var r := Repair(c);
    forall i | 0 <= i < |r.sections|
      ensures GetBoolean(r, i, AOT_OPTION, false).Ok? && LayoutEntry(r, i, missing).Ok?
    {
      RepairedSectionReads(c, i, missing);
    }
    ManagedListSpec(r, |r.sections|);
    ComputeLayoutSpec(r, missing);
  }

  // ----- on_config_select -----

  /** The configuration `on_config_select` stores for a listed name.
      `repairs` says whether the configuration manager defines
      `validate_and_repair_config`; calling it on a file that did not load
      raises `AttributeError` as well. */
  function SelectedConfig(repairs: bool, loaded: Option<Config>): (r: Result<Config>)
  {
    if !repairs then Err(AttributeError)
    else match loaded
      case None => Err(AttributeError)
      case Some(c) => Ok(Repair(c))
  }

  /** main.py pairs the handler with config_manager.py, whose manager has
      no `validate_and_repair_config`: selecting any listed configuration
      raises before anything is stored. */
  lemma RootSelectFails(loaded: Option<Config>)
    ensures SelectedConfig(false, loaded) == Err(AttributeError)
  {
  }

  /** With the repair available, a configuration that loads is stored in
      repaired form, which every later step reads without error. */
  lemma RepairedSelectStored(c: Config, missing: seq<string>)
    ensures SelectedConfig(true, Some(c)) == Ok(Repair(c))
    ensures Valid(c) ==> Valid(SelectedConfig(true, Some(c)).value)
    ensures ComputeLayout(SelectedConfig(true, Some(c)).value, missing).Ok?
  {
    RepairedSelectTotal(c, missing);
    if Valid(c) {
      RepairValid(c);
    }
  }

  // ----- apply_settings -----

  function StrOrNone(v: Option<string>): PyVal
  {
    if v.Some? then PStr(v.value) else PNone
  }

  /** The dictionary `apply_settings` builds for a matched section: the two
      raw settings (`None` when absent) and the two flags read with
      `getboolean`, whose `ValueError` the handler's `try` catches. */
  function MatchSettings(c: Config, section: string): (r: Result<map<string, PyVal>>)
  {
    match Find(c, section)
    case None =>
      Ok(map["position" := PNone, "size" := PNone, "always_on_top" := PBool(false), "has_titlebar" := PBool(true)])
    case Some(i) =>
      match (GetBoolean(c, i, AOT_OPTION, false), GetBoolean(c, i, "titlebar", true))
      case (Ok(aot), Ok(bar)) =>
        Ok(map["position" := StrOrNone(OptionValue(c, i, "position")),
               "size" := StrOrNone(OptionValue(c, i, "size")),
               "always_on_top" := PBool(aot), "has_titlebar" := PBool(bar)])
      case _ => Err(ValueError)
  }

  /** The dictionary is never empty, so it always reaches the dictionary
      branch of `apply_window_config`; it is missing only where a flag of
      the section is unreadable, and then carries the section's settings. */
  lemma MatchSettingsSpec(c: Config, section: string)
    ensures MatchSettings(c, section).Err? <==>
      && Find(c, section).Some?
      && (GetBoolean(c, Find(c, section).value, AOT_OPTION, false).Err?
          || GetBoolean(c, Find(c, section).value, "titlebar", true).Err?)
    ensures MatchSettings(c, section).Ok? ==>
      var d := MatchSettings(c, section).value;
      && d != map[]
      && d.Keys == {"position", "size", "always_on_top", "has_titlebar"}
      && (Find(c, section).Some? ==>
            var i := Find(c, section).value;
            && d["always_on_top"] == PBool(GetBoolean(c, i, AOT_OPTION, false).value)
            && d["has_titlebar"] == PBool(GetBoolean(c, i, "titlebar", true).value)
            && (d["position"].PStr? <==> OptionValue(c, i, "position").Some?))
  {
    if MatchSettings(c, section).Ok? {
      assert "position" in MatchSettings(c, section).value;
    }
  }

  /** One pass of the loop: a section whose flags cannot be read is
      skipped, any other is applied with its dictionary. */
  function ApplyMatch(s: Wm, c: Config, m: Match, legacy: bool): Wm
  {
    match MatchSettings(c, m.configName)
    case Err(_) => s
    case Ok(d) => ApplyConfig(s, DictConfig(d), m.hwnd, legacy).1
  }

  /** The loop over the matching windows. */
  function ApplyMatches(s: Wm, c: Config, ms: seq<Match>, legacy: bool): Wm
  {
    if ms == [] then s
    else ApplyMatch(ApplyMatches(s, c, ms[..|ms| - 1], legacy), c, ms[|ms| - 1], legacy)
  }

  /** `apply_settings` after loading: match the windows, reset everything
      the manager holds, then apply each match. */
  function Applied(s: Wm, order: seq<Hwnd>, c: Config, legacy: bool): Wm
  {
    ApplyMatches(ResetAll(s, legacy), c, FindMatching(s.windows, order, Some(c)).0, legacy)
  }

  lemma {:induction false} ApplyMatchesKeepsInv(s: Wm, c: Config, ms: seq<Match>, legacy: bool)
    requires Inv(s)
    ensures Inv(ApplyMatches(s, c, ms, legacy))
  {
    if ms != [] {
      var t := ApplyMatches(s, c, ms[..|ms| - 1], legacy);
      ApplyMatchesKeepsInv(s, c, ms[..|ms| - 1], legacy);
      var m := ms[|ms| - 1];
      if MatchSettings(c, m.configName).Ok? {
        ApplyKeepsInv(t, DictConfig(MatchSettings(c, m.configName).value), m.hwnd, legacy);
      }
    }
  }

  /** Applying matches never drops a managed handle, and every matched
      window whose flags are readable ends up managed. */
  lemma {:induction false} ApplyMatchesManages(s: Wm, c: Config, ms: seq<Match>, legacy: bool)
    ensures forall h :: h in s.managed ==> h in ApplyMatches(s, c, ms, legacy).managed
    ensures forall j :: 0 <= j < |ms| && MatchSettings(c, ms[j].configName).Ok? ==>
      ms[j].hwnd in ApplyMatches(s, c, ms, legacy).managed
  {
    if ms != [] {
      var n := |ms| - 1;
      var t := ApplyMatches(s, c, ms[..n], legacy);
      ApplyMatchesManages(s, c, ms[..n], legacy);
      var m := ms[n];
      var r := ApplyMatches(s, c, ms, legacy);
      if MatchSettings(c, m.configName).Ok? {
        var d := MatchSettings(c, m.configName).value;
        MatchSettingsSpec(c, m.configName);
        ApplyManagesFirst(t, DictConfig(d), m.hwnd, legacy);
      }
      assert forall h :: h in t.managed ==> h in r.managed;
      assert forall j :: 0 <= j < n ==> ms[..n][j] == ms[j];
    }
  }

  /** After `apply_settings` the manager's bookkeeping is consistent, and
      every matched window whose flags read is managed. */
  lemma AppliedSpec(s: Wm, order: seq<Hwnd>, c: Config, legacy: bool)
    requires Inv(s)
    ensures Inv(Applied(s, order, c, legacy))
    ensures var ms := FindMatching(s.windows, order, Some(c)).0;
      forall j :: 0 <= j < |ms| && MatchSettings(c, ms[j].configName).Ok? ==>
        ms[j].hwnd in Applied(s, order, c, legacy).managed
  {
    ResetAllSpec(s, legacy);
    var ms := FindMatching(s.windows, order, Some(c)).0;
    ApplyMatchesKeepsInv(ResetAll(s, legacy), c, ms, legacy);
    ApplyMatchesManages(ResetAll(s, legacy), c, ms, legacy);
  }

  // ----- toggle_always_on_top -----

  /** The windows with the topmost bit of every handle in `hs` flipped. */
  function FlipAll(ws: Windows, hs: set<Hwnd>): (r: Windows)
    ensures r.Keys == ws.Keys
  {
    map h | h in ws :: if h in hs then ws[h].(exstyle := Flipped(ws[h].exstyle)) else ws[h]
  }

  /** The handler's effect: every tracked window toggled once. */
  function FlipTracked(s: Wm): Wm
  {
    s.(windows := FlipAll(s.windows, s.topmost))
  }

  /** One more handle of the loop toggled. */
  lemma ToggleStep(s: Wm, done: set<Hwnd>, h: Hwnd)
    requires h in s.topmost && h !in done
    ensures Toggle(s.(windows := FlipAll(s.windows, done)), h) == s.(windows := FlipAll(s.windows, done + {h}))
  {
    var t := s.(windows := FlipAll(s.windows, done));
    if h in s.windows {
      ToggleLive(t, h);
      assert FlipAll(s.windows, done + {h}) == t.windows[h := t.windows[h].(exstyle := Flipped(t.windows[h].exstyle))];
    } else {
      ToggleFlips(t, h);
      assert FlipAll(s.windows, done + {h}) == FlipAll(s.windows, done);
    }
  }

  /** Toggling every tracked window twice restores every window. */
  lemma FlipTrackedTwice(s: Wm)
    ensures FlipTracked(FlipTracked(s)) == s
  {
    forall h | h in s.windows && h in s.topmost
      ensures Flipped(Flipped(s.windows[h].exstyle)) == s.windows[h].exstyle
    {
      FlipTwice(s.windows[h].exstyle);
    }
    assert FlipAll(FlipAll(s.windows, s.topmost), s.topmost) == s.windows;
  }

  /** After the toggle, the live topmost windows are exactly the tracked
      live windows that were not topmost before, and the bookkeeping is
      untouched. */
  lemma FlipTrackedStatus(s: Wm)
    requires Inv(s)
    ensures Inv(FlipTracked(s))
    ensures LiveTopmost(FlipTracked(s)) == (set h | h in s.topmost && h in s.windows) - LiveTopmost(s)
  {
    InvWindows(s, FlipAll(s.windows, s.topmost));
    forall h | h in s.topmost && h in s.windows
      ensures IsTopmost(FlipTracked(s).windows[h]) == !IsTopmost(s.windows[h])
    {
      FlipChangesTop(s.windows[h].exstyle);
    }
  }

  lemma FlipChangesTop(ex: bv32)
    ensures (Flipped(ex) & WS_EX_TOPMOST != 0) == (ex & WS_EX_TOPMOST == 0)
  {
    BitCleared(ex);
    BitSet(ex);
  }
}
