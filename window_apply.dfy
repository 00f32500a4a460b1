/** `WindowManager.apply_window_config(config, hwnd)` of window_manager.py
    and of lib/window_manager.py. The configuration is a settings
    dictionary or a `ConfigParser`; the two files apply the same settings in
    different orders and treat a minimized window differently. */
module WindowApply {
  import opened Common
  import opened Text
  import opened Ini
  import opened Win32
  import opened WindowRules
  import opened WindowQueries

  /** The `config` argument: absent, a dictionary of settings, or a parser. */
  datatype WindowConfig = NoConfig | DictConfig(entries: map<string, PyVal>) | ParserConfig(parser: Config)

  /** `not config`: `None` and the empty dictionary. A parser is never
      empty, since it always holds its `DEFAULT` section. */
  predicate Falsy(c: WindowConfig)
  {
    c.NoConfig? || (c.DictConfig? && c.entries == map[])
  }

  /** What the manager may change while applying settings to `h`: the
      always-on-top set and the geometry and styles of the window `h`, but
      not whether it is minimized nor its title, and no other window. */
  ghost predicate Touches(s: Wm, r: Wm, h: Hwnd)
  {
    && r.managed == s.managed && r.states == s.states
    && r.windows.Keys == s.windows.Keys
    && (h in s.windows ==> r.windows[h].minimized == s.windows[h].minimized && r.windows[h].title == s.windows[h].title)
    && (forall g :: g in s.windows && g != h ==> r.windows[g] == s.windows[g])
  }

  /** The extended style `set_always_on_top(hwnd, enable)` leaves. */
  function TopmostStyle(ex: bv32, enable: bool): bv32
  {
    Reordered(ex, if enable then InsertTopMost else InsertNoTopMost, false)
  }

  // ---------------------------------------------------------------------
  // The dictionary branch

  /** `eval(v) if isinstance(v, str) else v`, then `v[0], v[1]`: a string
      is read as `"x,y"`, a pair is used as it is; anything else raises
      `TypeError` on subscripting, which the step's own `try` catches. */
  function PairOf(v: PyVal): Option<(int, int)>
  {
    match v
    case PStr(t) => ParseIntPair(t)
    case PPair(x, y) => Some((x, y))
    case _ => None
  }

  /** The pair a dictionary step applies: present, truthy, and readable. */
  function DictPair(d: map<string, PyVal>, key: string): Option<(int, int)>
  {
    if key in d && Truthy(d[key]) then PairOf(d[key]) else None
  }

  /** A window moved to the dictionary's `position`, if it has one. */
  function Moved(w: Win, d: map<string, PyVal>): Win
  {
    match DictPair(d, "position") case Some(p) => w.(x := p.0, y := p.1) case None => w
  }

  /** A window resized to the dictionary's `size`, if it has one. */
  function Sized(w: Win, d: map<string, PyVal>): Win
  {
    match DictPair(d, "size") case Some(p) => w.(width := p.0, height := p.1) case None => w
  }

  /** A window with its frame restored or removed as `has_titlebar` says. */
  function Reframed(w: Win, d: map<string, PyVal>): Win
  {
    if "has_titlebar" !in d then w
    else if Truthy(d["has_titlebar"]) then w.(style := Framed(w.style), visible := true)
    else w.(style := Unframed(w.style))
  }

  /** A window raised to or lowered from the topmost band as
      `always_on_top` says. */
  function Topped(w: Win, d: map<string, PyVal>): Win
  {
    if "always_on_top" in d then w.(exstyle := TopmostStyle(w.exstyle, Truthy(d["always_on_top"]))) else w
  }

  function DictMove(s: Wm, h: Hwnd, d: map<string, PyVal>): (r: Wm)
    ensures Touches(s, r, h) && r.topmost == s.topmost
    ensures h in s.windows ==> r.windows[h] == Moved(s.windows[h], d)
  {
    match DictPair(d, "position")
    case None => s
    case Some(p) => s.(windows := MoveWindow(s.windows, h, p.0, p.1).1)
  }

  function DictResize(s: Wm, h: Hwnd, d: map<string, PyVal>): (r: Wm)
    ensures Touches(s, r, h) && r.topmost == s.topmost
    ensures h in s.windows ==> r.windows[h] == Sized(s.windows[h], d)
  {
    match DictPair(d, "size")
    case None => s
    case Some(p) => s.(windows := ResizeWindow(s.windows, h, p.0, p.1).1)
  }

  /** `set_always_on_top(hwnd, config['always_on_top'])` when the key is
      present. */
  function DictTopmost(s: Wm, h: Hwnd, d: map<string, PyVal>): (r: Wm)
    ensures Touches(s, r, h) && r.topmost == DictTopmostSet(s, h, d)
    ensures h in s.windows ==> r.windows[h] == Topped(s.windows[h], d)
  {
    if "always_on_top" in d then SetAlwaysOnTop(s, h, Truthy(d["always_on_top"])) else s
  }

  /** `make_borderless` for a falsy `has_titlebar`, `restore_window_frame`
      for a truthy one. */
  function DictFrame(s: Wm, h: Hwnd, d: map<string, PyVal>): (r: Wm)
    ensures Touches(s, r, h) && r.topmost == s.topmost
    ensures h in s.windows ==> r.windows[h] == Reframed(s.windows[h], d)
  {
    if "has_titlebar" !in d then s
    else if Truthy(d["has_titlebar"]) then s.(windows := RestoreFrame(s.windows, h).1)
    else s.(windows := MakeBorderless(s.windows, h).1)
  }

  /** What the dictionary settings make of one window, each setting
      written to the fields it names. */
  function DictWindow(w: Win, d: map<string, PyVal>): Win
  {
    var p := match DictPair(d, "position") case Some(p) => p case None => (w.x, w.y);
    var z := match DictPair(d, "size") case Some(z) => z case None => (w.width, w.height);
    var style :=
      if "has_titlebar" !in d then w.style
      else if Truthy(d["has_titlebar"]) then Framed(w.style) else Unframed(w.style);
    var visible := w.visible || ("has_titlebar" in d && Truthy(d["has_titlebar"]));
    var ex := if "always_on_top" in d then TopmostStyle(w.exstyle, Truthy(d["always_on_top"])) else w.exstyle;
    Win(p.0, p.1, z.0, z.1, style, ex, w.minimized, visible, w.title)
  }

  /** The always-on-top set once the dictionary settings are applied. */
  function DictTopmostSet(s: Wm, h: Hwnd, d: map<string, PyVal>): set<Hwnd>
  {
    if "always_on_top" in d && h in s.windows then
      if Truthy(d["always_on_top"]) then s.topmost + {h} else s.topmost - {h}
    else s.topmost
  }

  /** Both orders of the four steps give the window `DictWindow` describes. */
  lemma DictOrders(ws: Windows, h: Hwnd, d: map<string, PyVal>)
    ensures h in ws ==> Reframed(Topped(Sized(Moved(ws[h], d), d), d), d) == DictWindow(ws[h], d)
    ensures h in ws ==> Topped(Sized(Moved(Reframed(ws[h], d), d), d), d) == DictWindow(ws[h], d)
  {
  }

  lemma TouchesTrans(a: Wm, b: Wm, c: Wm, h: Hwnd)
    requires Touches(a, b, h) && Touches(b, c, h)
    ensures Touches(a, c, h)
  {
  }

  /** The dictionary branch: window_manager.py moves, resizes, sets
      always-on-top, then the frame; lib/window_manager.py sets the frame
      first. Either way each setting lands on its own field, every step
      catching its own errors. */
  function ApplyDict(s: Wm, h: Hwnd, d: map<string, PyVal>, legacy: bool): (r: Wm)
    ensures Touches(s, r, h)
    ensures r.topmost == DictTopmostSet(s, h, d)
    ensures h in s.windows ==> r.windows[h] == DictWindow(s.windows[h], d)
  {
    if legacy then
      var s1 := DictMove(s, h, d);
      var s2 := DictResize(s1, h, d);
      var s3 := DictTopmost(s2, h, d);
      TouchesTrans(s, s1, s2, h);
      TouchesTrans(s, s2, s3, h);
      DictOrders(s.windows, h, d);
      DictFrame(s3, h, d)
    else
      var s1 := DictFrame(s, h, d);
      var s2 := DictMove(s1, h, d);
      var s3 := DictResize(s2, h, d);
      TouchesTrans(s, s1, s2, h);
      TouchesTrans(s, s2, s3, h);
      DictOrders(s.windows, h, d);
      DictTopmost(s3, h, d)
  }

  // ---------------------------------------------------------------------
  // The parser branch

  /** `config.get(section, key, fallback=None)` for the section at `i`. */
  function OptionValue(c: Config, i: nat, key: string): Option<string>
    requires i < |c.sections|
  {
    match Get(c.sections[i].items, key)
    case Some(v) => Some(v)
    case None => Get(c.defaults, key)
  }

  /** The pair an option holds, where there is one to apply. */
  function Settled(v: Option<string>): Option<(int, int)>
  {
    if v.None? || v.value == "" then None else ParseIntPair(v.value)
  }

  /** An option the section can apply without raising: absent, empty, or
      a pair. */
  predicate Readable(v: Option<string>)
  {
    v.None? || v.value == "" || ParseIntPair(v.value).Some?
  }

  /** The window `w` becomes `r` under a section's settings: the position
      and size it names, the always-on-top flag, and the frame dropped for
      a false `has_titlebar`; for a true one window_manager.py leaves the
      frame alone and lib/window_manager.py restores it. */
  ghost predicate SectionApplied(w: Win, r: Win, pos: Option<string>, size: Option<string>, aot: bool, bar: bool, legacy: bool)
  {
    && (r.x, r.y) == (match Settled(pos) case Some(p) => p case None => (w.x, w.y))
    && (r.width, r.height) == (match Settled(size) case Some(p) => p case None => (w.width, w.height))
    && IsTopmost(r) == aot
    && r.style == (if !bar then Unframed(w.style) else if legacy then w.style else Framed(w.style))
    && r.minimized == w.minimized && r.title == w.title
  }

  /** `if position: pos = eval(position); self.set_window_position(...)`;
      `false` where `eval` or the subscript raises, which ends the whole
      call. */
  function ParserMove(s: Wm, h: Hwnd, v: Option<string>): (r: (bool, Wm))
    ensures Touches(s, r.1, h) && r.1.topmost == s.topmost
    ensures r.0 <==> Readable(v)
    ensures h in s.windows ==> (r.1.windows[h] ==
      match Settled(v) case Some(p) => s.windows[h].(x := p.0, y := p.1) case None => s.windows[h])
  {
    if v.None? || v.value == "" then (true, s)
    else match ParseIntPair(v.value)
      case None => (false, s)
      case Some(p) => (true, s.(windows := MoveWindow(s.windows, h, p.0, p.1).1))
  }

  function ParserResize(s: Wm, h: Hwnd, v: Option<string>): (r: (bool, Wm))
    ensures Touches(s, r.1, h) && r.1.topmost == s.topmost
    ensures r.0 <==> Readable(v)
    ensures h in s.windows ==> (r.1.windows[h] ==
      match Settled(v) case Some(p) => s.windows[h].(width := p.0, height := p.1) case None => s.windows[h])
  {
    if v.None? || v.value == "" then (true, s)
    else match ParseIntPair(v.value)
      case None => (false, s)
      case Some(p) => (true, s.(windows := ResizeWindow(s.windows, h, p.0, p.1).1))
  }

  /** window_manager.py on the matching section: read the four options,
      move, resize, set always-on-top, and drop the frame when
      `has_titlebar` is false (a true value leaves the frame alone). */
  function LegacySection(s: Wm, h: Hwnd, c: Config, i: nat): (r: (bool, Wm))
    requires i < |c.sections|
    ensures Touches(s, r.1, h)
    ensures GetBoolean(c, i, "always_on_top", false).Err? || GetBoolean(c, i, "has_titlebar", true).Err? ==> r == (false, s)
    ensures r.0 <==> (&& GetBoolean(c, i, "always_on_top", false).Ok? && GetBoolean(c, i, "has_titlebar", true).Ok?
                      && Readable(OptionValue(c, i, "position")) && Readable(OptionValue(c, i, "size")))
    ensures r.0 && h in s.windows ==>
      var aot := GetBoolean(c, i, "always_on_top", false).value;
      && SectionApplied(s.windows[h], r.1.windows[h], OptionValue(c, i, "position"), OptionValue(c, i, "size"),
                        aot, GetBoolean(c, i, "has_titlebar", true).value, true)
      && r.1.topmost == (if aot then s.topmost + {h} else s.topmost - {h})
  {
    var pos := OptionValue(c, i, "position");
    var size := OptionValue(c, i, "size");
    match GetBoolean(c, i, "always_on_top", false)
    case Err(_) => (false, s)
    case Ok(aot) =>
      match GetBoolean(c, i, "has_titlebar", true)
      case Err(_) => (false, s)
      case Ok(bar) =>
        var (ok1, s1) := ParserMove(s, h, pos);
        if !ok1 then (false, s1)
        else
          var (ok2, s2) := ParserResize(s1, h, size);
          if !ok2 then (false, s2)
          else
            var s3 := SetAlwaysOnTop(s2, h, aot);
            (true, if bar then s3 else s3.(windows := MakeBorderless(s3.windows, h).1))
  }

  /** lib/window_manager.py on the matching section: always-on-top, then
      the frame either way, then position and size. */
  function LaterSection(s: Wm, h: Hwnd, c: Config, i: nat): (r: (bool, Wm))
    requires i < |c.sections|
    ensures Touches(s, r.1, h)
    ensures GetBoolean(c, i, "always_on_top", false).Err? || GetBoolean(c, i, "has_titlebar", true).Err? ==> r == (false, s)
    ensures r.0 <==> (&& GetBoolean(c, i, "always_on_top", false).Ok? && GetBoolean(c, i, "has_titlebar", true).Ok?
                      && Readable(OptionValue(c, i, "position")) && Readable(OptionValue(c, i, "size")))
    ensures r.0 && h in s.windows ==>
      var aot := GetBoolean(c, i, "always_on_top", false).value;
      && SectionApplied(s.windows[h], r.1.windows[h], OptionValue(c, i, "position"), OptionValue(c, i, "size"),
                        aot, GetBoolean(c, i, "has_titlebar", true).value, false)
      && r.1.topmost == (if aot then s.topmost + {h} else s.topmost - {h})
  {
    var pos := OptionValue(c, i, "position");
    var size := OptionValue(c, i, "size");
    match GetBoolean(c, i, "always_on_top", false)
    case Err(_) => (false, s)
    case Ok(aot) =>
      match GetBoolean(c, i, "has_titlebar", true)
      case Err(_) => (false, s)
      case Ok(bar) =>
        var s1 := SetAlwaysOnTop(s, h, aot);
        var s2 := s1.(windows := if bar then RestoreFrame(s1.windows, h).1 else MakeBorderless(s1.windows, h).1);
        var (ok3, s3) := ParserMove(s2, h, pos);
        if !ok3 then (false, s3) else ParserResize(s3, h, size)
  }

  /** Which section names match the window title. */
  function SectionHits(names: seq<string>, title: string): (r: seq<bool>)
    ensures |r| == |names|
    ensures forall k :: 0 <= k < |names| ==> (r[k] <==> MatchWindowTitle(names[k], title))
  {
    seq(|names|, k requires 0 <= k < |names| => MatchWindowTitle(names[k], title))
  }

  /** The first section whose name matches the window title. */
  function FirstSection(names: seq<string>, title: string): (r: Option<nat>)
    ensures r.Some? ==> r.value < |names|
  {
    FirstTrue(SectionHits(names, title), 0)
  }

  /** The section chosen is the first whose name `_match_window_title`
      accepts; there is none only when no name matches. */
  lemma FirstSectionSpec(names: seq<string>, title: string)
    ensures FirstSection(names, title).None? <==> forall k :: 0 <= k < |names| ==> !MatchWindowTitle(names[k], title)
    ensures FirstSection(names, title).Some? ==> MatchWindowTitle(names[FirstSection(names, title).value], title)
    ensures FirstSection(names, title).Some? ==>
      forall k :: 0 <= k < FirstSection(names, title).value ==> !MatchWindowTitle(names[k], title)
  {
    var hits := SectionHits(names, title);
    assert forall k :: 0 <= k < |names| ==> (hits[k] <==> MatchWindowTitle(names[k], title));
  }

  /** The section found, if any, applied; the loop then breaks. */
  function ApplySection(s: Wm, h: Hwnd, c: Config, found: Option<nat>, legacy: bool): (r: (bool, Wm))
    requires found.Some? ==> found.value < |c.sections|
    ensures Touches(s, r.1, h)
    ensures found.None? ==> r == (true, s)
  {
    match found
    case None => (true, s)
    case Some(i) => if legacy then LegacySection(s, h, c, i) else LaterSection(s, h, c, i)
  }

  /** The parser branch: the first section matching the window title is
      applied; no matching section changes nothing. */
  function ApplyParser(s: Wm, h: Hwnd, c: Config, legacy: bool): (r: (bool, Wm))
    ensures Touches(s, r.1, h)
    ensures FirstSection(Names(c), GetWindowText(s.windows, h)).None? ==> r == (true, s)
  {
    ApplySection(s, h, c, FirstSection(Names(c), GetWindowText(s.windows, h)), legacy)
  }

  // ---------------------------------------------------------------------
  // apply_window_config

  /** The state once the handle is managed and, for lib/window_manager.py,
      a minimized window is restored; `None` where the call has already
      failed: `gw.Window(hwnd)` raises for a handle without a window, and
      window_manager.py calls `self.restore_window`, which the class does
      not define, for a minimized one. */
  function Prepared(s: Wm, h: Hwnd, legacy: bool): (r: Option<Wm>)
    ensures r.Some? <==> h in s.windows && !(legacy && s.windows[h].minimized)
    ensures r.Some? ==> && r.value.managed == AddManaged(s, h).managed && r.value.states == AddManaged(s, h).states
                        && r.value.topmost == s.topmost
                        && r.value.windows == s.windows[h := s.windows[h].(minimized := false)]
  {
    var s1 := AddManaged(s, h);
    if h !in s1.windows then None
    else if s1.windows[h].minimized then
      if legacy then None else Some(s1.(windows := ShowRestored(s1.windows, h)))
    else Some(s1)
  }

  /** `apply_window_config(config, hwnd)`: whether it returned `True`, and
      the state it left. */
  function ApplyConfig(s: Wm, config: WindowConfig, h: Hwnd, legacy: bool): (r: (bool, Wm))
    ensures Falsy(config) ==> r == (false, s)
    ensures r.0 ==> h in s.windows && !(legacy && s.windows[h].minimized)
    ensures !Falsy(config) && Prepared(s, h, legacy).None? ==> r == (false, AddManaged(s, h))
    ensures !Falsy(config) && Prepared(s, h, legacy).Some? ==> Touches(Prepared(s, h, legacy).value, r.1, h)
  {
    if Falsy(config) then (false, s)
    else match Prepared(s, h, legacy)
      case None => (false, AddManaged(s, h))
      case Some(s2) =>
        match config
        case DictConfig(d) => (true, ApplyDict(s2, h, d, legacy))
        case ParserConfig(c) => ApplyParser(s2, h, c, legacy)
        case NoConfig => (false, s)
  }

  // ---------------------------------------------------------------------
  // Properties of apply_window_config

  lemma InvTouches(s: Wm, r: Wm, h: Hwnd)
    requires Inv(s) && Touches(s, r, h)
    ensures Inv(r)
  {
  }

  /** Applying a configuration keeps the manager's bookkeeping consistent. */
  lemma ApplyKeepsInv(s: Wm, config: WindowConfig, h: Hwnd, legacy: bool)
    requires Inv(s)
    ensures Inv(ApplyConfig(s, config, h, legacy).1)
  {
    if !Falsy(config) {
      InvAdd(s, h);
      var p := Prepared(s, h, legacy);
      if p.Some? {
        InvWindows(AddManaged(s, h), p.value.windows);
        assert p.value == AddManaged(s, h).(windows := p.value.windows);
        InvTouches(p.value, ApplyConfig(s, config, h, legacy).1, h);
      }
    }
  }

  /** A truthy configuration always leaves the handle managed, with the
      snapshot taken before any setting was applied. */
  lemma ApplyManagesFirst(s: Wm, config: WindowConfig, h: Hwnd, legacy: bool)
    requires !Falsy(config)
    ensures ApplyConfig(s, config, h, legacy).1.managed == AddManaged(s, h).managed
    ensures ApplyConfig(s, config, h, legacy).1.states == AddManaged(s, h).states
    ensures h in ApplyConfig(s, config, h, legacy).1.managed
  {
  }

  /** window_manager.py: a truthy configuration for a minimized window
      fails, because the method it calls to restore the window does not
      exist; the handle stays managed and nothing else changes. */
  lemma LegacyMinimizedFails(s: Wm, config: WindowConfig, h: Hwnd)
    requires !Falsy(config) && h in s.windows && s.windows[h].minimized
    ensures ApplyConfig(s, config, h, true) == (false, AddManaged(s, h))
  {
  }

  /** lib/window_manager.py: a minimized window is restored first, so it
      ends the call shown, and a dictionary configuration succeeds. */
  lemma LaterRestoresMinimized(s: Wm, config: WindowConfig, h: Hwnd)
    requires !Falsy(config) && h in s.windows
    ensures h in ApplyConfig(s, config, h, false).1.windows
    ensures !ApplyConfig(s, config, h, false).1.windows[h].minimized
    ensures config.DictConfig? ==> ApplyConfig(s, config, h, false).0
  {
    var p := Prepared(s, h, false);
    assert p.value.windows[h] == s.windows[h].(minimized := false);
  }

  /** A dictionary configuration applied to a window that can be prepared
      succeeds, sets each field the dictionary names, updates the
      always-on-top set, and leaves every other window alone. */
  lemma DictSettings(s: Wm, d: map<string, PyVal>, h: Hwnd, legacy: bool)
    requires d != map[] && h in s.windows && !(legacy && s.windows[h].minimized)
    ensures ApplyConfig(s, DictConfig(d), h, legacy).0
    ensures ApplyConfig(s, DictConfig(d), h, legacy).1.windows.Keys == s.windows.Keys
    ensures ApplyConfig(s, DictConfig(d), h, legacy).1.windows[h] == DictWindow(s.windows[h].(minimized := false), d)
    ensures ApplyConfig(s, DictConfig(d), h, legacy).1.topmost == DictTopmostSet(s, h, d)
    ensures forall g :: g in s.windows && g != h ==> ApplyConfig(s, DictConfig(d), h, legacy).1.windows[g] == s.windows[g]
  {
    var p := Prepared(s, h, legacy).value;
    assert p.windows[h] == s.windows[h].(minimized := false);
  }

  /** For a window that is not minimized, the two variants of the
      dictionary branch agree: the reordering of the steps in
      lib/window_manager.py changes nothing. */
  lemma DictVariantsAgree(s: Wm, d: map<string, PyVal>, h: Hwnd)
    requires h in s.windows && !s.windows[h].minimized
    ensures ApplyConfig(s, DictConfig(d), h, true) == ApplyConfig(s, DictConfig(d), h, false)
  {
    if d != map[] {
      DictSettings(s, d, h, true);
      DictSettings(s, d, h, false);
      ApplyManagesFirst(s, DictConfig(d), h, true);
      ApplyManagesFirst(s, DictConfig(d), h, false);
      SameState(ApplyConfig(s, DictConfig(d), h, true).1, ApplyConfig(s, DictConfig(d), h, false).1, s.windows, h);
    }
  }

  /** Two states that agree on the bookkeeping and on the window `h`, and
      leave every other window of `ws` as it was, are the same. */
  lemma SameState(a: Wm, b: Wm, ws: Windows, h: Hwnd)
    requires a.managed == b.managed && a.states == b.states && a.topmost == b.topmost
    requires a.windows.Keys == ws.Keys && b.windows.Keys == ws.Keys
    requires h in ws && a.windows[h] == b.windows[h]
    requires forall g :: g in ws && g != h ==> a.windows[g] == ws[g] && b.windows[g] == ws[g]
    ensures a == b
  {
    assert a.windows == b.windows;
  }

  /** A configuration parser none of whose section names match the window
      title succeeds without changing anything beyond the preparation. */
  lemma ParserNoMatch(s: Wm, c: Config, h: Hwnd, legacy: bool)
    requires h in s.windows && !(legacy && s.windows[h].minimized)
    requires forall k :: 0 <= k < |Names(c)| ==> !MatchWindowTitle(Names(c)[k], s.windows[h].title)
    ensures ApplyConfig(s, ParserConfig(c), h, legacy) == (true, Prepared(s, h, legacy).value)
  {
    var p := Prepared(s, h, legacy).value;
    assert GetWindowText(p.windows, h) == s.windows[h].title;
    FirstSectionSpec(Names(c), s.windows[h].title);
  }

  /** The section chosen by `FirstSection`, the first whose name matches
      the window title, is the one applied: the call succeeds exactly when
      its two flags are booleans and its position and size are pairs, and
      then the window takes its settings. */
  lemma ParserMatch(s: Wm, c: Config, h: Hwnd, legacy: bool, i: nat)
    requires h in s.windows && !(legacy && s.windows[h].minimized)
    requires FirstSection(Names(c), s.windows[h].title) == Some(i)
    ensures var r := ApplyConfig(s, ParserConfig(c), h, legacy);
      && (r.0 <==> (&& GetBoolean(c, i, "always_on_top", false).Ok? && GetBoolean(c, i, "has_titlebar", true).Ok?
                    && Readable(OptionValue(c, i, "position")) && Readable(OptionValue(c, i, "size"))))
      && (r.0 ==> SectionApplied(s.windows[h].(minimized := false), r.1.windows[h],
                                 OptionValue(c, i, "position"), OptionValue(c, i, "size"),
                                 GetBoolean(c, i, "always_on_top", false).value,
                                 GetBoolean(c, i, "has_titlebar", true).value, legacy))
  {
    var p := Prepared(s, h, legacy).value;
    assert GetWindowText(p.windows, h) == s.windows[h].title;
    assert p.windows[h] == s.windows[h].(minimized := false);
    ParserBranch(s, c, h, legacy);
    var r := if legacy then LegacySection(p, h, c, i) else LaterSection(p, h, c, i);
    assert ApplyConfig(s, ParserConfig(c), h, legacy) == r;
  }

  /** The parser branch runs on the prepared state. */
  lemma ParserBranch(s: Wm, c: Config, h: Hwnd, legacy: bool)
    requires Prepared(s, h, legacy).Some?
    ensures ApplyConfig(s, ParserConfig(c), h, legacy) == ApplyParser(Prepared(s, h, legacy).value, h, c, legacy)
  {
  }
}
