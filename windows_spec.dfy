/** What `WindowManager` of window_manager.py and of lib/window_manager.py
    does, as functions from the manager's state to its next state. The two
    files share most operations; where they differ the function takes the
    variant, `legacy` standing for window_manager.py. Every `try`/`except`
    that swallows an error becomes a branch that leaves the state as the
    failing statement found it. */
module WindowRules {
  import opened Common
  import opened Text
  import opened Win32

  /** The snapshot `get_window_metrics` stores: position, size and the two
      style words. */
  datatype Metrics = Metrics(x: int, y: int, width: int, height: int, style: bv32, exstyle: bv32)

  /** `managed_windows`, `topmost_windows`, `_window_states`, and the
      desktop's window table the manager acts on. */
  datatype Wm = Wm(managed: seq<Hwnd>, topmost: set<Hwnd>, states: map<Hwnd, Option<Metrics>>, windows: Windows)

  /** What the manager keeps true: a handle is managed at most once, it has
      a snapshot entry exactly when it is managed, and the snapshot is
      `None` exactly when the handle names no window. */
  ghost predicate Inv(s: Wm)
  {
    && NoDup(s.managed)
    && (forall h :: h in s.states <==> h in s.managed)
    && (forall h :: h in s.states ==> (s.states[h].None? <==> h !in s.windows))
  }

  /** `get_window_metrics(hwnd)`: the window's geometry and styles, `None`
      when `GetWindowRect` raises. */
  function WindowMetrics(ws: Windows, h: Hwnd): (r: Option<Metrics>)
    ensures r.None? <==> h !in ws
    ensures r.Some? ==> r.value == Metrics(ws[h].x, ws[h].y, ws[h].width, ws[h].height, ws[h].style, ws[h].exstyle)
  {
    match GetWindowRect(ws, h)
    case None => None
    case Some(rect) =>
      Some(Metrics(rect.0, rect.1, rect.2 - rect.0, rect.3 - rect.1,
                   GetWindowLong(ws, h, GwlStyle), GetWindowLong(ws, h, GwlExStyle)))
  }

  /** The style word without the frame bits. */
  function Unframed(style: bv32): bv32
  {
    style & !FRAME_BITS
  }

  /** The style word with the frame bits. */
  function Framed(style: bv32): bv32
  {
    style | FRAME_BITS
  }

  /** A window put back to a snapshot. */
  function Reverted(w: Win, m: Metrics): Win
  {
    w.(x := m.x, y := m.y, width := m.width, height := m.height, style := m.style, exstyle := m.exstyle)
  }

  /** `set_always_on_top(hwnd, enable)`: the z-order call, then the
      bookkeeping, both skipped when the call raises. */
  function SetAlwaysOnTop(s: Wm, h: Hwnd, enable: bool): (r: Wm)
    ensures r.managed == s.managed && r.states == s.states && r.windows.Keys == s.windows.Keys
    ensures h !in s.windows ==> r == s
    ensures h in s.windows ==> r.topmost == (if enable then s.topmost + {h} else s.topmost - {h})
    ensures h in s.windows ==> IsTopmost(r.windows[h]) == enable
    ensures h in s.windows ==> r.windows[h] == s.windows[h].(exstyle := r.windows[h].exstyle)
    ensures forall g :: g in s.windows && g != h ==> r.windows[g] == s.windows[g]
  {
    match SetWindowPos(s.windows, h, if enable then InsertTopMost else InsertNoTopMost, 0, 0, 0, 0, Z_ONLY)
    case None => s
    case Some(ws) => s.(windows := ws, topmost := if enable then s.topmost + {h} else s.topmost - {h})
  }

  /** `add_managed_window(hwnd)`: a new handle is appended with a snapshot
      of its window as it is now; a managed handle changes nothing. */
  function AddManaged(s: Wm, h: Hwnd): (r: Wm)
    ensures h in r.managed
    ensures h in s.managed ==> r == s
    ensures h !in s.managed ==> r.managed == s.managed + [h] && r.states == s.states[h := WindowMetrics(s.windows, h)]
    ensures r.topmost == s.topmost && r.windows == s.windows
  {
    if h in s.managed then s
    else s.(managed := s.managed + [h], states := s.states[h := WindowMetrics(s.windows, h)])
  }

  /** `set_window_position(hwnd, x, y)`: move, keeping the size. */
  function MoveWindow(ws: Windows, h: Hwnd, x: int, y: int): (r: (bool, Windows))
    ensures r.0 <==> h in ws
    ensures r.1.Keys == ws.Keys
    ensures h in ws ==> r.1[h] == ws[h].(x := x, y := y)
    ensures forall g :: g in ws && g != h ==> r.1[g] == ws[g]
  {
    match GetWindowRect(ws, h)
    case None => (false, ws)
    case Some(rect) =>
      match SetWindowPos(ws, h, InsertTop, x, y, rect.2 - rect.0, rect.3 - rect.1, MOVE_ONLY)
      case None => (false, ws)
      case Some(ws') => (true, ws')
  }

  /** `set_window_size(hwnd, width, height)`: resize, keeping the position. */
  function ResizeWindow(ws: Windows, h: Hwnd, width: int, height: int): (r: (bool, Windows))
    ensures r.0 <==> h in ws
    ensures r.1.Keys == ws.Keys
    ensures h in ws ==> r.1[h] == ws[h].(width := width, height := height)
    ensures forall g :: g in ws && g != h ==> r.1[g] == ws[g]
  {
    match GetWindowRect(ws, h)
    case None => (false, ws)
    case Some(rect) =>
      match SetWindowPos(ws, h, InsertTop, rect.0, rect.1, width, height, SIZE_ONLY)
      case None => (false, ws)
      case Some(ws') => (true, ws')
  }

  /** `make_borderless(hwnd)`: clear the caption, border and sizing-frame
      bits of the style, then have the frame redrawn. */
  function MakeBorderless(ws: Windows, h: Hwnd): (r: (bool, Windows))
    ensures r.0 <==> h in ws
    ensures r.1.Keys == ws.Keys
    ensures h in ws ==> r.1[h] == ws[h].(style := Unframed(ws[h].style))
    ensures forall g :: g in ws && g != h ==> r.1[g] == ws[g]
  {
    var style := Unframed(GetWindowLong(ws, h, GwlStyle));
    var ws1 := SetWindowLong(ws, h, GwlStyle, style);
    match SetWindowPos(ws1, h, InsertTop, 0, 0, 0, 0, FRAME_CHANGED)
    case None => (false, ws1)
    case Some(ws2) => (true, ws2)
  }

  /** `restore_window_frame(hwnd)`: set the three frame bits again, then
      redraw and show the window. */
  function RestoreFrame(ws: Windows, h: Hwnd): (r: (bool, Windows))
    ensures r.0 <==> h in ws
    ensures r.1.Keys == ws.Keys
    ensures h in ws ==> r.1[h] == ws[h].(style := Framed(ws[h].style), visible := true)
    ensures forall g :: g in ws && g != h ==> r.1[g] == ws[g]
  {
    var style := Framed(GetWindowLong(ws, h, GwlStyle));
    var ws1 := SetWindowLong(ws, h, GwlStyle, style);
    match SetWindowPos(ws1, h, InsertTop, 0, 0, 0, 0, FRAME_SHOWN)
    case None => (false, ws1)
    case Some(ws2) => (true, ws2)
  }

  /** `remove_managed_window(hwnd)`: put the window back to its snapshot and
      forget the handle. A `None` snapshot makes the first subscript raise
      `TypeError`, which is caught: then nothing changes. */
  function RemoveManaged(s: Wm, h: Hwnd): Wm
  {
    if h !in s.managed then s
    else if h in s.states then
      match s.states[h]
      case None => s
      case Some(m) =>
        var ws1 := MoveWindow(s.windows, h, m.x, m.y).1;
        var ws2 := ResizeWindow(ws1, h, m.width, m.height).1;
        var ws3 := SetWindowLong(ws2, h, GwlStyle, m.style);
        var ws4 := SetWindowLong(ws3, h, GwlExStyle, m.exstyle);
        Wm(RemoveFirst(s.managed, h), s.topmost - {h}, s.states - {h}, ws4)
    else
      s.(managed := RemoveFirst(s.managed, h), topmost := s.topmost - {h})
  }

  /** Removing a handle with a snapshot reverts its window to the snapshot,
      drops it from all three collections, and touches no other window. */
  lemma RemoveReverts(s: Wm, h: Hwnd, m: Metrics)
    requires h in s.managed && h in s.states && s.states[h] == Some(m)
    ensures RemoveManaged(s, h).managed == RemoveFirst(s.managed, h)
    ensures RemoveManaged(s, h).topmost == s.topmost - {h}
    ensures RemoveManaged(s, h).states == s.states - {h}
    ensures RemoveManaged(s, h).windows == if h in s.windows then s.windows[h := Reverted(s.windows[h], m)] else s.windows
  {
    var r := RemoveManaged(s, h);
    if h in s.windows {
      assert r.windows[h] == Reverted(s.windows[h], m);
      assert r.windows == s.windows[h := Reverted(s.windows[h], m)];
    }
  }

  /** A `None` snapshot keeps the handle managed and everything unchanged. */
  lemma RemoveWithoutSnapshot(s: Wm, h: Hwnd)
    requires h in s.states && s.states[h].None?
    ensures RemoveManaged(s, h) == s
  {
  }

  /** One iteration of `reset_all_windows`: window_manager.py only removes
      the handle; lib/window_manager.py first drops always-on-top and
      restores the frame. */
  function ResetStep(s: Wm, h: Hwnd, legacy: bool): Wm
  {
    if legacy then RemoveManaged(s, h)
    else
      var s1 := SetAlwaysOnTop(s, h, false);
      RemoveManaged(s1.(windows := RestoreFrame(s1.windows, h).1), h)
  }

  /** The loop of `reset_all_windows` over the first handles of the copy. */
  function ResetSeq(s: Wm, hs: seq<Hwnd>, legacy: bool): Wm
    decreases |hs|
  {
    if hs == [] then s
    else ResetStep(ResetSeq(s, hs[..|hs| - 1], legacy), hs[|hs| - 1], legacy)
  }

  /** `reset_all_windows()`. */
  function ResetAll(s: Wm, legacy: bool): Wm
  {
    ResetSeq(s, s.managed, legacy)
  }

  /** The window a reset leaves behind for a managed handle with snapshot
      `m`: the snapshot's geometry and styles; the later variant also shows
      the window. */
  function ResetWindow(w: Win, m: Metrics, legacy: bool): Win
  {
    if legacy then Reverted(w, m) else Reverted(w, m).(visible := true)
  }

  /** The handles of `hs` that name no window, in order. */
  function Stale(ws: Windows, hs: seq<Hwnd>): (r: seq<Hwnd>)
    ensures forall g :: g in r <==> g in hs && g !in ws
    decreases |hs|
  {
    if hs == [] then []
    else Stale(ws, hs[..|hs| - 1]) + (if hs[|hs| - 1] in ws then [] else [hs[|hs| - 1]])
  }

  /** Removing an element that sits after a prefix free of it. */
  lemma RemoveFirstAfter<T>(a: seq<T>, x: T, b: seq<T>)
    requires x !in a
    ensures RemoveFirst(a + [x] + b, x) == a + b
    decreases |a|
  {
    if a != [] {
      assert (a + [x] + b)[1..] == a[1..] + [x] + b;
      RemoveFirstAfter(a[1..], x, b);
    }
  }

  /** A reset step on a live window with snapshot `m`. */
  lemma ResetStepLive(t: Wm, h: Hwnd, m: Metrics, legacy: bool)
    requires h in t.managed && h in t.states && t.states[h] == Some(m) && h in t.windows
    ensures ResetStep(t, h, legacy).managed == RemoveFirst(t.managed, h)
    ensures ResetStep(t, h, legacy).topmost == t.topmost - {h}
    ensures ResetStep(t, h, legacy).states == t.states - {h}
    ensures ResetStep(t, h, legacy).windows == t.windows[h := ResetWindow(t.windows[h], m, legacy)]
  {
    if legacy {
      RemoveReverts(t, h, m);
    } else {
      LaterResetStepLive(t, h, m);
    }
  }

  lemma LaterResetStepLive(t: Wm, h: Hwnd, m: Metrics)
    requires h in t.managed && h in t.states && t.states[h] == Some(m) && h in t.windows
    ensures ResetStep(t, h, false).managed == RemoveFirst(t.managed, h)
    ensures ResetStep(t, h, false).topmost == t.topmost - {h}
    ensures ResetStep(t, h, false).states == t.states - {h}
    ensures ResetStep(t, h, false).windows == t.windows[h := Reverted(t.windows[h], m).(visible := true)]
  {
    var s1 := SetAlwaysOnTop(t, h, false);
    var s2 := s1.(windows := RestoreFrame(s1.windows, h).1);
    assert ResetStep(t, h, false) == RemoveManaged(s2, h);
    RemoveReverts(s2, h, m);
    LaterResetWindow(t, h, m);
  }

  lemma LaterResetWindow(t: Wm, h: Hwnd, m: Metrics)
    requires h in t.windows
    ensures var s1 := SetAlwaysOnTop(t, h, false);
            var ws2 := RestoreFrame(s1.windows, h).1;
            ws2[h := Reverted(ws2[h], m)] == t.windows[h := Reverted(t.windows[h], m).(visible := true)]
  {
    var s1 := SetAlwaysOnTop(t, h, false);
    var ws2 := RestoreFrame(s1.windows, h).1;
    var w := Reverted(t.windows[h], m).(visible := true);
    assert Reverted(ws2[h], m) == w;
    var a := ws2[h := Reverted(ws2[h], m)];
    var b := t.windows[h := w];
    assert a.Keys == b.Keys;
    assert forall g :: g in a ==> a[g] == b[g];
  }

  /** A reset step on a handle without a window changes nothing. */
  lemma ResetStepStale(t: Wm, h: Hwnd, legacy: bool)
    requires h in t.managed && h in t.states && t.states[h].None? && h !in t.windows
    ensures ResetStep(t, h, legacy) == t
  {
    if !legacy {
      var s1 := SetAlwaysOnTop(t, h, false);
      assert RestoreFrame(s1.windows, h).1 == s1.windows;
    }
  }

  /** What the first `i` iterations of `reset_all_windows` leave: the
      handles done so far are reverted and forgotten, except those whose
      window is gone. */
  ghost predicate ResetDone(s: Wm, i: nat, t: Wm, legacy: bool)
    requires Inv(s) && i <= |s.managed|
  {
    && t.managed == Stale(s.windows, s.managed[..i]) + s.managed[i..]
    && BookkeepingDone(s, s.managed[..i], t)
    && WindowsDone(s, s.managed[..i], t, legacy)
  }

  /** Snapshots and always-on-top entries are dropped for the handles of
      `done` that still have a window. */
  ghost predicate BookkeepingDone(s: Wm, done: seq<Hwnd>, t: Wm)
  {
    && (forall g :: g in t.states <==> g in s.states && (g in done ==> g !in s.windows))
    && (forall g :: g in t.states ==> t.states[g] == s.states[g])
    && (forall g :: g in t.topmost <==> g in s.topmost && !(g in done && g in s.windows))
  }

  /** The windows of the handles of `done` are reset, the others unchanged. */
  ghost predicate WindowsDone(s: Wm, done: seq<Hwnd>, t: Wm, legacy: bool)
    requires Inv(s) && forall g :: g in done ==> g in s.managed
  {
    && t.windows.Keys == s.windows.Keys
    && (forall g :: g in s.windows ==> (t.windows[g] ==
         if g in done then ResetWindow(s.windows[g], s.states[g].value, legacy) else s.windows[g]))
  }

  lemma ResetDoneStep(s: Wm, i: nat, t: Wm, legacy: bool)
    requires Inv(s) && i < |s.managed| && ResetDone(s, i, t, legacy)
    ensures ResetDone(s, i + 1, ResetStep(t, s.managed[i], legacy), legacy)
  {
    if s.managed[i] in s.windows {
      ResetDoneLive(s, i, t, legacy);
    } else {
      ResetDoneStale(s, i, t, legacy);
    }
  }

  lemma ResetDoneLive(s: Wm, i: nat, t: Wm, legacy: bool)
    requires Inv(s) && i < |s.managed| && ResetDone(s, i, t, legacy) && s.managed[i] in s.windows
    ensures ResetDone(s, i + 1, ResetStep(t, s.managed[i], legacy), legacy)
  {
    var h := s.managed[i];
    assert h in t.managed by {
      assert s.managed[i..] == [h] + s.managed[i + 1..];
    }
    ResetStepLive(t, h, s.states[h].value, legacy);
    RevertedDone(s, i, t, ResetStep(t, h, legacy), legacy);
  }

  /** The bookkeeping of `ResetDoneLive`, for any state `r` the step can
      produce. */
  lemma RevertedDone(s: Wm, i: nat, t: Wm, r: Wm, legacy: bool)
    requires Inv(s) && i < |s.managed| && ResetDone(s, i, t, legacy) && s.managed[i] in s.windows
    requires r.managed == RemoveFirst(t.managed, s.managed[i])
    requires r.topmost == t.topmost - {s.managed[i]}
    requires r.states == t.states - {s.managed[i]}
    requires r.windows == t.windows[s.managed[i] := ResetWindow(t.windows[s.managed[i]], s.states[s.managed[i]].value, legacy)]
    ensures ResetDone(s, i + 1, r, legacy)
  {
    var h := s.managed[i];
    var pre := s.managed[..i];
    ManagedLive(s.windows, s.managed, i, t.managed);
    PrefixFacts(s.managed, i);
    BookkeepingLive(s, pre, h, t, r);
    WindowsLive(s, pre, h, t, r, legacy);
    DoneFromParts(s, i, r, legacy);
  }

  /** `ResetDone` after position `i`, from its three parts. */
  lemma DoneFromParts(s: Wm, i: nat, r: Wm, legacy: bool)
    requires Inv(s) && i < |s.managed|
    requires r.managed == Stale(s.windows, s.managed[..i + 1]) + s.managed[i + 1..]
    requires BookkeepingDone(s, s.managed[..i] + [s.managed[i]], r)
    requires (forall g :: g in s.managed[..i] + [s.managed[i]] ==> g in s.managed)
    requires WindowsDone(s, s.managed[..i] + [s.managed[i]], r, legacy)
    ensures ResetDone(s, i + 1, r, legacy)
  {
    assert s.managed[..i + 1] == s.managed[..i] + [s.managed[i]];
  }

  /** The handles before position `i` of a duplicate-free list are in the
      list, and the one at `i` is not among them. */
  lemma PrefixFacts(hs: seq<Hwnd>, i: nat)
    requires NoDup(hs) && i < |hs|
    ensures (forall g :: g in hs[..i] ==> g in hs) && hs[i] !in hs[..i]
  {
  }

  /** Removing a live handle from the list after its turn leaves the stale
      handles seen so far followed by the rest. */
  lemma ManagedLive(ws: Windows, hs: seq<Hwnd>, i: nat, m: seq<Hwnd>)
    requires i < |hs| && hs[i] in ws
    requires m == Stale(ws, hs[..i]) + hs[i..]
    ensures RemoveFirst(m, hs[i]) == Stale(ws, hs[..i + 1]) + hs[i + 1..]
  {
    var h := hs[i];
    var st := Stale(ws, hs[..i]);
    assert hs[..i + 1][..i] == hs[..i];
    assert Stale(ws, hs[..i + 1]) == st;
    assert hs[i..] == [h] + hs[i + 1..];
    assert m == st + [h] + hs[i + 1..];
    RemoveFirstAfter(st, h, hs[i + 1..]);
  }

  lemma BookkeepingLive(s: Wm, pre: seq<Hwnd>, h: Hwnd, t: Wm, r: Wm)
    requires BookkeepingDone(s, pre, t) && h in s.windows
    requires r.topmost == t.topmost - {h} && r.states == t.states - {h}
    ensures BookkeepingDone(s, pre + [h], r)
  {
  }

  lemma WindowsLive(s: Wm, pre: seq<Hwnd>, h: Hwnd, t: Wm, r: Wm, legacy: bool)
    requires Inv(s) && (forall g :: g in pre ==> g in s.managed) && h in s.managed && h !in pre && h in s.windows
    requires WindowsDone(s, pre, t, legacy)
    requires r.windows == t.windows[h := ResetWindow(t.windows[h], s.states[h].value, legacy)]
    ensures WindowsDone(s, pre + [h], r, legacy)
  {
  }

  lemma ResetDoneStale(s: Wm, i: nat, t: Wm, legacy: bool)
    requires Inv(s) && i < |s.managed| && ResetDone(s, i, t, legacy) && s.managed[i] !in s.windows
    ensures ResetDone(s, i + 1, ResetStep(t, s.managed[i], legacy), legacy)
  {
    var h := s.managed[i];
    var pre := s.managed[..i];
    assert s.managed[i..] == [h] + s.managed[i + 1..];
    assert h in t.managed;
    ResetStepStale(t, h, legacy);
    ManagedStale(s.windows, s.managed, i, t.managed);
    assert s.managed[..i + 1] == pre + [h];
    BookkeepingStale(s, pre, h, t);
    WindowsStale(s, pre, h, t, legacy);
  }

  /** A handle without a window joins the stale handles seen so far. */
  lemma ManagedStale(ws: Windows, hs: seq<Hwnd>, i: nat, m: seq<Hwnd>)
    requires i < |hs| && hs[i] !in ws
    requires m == Stale(ws, hs[..i]) + hs[i..]
    ensures m == Stale(ws, hs[..i + 1]) + hs[i + 1..]
  {
    var st := Stale(ws, hs[..i]);
    assert hs[..i + 1][..i] == hs[..i];
    assert Stale(ws, hs[..i + 1]) == st + [hs[i]];
    var rest := hs[i..];
    assert rest[0] == hs[i] && rest[1..] == hs[i + 1..];
    AppendHead(st, rest);
  }

  lemma BookkeepingStale(s: Wm, pre: seq<Hwnd>, h: Hwnd, t: Wm)
    requires BookkeepingDone(s, pre, t) && h !in s.windows
    ensures BookkeepingDone(s, pre + [h], t)
  {
  }

  lemma WindowsStale(s: Wm, pre: seq<Hwnd>, h: Hwnd, t: Wm, legacy: bool)
    requires Inv(s) && (forall g :: g in pre ==> g in s.managed) && h in s.managed && h !in s.windows
    requires WindowsDone(s, pre, t, legacy)
    ensures WindowsDone(s, pre + [h], t, legacy)
  {
  }

  /** The state after the first `i` iterations of `reset_all_windows`. */
  lemma {:induction false} ResetPrefix(s: Wm, i: nat, legacy: bool)
    requires Inv(s) && i <= |s.managed|
    ensures ResetDone(s, i, ResetSeq(s, s.managed[..i], legacy), legacy)
  {
    if i == 0 {
      ResetDoneZero(s, legacy);
    } else {
      ResetPrefix(s, i - 1, legacy);
      ResetPrefixStep(s, i, legacy);
    }
  }

  lemma ResetPrefixStep(s: Wm, i: nat, legacy: bool)
    requires Inv(s) && 0 < i <= |s.managed|
    requires ResetDone(s, i - 1, ResetSeq(s, s.managed[..i - 1], legacy), legacy)
    ensures ResetDone(s, i, ResetSeq(s, s.managed[..i], legacy), legacy)
  {
    var t := ResetSeq(s, s.managed[..i - 1], legacy);
    ResetDoneStep(s, i - 1, t, legacy);
    ResetSeqPrefix(s, i, legacy);
  }

  lemma ResetDoneZero(s: Wm, legacy: bool)
    requires Inv(s)
    ensures ResetDone(s, 0, s, legacy)
  {
    assert s.managed[..0] == [];
    assert s.managed[0..] == s.managed;
    assert Stale(s.windows, []) == [];
  }

  lemma ResetSeqPrefix(s: Wm, i: nat, legacy: bool)
    requires 0 < i <= |s.managed|
    ensures ResetSeq(s, s.managed[..i], legacy) == ResetStep(ResetSeq(s, s.managed[..i - 1], legacy), s.managed[i - 1], legacy)
  {
    assert s.managed[..i][..i - 1] == s.managed[..i - 1];
  }

  /** `reset_all_windows()` puts every window that still exists back to its
      snapshot (the later variant also shows it) and stops managing it;
      handles whose window is gone stay managed, since their `None`
      snapshot makes removal fail. No other window changes. */
  lemma ResetAllSpec(s: Wm, legacy: bool)
    requires Inv(s)
    ensures ResetAll(s, legacy).managed == Stale(s.windows, s.managed)
    ensures forall g :: g in ResetAll(s, legacy).states <==> g in s.states && g !in s.windows
    ensures forall g :: g in ResetAll(s, legacy).topmost <==> g in s.topmost && !(g in s.managed && g in s.windows)
    ensures ResetAll(s, legacy).windows.Keys == s.windows.Keys
    ensures forall g :: g in s.windows ==> (ResetAll(s, legacy).windows[g] ==
      if g in s.managed then ResetWindow(s.windows[g], s.states[g].value, legacy) else s.windows[g])
    ensures Inv(ResetAll(s, legacy))
  {
    ResetPrefix(s, |s.managed|, legacy);
    assert s.managed[..|s.managed|] == s.managed;
    assert ResetDone(s, |s.managed|, ResetAll(s, legacy), legacy);
    assert s.managed[|s.managed|..] == [];
    var r := ResetAll(s, legacy);
    assert r.managed == Stale(s.windows, s.managed);
    assert NoDup(r.managed) by { StaleNoDup(s.windows, s.managed); }
  }

  lemma {:induction false} StaleNoDup(ws: Windows, hs: seq<Hwnd>)
    requires NoDup(hs)
    ensures NoDup(Stale(ws, hs))
    decreases |hs|
  {
    if hs != [] {
      var pre := hs[..|hs| - 1];
      assert NoDup(pre);
      StaleNoDup(ws, pre);
    }
  }

  // ---------------------------------------------------------------------
  // The invariant is kept by every single operation.

  lemma InvAdd(s: Wm, h: Hwnd)
    requires Inv(s)
    ensures Inv(AddManaged(s, h))
  {
    if h !in s.managed {
      var m := s.managed + [h];
      forall i, j | 0 <= i < j < |m| ensures m[i] != m[j] {
        if j == |s.managed| { assert m[i] in s.managed; }
      }
    }
  }

  /** Any change of the window table that keeps its handles keeps `Inv`. */
  lemma InvWindows(s: Wm, ws: Windows)
    requires Inv(s) && ws.Keys == s.windows.Keys
    ensures Inv(s.(windows := ws))
  {
  }

  lemma InvSetAlwaysOnTop(s: Wm, h: Hwnd, enable: bool)
    requires Inv(s)
    ensures Inv(SetAlwaysOnTop(s, h, enable))
  {
  }

  lemma InvRemove(s: Wm, h: Hwnd)
    requires Inv(s)
    ensures Inv(RemoveManaged(s, h))
  {
    if h in s.managed && s.states[h].Some? {
      RemoveReverts(s, h, s.states[h].value);
    }
  }

  // ---------------------------------------------------------------------
  // get_always_on_top_status

  /** The handles of `topmost_windows` whose window has the topmost bit. */
  function LiveTopmost(s: Wm): (r: set<Hwnd>)
    ensures r <= s.topmost
    ensures forall h :: h in r <==> h in s.topmost && h in s.windows && IsTopmost(s.windows[h])
  {
    set h | h in s.topmost && GetWindowLong(s.windows, h, GwlExStyle) & WS_EX_TOPMOST != 0
  }

  /** `f"AOT: {count} window{'s' if count > 1 else ''}"`. */
  function StatusText(count: nat): string
  {
    "AOT: " + NatToString(count) + " window" + (if count > 1 then "s" else "")
  }

  /** `get_always_on_top_status()`. */
  function Status(s: Wm): string
  {
    if |s.topmost| == 0 then "AOT: None" else StatusText(|LiveTopmost(s)|)
  }

  /** The status says `None` exactly when no window was ever made topmost
      (or all were released), and otherwise counts the live topmost
      windows, which are at most the tracked ones. */
  lemma StatusMeaning(s: Wm)
    ensures Status(s) == "AOT: None" <==> s.topmost == {}
    ensures s.topmost != {} ==> Status(s) == StatusText(|LiveTopmost(s)|) && |LiveTopmost(s)| <= |s.topmost|
  {
    if s.topmost != {} {
      var t := StatusText(|LiveTopmost(s)|);
      assert t[5] == NatToString(|LiveTopmost(s)|)[0];
      assert IsDigit(t[5]);
      assert "AOT: None"[5] == 'N';
      SubsetCard(LiveTopmost(s), s.topmost);
    }
  }

  lemma SubsetCard<T>(a: set<T>, b: set<T>)
    requires a <= b
    ensures |a| <= |b|
  {
    assert b == a + (b - a);
  }

  /** Making a window topmost adds it to the count; releasing it takes it
      out. */
  lemma StatusTracksSetAlwaysOnTop(s: Wm, h: Hwnd, enable: bool)
    requires h in s.windows
    ensures LiveTopmost(SetAlwaysOnTop(s, h, enable)) == if enable then LiveTopmost(s) + {h} else LiveTopmost(s) - {h}
  {
    var r := SetAlwaysOnTop(s, h, enable);
    var e := if enable then LiveTopmost(s) + {h} else LiveTopmost(s) - {h};
    forall g ensures g in LiveTopmost(r) <==> g in e {
      if g != h && g in s.windows { assert r.windows[g] == s.windows[g]; }
    }
  }

  // ---------------------------------------------------------------------
  // cleanup_invalid_windows (window_manager.py only)

  /** Forgetting one handle: its snapshot, its always-on-top entry and its
      place in the list. */
  function Forget(s: Wm, h: Hwnd): Wm
  {
    s.(states := s.states - {h}, topmost := s.topmost - {h}, managed := RemoveFirst(s.managed, h))
  }

  function ForgetAll(s: Wm, hs: seq<Hwnd>): Wm
    decreases |hs|
  {
    if hs == [] then s else Forget(ForgetAll(s, hs[..|hs| - 1]), hs[|hs| - 1])
  }

  lemma ForgetAllStep(s: Wm, hs: seq<Hwnd>, j: nat)
    requires j < |hs|
    ensures ForgetAll(s, hs[..j + 1]) == Forget(ForgetAll(s, hs[..j]), hs[j])
  {
    assert hs[..j + 1][..j] == hs[..j];
  }

  /** `cleanup_invalid_windows()`: how many handles were dropped, and the
      state after dropping every managed handle without a window. */
  function Cleanup(s: Wm): (nat, Wm)
  {
    var invalid := Stale(s.windows, s.managed);
    (|invalid|, ForgetAll(s, invalid))
  }

  /** After forgetting the handles of `done`. */
  ghost predicate Forgotten(s: Wm, done: seq<Hwnd>, t: Wm)
  {
    && t.windows == s.windows
    && NoDup(t.managed)
    && (forall g :: g in t.managed <==> g in s.managed && g !in done)
    && (forall g :: g in t.states <==> g in s.states && g !in done)
    && (forall g :: g in t.states ==> t.states[g] == s.states[g])
    && (forall g :: g in t.topmost <==> g in s.topmost && g !in done)
  }

  lemma {:induction false} ForgetAllSpec(s: Wm, hs: seq<Hwnd>)
    requires Inv(s) && NoDup(hs) && forall g :: g in hs ==> g in s.managed
    ensures Forgotten(s, hs, ForgetAll(s, hs))
    decreases |hs|
  {
    if hs != [] {
      var pre := hs[..|hs| - 1];
      var h := hs[|hs| - 1];
      assert hs == pre + [h];
      assert NoDup(pre) && h !in pre;
      ForgetAllSpec(s, pre);
    }
  }

  /** `cleanup_invalid_windows()` drops exactly the managed handles whose
      window is gone, with their snapshots and always-on-top entries, counts
      them, keeps the invariant and touches no window. */
  lemma CleanupSpec(s: Wm)
    requires Inv(s)
    ensures Cleanup(s).0 == |Stale(s.windows, s.managed)|
    ensures Cleanup(s).1.windows == s.windows
    ensures forall g :: g in Cleanup(s).1.managed <==> g in s.managed && g in s.windows
    ensures forall g :: g in Cleanup(s).1.topmost <==> g in s.topmost && !(g in s.managed && g !in s.windows)
    ensures forall g :: g in Cleanup(s).1.states ==> g in s.states && Cleanup(s).1.states[g] == s.states[g]
    ensures Inv(Cleanup(s).1)
  {
    var invalid := Stale(s.windows, s.managed);
    StaleNoDup(s.windows, s.managed);
    ForgetAllSpec(s, invalid);
  }

  // ---------------------------------------------------------------------
  // toggle_always_on_top

  /** `toggle_always_on_top(hwnd)`: for a handle in `topmost_windows`, flip
      the window's topmost state; the set itself is not updated. */
  function Toggle(s: Wm, h: Hwnd): Wm
  {
    if h !in s.topmost then s
    else
      var isTop := GetWindowLong(s.windows, h, GwlExStyle) & WS_EX_TOPMOST != 0;
      match SetWindowPos(s.windows, h, if isTop then InsertNoTopMost else InsertTopMost, 0, 0, 0, 0, Z_ONLY)
      case None => s
      case Some(ws) => s.(windows := ws)
  }

  /** Toggling flips the topmost bit of a tracked live window and changes
      nothing else. */
  lemma ToggleFlips(s: Wm, h: Hwnd)
    ensures Toggle(s, h).managed == s.managed && Toggle(s, h).topmost == s.topmost && Toggle(s, h).states == s.states
    ensures Toggle(s, h).windows.Keys == s.windows.Keys
    ensures forall g :: g in s.windows && g != h ==> Toggle(s, h).windows[g] == s.windows[g]
    ensures h !in s.topmost || h !in s.windows ==> Toggle(s, h) == s
    ensures h in s.topmost && h in s.windows ==>
      && IsTopmost(Toggle(s, h).windows[h]) == !IsTopmost(s.windows[h])
      && Toggle(s, h).windows[h] == s.windows[h].(exstyle := Toggle(s, h).windows[h].exstyle)
  {
  }

  lemma ToggleLive(s: Wm, h: Hwnd)
    requires h in s.topmost && h in s.windows
    ensures Toggle(s, h) == s.(windows := s.windows[h := s.windows[h].(exstyle := Flipped(s.windows[h].exstyle))])
  {
  }

  /** Toggling twice gives the state back. */
  lemma ToggleTwice(s: Wm, h: Hwnd)
    ensures Toggle(Toggle(s, h), h) == s
  {
    if h in s.topmost && h in s.windows {
      var w := s.windows[h];
      ToggleLive(s, h);
      var t := Toggle(s, h);
      ToggleLive(t, h);
      FlipTwice(w.exstyle);
      assert t.windows[h].(exstyle := Flipped(t.windows[h].exstyle)) == w;
      assert t.windows[h := w] == s.windows;
    }
  }

  // ---------------------------------------------------------------------
  // manage_selected_window (window_manager.py only)

  /** `manage_selected_window(hwnd)`: refuse a zero or dead handle;
      otherwise manage it, make it topmost and borderless. */
  function ManageSelected(s: Wm, h: Hwnd): (bool, Wm)
  {
    if h == 0 || h !in s.windows then (false, s)
    else
      var s1 := SetAlwaysOnTop(AddManaged(s, h), h, true);
      (true, s1.(windows := MakeBorderless(s1.windows, h).1))
  }

  /** A selected live window ends up managed, with a snapshot of itself as
      it was before, tracked and shown topmost, and without a frame. */
  lemma ManageSelectedSpec(s: Wm, h: Hwnd)
    ensures ManageSelected(s, h).0 <==> h != 0 && h in s.windows
    ensures !ManageSelected(s, h).0 ==> ManageSelected(s, h).1 == s
    ensures ManageSelected(s, h).0 ==>
      var r := ManageSelected(s, h).1;
      && h in r.managed && h in r.topmost
      && r.windows.Keys == s.windows.Keys
      && (h !in s.managed ==> r.states[h] == WindowMetrics(s.windows, h))
      && IsTopmost(r.windows[h])
      && r.windows[h].style & FRAME_BITS == 0
      && r.windows[h].style & !FRAME_BITS == s.windows[h].style & !FRAME_BITS
      && (forall g :: g in s.windows && g != h ==> r.windows[g] == s.windows[g])
    ensures Inv(s) ==> Inv(ManageSelected(s, h).1)
  {
    if h != 0 && h in s.windows {
      if Inv(s) { InvAdd(s, h); }
      var st := s.windows[h].style;
      assert Unframed(st) & FRAME_BITS == 0;
      assert Unframed(st) & !FRAME_BITS == st & !FRAME_BITS;
    }
  }
}
