/** The read-only queries of `WindowManager`: `get_all_window_titles` with
    its system-window filter, `_match_window_title`, and
    `find_matching_windows`, which pairs the sections of a configuration
    with open windows. Both window_manager.py and lib/window_manager.py
    are covered; they differ only in the deny-list. */
module WindowQueries {
  import opened Common
  import opened Text
  import opened Sorting
  import opened Ini
  import opened TitleCleaner
  import opened Win32

  // ---------------------------------------------------------------------
  // get_all_window_titles

  /** The list of window_manager.py's `_is_system_window`. */
  const SYSTEM_WINDOWS: seq<string> := [
    "Program Manager",
    "Windows Input Experience",
    "Microsoft Text Input Application",
    "Settings",
    "Windows Shell Experience Host"
  ]

  /** lib/window_manager.py also hides the application's own window. */
  function SystemWindows(legacy: bool): (r: seq<string>)
    ensures forall t :: t in SYSTEM_WINDOWS ==> t in r
  {
    if legacy then SYSTEM_WINDOWS else ["Window Manager"] + SYSTEM_WINDOWS
  }

  /** `_is_system_window(title)`: some listed name occurs in the title,
      ignoring case. */
  predicate IsSystemWindow(title: string, deny: seq<string>)
  {
    exists i :: 0 <= i < |deny| && Contains(Lower(title), Lower(deny[i]))
  }

  /** A window whose title the enumeration callback keeps. */
  predicate Listable(ws: Windows, h: Hwnd, deny: seq<string>)
  {
    IsWindowVisible(ws, h) && GetWindowText(ws, h) != "" && !IsSystemWindow(GetWindowText(ws, h), deny)
  }

  /** The titles `enum_window_callback` appends, in enumeration order. */
  function ListedTitles(ws: Windows, order: seq<Hwnd>, deny: seq<string>): seq<string>
    decreases |order|
  {
    if order == [] then []
    else
      var h := order[|order| - 1];
      ListedTitles(ws, order[..|order| - 1], deny) + (if Listable(ws, h, deny) then [GetWindowText(ws, h)] else [])
  }

  /** `get_all_window_titles()`: the kept titles, sorted. */
  function WindowTitles(ws: Windows, order: seq<Hwnd>, legacy: bool): seq<string>
  {
    SortStrings(ListedTitles(ws, order, SystemWindows(legacy)))
  }

  lemma {:induction false} ListedTitlesMembers(ws: Windows, order: seq<Hwnd>, deny: seq<string>)
    ensures forall t :: t in ListedTitles(ws, order, deny) <==>
      exists h :: h in order && Listable(ws, h, deny) && GetWindowText(ws, h) == t
    decreases |order|
  {
    if order != [] {
      var pre := order[..|order| - 1];
      ListedTitlesMembers(ws, pre, deny);
      assert order == pre + [order[|order| - 1]];
      forall t | t in ListedTitles(ws, order, deny)
        ensures exists h :: h in order && Listable(ws, h, deny) && GetWindowText(ws, h) == t
      {
        if t in ListedTitles(ws, pre, deny) {
          var h :| h in pre && Listable(ws, h, deny) && GetWindowText(ws, h) == t;
          assert h in order;
        }
      }
    }
  }

  /** The titles come out sorted, each once per window that shows it, and
      they are exactly the non-empty titles of visible windows that name no
      system window. */
  lemma WindowTitlesSpec(ws: Windows, order: seq<Hwnd>, legacy: bool)
    ensures SortedStrings(WindowTitles(ws, order, legacy))
    ensures multiset(WindowTitles(ws, order, legacy)) == multiset(ListedTitles(ws, order, SystemWindows(legacy)))
    ensures forall t :: t in WindowTitles(ws, order, legacy) <==>
      exists h :: h in order && Listable(ws, h, SystemWindows(legacy)) && GetWindowText(ws, h) == t
  {
    var l := ListedTitles(ws, order, SystemWindows(legacy));
    ListedTitlesMembers(ws, order, SystemWindows(legacy));
    var r := WindowTitles(ws, order, legacy);
    forall t ensures t in r <==> t in l {
      assert t in r <==> t in multiset(r);
      assert t in l <==> t in multiset(l);
    }
  }

  /** The later deny-list hides everything the earlier one hides. */
  lemma LaterHidesMore(ws: Windows, order: seq<Hwnd>, t: string)
    requires t in WindowTitles(ws, order, false)
    ensures t in WindowTitles(ws, order, true)
  {
    WindowTitlesSpec(ws, order, false);
    WindowTitlesSpec(ws, order, true);
    var h :| h in order && Listable(ws, h, SystemWindows(false)) && GetWindowText(ws, h) == t;
    var deny := SystemWindows(false);
    assert forall i :: 0 <= i < |SYSTEM_WINDOWS| ==> SYSTEM_WINDOWS[i] == deny[i + 1];
    assert Listable(ws, h, SystemWindows(true));
  }

  // ---------------------------------------------------------------------
  // _match_window_title

  /** `_match_window_title(config_title, window_title)`: the section name,
      lower-cased and trimmed, occurs in the window title, lower-cased and
      trimmed. */
  predicate MatchWindowTitle(configTitle: string, windowTitle: string)
  {
    Contains(Strip(Lower(windowTitle)), Strip(Lower(configTitle)))
  }

  /** Every title matches a section named after it, and a section whose
      name is blank matches every window. */
  lemma MatchWindowTitleReflexive(title: string)
    ensures MatchWindowTitle(title, title)
    ensures MatchWindowTitle("", title)
  {
    ContainsSelf(Strip(Lower(title)));
    assert Strip(Lower("")) == "";
  }

  // ---------------------------------------------------------------------
  // find_matching_windows

  /** One entry of `matching_windows`: the section and the window's handle
      (the `pygetwindow` object is represented by its handle). */
  datatype Match = Match(configName: string, hwnd: Hwnd)

  /** The test of the inner loop: a non-empty title whose cleaned form
      contains the cleaned section name. */
  predicate TitleMatches(title: string, key: string)
  {
    title != "" && Contains(CleanWindowTitle(title, false), key)
  }

  /** The test of the inner loop for one cleaned section name. */
  function MatchesKey(key: string): string -> bool
  {
    t => TitleMatches(t, key)
  }

  /** The first title from position `j` on that passes the test `hit`. */
  function FirstMatchFrom(titles: seq<string>, hit: string -> bool, j: nat): (r: Option<nat>)
    requires j <= |titles|
    ensures r.None? <==> forall k :: j <= k < |titles| ==> !hit(titles[k])
    ensures r.Some? ==> j <= r.value < |titles| && hit(titles[r.value])
    ensures r.Some? ==> forall k :: j <= k < r.value ==> !hit(titles[k])
    decreases |titles| - j
  {
    if j == |titles| then None
    else if hit(titles[j]) then Some(j)
    else FirstMatchFrom(titles, hit, j + 1)
  }

  /** `gw.getWindowsWithTitle(title)[0]` for the `j`-th listed title: the
      list is never empty, since the window that title came from is in it. */
  function WindowWithTitle(ws: Windows, order: seq<Hwnd>, j: nat): (h: Hwnd)
    requires j < |AllTitles(ws, order)|
    ensures FirstWithTitle(ws, VisibleOf(ws, order), AllTitles(ws, order)[j]) == Some(h)
  {
    var vis := VisibleOf(ws, order);
    var t := AllTitles(ws, order)[j];
    ContainsSelf(Upper(t));
    assert GetWindowText(ws, vis[j]) == t;
    FirstWithTitle(ws, vis, t).value
  }

  /** The window a section is matched with, if any. */
  function SectionMatch(ws: Windows, order: seq<Hwnd>, section: string): Option<Hwnd>
  {
    var titles := AllTitles(ws, order);
    match FirstMatchFrom(titles, MatchesKey(CleanWindowTitle(section, false)), 0)
    case None => None
    case Some(j) => Some(WindowWithTitle(ws, order, j))
  }

  /** A section is reported missing exactly when no listed title passes
      the test of the inner loop. */
  lemma SectionMissing(ws: Windows, order: seq<Hwnd>, section: string)
    ensures SectionMatch(ws, order, section).None? <==> forall k :: 0 <= k < |AllTitles(ws, order)| ==>
      !TitleMatches(AllTitles(ws, order)[k], CleanWindowTitle(section, false))
  {
    var key := CleanWindowTitle(section, false);
    assert forall t :: MatchesKey(key)(t) == TitleMatches(t, key);
  }

  /** What a match promises: the window is visible, and its title contains
      (ignoring case) a listed title whose cleaned form contains the
      cleaned section name. */
  lemma SectionMatchSound(ws: Windows, order: seq<Hwnd>, section: string)
    requires SectionMatch(ws, order, section).Some?
    ensures var h := SectionMatch(ws, order, section).value;
      && IsWindowVisible(ws, h)
      && exists t :: t in AllTitles(ws, order) && TitleMatches(t, CleanWindowTitle(section, false))
           && Contains(Upper(GetWindowText(ws, h)), Upper(t))
  {
    var titles := AllTitles(ws, order);
    var key := CleanWindowTitle(section, false);
    var j := FirstMatchFrom(titles, MatchesKey(key), 0).value;
    assert MatchesKey(key)(titles[j]) == TitleMatches(titles[j], key);
    assert titles[j] in titles;
  }

  /** The outer loop over the first sections, given the window each one
      is matched with: matched and missing sections, in order. */
  function Sift(names: seq<string>, picks: seq<Option<Hwnd>>): (seq<Match>, seq<string>)
    requires |picks| == |names|
    decreases |names|
  {
    if names == [] then ([], [])
    else
      var n := |names| - 1;
      var (m, miss) := Sift(names[..n], picks[..n]);
      match picks[n]
      case Some(h) => (m + [Match(names[n], h)], miss)
      case None => (m, miss + [names[n]])
  }

  /** One more turn of the outer loop. */
  lemma SiftStep(names: seq<string>, picks: seq<Option<Hwnd>>, i: nat)
    requires |picks| == |names| && i < |names|
    ensures Sift(names[..i + 1], picks[..i + 1]) ==
      match picks[i]
      case Some(h) => (Sift(names[..i], picks[..i]).0 + [Match(names[i], h)], Sift(names[..i], picks[..i]).1)
      case None => (Sift(names[..i], picks[..i]).0, Sift(names[..i], picks[..i]).1 + [names[i]])
  {
    assert names[..i + 1][..i] == names[..i];
    assert picks[..i + 1][..i] == picks[..i];
  }

  /** The window each section is matched with. */
  function Picks(ws: Windows, order: seq<Hwnd>, names: seq<string>): (r: seq<Option<Hwnd>>)
    ensures |r| == |names|
    ensures forall i :: 0 <= i < |names| ==> r[i] == SectionMatch(ws, order, names[i])
  {
    seq(|names|, i requires 0 <= i < |names| => SectionMatch(ws, order, names[i]))
  }

  function Classify(ws: Windows, order: seq<Hwnd>, names: seq<string>): (seq<Match>, seq<string>)
  {
    Sift(names, Picks(ws, order, names))
  }

  /** `find_matching_windows(config)`; `None` stands for a missing parser. */
  function FindMatching(ws: Windows, order: seq<Hwnd>, config: Option<Config>): (seq<Match>, seq<string>)
  {
    if config.None? || |config.value.sections| == 0 then ([], [])
    else Classify(ws, order, Names(config.value))
  }

  /** A matched entry comes from a section whose pick is its window. */
  predicate FromMatched(names: seq<string>, picks: seq<Option<Hwnd>>, m: Match)
    requires |picks| == |names|
  {
    exists i :: 0 <= i < |names| && picks[i] == Some(m.hwnd) && names[i] == m.configName
  }

  /** A missing entry comes from a section with no pick. */
  predicate FromMissed(names: seq<string>, picks: seq<Option<Hwnd>>, n: string)
    requires |picks| == |names|
  {
    exists i :: 0 <= i < |names| && picks[i].None? && names[i] == n
  }

  /** Every section lands in exactly one of the two lists, in order: the
      matched ones with their window, the others as missing. */
  lemma {:induction false} SiftPartition(names: seq<string>, picks: seq<Option<Hwnd>>)
    requires |picks| == |names|
    ensures |Sift(names, picks).0| + |Sift(names, picks).1| == |names|
    ensures forall k :: 0 <= k < |Sift(names, picks).0| ==> FromMatched(names, picks, Sift(names, picks).0[k])
    ensures forall k :: 0 <= k < |Sift(names, picks).1| ==> FromMissed(names, picks, Sift(names, picks).1[k])
    ensures forall i :: 0 <= i < |names| && picks[i].Some? ==> Match(names[i], picks[i].value) in Sift(names, picks).0
    ensures forall i :: 0 <= i < |names| && picks[i].None? ==> names[i] in Sift(names, picks).1
    decreases |names|
  {
    SiftCount(names, picks);
    SiftSound(names, picks);
    SiftComplete(names, picks);
  }

  lemma {:induction false} SiftCount(names: seq<string>, picks: seq<Option<Hwnd>>)
    requires |picks| == |names|
    ensures |Sift(names, picks).0| + |Sift(names, picks).1| == |names|
    decreases |names|
  {
    if names != [] {
      SiftCount(names[..|names| - 1], picks[..|names| - 1]);
    }
  }

  lemma {:induction false} SiftSound(names: seq<string>, picks: seq<Option<Hwnd>>)
    requires |picks| == |names|
    ensures forall k :: 0 <= k < |Sift(names, picks).0| ==> FromMatched(names, picks, Sift(names, picks).0[k])
    ensures forall k :: 0 <= k < |Sift(names, picks).1| ==> FromMissed(names, picks, Sift(names, picks).1[k])
    decreases |names|
  {
    if names != [] {
      var n := |names| - 1;
      SiftSound(names[..n], picks[..n]);
      var (m, miss) := Sift(names[..n], picks[..n]);
      forall k | 0 <= k < |Sift(names, picks).0|
        ensures FromMatched(names, picks, Sift(names, picks).0[k])
      {
        var x := Sift(names, picks).0[k];
        if k < |m| {
          assert x == m[k];
          assert FromMatched(names[..n], picks[..n], m[k]);
          var i :| 0 <= i < n && picks[..n][i] == Some(m[k].hwnd) && names[..n][i] == m[k].configName;
          assert picks[i] == picks[..n][i] && names[i] == names[..n][i];
        } else {
          assert picks[n] == Some(x.hwnd) && names[n] == x.configName;
        }
      }
      forall k | 0 <= k < |Sift(names, picks).1|
        ensures FromMissed(names, picks, Sift(names, picks).1[k])
      {
        var x := Sift(names, picks).1[k];
        if k < |miss| {
          assert x == miss[k];
          assert FromMissed(names[..n], picks[..n], miss[k]);
          var i :| 0 <= i < n && picks[..n][i].None? && names[..n][i] == miss[k];
          assert picks[i] == picks[..n][i] && names[i] == names[..n][i];
        } else {
          assert picks[n].None? && names[n] == x;
        }
      }
    }
  }

  lemma {:induction false} SiftComplete(names: seq<string>, picks: seq<Option<Hwnd>>)
    requires |picks| == |names|
    ensures forall i :: 0 <= i < |names| && picks[i].Some? ==> Match(names[i], picks[i].value) in Sift(names, picks).0
    ensures forall i :: 0 <= i < |names| && picks[i].None? ==> names[i] in Sift(names, picks).1
    decreases |names|
  {
    if names != [] {
      var n := |names| - 1;
      SiftComplete(names[..n], picks[..n]);
      var (m, miss) := Sift(names[..n], picks[..n]);
      var r := Sift(names, picks);
      assert forall x :: x in m ==> x in r.0;
      assert forall x :: x in miss ==> x in r.1;
      forall i | 0 <= i < n ensures picks[i] == picks[..n][i] && names[i] == names[..n][i] { }
    }
  }

  /** Stated for the sections of a configuration: each matched section
      carries the window `SectionMatch` picks for it, each other section is
      reported missing, and nothing else is reported. */
  lemma ClassifyPartition(ws: Windows, order: seq<Hwnd>, names: seq<string>)
    ensures |Classify(ws, order, names).0| + |Classify(ws, order, names).1| == |names|
    ensures forall m :: m in Classify(ws, order, names).0 ==>
      m.configName in names && SectionMatch(ws, order, m.configName) == Some(m.hwnd)
    ensures forall n :: n in Classify(ws, order, names).1 ==> n in names && SectionMatch(ws, order, n).None?
    ensures forall n :: n in names && SectionMatch(ws, order, n).Some? ==>
      Match(n, SectionMatch(ws, order, n).value) in Classify(ws, order, names).0
    ensures forall n :: n in names && SectionMatch(ws, order, n).None? ==> n in Classify(ws, order, names).1
  {
    var picks := Picks(ws, order, names);
    SiftPartition(names, picks);
    var (m, miss) := Sift(names, picks);
    forall x | x in m ensures x.configName in names && SectionMatch(ws, order, x.configName) == Some(x.hwnd) {
      var k :| 0 <= k < |m| && m[k] == x;
      assert FromMatched(names, picks, m[k]);
      var i :| 0 <= i < |names| && picks[i] == Some(m[k].hwnd) && names[i] == m[k].configName;
    }
    forall x | x in miss ensures x in names && SectionMatch(ws, order, x).None? {
      var k :| 0 <= k < |miss| && miss[k] == x;
      assert FromMissed(names, picks, miss[k]);
      var i :| 0 <= i < |names| && picks[i].None? && names[i] == miss[k];
    }
    forall x | x in names ensures (SectionMatch(ws, order, x).Some? ==> Match(x, SectionMatch(ws, order, x).value) in m)
                                   && (SectionMatch(ws, order, x).None? ==> x in miss) {
      var i :| 0 <= i < |names| && names[i] == x;
    }
  }

  /** A configuration without sections, or none at all, finds nothing;
      otherwise the sections are partitioned as `ClassifyPartition` says. */
  lemma FindMatchingSpec(ws: Windows, order: seq<Hwnd>, config: Option<Config>)
    ensures config.None? || config.value.sections == [] ==> FindMatching(ws, order, config) == ([], [])
    ensures config.Some? ==>
      |FindMatching(ws, order, config).0| + |FindMatching(ws, order, config).1| == |config.value.sections|
    ensures config.Some? ==> forall n :: n in Names(config.value) ==>
      (n in FindMatching(ws, order, config).1 <==> SectionMatch(ws, order, n).None?)
  {
    if config.Some? && config.value.sections != [] {
      ClassifyPartition(ws, order, Names(config.value));
    }
  }
}
