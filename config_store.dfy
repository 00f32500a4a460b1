/** `ConfigManager.save_window_config` of lib/config_manager.py: one entry
    per window with a non-blank title, sorted left to right by the x of its
    position, assigned section by section into a parser, repaired, and
    written as `config_<name>.ini`. */
module ConfigStore {
  import opened Common
  import opened Text
  import opened Sorting
  import opened Ini
  import opened TitleCleaner
  import opened ConfigRepair
  import opened ConfigFiles

  /** A window's settings dictionary. */
  type Settings = map<string, PyVal>

  /** `window_data`: window titles and their settings, in insertion order. */
  type WindowData = seq<(string, Settings)>

  /** The four options every saved section is written with, in order. */
  const OPTION_KEYS := ["position", "size", "always_on_top", "titlebar"]

  /** `settings.get(k)`. */
  function Lookup(s: Settings, k: string): PyVal
  {
    if k in s then s[k] else PNone
  }

  /** `v or d` for a string default `d`. */
  function Or(v: PyVal, d: string): PyVal
  {
    if Truthy(v) then v else PStr(d)
  }

  /** `str(v)`. */
  function Str(v: PyVal): string
  {
    match v
    case PNone => "None"
    case PBool(b) => if b then "True" else "False"
    case PInt(i) => IntToString(i)
    case PStr(s) => s
    case PPair(x, y) => "(" + IntToString(x) + ", " + IntToString(y) + ")"
  }

  /** `str(b).lower()` is the flag word the repair accepts. */
  lemma FlagText(b: bool)
    ensures Lower(Str(PBool(b))) == if b then "true" else "false"
  {
  }

  // ----- entries -----

  /** `(x, section_name, settings)`. */
  datatype Entry = Entry(x: int, section: string, settings: Settings)

  function EntryX(e: Entry): int
  {
    e.x
  }

  /** `int(position.split(',')[0])` for the position written to the file,
      and 0 when `int` raises. */
  function PositionX(s: Settings): int
  {
    var position := Str(Or(Lookup(s, "position"), DEFAULT_POSITION));
    match ParseInt(Split(position, ',')[0])
    case Some(x) => x
    case None => 0
  }

  /** A window at `"x,y"` is sorted by `x`; a window without a position is
      sorted as if at 0. */
  lemma PositionXSpec(s: Settings, x: int, y: int)
    ensures Lookup(s, "position") == PStr(PairToString(x, y)) ==> PositionX(s) == x
    ensures !Truthy(Lookup(s, "position")) ==> PositionX(s) == 0
  {
    var a, b := IntToString(x), IntToString(y);
    assert Join([a, b], ',') == a + [','] + b;
    SplitJoin([a, b], ',');
    IntRoundTrip(x);
    assert Join(["0", "0"], ',') == DEFAULT_POSITION;
    SplitJoin(["0", "0"], ',');
    assert ParseInt("0") == Some(0);
  }

  /** One iteration of the first loop: `None` for a blank title; the
      section is named by `settings.get('name') or title`, cleaned, and a
      name that is not a string makes the cleaning raise `TypeError`. */
  function EntryOf(title: string, s: Settings): (r: Result<Option<Entry>>)
    ensures r.Ok? && r.value.Some? ==> r.value.value.settings == s
  {
    if Strip(title) == [] then Ok(None)
    else match Or(Lookup(s, "name"), title)
      case PStr(n) => Ok(Some(Entry(PositionX(s), CleanWindowTitle(n, true), s)))
      case _ => Err(TypeError)
  }

  /** The outcome of the first loop's body for every window. */
  function EntryResults(wd: WindowData): (r: seq<Result<Option<Entry>>>)
    ensures |r| == |wd|
    ensures forall i :: 0 <= i < |wd| ==> r[i] == EntryOf(wd[i].0, wd[i].1)
  {
    seq(|wd|, i requires 0 <= i < |wd| => EntryOf(wd[i].0, wd[i].1))
  }

  /** The list `entries` before the sort, or the exception the loop raises. */
  function Entries(wd: WindowData): (r: Result<seq<Entry>>)
  {
    CollectSomes(EntryResults(wd))
  }

  /** One entry per window with a non-blank title, in input order. */
  lemma EntriesFromNonBlankTitles(wd: WindowData)
    requires Entries(wd).Ok?
    ensures var es := Entries(wd).value;
      var idx := SomeIndices(OkValues(EntryResults(wd)));
      && |es| == |idx|
      && (forall j :: 0 <= j < |es| ==>
            idx[j] < |wd| && Strip(wd[idx[j]].0) != [] && EntryOf(wd[idx[j]].0, wd[idx[j]].1) == Ok(Some(es[j])))
      && (forall j, k :: 0 <= j < k < |idx| ==> idx[j] < idx[k])
      && (forall i :: 0 <= i < |wd| && Strip(wd[i].0) != [] ==> i in idx)
  {
    var rs := EntryResults(wd);
    var opts := OkValues(rs);
    CollectSomesSpec(rs);
    SomesAt(opts);
    forall i | 0 <= i < |wd| && Strip(wd[i].0) != [] ensures opts[i].Some? {
      assert rs[i].Ok?;
    }
  }

  // ----- the sections -----

  /** The dictionary assigned to a section. */
  function SectionValues(s: Settings): (r: Items)
    ensures Keys(r) == OPTION_KEYS && UniqueKeys(r)
  {
    var r := [
      ("position", Str(Or(Lookup(s, "position"), DEFAULT_POSITION))),
      ("size", Str(Or(Lookup(s, "size"), DEFAULT_SIZE))),
      ("always_on_top", if "always_on_top" in s then Lower(Str(s["always_on_top"])) else "false"),
      ("titlebar", if "titlebar" in s then Lower(Str(s["titlebar"])) else "true")
    ];
    assert Keys(r) == OPTION_KEYS;
    r
  }

  /** A dictionary written by the save: empty, or the four options. */
  predicate FourOrNone(items: Items)
  {
    items == [] || (Keys(items) == OPTION_KEYS && UniqueKeys(items))
  }

  predicate Assembled(c: Config)
  {
    Valid(c) && FourOrNone(c.defaults) && forall j :: 0 <= j < |c.sections| ==> FourOrNone(c.sections[j].items)
  }

  /** `config[name] = values` for one entry keeps the shape. */
  lemma AssignKeepsShape(c: Config, name: string, s: Settings)
    requires Assembled(c)
    ensures Assembled(Assign(c, name, SectionValues(s)))
  {
    var d := SectionValues(s);
    UpdateFresh([], d);
    assert [] + d == d;
    if name == DEFAULT_SECTION {
      AssignDefault(c, d);
    } else if name == "" {
      AssignBlankKeepsShape(c, d);
    } else {
      AssignSectionKeepsShape(c, name, d);
    }
  }

  lemma AssignBlankKeepsShape(c: Config, d: Items)
    requires Assembled(c) && Keys(d) == OPTION_KEYS && UniqueKeys(d) && Update([], d) == d
    ensures Assembled(Assign(c, "", d))
  {
    AssignBlank(c, d);
    if c.defaults != [] {
      forall i | 0 <= i < |d| ensures d[i].0 in Keys(c.defaults) {
        assert Keys(d)[i] == d[i].0;
      }
      UpdateKeysKnown(c.defaults, d);
    }
  }

  lemma AssignSectionKeepsShape(c: Config, name: string, d: Items)
    requires Assembled(c) && !ToDefaults(name) && Keys(d) == OPTION_KEYS && UniqueKeys(d) && Update([], d) == d
    ensures Assembled(Assign(c, name, d))
  {
    AssignSection(c, name, d);
  }

  /** The second loop: the entries assigned one by one into a fresh parser. */
  function Assemble(es: seq<Entry>): (r: Config)
    ensures Assembled(r)
  {
    if es == [] then Empty
    else
      var c := Assemble(es[..|es| - 1]);
      var e := es[|es| - 1];
      AssignKeepsShape(c, e.section, e.settings);
      Assign(c, e.section, SectionValues(e.settings))
  }

  /** The configuration the save writes, or the exception it catches. */
  function SavedConfig(wd: WindowData): (r: Result<Config>)
  {
    match Entries(wd)
    case Err(e) => Err(e)
    case Ok(es) => Ok(Repair(Assemble(SortByKey(es, EntryX))))
  }

  /** `save_window_config(config_name, window_data)`. The directory test
      `os.path.isdir` is the parameter `dirExists`, whether the file can be
      opened and written is the parameter `writable` (the `open` raises
      otherwise, and the exception is caught), and the file-name cleaning
      of `lib/utils.py` is the parameter `titleCase`. */
  method SaveWindowConfig(dir: Dir, configName: string, windowData: WindowData, dirExists: bool, writable: bool, titleCase: string -> string)
    returns (ok: bool, after: Dir)
    ensures configName == [] ==> !ok
    ensures ok <==> configName != [] && SavedConfig(windowData).Ok? && dirExists && writable
    ensures after == if ok then WriteFile(dir, ConfigFileName(titleCase(configName)), SavedConfig(windowData).value) else dir
  {
    if configName == [] {
      return false, dir;
    }
    var name := titleCase(configName);
    var entries := CollectEntries(windowData);
    if entries.Err? {
      return false, dir;
    }
    var sorted := SortByKey(entries.value, EntryX);
    var config := AssignEntries(sorted);
    var validated := RepairConfig(config);
    if !dirExists || !writable {
      return false, dir;
    }
    return true, WriteFile(dir, ConfigFileName(name), validated);
  }

  /** The first loop, building `entries`. */
  method CollectEntries(windowData: WindowData) returns (r: Result<seq<Entry>>)
    ensures r == Entries(windowData)
  {
    ghost var rs := EntryResults(windowData);
    var entries: seq<Entry> := [];
    for i := 0 to |windowData|
      invariant CollectSomes(rs[..i]) == Ok(entries)
    {
      var (title, settings) := windowData[i];
      var e := EntryOf(title, settings);
      CollectSomesStep(rs, i, entries);
      if e.Err? {
        CollectSomesStopsAt(rs, i, |rs|);
        assert rs[..|rs|] == rs;
        return Err(e.error);
      }
      if e.value.Some? {
        entries := entries + [e.value.value];
      }
    }
    assert rs[..|windowData|] == rs;
    return Ok(entries);
  }

  /** The second loop, assigning the sorted entries into a fresh parser. */
  method AssignEntries(entries: seq<Entry>) returns (config: Config)
    ensures config == Assemble(entries)
  {
    config := Empty;
    for i := 0 to |entries|
      invariant config == Assemble(entries[..i])
    {
      assert entries[..i + 1][..i] == entries[..i];
      config := Assign(config, entries[i].section, SectionValues(entries[i].settings));
    }
    assert entries[..|entries|] == entries;
  }

  // ----- properties of the saved configuration -----

  /** A section of a dictionary-shaped parser is repaired to the four
      options, or dropped. */
  lemma RepairedFour(defaults: Items, s: Section)
    requires FourOrNone(defaults) && FourOrNone(s.items)
    ensures RepairSection(defaults, s).Some? ==> Keys(RepairSection(defaults, s).value.items) == OPTION_KEYS
  {
    var u := Update(defaults, s.items);
    if defaults == [] {
      UpdateFresh([], s.items);
      assert [] + s.items == s.items;
    } else if s.items != [] {
      forall i | 0 <= i < |s.items| ensures s.items[i].0 in Keys(defaults) {
        assert Keys(s.items)[i] == s.items[i].0;
      }
      UpdateKeysKnown(defaults, s.items);
    }
    assert u == [] || Keys(u) == OPTION_KEYS;
    if u != [] {
      assert UniqueKeys(u);
      forall i | 0 <= i < |u| ensures KnownKey(u[i].0) {
        assert Keys(u)[i] == u[i].0;
      }
      RepairItemsKeepsKnownKeys(u);
    }
  }

  /** Every section of a saved configuration holds exactly the options
      `position`, `size`, `always_on_top` and `titlebar`, in that order,
      each of the form the repair demands, and there are no defaults. */
  lemma SavedSectionsHaveFourOptions(wd: WindowData)
    requires SavedConfig(wd).Ok?
    ensures var c := SavedConfig(wd).value;
      && Valid(c)
      && c.defaults == []
      && forall j :: 0 <= j < |c.sections| ==>
           Keys(c.sections[j].items) == OPTION_KEYS && RepairedSection(c.sections[j])
  {
    var a := Assemble(SortByKey(Entries(wd).value, EntryX));
    var r := Repair(a).sections;
    RepairValid(a);
    RepairKeepsOrder(a);
    var idx := SomeIndices(RepairedSections(a.defaults, a.sections));
    forall j | 0 <= j < |r| ensures Keys(r[j].items) == OPTION_KEYS {
      RepairedFour(a.defaults, a.sections[idx[j]]);
    }
  }

  /** Entries with distinct names are assigned to sections of their own,
      in order, with nothing in the defaults. */
  lemma {:induction false} AssembleDistinct(es: seq<Entry>)
    requires forall j :: 0 <= j < |es| ==> !ToDefaults(es[j].section)
    requires forall j, k :: 0 <= j < k < |es| ==> es[j].section != es[k].section
    ensures Assemble(es).defaults == []
    ensures |Assemble(es).sections| == |es|
    ensures forall j :: 0 <= j < |es| ==>
      Assemble(es).sections[j] == Section(es[j].section, SectionValues(es[j].settings))
  {
    if es != [] {
      var init := es[..|es| - 1];
      AssembleDistinct(init);
      forall j | 0 <= j < |init| ensures init[j] == es[j] { }
      AssignDistinctStep(Assemble(init), es);
    }
  }

  /** One more entry of the loop, for a parser that holds the earlier
      entries as sections of their own. */
  lemma AssignDistinctStep(c: Config, es: seq<Entry>)
    requires es != [] && NoDup(Names(c))
    requires forall j :: 0 <= j < |es| ==> !ToDefaults(es[j].section)
    requires forall j, k :: 0 <= j < k < |es| ==> es[j].section != es[k].section
    requires c.defaults == [] && |c.sections| == |es| - 1
    requires forall j :: 0 <= j < |es| - 1 ==> c.sections[j] == Section(es[j].section, SectionValues(es[j].settings))
    ensures var a := Assign(c, es[|es| - 1].section, SectionValues(es[|es| - 1].settings));
      && a.defaults == []
      && |a.sections| == |es|
      && forall j :: 0 <= j < |es| ==> a.sections[j] == Section(es[j].section, SectionValues(es[j].settings))
  {
    var e := es[|es| - 1];
    var d := SectionValues(e.settings);
    assert e.section !in Names(c) by {
      forall j | 0 <= j < |c.sections| ensures Names(c)[j] != e.section {
        assert c.sections[j].name == es[j].section;
      }
    }
    AssignSection(c, e.section, d);
    UpdateFresh([], d);
    assert [] + d == d;
    var a := Assign(c, e.section, d);
    assert |Names(a)| == |Names(c)| + 1;
  }

  /** A section written from settings is repaired without losing an
      option. */
  lemma SectionValuesRepaired(s: Settings)
    ensures Update([], SectionValues(s)) == SectionValues(s)
    ensures Keys(RepairItems(SectionValues(s))) == OPTION_KEYS
  {
    var d := SectionValues(s);
    UpdateFresh([], d);
    assert [] + d == d;
    forall i | 0 <= i < |d| ensures KnownKey(d[i].0) {
      assert Keys(d)[i] == d[i].0;
    }
    RepairItemsKeepsKnownKeys(d);
  }

  /** A kept section written from settings survives the repair. */
  lemma RepairSectionOfValues(name: string, s: Settings)
    requires KeepSection(name)
    ensures RepairSection([], Section(name, SectionValues(s))) == Some(Section(name, RepairItems(SectionValues(s))))
  {
    SectionValuesRepaired(s);
  }

  /** Distinct section names, none of which the repair drops. */
  predicate DistinctKept(es: seq<Entry>)
  {
    && (forall j :: 0 <= j < |es| ==> KeepSection(es[j].section))
    && (forall j, k :: 0 <= j < k < |es| ==> es[j].section != es[k].section)
  }

  /** Entries with distinct kept names are repaired into one section each,
      in order. */
  lemma RepairDistinct(es: seq<Entry>)
    requires DistinctKept(es)
    ensures Repair(Assemble(es)).defaults == []
    ensures |Repair(Assemble(es)).sections| == |es|
    ensures forall j :: 0 <= j < |es| ==>
      Repair(Assemble(es)).sections[j] == Section(es[j].section, RepairItems(SectionValues(es[j].settings)))
  {
    forall j | 0 <= j < |es| ensures !ToDefaults(es[j].section) {
      KeptIsOrdinary(es[j].section);
    }
    AssembleDistinct(es);
    var a := Assemble(es);
    var opts := RepairedSections(a.defaults, a.sections);
    forall j | 0 <= j < |es|
      ensures opts[j] == Some(Section(es[j].section, RepairItems(SectionValues(es[j].settings))))
    {
      var e := es[j];
      assert a.sections[j] == Section(e.section, SectionValues(e.settings));
      RepairSectionOfValues(e.section, e.settings);
    }
    SomesAllSome(opts);
    assert Repair(a) == Config([], Somes(opts));
  }

  /** When the sorted entries carry distinct names that the repair keeps,
      the saved file holds one section per entry, left to right by x, each
      with its entry's repaired values. */
  lemma SavedLeftToRight(wd: WindowData)
    requires Entries(wd).Ok?
    requires DistinctKept(SortByKey(Entries(wd).value, EntryX))
    ensures var es := SortByKey(Entries(wd).value, EntryX);
      var c := SavedConfig(wd).value;
      && |c.sections| == |es|
      && (forall j :: 0 <= j < |es| ==>
            c.sections[j] == Section(es[j].section, RepairItems(SectionValues(es[j].settings))))
      && (forall j, k :: 0 <= j < k < |es| ==> es[j].x <= es[k].x)
  {
    var es := SortByKey(Entries(wd).value, EntryX);
    RepairDistinct(es);
    forall j, k | 0 <= j < k < |es| ensures es[j].x <= es[k].x {
      assert EntryX(es[j]) <= EntryX(es[k]);
    }
  }

  /** What a window without settings is saved with. */
  const BARE_VALUES: Items := [("position", "0,0"), ("size", "100,100"), ("always_on_top", "false"), ("titlebar", "true")]

  lemma BareValues()
    ensures SectionValues(map[]) == BARE_VALUES
    ensures RepairItems(BARE_VALUES) == BARE_VALUES
  {
    BareSection();
    BareRepaired();
  }

  lemma BareSection()
    ensures SectionValues(map[]) == BARE_VALUES
  {
    var none: Settings := map[];
    assert Lookup(none, "position") == PNone && Lookup(none, "size") == PNone;
    assert Str(Or(PNone, DEFAULT_POSITION)) == DEFAULT_POSITION;
    assert Str(Or(PNone, DEFAULT_SIZE)) == DEFAULT_SIZE;
  }

  lemma BareRepaired()
    ensures RepairItems(BARE_VALUES) == BARE_VALUES
  {
    BareSection();
    BareValuesValid();
    RepairItemsFixed(SectionValues(map[]));
  }

  lemma BareValuesValid()
    ensures forall i :: 0 <= i < |BARE_VALUES| ==> ValidOption(BARE_VALUES[i].0, BARE_VALUES[i].1)
  {
    DefaultsValid();
    assert ValidOption("position", DEFAULT_POSITION);
    assert ValidOption("size", DEFAULT_SIZE);
    assert ValidOption("always_on_top", "false");
    assert ValidOption("titlebar", "true");
  }

  /** A single entry with a kept name is saved as one section. */
  lemma SaveSingle(es: seq<Entry>)
    requires |es| == 1 && DistinctKept(es)
    ensures Repair(Assemble(es)) == Config([], [Section(es[0].section, RepairItems(SectionValues(es[0].settings)))])
  {
    RepairDistinct(es);
    Singleton(Repair(Assemble(es)).sections);
  }

  /** A window saved with no settings gets the defaults: position `0,0`,
      size `100,100`, not always on top, with a title bar. */
  lemma SaveBareWindow(title: string)
    requires Strip(title) != [] && KeepSection(CleanWindowTitle(title, true))
    ensures SavedConfig([(title, map[])]) == Ok(Config([], [Section(CleanWindowTitle(title, true), BARE_VALUES)]))
  {
    var e := BareEntry(title);
    BareValues();
    SaveOne([(title, map[])], e);
  }

  /** A list of windows that yields one kept entry with bare settings. */
  lemma SaveOne(wd: WindowData, e: Entry)
    requires Entries(wd) == Ok([e]) && KeepSection(e.section)
    requires RepairItems(SectionValues(e.settings)) == BARE_VALUES
    ensures SavedConfig(wd) == Ok(Config([], [Section(e.section, BARE_VALUES)]))
  {
    SavedOf(wd, [e]);
    SaveOneEntry(e);
  }

  lemma SaveOneEntry(e: Entry)
    requires KeepSection(e.section)
    requires RepairItems(SectionValues(e.settings)) == BARE_VALUES
    ensures Repair(Assemble(SortByKey([e], EntryX))) == Config([], [Section(e.section, BARE_VALUES)])
  {
    var es := [e];
    SortSingle(e);
    assert es[0] == e && DistinctKept(es);
    SaveBare(es);
  }

  /** One kept entry whose settings repair to the bare values. */
  lemma SaveBare(es: seq<Entry>)
    requires |es| == 1 && DistinctKept(es) && RepairItems(SectionValues(es[0].settings)) == BARE_VALUES
    ensures Repair(Assemble(es)) == Config([], [Section(es[0].section, BARE_VALUES)])
  {
    SaveSingle(es);
  }

  lemma SavedOf(wd: WindowData, es: seq<Entry>)
    requires Entries(wd) == Ok(es)
    ensures SavedConfig(wd) == Ok(Repair(Assemble(SortByKey(es, EntryX))))
  {
  }

  /** The entry of one window without settings. */
  lemma BareEntry(title: string) returns (e: Entry)
    requires Strip(title) != []
    ensures e.section == CleanWindowTitle(title, true) && e.settings == map[]
    ensures Entries([(title, map[])]) == Ok([e])
  {
    e := Entry(PositionX(map[]), CleanWindowTitle(title, true), map[]);
    assert EntryOf(title, map[]) == Ok(Some(e));
    assert EntryResults([(title, map[])]) == [Ok(Some(e))];
    CollectSomesSingle(e);
  }

  lemma SortSingle(e: Entry)
    ensures SortByKey([e], EntryX) == [e]
  {
  }

  /** After a successful save the new configuration is listed under the
      cleaned name and loads back as the repaired configuration. */
  lemma SavedConfigListed(dir: Dir, name: string, c: Config)
    ensures name in ListConfigFiles(Listing(WriteFile(dir, ConfigFileName(name), c))).1
    ensures LoadConfig(WriteFile(dir, ConfigFileName(name), c), ConfigFileName(name)) == Some(c)
  {
    ListedNames(Listing(WriteFile(dir, ConfigFileName(name), c)), name);
    WriteThenLoad(dir, ConfigFileName(name), c);
  }
}
