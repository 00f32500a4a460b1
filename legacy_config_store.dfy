/** `ConfigManager.save_window_config` of config_manager.py, the earlier
    variant: one section per window in input order, named by the window's
    `name` setting or its cleaned title, with the settings written as text
    and no repair, saved as `config_<name>.ini` under the name as given. */
module LegacyConfigStore {
  import opened Common
  import opened Text
  import opened Ini
  import opened TitleCleaner
  import opened ConfigFiles
  import CS = ConfigStore

  /** `settings.get(k, d)`. */
  function GetOr(s: CS.Settings, k: string, d: PyVal): (r: PyVal)
    ensures k !in s ==> r == d
    ensures k in s ==> r == s[k]
  {
    if k in s then s[k] else d
  }

  /** `settings.get('name', clean_window_title(title, sanitize=True))`:
      the key the section is assigned under, not necessarily a string. */
  function SectionKey(title: string, s: CS.Settings): PyVal
  {
    GetOr(s, "name", PStr(CleanWindowTitle(title, true)))
  }

  /** The name the parser files the section under, `str(key)`. */
  function SectionName(title: string, s: CS.Settings): string
  {
    CS.Str(SectionKey(title, s))
  }

  /** The dictionary assigned to a section: each setting or its default,
      passed through `str`, the two flags lower-cased. */
  function SectionValues(s: CS.Settings): (r: Items)
    ensures Keys(r) == CS.OPTION_KEYS && UniqueKeys(r)
    ensures Update([], r) == r
  {
    var r := [
      ("position", CS.Str(GetOr(s, "position", PStr("0,0")))),
      ("size", CS.Str(GetOr(s, "size", PStr("100,100")))),
      ("always_on_top", Lower(CS.Str(GetOr(s, "always_on_top", PBool(false))))),
      ("titlebar", Lower(CS.Str(GetOr(s, "titlebar", PBool(true)))))
    ];
    assert Keys(r) == CS.OPTION_KEYS;
    UpdateFresh([], r);
    assert [] + r == r;
    r
  }

  /** `config[key] = d`. A string key empties and refills the section; a
      key of another type is converted by `str` only inside `read_dict`, so
      an existing section of that name is not emptied first and `d` is
      merged into it. */
  function AssignKey(c: Config, key: PyVal, d: Items): (r: Config)
    ensures Valid(c) ==> Valid(r)
  {
    match key
    case PStr(n) => Assign(c, n, d)
    case _ =>
      var n := CS.Str(key);
      if n in Names(c) then SetAll(c, n, d) else Assign(c, n, d)
  }

  /** The key and the dictionary one window is assigned with. */
  function Assignments(wd: CS.WindowData): (r: seq<(PyVal, Items)>)
    ensures |r| == |wd|
    ensures forall i :: 0 <= i < |wd| ==> r[i] == (SectionKey(wd[i].0, wd[i].1), SectionValues(wd[i].1))
  {
    seq(|wd|, i requires 0 <= i < |wd| => (SectionKey(wd[i].0, wd[i].1), SectionValues(wd[i].1)))
  }

  /** The assignments applied in order to a fresh parser. */
  function AssignAll(asg: seq<(PyVal, Items)>): (r: Config)
    ensures Valid(r)
    decreases |asg|
  {
    if asg == [] then Empty
    else AssignKey(AssignAll(asg[..|asg| - 1]), asg[|asg| - 1].0, asg[|asg| - 1].1)
  }

  /** The parser the loop over `window_data.items()` builds. */
  function Assemble(wd: CS.WindowData): (r: Config)
    ensures Valid(r)
  {
    AssignAll(Assignments(wd))
  }

  /** One more assignment of the loop. */
  lemma AssignAllStep(asg: seq<(PyVal, Items)>, i: nat)
    requires i < |asg|
    ensures AssignAll(asg[..i + 1]) == AssignKey(AssignAll(asg[..i]), asg[i].0, asg[i].1)
  {
    assert asg[..i + 1][..i] == asg[..i];
  }

  /** `save_window_config(config_name, window_data)`; `os.path.isdir` is the
      parameter `dirExists`, and whether the file can be opened and written
      is the parameter `writable` (the `open` raises otherwise, and the
      exception is caught). */
  method SaveWindowConfig(dir: Dir, configName: string, windowData: CS.WindowData, dirExists: bool, writable: bool)
    returns (ok: bool, after: Dir)
    ensures configName == [] ==> !ok && after == dir
    ensures ok <==> configName != [] && dirExists && writable
    ensures after == if ok then WriteFile(dir, ConfigFileName(configName), Assemble(windowData)) else dir
  {
    if configName == [] {
      return false, dir;
    }
    ghost var asg := Assignments(windowData);
    var config := Empty;
    for i := 0 to |windowData|
      invariant config == AssignAll(asg[..i])
    {
      var (title, settings) := windowData[i];
      AssignAllStep(asg, i);
      config := AssignKey(config, SectionKey(title, settings), SectionValues(settings));
    }
    assert asg[..|windowData|] == asg;
    if !dirExists || !writable {
      return false, dir;
    }
    return true, WriteFile(dir, ConfigFileName(configName), config);
  }

  /** The name `str(key)` the section of assignment `i` is filed under. */
  function NameOf(asg: seq<(PyVal, Items)>, i: nat): string
    requires i < |asg|
  {
    CS.Str(asg[i].0)
  }

  /** Assignments under distinct names, none of them blank or `DEFAULT`,
      each make a section of their own, in order, holding their dictionary. */
  lemma {:induction false} AssignAllDistinct(asg: seq<(PyVal, Items)>)
    requires forall i :: 0 <= i < |asg| ==> !ToDefaults(NameOf(asg, i)) && Update([], asg[i].1) == asg[i].1
    requires forall i, j :: 0 <= i < j < |asg| ==> NameOf(asg, i) != NameOf(asg, j)
    ensures AssignAll(asg).defaults == []
    ensures |AssignAll(asg).sections| == |asg|
    ensures forall i :: 0 <= i < |asg| ==> AssignAll(asg).sections[i] == Section(NameOf(asg, i), asg[i].1)
  {
    if asg != [] {
      var n := |asg| - 1;
      var init := asg[..n];
      forall i | 0 <= i < n ensures NameOf(init, i) == NameOf(asg, i) { }
      AssignAllDistinct(init);
      var c := AssignAll(init);
      var name := NameOf(asg, n);
      assert name !in Names(c) by {
        forall j | 0 <= j < |c.sections| ensures Names(c)[j] != name {
          assert Names(c)[j] == NameOf(asg, j);
        }
      }
      AssignSection(c, name, asg[n].1);
    }
  }

  /** Windows whose section names are distinct, none of them blank or
      `DEFAULT`, each get a section of their own, in input order, holding
      their settings asg written: nothing is repaired. */
  lemma SectionPerWindow(wd: CS.WindowData)
    requires forall i :: 0 <= i < |wd| ==> !ToDefaults(SectionName(wd[i].0, wd[i].1))
    requires forall i, j :: 0 <= i < j < |wd| ==> SectionName(wd[i].0, wd[i].1) != SectionName(wd[j].0, wd[j].1)
    ensures Assemble(wd).defaults == []
    ensures |Assemble(wd).sections| == |wd|
    ensures forall i :: 0 <= i < |wd| ==>
      Assemble(wd).sections[i] == Section(SectionName(wd[i].0, wd[i].1), SectionValues(wd[i].1))
  {
    var asg := Assignments(wd);
    forall i | 0 <= i < |wd| ensures NameOf(asg, i) == SectionName(wd[i].0, wd[i].1) { }
    AssignAllDistinct(asg);
  }

  /** A window with a blank title and no `name` is assigned to the section
      `""`: the parser creates an empty section of that name and `set`
      sends the four options into the defaults. */
  lemma BlankTitleGoesToDefaults(s: CS.Settings)
    requires "name" !in s
    ensures Assemble([("", s)]) == Config(SectionValues(s), [Section("", [])])
  {
    assert CleanWindowTitle("", true) == "";
    var d := SectionValues(s);
    var asg := Assignments([("", s)]);
    assert asg == [(PStr(""), d)];
    assert asg[..0] == [];
    assert AssignAll(asg) == Assign(Empty, "", d);
    assert Names(Empty) == [];
    AssignBlank(Empty, d);
    var r := Assign(Empty, "", d);
    assert |r.sections| == 1;
    assert r.sections == [r.sections[0]];
  }

  /** Assigning the same string name twice leaves one section holding the
      second dictionary. */
  lemma AssignTwice(name: string, d1: Items, d2: Items)
    requires !ToDefaults(name) && Update([], d1) == d1 && Update([], d2) == d2
    ensures AssignAll([(PStr(name), d1), (PStr(name), d2)]) == Config([], [Section(name, d2)])
  {
    var asg := [(PStr(name), d1), (PStr(name), d2)];
    assert asg[..1] == [asg[0]];
    assert asg[..1][..0] == [];
    assert Names(Empty) == [];
    var c := Assign(Empty, name, d1);
    AssignSection(Empty, name, d1);
    assert AssignAll(asg[..1]) == c;
    assert Names(c) == [name];
    AssignSection(c, name, d2);
    var r := Assign(c, name, d2);
    assert |r.sections| == 1;
    assert r.sections == [r.sections[0]];
  }

  /** Two windows saved under the same string name share one section,
      holding the values of the later window. */
  lemma LaterWindowOverwrites(t1: string, s1: CS.Settings, t2: string, s2: CS.Settings)
    requires SectionKey(t1, s1).PStr? && SectionKey(t1, s1) == SectionKey(t2, s2)
    requires !ToDefaults(SectionName(t1, s1))
    ensures Assemble([(t1, s1), (t2, s2)]) == Config([], [Section(SectionName(t2, s2), SectionValues(s2))])
  {
    var asg := Assignments([(t1, s1), (t2, s2)]);
    var name := SectionKey(t1, s1).s;
    assert asg == [(PStr(name), SectionValues(s1)), (PStr(name), SectionValues(s2))];
    AssignTwice(name, SectionValues(s1), SectionValues(s2));
  }
}
